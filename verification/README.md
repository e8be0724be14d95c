# libMantids: verified core

A Dafny model of the parts of libMantids in which a fast or stateful form has to agree with a simple one, with proofs
about the model. `dafny verify dfyconfig.toml` checks all of it.

Four cores stack on each other, and a few compact ones stand beside them.

1. **Chunked byte container.** `Bytes` (what "first occurrence" means), `ChunkLayout` (the vector of chunks as values:
   append, displace, truncate, the recursive offset search, the indexed copy), `ChunkStore` (the container object, its
   comparison and search across chunk borders, its copy loops), `Streams` (what it copies to), `ContainerRuns` (any run
   of operations against one flat byte sequence), `Views` (windows over another container).
2. **Streaming parsers.** `RecordSplit` (the reference: a stream split at its leftmost delimiters), `StreamParser` (the
   parser that hands data to sub-parsers), `DelimiterParser` and `DelimiterStream` (the delimiter mode, one write and
   whole streams), `DirectDelimiter` (the early-release mode on flat bytes, right for every delimiter and every cut),
   `ChunkedDelimiter` and `StaleIndex` (the same mode on the chunked container, and for which delimiters it is right),
   `SubParsing` (the sub-parser object).
3. **Stream transport.** `Octets` (bytes as bit vectors, and masking one sequence with another), `Keystream` and
   `CipherSocket` (the keystream-buffered cipher layer), `SocketStream` (full reads and writes over short ones,
   big-endian integers, length-prefixed blocks), `DelimReader` (reading up to a delimiter in 64 KB blocks), `BridgeWire`
   and `BridgePipe` (forwarded blocks and pings from two threads on one wire).
4. **Acceptor.** `AcceptorProtocol` (what the mutex protects, as steps) and `MultiThreadedAcceptor` (the code).
5. **Compact parts.** `QueryKeys` (named to positional SQL parameters), `Base64`, `ChunkedWriter` (HTTP chunked coding),
   `Accounts` (the last superuser and the lockout).

Where the program changes things step by step the model does too (classes with the program's fields, methods with its
loops); each such method is tied to a function of the state before it, and the theorems are about those functions.
Partial reads and writes, thread interleavings and the contents of fresh memory are nondeterministic or parameters.

## Where the code and its documentation part

* `recalcChunkOffsets` is documented to recalculate every offset (Memory/mdz_mem_vars/b_chunks.h:127). The loop at
  Memory/mdz_mem_vars/b_chunks.cpp:567 never moves its chunk pointer, so only chunk 0 is rewritten, and with several
  chunks left it gets a positive offset. The model follows the code. The consequences are proved exactly. A displacement
  leaves the offset index right if and only if all that it keeps lies in the last chunk
  (`ContainerRuns.CopyAfterDisplaceIff`). A run of operations agrees with plain bytes if and only if each of its
  truncations finds a chunk that lies where the index says (`ContainerRuns.RunRefines`); four operations after which all
  bytes are gone are in `ContainerRuns.TruncationLosesAll`. The law of the direct-delimiter mode holds for every cut of
  every stream if and only if the delimiter has at most two bytes (`StaleIndex.LawExactlyForShortDelimiters`); a longer
  one can go by unnoticed (`StaleIndex.LongDelimiterBroken`), and one of four bytes or more always does in a stream that
  comes a byte at a time (`StaleIndex.NeverRecognised`), what fresh memory holds permitting. For longer delimiters the law
  holds whenever the held suffix stays in one chunk (`ChunkedDelimiter.TidyRunCorrect`), in particular for writes at least
  as long as the delimiter less one byte (`ChunkedDelimiter.WideWritesCorrect`). With an index that is right the mode is
  right for every delimiter and every cut (`DirectDelimiter.FlatRunLaw`).
* `findChar` takes its case flag the other way round (Memory/mdz_mem_vars/b_chunks.cpp:532). The model follows the code;
  an exact-case `find` is right nevertheless, because every candidate is compared again.
* A handshake block shorter than the 112-byte header leaves the header unmasked, the failure being ignored
  (Network/mdz_net_chains/socket_chain_aes.cpp:131). Both ends do it, so they still agree.
* The chunked writer announces the size of a write modulo 2^32 and announces an empty write as the end of the body
  (Protocols/mdz_proto_http/common_content_chunked_subparser.cpp:31). `ChunkedWriter.ChunkedRoundTrip` and
  `ChunkedWriter.SingleWriteExact` say exactly when the receiver gets the payload. The status it returns counts the
  header's bytes as well.
* Repeated `replaceFirstKey` does not end when a key is empty, or is the mark itself and the query has one
  (Database/mdz_db/query.cpp:118), and does in exactly the other cases: `QueryKeys.PassesEndIff`.
* Logins that overlap each count a bad password against the counter they read, past the limit
  (Auth/mdz_auth/manager.cpp:99): `Accounts.OverlapExceedsLimit`.

## Model

| member | source | states |
|---|---|---|
| ChunkLayout.SearchExact | Memory/mdz_mem_vars/b_chunks.cpp:574-611 | with a right index the recursive search finds a chunk if and only if the offset is in range, and it is the only chunk that contains it |
| ChunkLayout.Search | Memory/mdz_mem_vars/b_chunks.cpp:574-611 | the search terminates, its result lies between its bounds and contains the offset, whatever the index |
| ChunkLayout.Probe | Memory/mdz_mem_vars/b_chunks.cpp:601-609 | the next probe stays between the two bounds |
| ChunkLayout.CopyOutExact | Memory/mdz_mem_vars/b_chunks.cpp:363-415 | with a right index a copy is exactly the requested slice of the flat bytes |
| ChunkLayout.WholeCopyIffIndexed | Memory/mdz_mem_vars/b_chunks.cpp:363-415 | copying everything out gives the content if and only if the index is right |
| ChunkLayout.AppendExact | Memory/mdz_mem_vars/b_chunks.cpp:120-191 | an append adds exactly the reported prefix, keeps chunks non-empty and within limits, and neither repairs nor spoils the index |
| ChunkLayout.AppendShortfall | Memory/mdz_mem_vars/b_chunks.cpp:144-153 | an append succeeds if and only if the data fits the chunks still allowed; falling short it has filled every one of them |
| ChunkLayout.DisplaceExact | Memory/mdz_mem_vars/b_chunks.cpp:193-225 | displacing removes exactly the requested prefix; the index is right afterwards if and only if all that is kept lies in the last chunk |
| ChunkLayout.DisplaceLeavesOne | Memory/mdz_mem_vars/b_chunks.cpp:193-225 | a displacement leaves at most one chunk if and only if all that it keeps lies in the last one |
| ChunkLayout.RevisitedIsProduct | Memory/mdz_mem_vars/b_chunks.cpp:563-572 | after n passes over chunk 0 the recalculation's running offset is n times that chunk's size |
| ChunkLayout.TruncateExact | Memory/mdz_mem_vars/b_chunks.cpp:77-118 | with a right index truncation keeps exactly the requested prefix and the index |
| ChunkLayout.TruncateRightIff | Memory/mdz_mem_vars/b_chunks.cpp:77-118 | for every length and every state of the index: truncation keeps exactly the requested prefix if and only if the search finds a chunk that lies where its offset says |
| ChunkLayout.TruncationsRightIffIndexed | Memory/mdz_mem_vars/b_chunks.cpp:77-118 | every truncation is right if and only if the index is |
| ChunkLayout.TruncateKeepsIndex | Memory/mdz_mem_vars/b_chunks.cpp:77-118 | a truncation that is right keeps chunks sound and the index as right or as stale as it was |
| ChunkStore.BChunks.Append | Memory/mdz_mem_vars/b_base.cpp:46-66 | all bytes, or exactly the reported prefix, or nothing when the size limit or the 64-bit counter would be passed |
| ChunkStore.BChunks.Append2 | Memory/mdz_mem_vars/b_chunks.cpp:120-191 | the loop builds the specified chunks and the byte counter follows the content |
| ChunkStore.BChunks.Displace | Memory/mdz_mem_vars/b_base.cpp:88-92 | removes the requested prefix or everything; the index is right afterwards if and only if all that was kept lay in the last chunk |
| ChunkStore.BChunks.Displace2 | Memory/mdz_mem_vars/b_chunks.cpp:193-225 | the loop over whole and partial chunks leaves the specified vector and counter |
| ChunkStore.BChunks.RecalcChunkOffsets | Memory/mdz_mem_vars/b_chunks.cpp:563-572 | only chunk 0's offset changes, to the number of other chunks times its size |
| ChunkStore.BChunks.Truncate | Memory/mdz_mem_vars/b_chunks.cpp:77-118 | refused at or beyond the size; else exactly the requested prefix is left if and only if the search finds a chunk that lies where the index says, which with a right index it always does |
| ChunkStore.BChunks.Clear | Memory/mdz_mem_vars/b_base.cpp:120-124 | no chunks, no bytes, a right index |
| ChunkStore.BChunks.CopyOut | Memory/mdz_mem_vars/b_base.cpp:336-357 | the checks on size, end marker and overflow, then the indexed copy |
| ChunkStore.BChunks.CopyOut2 | Memory/mdz_mem_vars/b_chunks.cpp:363-415 | the chunk-by-chunk copy is the specified slice of what the index points at |
| ChunkStore.BChunks.Compare2 | Memory/mdz_mem_vars/b_chunks.cpp:417-480 | true if and only if the buffer occurs at the offset, across any number of chunk borders and whatever the index |
| ChunkStore.BChunks.FindChar | Memory/mdz_mem_vars/b_chunks.cpp:486-561 | the first candidate byte of the search space, or none in it |
| ChunkStore.CandidateIn | Memory/mdz_mem_vars/b_chunks.cpp:530-543 | one or two memchr calls give the first position at which either case of the byte occurs |
| ChunkStore.BChunks.FindNeedle | Memory/mdz_mem_vars/b_base.cpp:478-532 | the first occurrence in the window if there is one, else not found, for every chunk layout |
| ChunkStore.BChunks.ToString | Memory/mdz_mem_vars/b_base.cpp:399-442 | with a right index the 8192-byte loop returns exactly the requested slice; out of range it returns nothing |
| ChunkStore.BChunks.AppendTo | Memory/mdz_mem_vars/b_base.cpp:296-334 | the clipped slice is written to the stream, whatever the index: all of it, or the reported prefix when the stream fails or has had enough |
| ChunkStore.BChunks.CopyTo2 | Memory/mdz_mem_vars/b_chunks.cpp:305-361 | the slice, or the reported prefix of it, is written; short only when the stream failed or ended |
| ChunkStore.BChunks.CopyChunks | Memory/mdz_mem_vars/b_chunks.cpp:320-358 | the pieces taken from the chunks concatenate to the slice, whatever the index |
| ChunkStore.BChunks.CopyToSOUsingCleanVector | Memory/mdz_mem_vars/b_base.cpp:745-759 | the hand-over stops at the first write that fails, falls short or is the last, and the count is what was written |
| ContainerRuns.StepRefines | Memory/mdz_mem_vars/b_chunks.cpp:77-225 | an operation does to the chunks what it does to flat bytes if and only if it is no truncation that finds no chunk in place; then chunks and limits stay sound, and whether the index is right next is decided by the state before |
| ContainerRuns.StepReports | Memory/mdz_mem_vars/b_chunks.cpp:77-225 | exactly when each operation succeeds and how many bytes it reports, told from the state before |
| ContainerRuns.Apply | Memory/mdz_mem_vars/b_base.cpp:46-124 | the container object's operations are the steps of the runs |
| ContainerRuns.RunRefines | Memory/mdz_mem_vars/b_chunks.cpp:77-225 | any run of append, displace, truncate and clear is the same run on plain bytes, after every operation, if and only if each of its truncations finds a chunk that lies where the index says |
| ContainerRuns.IndexKept | Memory/mdz_mem_vars/b_chunks.cpp:193-225 | a run never loses its index if and only if each displacement keeps no more than the last chunk; then every truncation in it can be trusted |
| ContainerRuns.CopyAfterDisplaceIff | Memory/mdz_mem_vars/b_chunks.cpp:222-223 | after a displacement the whole content can be copied out, and every truncation is right, if and only if the bytes kept all lay in the last chunk |
| ContainerRuns.TruncationLosesAll | Memory/mdz_mem_vars/b_chunks.cpp:77-118 | append two bytes, append two bytes, displace one, truncate to one: every byte is dropped while the counter says one |
| Views.CopyOutIsSlice | Memory/mdz_mem_vars/b_ref.cpp:122-133 | through any nesting of windows a copy is the slice asked for, or refused when that is not there |
| Views.CopyAllIsRest | Memory/mdz_mem_vars/b_base.cpp:340-344 | asking for everything from an offset gives the rest of the window |
| Views.CompareIsOccurrence | Memory/mdz_mem_vars/b_ref.cpp:135-146 | comparing through windows is occurrence in the window's content |
| Views.CutIsSlice | Memory/mdz_mem_vars/b_ref.cpp:51-76 | displacing leaves the suffix and truncating the prefix of what the window showed, also with a limit beyond the end or none |
| Views.CutsAreOneSlice | Memory/mdz_mem_vars/b_ref.cpp:34-76 | any run of cuts on a window, or on a window on a window, leaves one computed slice |
| Views.BRef.Reference | Memory/mdz_mem_vars/b_ref.cpp:21-32 | accepted if and only if the start is not past the end, and then shows the slice from there up to the limit; refused, nothing changes |
| Views.BRef.DisplaceBy | Memory/mdz_mem_vars/b_ref.cpp:67-76 | drops the clipped amount off the front of what the window shows |
| Views.BRef.TruncateTo | Memory/mdz_mem_vars/b_base.cpp:94-102 | refused at or beyond the size; what the window shows is cut to the new size |
| Views.BRef.CopyOutAt | Memory/mdz_mem_vars/b_base.cpp:336-357 | reading through the window gives the slice asked for of what it shows, or the rest, or is refused; a window on nothing shows nothing |
| Views.BRef.CopyOutAt2 | Memory/mdz_mem_vars/b_ref.cpp:122-133 | the request is cut to what the window shows; refused past its end or when it looks at nothing |
| RecordSplit.SplitMore | Memory/mdz_mem_vars/subparser.cpp:195-210 | more of the stream leaves complete records as they are and splits on from the rest |
| RecordSplit.RestHasNone | Memory/mdz_mem_vars/subparser.cpp:195-210 | what is left over holds no delimiter |
| RecordSplit.SplitJoins | Memory/mdz_mem_vars/subparser.cpp:195-210 | putting the delimiters back restores the stream |
| StreamParser.FeedConserves | Memory/mdz_mem_vars/parser.cpp:87-168 | any write ends within its budget of calls; on success every reported byte went to one sub-parser, in order, and all were taken unless parsing finished |
| StreamParser.FeedDispatches | Memory/mdz_mem_vars/parser.cpp:87-168 | each call of a write goes to the sub-parser designated by the answer before it, with exactly what that one left; the write fails when an answer designates nobody or the budget is used up; whoever was designated last is current afterwards |
| StreamParser.NoParserFails | Memory/mdz_mem_vars/parser.cpp:154-167 | with no sub-parser a write spins through its budget and fails |
| StreamParser.Parser.ParseData | Memory/mdz_mem_vars/parser.cpp:87-168 | the recursive hand-over with its mutable counters computes the specified outcome and next sub-parser, whenever no sub-parser met on the way claims more than it was given |
| StreamParser.Parser.Write | Memory/mdz_mem_vars/parser.cpp:49-78 | every write gets a fresh budget, is dispatched by what the sub-parsers and the protocol answer, and leaves the sub-parser designated last as the current one |
| StreamParser.Parser.WriteFullStream | Memory/mdz_mem_vars/streamableobject.cpp:30-39 | one write is enough: one that succeeds takes all of the buffer unless parsing has finished |
| DelimiterParser.WriteLaw | Memory/mdz_mem_vars/subparser.cpp:161-227 | an accepted write takes at least a byte and none past the delimiter it completes, the stream so far stays split, and the answer is the callback's to the record completed, if one is |
| DelimiterParser.ConsumedThrough | Memory/mdz_mem_vars/subparser.cpp:206-207 | the wrapping expression for the bytes taken lands on the end of the delimiter |
| DelimiterParser.EndsInside | Memory/mdz_mem_vars/subparser.cpp:195-207 | a delimiter completed by a write ends inside that write |
| DelimiterStream.FeedLaw | Memory/mdz_mem_vars/parser.cpp:87-168 | a write that succeeds through the parser leaves the stream split at its leftmost delimiters |
| DelimiterStream.OpenIsHonest | Memory/mdz_mem_vars/subparser.cpp:161-227 | in every state a stream brings it to, the delimiter sub-parser claims no more than it was given, all the way through a write |
| DelimiterStream.StreamLaw | Memory/mdz_mem_vars/subparser.cpp:161-227 | however a stream is cut into non-empty writes, if they succeed the records are exactly its split and the rest waits in the buffer |
| DelimiterStream.EndLaw | Memory/mdz_mem_vars/subparser.cpp:161-227 | the end of the stream makes a last record of what waits in the buffer, whatever the callback says to it |
| DelimiterStream.StreamTo | Network/mdz_net_sockets/socket_streambase.cpp:32-62 | on the parser object: when every write of a stream read piece by piece succeeds, the records are all its pieces between delimiters, the last included |
| DelimiterStream.FeedSucceedsIff | Memory/mdz_mem_vars/parser.cpp:87-168 | with room in the buffer a write succeeds if and only if the callback asks for more after each record it completes and these and the remainder can be handed over within the budget |
| DirectDelimiter.LastInCommon | Memory/mdz_mem_vars/subparser.cpp:412-428 | counting down finds the longest suffix, up to the bound, that is a proper prefix of the delimiter |
| DirectDelimiter.FlatStepLaw | Memory/mdz_mem_vars/subparser.cpp:340-410 | one write goes on holding back the longest possible start of a delimiter, or ends exactly at the first delimiter |
| DirectDelimiter.FlatRunLaw | Memory/mdz_mem_vars/subparser.cpp:340-428 | for every delimiter and every cut: all but the longest possible start is released, and the end is exactly the first delimiter |
| DirectDelimiter.FlatRunFinds | Memory/mdz_mem_vars/subparser.cpp:340-428 | the run ends if and only if the stream has a delimiter, having released the bytes before the first |
| ChunkedDelimiter.StepRefinesFlat | Memory/mdz_mem_vars/subparser.cpp:340-428 | on a buffer of at most one chunk a write does what the flat algorithm does |
| ChunkedDelimiter.LastBytesExact | Memory/mdz_mem_vars/subparser.cpp:412-428 | with a right index the copied-out comparisons find the longest held suffix, whatever fresh memory holds |
| ChunkedDelimiter.StepFailsIff | Memory/mdz_mem_vars/subparser.cpp:345-361 | a write is refused if and only if it is empty, the container is full, or it does not fit the chunks still allowed |
| ChunkedDelimiter.TidyRunCorrect | Memory/mdz_mem_vars/subparser.cpp:340-428 | a run whose held suffixes stay in one chunk is right, for every cut, and never reports more bytes than it was given |
| ChunkedDelimiter.TidyRunUnbroken | Memory/mdz_mem_vars/subparser.cpp:340-428 | nor is such a run ever refused a write, when the writes are not empty and fit all chunks but one |
| ChunkedDelimiter.WideWritesCorrect | Memory/mdz_mem_vars/subparser.cpp:340-428 | every cut into writes of at least the delimiter less one byte, and at most a chunk, is right, and goes on to the end when the container may hold two chunks |
| ChunkedDelimiter.ShortDelimiterCorrect | Memory/mdz_mem_vars/subparser.cpp:340-428 | a delimiter of one or two bytes is honoured under every cut, and the run goes on to the end unless a write is empty or longer than all chunks but one |
| StaleIndex.LongDelimiterBroken | Memory/mdz_mem_vars/subparser.cpp:383-384 | for every delimiter of three bytes or more there are one-byte writes after which the run is still reading although the whole delimiter has gone by |
| StaleIndex.NeverRecognised | Memory/mdz_mem_vars/subparser.cpp:340-428 | a delimiter of four bytes or more is never recognised in any stream that comes a byte at a time, while fresh memory does not look like one |
| StaleIndex.LawExactlyForShortDelimiters | Memory/mdz_mem_vars/subparser.cpp:340-428 | that no delimiter goes by, and also that no byte a delimiter may need is given away, holds under every cut of every stream if and only if the delimiter has at most two bytes |
| SubParsing.SubParser.ParseDirectDelimiter | Memory/mdz_mem_vars/subparser.cpp:340-410 | one write does to the buffer, and shows the callback, what the chunked step says |
| SubParsing.SubParser.GetLastBytesInCommon | Memory/mdz_mem_vars/subparser.cpp:412-428 | the counting-down loop over copied-out suffixes returns the specified length |
| SubParsing.SubParser.CompareLastBytes | Memory/mdz_mem_vars/subparser.cpp:417-420 | one candidate: copied into a fresh block, compared with the start of the delimiter |
| SubParsing.SubParser.ParseByDelimiter | Memory/mdz_mem_vars/subparser.cpp:161-227 | one write does to the sub-parser what the delimiter step says |
| SubParsing.SubParser.Accept | Memory/mdz_mem_vars/subparser.cpp:347-349 | a write is cut to the room left, unless there is none |
| SubParsing.SubParser.FindDelimiter | Memory/mdz_mem_vars/subparser.cpp:362 | the container's search is the reference search |
| Keystream.FillStays | Network/mdz_net_chains/socket_chain_aes.cpp:61-66 | enlarging the buffer keeps it the unused part of the one keystream |
| Keystream.StreamBlock | Network/mdz_net_chains/socket_chain_aes.cpp:198-248 | the k-th block of the keystream, however far it is generated, is the cipher applied to the key and the k-th vector |
| Keystream.StreamAt | Network/mdz_net_chains/socket_chain_aes.cpp:198-248 | every byte of the keystream is the byte the cipher gives for its position |
| Keystream.PendingAt | Network/mdz_net_chains/socket_chain_aes.cpp:78-86 | the buffered bytes are the cipher's bytes from the position on |
| Keystream.ReduceAdvances | Network/mdz_net_chains/socket_chain_aes.h:108-122 | reducing moves the position in the keystream by the bytes dropped |
| Keystream.WriteInStep | Network/mdz_net_chains/socket_chain_aes.cpp:72-107 | a write attempt of any outcome keeps both ends on the one keystream and the wire masked with it |
| Keystream.ReadInStep | Network/mdz_net_chains/socket_chain_aes.cpp:51-70 | a read of any size delivers the next accepted bytes and keeps both ends in step |
| Keystream.WireAt | Network/mdz_net_chains/socket_chain_aes.cpp:72-107 | every byte under way is the next plaintext byte masked with the cipher's byte for its position |
| Keystream.RunInStep | Network/mdz_net_chains/socket_chain_aes.cpp:51-107 | every interleaving of short writes, failed writes, retries and reads keeps the ends in step |
| Keystream.RunMoves | Network/mdz_net_chains/socket_chain_aes.cpp:51-107 | over any run the sender is told of exactly what the transport took, in order, and the receiver has exactly as many bytes as the transport gave |
| Keystream.FreshLinkDelivers | Network/mdz_net_chains/socket_chain_aes.cpp:51-107 | what is delivered is exactly the first bytes sent, as many as the transport gave, and the others are under way, each masked with the cipher's byte for its position |
| CipherSocket.HandshakeAgrees | Network/mdz_net_chains/socket_chain_aes.cpp:109-178 | with equal key and block size the receiver gets the sender's header and stands at the first byte after it, for every block size |
| CipherSocket.HandshakeAt | Network/mdz_net_chains/socket_chain_aes.cpp:109-135 | the handshake on the wire byte by byte: the vector in clear, then the header in its layout, masked with the cipher unless a block is shorter than it |
| CipherSocket.ReceivedIff | Network/mdz_net_chains/socket_chain_aes.cpp:147-178 | a handshake is taken if and only if it is all there and unmasks to the magic bytes; just its bytes are taken |
| CipherSocket.HandshakeThenRun | Network/mdz_net_chains/socket_chain_aes.cpp:51-178 | handshake and traffic together: after any run the receiver has the first bytes sent and the rest is under way, masked with the cipher keyed by what the handshake carried |
| CipherSocket.SideParams.AppendAESBlock | Network/mdz_net_chains/socket_chain_aes.h:99-107 | the buffer grows by the block |
| CipherSocket.SideParams.CleanAESBlock | Network/mdz_net_chains/socket_chain_aes.h:89-98 | the buffer is replaced, with its size |
| CipherSocket.SideParams.Reduce | Network/mdz_net_chains/socket_chain_aes.h:108-122 | the buffer loses its first bytes, or all of them |
| CipherSocket.SideParams.CryptoXOR | Network/mdz_net_chains/socket_chain_aes.h:123-132 | masks in place with the buffer's first bytes, refused and unchanged when the buffer is too short, reducing unless told not to |
| CipherSocket.SocketChainAES.RegenIV | Network/mdz_net_chains/socket_chain_aes.cpp:332-341 | the next vector of the generator |
| CipherSocket.SocketChainAES.Enlarge | Network/mdz_net_chains/socket_chain_aes.cpp:80-90 | blocks are generated until the buffer covers the request, and no further |
| CipherSocket.SocketChainAES.PartialRead | Network/mdz_net_chains/socket_chain_aes.cpp:51-70 | the bytes that arrived, each unmasked with the cipher's byte for its position; the read side moves on by exactly those |
| CipherSocket.SocketChainAES.MaskForWrite | Network/mdz_net_chains/socket_chain_aes.cpp:77-92 | a copy of the data masked with the buffer, which is made to cover it and not reduced yet |
| CipherSocket.SocketChainAES.PartialWrite | Network/mdz_net_chains/socket_chain_aes.cpp:72-107 | each byte the transport took is on the wire masked with the cipher's byte for its position; the write side moves on by exactly those |
| CipherSocket.Send | Network/mdz_net_chains/socket_chain_aes.cpp:72-107 | a write on the object is the link's write, whatever the transport answers |
| CipherSocket.Receive | Network/mdz_net_chains/socket_chain_aes.cpp:51-70 | a read on the object is the link's read and hands out what the link delivers |
| SocketStream.BigEndianBack | Network/mdz_net_sockets/socket_streambasewriter.cpp:38-61 | big-endian bytes read back give the integer, for every width |
| SocketStream.BigEndianOf | Network/mdz_net_sockets/socket_streambasereader.cpp:44-85 | any bytes are the big-endian form of the integer read from them |
| SocketStream.UnframeFrame | Network/mdz_net_sockets/socket_streambasereader.h:96-157 | a frame is taken off the front of any stream, leaving the rest |
| SocketStream.MessagesRoundTrip | Network/mdz_net_sockets/socket_streambasewriter.h:51-93 | every sequence of messages is read back message by message, unchanged, and what follows it is left |
| SocketStream.SendAll | Network/mdz_net_sockets/socket_streambasewriter.h:51-81 | blocks written one after the other put all their frames on the wire, or end inside one of them on a socket shut down |
| SocketStream.ReceiveAll | Network/mdz_net_sockets/socket_streambasereader.h:96-157 | blocks read one after the other are the blocks that were sent, and what was sent later is still there; a read fails only with the transport or on a block over the limit |
| SocketStream.StreamSocket.WriteFull | Network/mdz_net_sockets/socket_streambase.cpp:141-179 | all bytes in order, or a proper prefix on a socket shut down after a transport failure |
| SocketStream.StreamSocket.ReadFull | Network/mdz_net_sockets/socket_streambase.cpp:196-255 | exactly the bytes asked for, or failure after a transport failure with fewer consumed |
| SocketStream.StreamSocket.WriteU | Network/mdz_net_sockets/socket_streambasewriter.h:17-43 | the integer's big-endian bytes, or a proper prefix on a socket shut down |
| SocketStream.StreamSocket.ReadU | Network/mdz_net_sockets/socket_streambasereader.h:21-53 | the integer whose big-endian bytes were taken, or failure on a socket shut down |
| SocketStream.StreamSocket.WriteBlockEx | Network/mdz_net_sockets/socket_streambasewriter.h:51-81 | exactly one frame, or a proper prefix of it on a socket shut down |
| SocketStream.StreamSocket.WriteStringEx | Network/mdz_net_sockets/socket_streambasewriter.h:83-93 | one frame; a string of the largest length the width can state, or longer, is refused before a byte is written |
| SocketStream.StreamSocket.ReadBlockWAllocEx | Network/mdz_net_sockets/socket_streambasereader.h:96-157 | exactly one frame is consumed and its payload returned; failure is a failed transport or a length over the limit |
| DelimReader.Read64KBlockDelim | Network/mdz_net_sockets/socket_streambasereader.cpp:88-105 | one block read byte by byte stops at the first end of a delimiter, which may reach back into earlier blocks |
| DelimReader.ReadBlock32WAllocAndDelim | Network/mdz_net_sockets/socket_streambasereader.cpp:107-150 | the shortest prefix ending in the delimiter and not a byte more; nothing only after a failure or when none fits the blocks allowed |
| DelimReader.FirstEndIsFirstOccurrence | Network/mdz_net_sockets/socket_streambasereader.cpp:97-102 | that prefix runs through the end of the delimiter's first occurrence, and only that one does |
| BridgeWire.FramesDeliver | Network/mdz_net_sockets/streams_bridge_thread.cpp:114-140 | whole frames deliver the concatenation of their payloads, pings nothing |
| BridgeWire.DeliveredGrows | Network/mdz_net_sockets/streams_bridge_thread.cpp:114-140 | acting on a prefix of the wire is the start of acting on all of it |
| BridgeWire.PartOfFrame | Network/mdz_net_sockets/streams_bridge_thread.cpp:117-133 | a cut-off frame delivers nothing |
| BridgeWire.StepInv | Network/mdz_net_sockets/streams_bridge_thread.cpp:33-113 | every partial write, failure, lock and release of either thread keeps the wire whole frames plus at most one partial frame |
| BridgeWire.RunInv | Network/mdz_net_sockets/streams_bridge_thread.cpp:33-113 | so does every run, for any interleaving of forwarding and pings |
| BridgeWire.TurnPutsFrame | Network/mdz_net_sockets/streams_bridge_thread.cpp:33-38 | whenever the mutex is free on an open socket a thread with something to send can put exactly its frame on the wire and give the mutex back |
| BridgeWire.ForwardsBlock | Network/mdz_net_sockets/streams_bridge_thread.cpp:91-113 | a forwarding thread at rest can read a block and put it on the wire as a frame |
| BridgeWire.SendsPing | Network/mdz_net_sockets/streams_bridge_thread.cpp:33-38 | a pinging thread at rest can put an empty frame there |
| BridgeWire.NothingAfterShutdown | Network/mdz_net_sockets/socket_streambase.cpp:141-179 | after a failed write or a shutdown nothing more goes on the wire |
| BridgeWire.RunDelivers | Network/mdz_net_sockets/streams_bridge_thread.cpp:33-140 | the far side's output is a prefix of the near side's input whatever part of the wire it has; what is missing is what is held or unread; input and wire are as long as the run's reads and partial writes make them; no block exceeds the block size |
| BridgeWire.UnblockIsUnframe | Network/mdz_net_sockets/streams_bridge_thread.cpp:117-133 | the bridge's frames are 16-bit length-prefixed blocks |
| BridgeWire.BlockFrameIsFrame | Network/mdz_net_sockets/streams_bridge_thread.cpp:91-113 | a block goes out as the frame of a 16-bit length-prefixed write |
| BridgePipe.BridgeThread.SendPing | Network/mdz_net_sockets/streams_bridge_thread.cpp:33-38 | one empty frame, or a proper prefix of it on a socket shut down |
| BridgePipe.BridgeThread.Relay | Network/mdz_net_sockets/streams_bridge_thread.cpp:69-87 | unframed: what was read is written on; -1 after a failed read, -2 after a failed write |
| BridgePipe.BridgeThread.Encapsulate | Network/mdz_net_sockets/streams_bridge_thread.cpp:91-113 | what was read goes out as one frame, at most a block; the return codes say where it stopped |
| BridgePipe.BridgeThread.Decapsulate | Network/mdz_net_sockets/streams_bridge_thread.cpp:114-140 | the payload of one frame is written on; a ping gives -3, or -2 once terminated, and writes nothing |
| BridgePipe.BridgeThread.ProcessForward | Network/mdz_net_sockets/streams_bridge.cpp:170-209 | the forwarding loop puts its input on the wire as frames in order; it ends when reading fails, or a write does, whose block alone can be missing |
| BridgePipe.BridgeThread.ProcessBackward | Network/mdz_net_sockets/streams_bridge.cpp:170-209 | the payloads of the frames that came in are written out in order, pings skipped; the loop ends only when reading fails, a write does, whose payload alone can be missing, or a ping finds the bridge terminated |
| AcceptorProtocol.StepInv | Network/mdz_net_sockets/acceptor_multithreaded.cpp:52-110 | every step keeps the counters exact, the limits, and each client accounted for once |
| AcceptorProtocol.RunInv | Network/mdz_net_sockets/acceptor_multithreaded.cpp:52-228 | every run of arrivals, time-outs, decisions, departures, limit changes and shutdown does |
| AcceptorProtocol.FixedLimitsHold | Network/mdz_net_sockets/acceptor_multithreaded.cpp:52-90 | with limits left alone neither the total nor an address's limit is ever exceeded |
| AcceptorProtocol.AdmittedIff | Network/mdz_net_sockets/acceptor_multithreaded.cpp:69-90 | a client gets its thread if and only if the acceptor is alive and its address is below the limit; refused, counters are as before |
| AcceptorProtocol.IncrementCounts | Network/mdz_net_sockets/acceptor_multithreaded.cpp:92-102 | an increment counts one more and never meets the 32-bit saturation |
| AcceptorProtocol.DecrementCounts | Network/mdz_net_sockets/acceptor_multithreaded.cpp:104-110 | a leaving thread has a counter to give back, so nothing is thrown, and counters stay exact |
| AcceptorProtocol.DecrementUndoes | Network/mdz_net_sockets/acceptor_multithreaded.cpp:76-82 | taking back an increment restores the counters |
| AcceptorProtocol.LeaveGivesBack | Network/mdz_net_sockets/acceptor_multithreaded.cpp:214-228 | a thread that ends is out of the list and deleted, the others stay, and its address alone gets exactly one place back |
| AcceptorProtocol.RunSettles | Network/mdz_net_sockets/acceptor_multithreaded.cpp:52-228 | by the end of any run a client that arrived is known, one that was decided waits no longer, one that timed out or whose thread ended is deleted and neither waits nor is listed, and a shutdown has taken hold |
| AcceptorProtocol.ShutdownDrains | Network/mdz_net_sockets/acceptor_multithreaded.cpp:155-187 | once finalized no thread is ever added, so the list the destructor waits on only shrinks |
| MultiThreadedAcceptor.MultiThreaded.ProcessClient | Network/mdz_net_sockets/acceptor_multithreaded.cpp:52-90 | waits, times out and deletes the client, or admits it rightly, in a state the other threads may have changed; false only when being destroyed |
| MultiThreadedAcceptor.MultiThreaded.Admit | Network/mdz_net_sockets/acceptor_multithreaded.cpp:69-89 | a client gets its thread if and only if the acceptor is alive and its address is below the limit; refused, it is deleted and list and counters are as before |
| MultiThreadedAcceptor.MultiThreaded.FinalizeThreadElement | Network/mdz_net_sockets/acceptor_multithreaded.cpp:214-228 | takes a listed thread out, deletes it and gives its address exactly one place back, once; an unlisted one changes nothing |
| MultiThreadedAcceptor.MultiThreaded.IncrementIPUsage | Network/mdz_net_sockets/acceptor_multithreaded.cpp:92-102 | the counter map after an increment, and the count returned |
| MultiThreadedAcceptor.MultiThreaded.DecrementIPUsage | Network/mdz_net_sockets/acceptor_multithreaded.cpp:104-110 | the counter map after a decrement, or a throw when the address is not there |
| MultiThreadedAcceptor.MultiThreaded.MarkFinalized | Network/mdz_net_sockets/acceptor_multithreaded.cpp:159-163 | the destructor's first step is the protocol's |
| MultiThreadedAcceptor.MultiThreaded.SetMaxConcurrentClients | Network/mdz_net_sockets/acceptor_multithreaded.cpp:132-138 | a limit change is the protocol's step and keeps the invariant |
| MultiThreadedAcceptor.MultiThreaded.SetMaxConnectionsPerIP | Network/mdz_net_sockets/acceptor_multithreaded.cpp:36-40 | a limit change is the protocol's step and keeps the invariant |
| QueryKeys.TokeniseRestores | Database/mdz_db/query.cpp:118-153 | putting the keys back into the marks restores a query that had no mark of its own |
| QueryKeys.MarksMatchParameters | Database/mdz_db/query.cpp:118-153 | marks in the result are those of the query plus one for each parameter |
| QueryKeys.DropUnfound | Database/mdz_db/query.cpp:137-143 | dropping keys that do not occur never changes the result |
| QueryKeys.TokeniseAtFirst | Database/mdz_db/query.cpp:145-151 | the leftmost longest match splits the scan: copied before it, scanned on after it |
| QueryKeys.ScanStep | Database/mdz_db/query.cpp:118-153 | one pass keeps the whole scan's result in reach, with the keys it leaves |
| QueryKeys.EndlessStays | Database/mdz_db/query.cpp:118-153 | a pass neither starts nor stops the condition under which passes never end |
| QueryKeys.EndlessFinds | Database/mdz_db/query.cpp:118-153 | under that condition every pass finds a key |
| QueryKeys.PassShrinks | Database/mdz_db/query.cpp:118-153 | otherwise every pass makes the query smaller |
| QueryKeys.PassesEndIff | Database/mdz_db/query.cpp:118-153 | repeating passes ends if and only if no key is empty and none is the mark itself in a query that has one |
| QueryKeys.SortedPutsPrefixesFirst | extras/mdz_db_mariadb/query_mariadb.cpp:290-292 | in map order no key comes after one it is a proper prefix of |
| QueryKeys.Query.ReplaceFirstKey | Database/mdz_db/query.cpp:118-153 | replaces the leftmost, there longest, key by a mark and records it, keeps the keys that occur; false and unchanged when none does |
| QueryKeys.Query.PostBindInputVars | extras/mdz_db_mariadb/query_mariadb.cpp:288-296 | the caller's loop ends and leaves the leftmost-longest tokenisation and its keys |
| QueryKeys.StringFind | Database/mdz_db/query.cpp:128 | the first position of the key or none |
| Base64.GroupBits | Helpers/mdz_hlp_functions/encoders.cpp:222-225 | four values are the 24 bits of three bytes, six by six |
| Base64.LettersInOrder | Helpers/mdz_hlp_functions/encoders.cpp:9 | the letters are A to Z, a to z, 0 to 9, plus and slash, in this order |
| Base64.GroupBack | Helpers/mdz_hlp_functions/encoders.cpp:173-175 | the decoder's shifts undo the encoder's |
| Base64.DecodedEncoded | Helpers/mdz_hlp_functions/encoders.cpp:153-260 | decoding an encoding gives the bytes back, for every byte string |
| Base64.EncodedLength | Helpers/mdz_hlp_functions/encoders.cpp:211-260 | four letters for every three bytes begun |
| Base64.DecodedFits | Helpers/mdz_hlp_functions/encoders.cpp:97-101 | never more bytes than characters, so the fixed container never drops one |
| Base64.ObfuscationBack | Helpers/mdz_hlp_functions/encoders.cpp:15-90 | the obfuscated pair inverts for every generator output |
| Base64.ToBase64 | Helpers/mdz_hlp_functions/encoders.cpp:211-260 | the byte-by-byte encoder with its two buffers gives the encoding by groups |
| Base64.FromBase64 | Helpers/mdz_hlp_functions/encoders.cpp:153-204 | the letter-by-letter decoder, stopping at the first other character, gives the decoding by groups |
| Base64.FromBase64ToBin | Helpers/mdz_hlp_functions/encoders.cpp:97-151 | the container decoder agrees with the string decoder on every text |
| Base64.ToBase64Obf | Helpers/mdz_hlp_functions/encoders.cpp:74-90 | the encoding of the bytes masked with the generator |
| Base64.FromBase64Obf | Helpers/mdz_hlp_functions/encoders.cpp:15-72 | the decoded bytes unmasked with the generator, one draw a byte |
| Base64.BinContainer.Append | Helpers/mdz_hlp_functions/mem.cpp:72-79 | one more byte, dropped when full |
| ChunkedWriter.ChunkedRoundTrip | Protocols/mdz_proto_http/common_content_chunked_subparser.cpp:25-45 | for writes below 4 GiB the receiver gets exactly the payload if and only if no write was empty |
| ChunkedWriter.SingleWriteExact | Protocols/mdz_proto_http/common_content_chunked_subparser.cpp:31 | one write of any size is received whole if and only if it is not empty and below 4 GiB |
| ChunkedWriter.EmittedIsText | Protocols/mdz_proto_http/common_content_chunked_subparser.cpp:31-44 | the line end written before a chunk is the one that closes the chunk before it |
| ChunkedWriter.HexBack | Protocols/mdz_proto_http/common_content_chunked_subparser.cpp:31 | the hexadecimal size reads back |
| ChunkedWriter.DigitIsInOrder | Protocols/mdz_proto_http/common_content_chunked_subparser.cpp:31 | the digits of a size are 0 to 9 and A to F |
| ChunkedWriter.Writer.Write | Protocols/mdz_proto_http/common_content_chunked_subparser.cpp:25-39 | one chunk is appended to the sink, or a prefix of it when the sink fails |
| ChunkedWriter.Writer.EndBuffer | Protocols/mdz_proto_http/common_content_chunked_subparser.cpp:41-45 | the last chunk, with the line end due before it |
| Streams.Sink.WriteFullStream | Memory/mdz_mem_vars/streamableobject.cpp:30-39 | the loop writes all of the data, or a prefix when a write of the sink fails or is the last, and says which |
| Accounts.SuperuserStays | Auth/mdz_auth_db/manager_db_accounts.cpp:79-122 | no call into the tables takes away the last enabled superuser |
| Accounts.RunKeepsSuperuser | Auth/mdz_auth_db/manager_db_accounts.cpp:278-294 | nor does any run of them, in any interleaving of administration and logins |
| Accounts.OnlyTheNamed | Auth/mdz_auth_db/manager_db_accounts.cpp:18-294 | a call into the tables changes nothing of any other account |
| Accounts.NewAccountLogsIn | Auth/mdz_auth_db/manager_db_accounts.cpp:18-62 | a new account that is confirmed and enabled can log in with its password |
| Accounts.RemovedCannotLogIn | Auth/mdz_auth_db/manager_db_accounts.cpp:79-91 | one that was removed cannot, and none of its passwords and logins is left |
| Accounts.AttemptsStayBounded | Auth/mdz_auth/manager.cpp:99-118 | with logins that do not overlap a bad-attempt counter stays below the limit |
| Accounts.LockoutExactly | Auth/mdz_auth/manager.cpp:99-112 | consecutive bad passwords disable the account exactly at the limit, unless it is the last enabled superuser; until then each is counted |
| Accounts.PassedIff | Auth/mdz_auth/manager.cpp:54-84 | a login gets in if and only if its password is good, expired or not, and its account is known to the application, confirmed, enabled and neither expired nor abandoned |
| Accounts.RefusedLeavesNoTrace | Auth/mdz_auth/manager.cpp:70-80 | a login refused for the state of its account changes no table |
| Accounts.StaysLockedOut | Auth/mdz_auth/manager.cpp:73-74 | a disabled account stays so over any run in which nobody readmits it, and nobody gets in with any password |
| Accounts.LockoutHolds | Auth/mdz_auth/manager.cpp:73-112 | once bad passwords have reached the limit, the account lets nobody in until it is readmitted, unless it is the last enabled superuser |
| Accounts.GoodPasswordResets | Auth/mdz_auth/manager.cpp:113-118 | a good password, expired or not, resets the counter, is put on record and changes no account |
| Accounts.OverlapExceedsLimit | Auth/mdz_auth/manager.cpp:49-112 | overlapping bad logins each count, past the limit, and disable nothing |
| Accounts.InitAccountsSuffices | Auth/mdz_auth/manager.cpp:19-40 | the first account is an enabled superuser |
| Accounts.Manager.Authenticate | Auth/mdz_auth/manager.cpp:42-122 | the answer is the right one for the state and the password, an expired password is let in as such, a disabled account is not let in; the outcome is judged by what was read and recorded on whatever ran in between; refusals for the account's state change nothing; a superuser stays |
| Accounts.Manager.UpdateLogin | Auth/mdz_auth_db/manager_db_accounts.cpp:440-463 | one more login on record for the password, if the account is still there |
| Accounts.Manager.AccountAdd | Auth/mdz_auth_db/manager_db_accounts.cpp:18-62 | adds the account and its first password, refused if and only if the name is taken |
| Accounts.Manager.AccountRemove | Auth/mdz_auth_db/manager_db_accounts.cpp:79-91 | removes the account with its passwords and logins and nothing else, refused if and only if no other enabled superuser exists |
| Accounts.Manager.AccountDisable | Auth/mdz_auth_db/manager_db_accounts.cpp:108-122 | enables or disables, disabling refused if and only if no other enabled superuser exists |
| Accounts.Manager.AccountChangeAttribs | Auth/mdz_auth_db/manager_db_accounts.cpp:278-294 | sets the attributes, taking one away refused if and only if no other enabled superuser exists |
| Accounts.Manager.InitAccounts | Auth/mdz_auth/manager.cpp:19-40 | succeeding, it leaves an enabled superuser; failing, nothing changed |

## Left out

- The memory-mapped and file fallback of the containers: calls to the operating system, off by default.
- Prepending, and case-insensitive search: the text does not do what a clean specification would say.
- Chunks as separately owned memory: a chunk is a value, so allocation failure and aliasing are not captured.
- Offsets stored in chunks are unbounded, while the program's wrap at 64 bits.
- Chunk sizes above 64 KB: the 64-bit comparison helper never recomputes its block there (Helpers/mdz_hlp_functions/mem.cpp:87).
- The delimiter sub-parser's other modes (by size, by validator, by connection end, direct, several delimiters): they add no harder claim, and the result of the last one depends on the cut.
- DelimiterStream.StreamLaw: covers streams up to the first write refused for size, budget or a record the callback rejects; a change of sub-parser the callback asks for is refused there, changes being the matter of `StreamParser.FeedDispatches`.
- DelimiterStream.StreamTo: what the callback is shown when the stream is ended after a refused write, and reading the pieces from a socket, are not captured.
- SubParsing.SubParser.ParseDirectDelimiter: the callback gets the bytes of its piece as the container writes them to a stream, which the offset index plays no part in; a callback that copies them out of its window instead goes through the index.
- SubParsing.SubParser.Parse: the callback is a function of the records shown to it and sees them as bytes; a callback that changes the parser, or reads them through the spoilt offset index, is not captured.
- The parser's sub-parsers are values with a write function; initialisation and shutdown of protocols are left out.
- Views over a container that changes while it is looked at, searching through a view, and writing through one.
- The cipher, the random generators and OpenSSL's failures: the cipher and the vector generator are uninterpreted functions that succeed.
- The order of the two handshakes on one connection, which must both fit in the transport's buffers.
- SocketStream.StreamSocket.ReadBlockWAllocEx: the allocation of the length plus one byte, which wraps for a length at the top of its width, is not captured.
- The fixed-buffer block reader and null-terminated strings.
- DelimReader.ReadBlock32WAllocAndDelim: limits from 0xFFFF0000 on, where the 32-bit size of the grown buffer wraps.
- BridgePipe.BridgeThread.Decapsulate: the far side's block buffer is not modelled, which the program overruns when the peer's block size is larger than its own.
- Liveness: that a notified thread runs, that a bridge loop ends, that the destructor's wait is over; threads and callbacks of the acceptor beyond what its mutex protects.
- MultiThreadedAcceptor.MultiThreaded.ProcessClient: the number of wake-ups before a time-out is a parameter.
- SQL itself, binding of values, result rows, and other databases' marks; account tables are maps and a statement succeeds unless a key clashes.
- QueryKeys.Query.PostBindInputVars: keys that contain the mark without being it are outside the tokenisation claim.
- ChunkedWriter.ChunkedRoundTrip: several writes of which one is 4 GiB or more; chunk extensions and trailers, which the writer never emits.
- Expiry and confirmation tokens of accounts, groups, attributes and application rights: inputs of a login.
- Sockets, DNS, TLS, TUN/TAP, process control, logging, argument parsing, URL encoding, IPv4 masks, variables files and the scalar variable types.
