/** Reading a stream up to and including a delimiter of any bytes, 64 KB of buffer at a time. */
module DelimReader {
  import opened Bytes
  import opened SocketStream

  const BLOCK := 65536

  /** The first `n` bytes of `s`, at least one, end in the delimiter. */
  ghost predicate EndsAt(s: seq<byte>, delim: seq<byte>, n: nat) {
    0 < n <= |s| && |delim| <= n && s[n - |delim|..n] == delim
  }

  ghost predicate NoEnd(s: seq<byte>, delim: seq<byte>, lo: nat, hi: nat) {
    forall n: nat | lo < n <= hi :: !EndsAt(s, delim, n)
  }

  /** `n` is the length of the shortest non-empty prefix that ends in the delimiter. */
  ghost predicate FirstEnd(s: seq<byte>, delim: seq<byte>, n: nat) {
    EndsAt(s, delim, n) && NoEnd(s, delim, 0, n - 1)
  }

  lemma OccursWhereItEnds(s: seq<byte>, delim: seq<byte>, p: nat)
    requires delim != []
    ensures OccursAt(s, delim, p) <==> EndsAt(s, delim, p + |delim|)
  {
  }

  /** For a real delimiter the prefix runs through the end of its first occurrence. */
  lemma FirstEndIsFirstOccurrence(s: seq<byte>, delim: seq<byte>, n: nat)
    requires |delim| > 0
    ensures FirstEnd(s, delim, n) <==> n >= |delim| && FirstAt(s, delim, 0, n - |delim|)
  {
    forall m: nat | m >= |delim| ensures EndsAt(s, delim, m) <==> OccursAt(s, delim, m - |delim|) {
      OccursWhereItEnds(s, delim, m - |delim|);
    }
    forall p: nat | true ensures OccursAt(s, delim, p) <==> EndsAt(s, delim, p + |delim|) {
      OccursWhereItEnds(s, delim, p);
    }
  }

  /** The bytes that fit in the blocks a limit allows. */
  function Capacity(datalen: nat): nat {
    datalen / BLOCK * BLOCK
  }

  lemma WholeBlocks(datalen: nat, blocks: nat)
    requires blocks * BLOCK <= datalen
    ensures blocks * BLOCK <= Capacity(datalen)
    ensures datalen < (blocks + 1) * BLOCK ==> Capacity(datalen) == blocks * BLOCK
  {
  }

  /** The buffer holds the first `n` bytes of the stream and the rest is still to be read. */
  ghost predicate Holds(buffer: seq<byte>, s: StreamSocket, stream: seq<byte>, n: nat)
    reads s
  {
    n <= |stream| && n <= |buffer| && buffer[..n] == stream[..n] && s.inbound == stream[n..]
  }

  lemma HoldsOneMore(was: seq<byte>, now: seq<byte>, stream: seq<byte>, n: nat)
    requires n < |stream| && n < |was| == |now| && was[..n] == stream[..n]
    requires now == was[n := stream[n]]
    ensures now[..n + 1] == stream[..n + 1]
  {
    assert now[..n + 1] == was[..n] + [stream[n]];
    assert stream[..n + 1] == stream[..n] + [stream[n]];
  }

  lemma EndsHere(buffer: seq<byte>, stream: seq<byte>, delim: seq<byte>, n: nat)
    requires 0 < n <= |stream| && n <= |buffer| && buffer[..n] == stream[..n] && |delim| <= n
    ensures buffer[n - |delim|..n] == delim <==> EndsAt(stream, delim, n)
  {
    assert buffer[n - |delim|..n] == buffer[..n][n - |delim|..] == stream[..n][n - |delim|..] == stream[n - |delim|..n];
  }

  method ReadU8(s: StreamSocket) returns (ok: bool, b: byte)
    modifies s`inbound, s`failures
    ensures ok ==> s.failures == old(s.failures) && |old(s.inbound)| > 0 && b == old(s.inbound)[0] && s.inbound == old(s.inbound)[1..]
    ensures !ok ==> s.failures > old(s.failures) && s.inbound == old(s.inbound)
  {
    var data;
    ok, data := s.ReadFull(1);
    b := if ok then data[0] else 0;
    if !ok {
      assert data == [];
    }
  }

  /** Fills the 64 KB at `start` byte by byte until what was read so far ends in the delimiter: the number
      `n` of bytes read, -1 when the block is full, -2 when the stream failed. The comparison reaches back
      into the blocks before. */
  method Read64KBlockDelim(s: StreamSocket, block: array<byte>, start: nat, delim: seq<byte>, blockNo: nat,
                           ghost stream: seq<byte>)
    returns (r: int, ghost n: nat)
    requires start + BLOCK <= block.Length && |delim| < BLOCK
    requires if blockNo == 0 then start == 0 else start >= BLOCK
    requires Holds(block[..], s, stream, start)
    modifies block, s`inbound, s`failures
    ensures n <= BLOCK && Holds(block[..], s, stream, start + n)
    ensures r == -2 || (r == -1 && n == BLOCK) || 0 < r == n
    ensures if r == -2 then s.failures > old(s.failures) else s.failures == old(s.failures)
    ensures r < 0 ==> NoEnd(stream, delim, start, start + n)
    ensures r > 0 ==> EndsAt(stream, delim, start + n) && NoEnd(stream, delim, start, start + n - 1)
  {
    var pos: nat := 0;
    while pos < BLOCK
      invariant pos <= BLOCK && s.failures == old(s.failures)
      invariant Holds(block[..], s, stream, start + pos)
      invariant NoEnd(stream, delim, start, start + pos)
    {
      var ok := ReadInto(s, block, start + pos, stream);
      if !ok {
        return -2, pos;
      }
      pos := pos + 1;
      if (blockNo == 0 && pos >= |delim|) || blockNo > 0 {
        var same := CompareEnd(s, block, start + pos, delim, stream);
        if same {
          return pos, pos;
        }
      }
    }
    return -1, pos;
  }

  /** One more byte of the stream into the buffer, unless the stream fails. */
  method ReadInto(s: StreamSocket, block: array<byte>, at: nat, ghost stream: seq<byte>) returns (ok: bool)
    requires at < block.Length && Holds(block[..], s, stream, at)
    modifies block, s`inbound, s`failures
    ensures Holds(block[..], s, stream, if ok then at + 1 else at)
    ensures if ok then s.failures == old(s.failures) else s.failures > old(s.failures)
  {
    ghost var was := block[..];
    var b;
    ok, b := ReadU8(s);
    if ok {
      block[at] := b;
      HoldsOneMore(was, block[..], stream, at);
    }
  }

  /** Does what was read so far end in the delimiter? */
  method CompareEnd(ghost s: StreamSocket, block: array<byte>, n: nat, delim: seq<byte>, ghost stream: seq<byte>) returns (same: bool)
    requires Holds(block[..], s, stream, n) && n > 0 && |delim| <= n
    ensures same <==> EndsAt(stream, delim, n)
  {
    EndsHere(block[..], stream, delim, n);
    assert block[n - |delim|..n] == block[..][n - |delim|..n];
    same := block[n - |delim|..n] == delim;
  }

  /** The shortest prefix of the stream that ends in the delimiter, and not a byte more, whenever it fits in
      the blocks the limit allows and the stream does not fail first. */
  method ReadBlock32WAllocAndDelim(s: StreamSocket, datalen: nat, delim: seq<byte>)
    returns (r: Option<seq<byte>>, ghost n: nat)
    requires datalen < 0xFFFF0000 && |delim| < BLOCK
    modifies s`inbound, s`failures
    ensures n <= |old(s.inbound)| && s.inbound == old(s.inbound)[n..]
    ensures datalen < BLOCK ==> r == None && n == 0 && s.failures == old(s.failures)
    ensures r.Some? ==> r.value == old(s.inbound)[..n] && FirstEnd(old(s.inbound), delim, n)
    ensures r.Some? ==> n <= Capacity(datalen) && s.failures == old(s.failures)
    ensures r.None? ==> NoEnd(old(s.inbound), delim, 0, n)
    ensures r.None? ==> s.failures > old(s.failures) || n == Capacity(datalen)
  {
    if datalen < BLOCK {
      return None, 0;
    }
    ghost var stream := s.inbound;
    var currentBlock := new byte[BLOCK];
    var currentBlockSize, blockNo: nat := BLOCK, 0;
    while true
      invariant fresh(currentBlock) && currentBlock.Length == currentBlockSize && currentBlockSize == (blockNo + 1) * BLOCK
      invariant BLOCK <= currentBlockSize <= datalen && s.failures == old(s.failures)
      invariant Holds(currentBlock[..], s, stream, currentBlockSize - BLOCK)
      invariant NoEnd(stream, delim, 0, currentBlockSize - BLOCK)
      decreases datalen - currentBlockSize
    {
      var start: nat := currentBlockSize - BLOCK;
      WholeBlocks(datalen, blockNo + 1);
      var bytesRecv, got := Read64KBlockDelim(s, currentBlock, start, delim, blockNo, stream);
      if bytesRecv == -2 {
        return None, start + got;
      } else if bytesRecv == -1 {
        if currentBlockSize + BLOCK > datalen {
          return None, start + got;
        }
        var nextBlock := new byte[currentBlockSize + BLOCK];
        blockNo := blockNo + 1;
        forall i | 0 <= i < currentBlockSize {
          nextBlock[i] := currentBlock[i];
        }
        assert nextBlock[..][..currentBlockSize] == currentBlock[..];
        currentBlock := nextBlock;
        currentBlockSize := currentBlockSize + BLOCK;
      } else {
        assert FirstEnd(stream, delim, start + bytesRecv);
        return Some(currentBlock[..start + bytesRecv]), start + bytesRecv;
      }
    }
  }
}
