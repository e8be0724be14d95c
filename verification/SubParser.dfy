/** The sub-parser object: its chunked buffer, its delimiter and the hand-over to the client's parse
    callback, with the writing modes that search the buffer. */
module SubParsing {
  import opened Bytes
  import opened ChunkLayout
  import opened ChunkStore
  import opened StreamParser
  import opened ChunkedDelimiter
  import opened DelimiterParser
  import RecordSplit

  class SubParser {
    const unparsedBuffer: BChunks
    var parseDelimiter: seq<byte>
    var delimiterFound: seq<byte>
    var streamEnded: bool
    var parseStatus: ParseStatus
    /** What the parse callback has been shown, one entry a call, and what it answers. */
    var parsed: seq<seq<byte>>
    const verdict: Verdict

    ghost predicate Valid()
      reads this, unparsedBuffer
    {
      unparsedBuffer.Valid() && unparsedBuffer.maxSize < U64 && 0 < |parseDelimiter| < U64
    }

    ghost function Chunks(): seq<Chunk>
      reads unparsedBuffer
    {
      unparsedBuffer.chunksVector
    }

    ghost function BufferLimits(): Limits
      reads unparsedBuffer
    {
      Limits(unparsedBuffer.maxSize, unparsedBuffer.maxChunkSize, unparsedBuffer.maxChunks)
    }

    ghost function State(): DelimState
      reads this, unparsedBuffer
    {
      DelimState(Chunks(), streamEnded, parsed)
    }

    constructor (buffer: BChunks, delimiter: seq<byte>, verdict: Verdict)
      requires buffer.Valid() && buffer.maxSize < U64 && 0 < |delimiter| < U64
      ensures Valid() && unparsedBuffer == buffer && parseDelimiter == delimiter && this.verdict == verdict
      ensures parsed == [] && !streamEnded && parseStatus == STAT_GET_MORE_DATA
    {
      unparsedBuffer, parseDelimiter, this.verdict := buffer, delimiter, verdict;
      delimiterFound, streamEnded, parseStatus, parsed := [], false, STAT_GET_MORE_DATA, [];
    }

    /** Shows the callback the first `n` bytes of the buffer and keeps its answer. */
    method Parse(n: nat)
      requires Valid() && n <= |unparsedBuffer.Content()|
      modifies this`parsed, this`parseStatus
      ensures parsed == old(parsed) + [unparsedBuffer.Content()[..n]] && parseStatus == verdict(parsed)
    {
      var pieces := unparsedBuffer.CopyChunks(n, 0);
      parsed := parsed + [Concat(pieces)];
      parseStatus := verdict(parsed);
    }

    ghost function LastParsed(): seq<byte>
      reads this
    {
      if parsed == [] then [] else parsed[|parsed| - 1]
    }

    /** Exactly one more piece has been shown to the callback, and its answer is the parse status. */
    ghost predicate Shown(before: seq<seq<byte>>)
      reads this
    {
      parsed == before + [LastParsed()] && parseStatus == verdict(parsed)
    }

    /** The part of a write the buffer has room for. */
    method Accept(buf: seq<byte>) returns (taken: seq<byte>)
      requires Valid()
      ensures taken == buf[..Accepted(|unparsedBuffer.Content()|, |buf|, unparsedBuffer.maxSize)]
    {
      var left := unparsedBuffer.GetSizeLeft();
      if |buf| > left && left > 0 {
        return buf[..left];
      }
      assert buf[..|buf|] == buf;
      return buf;
    }

    /** The longest suffix of the buffer that compares equal to the start of the delimiter, each candidate
        being copied into a fresh block first. */
    method GetLastBytesInCommon(junk: Memory) returns (r: nat)
      requires Valid()
      ensures r == LastBytesInCommon(parseDelimiter, Chunks(), Min(|Flat(Chunks())|, |parseDelimiter| - 1), junk)
    {
      var size := unparsedBuffer.Size();
      var v: nat := if size > |parseDelimiter| - 1 then |parseDelimiter| - 1 else size;
      ghost var d, cs, top := parseDelimiter, Chunks(), v;
      while v != 0
        invariant Valid() && v <= top && NoneAbove(d, cs, v, top, junk)
      {
        var same := CompareLastBytes(v, junk, d, cs);
        if same {
          break;
        }
        var next: nat := v - 1;
        OneMore(d, cs, next, v, top, junk);
        v := next;
      }
      CountStops(d, cs, top, v, junk);
      return v;
    }

    method CompareLastBytes(v: nat, junk: Memory, ghost d: seq<byte>, ghost cs: seq<Chunk>) returns (same: bool)
      requires Valid() && d == parseDelimiter && cs == Chunks() && v <= |Flat(cs)| && v < |d|
      ensures same == BlockMatches(d, cs, v, junk)
    {
      var size := unparsedBuffer.Size();
      var copied := unparsedBuffer.CopyOut(v, size - v);
      var toCmp := copied.data + BlockOf(junk, v);
      same := parseDelimiter[..v] <= toCmp;
    }

    /** Direct-delimiter mode: one write does to the buffer, and releases to the callback, what the chunked
        step says. */
    method ParseDirectDelimiter(buf: seq<byte>, junk: Memory) returns (ok: bool, count: nat)
      requires Valid()
      modifies this`delimiterFound, this`parsed, this`parseStatus
      modifies unparsedBuffer`chunksVector, unparsedBuffer`containerBytes
      ensures Valid()
      ensures StepChunks(BufferLimits(), parseDelimiter, old(Chunks()), buf, junk) ==
        if !ok then Failed(Chunks())
        else if delimiterFound == [] then More(Chunks(), LastParsed(), count)
        else Found(LastParsed(), count)
      ensures if ok then Shown(old(parsed)) else parsed == old(parsed) && count == 0
      ensures delimiterFound != [] ==> delimiterFound == parseDelimiter && Chunks() == []
    {
      delimiterFound := [];
      var taken := Accept(buf);
      if |taken| == 0 {
        return false, 0;
      }
      var prevSize := unparsedBuffer.Size();
      var copied, n := unparsedBuffer.Append(taken);
      if !copied {
        return false, 0;
      }
      count := ScanBuffer(prevSize, n, junk);
      return true, count;
    }

    /** Once the write is in the buffer: look for the delimiter, or release all but the suffix in doubt. */
    method ScanBuffer(prevSize: nat, n: nat, junk: Memory) returns (count: nat)
      requires Valid() && delimiterFound == []
      modifies this`delimiterFound, this`parsed, this`parseStatus
      modifies unparsedBuffer`chunksVector, unparsedBuffer`containerBytes
      ensures Valid()
      ensures Scan(parseDelimiter, prevSize, old(Chunks()), n, junk) ==
        if delimiterFound == [] then More(Chunks(), LastParsed(), count) else Found(LastParsed(), count)
      ensures Shown(old(parsed))
      ensures delimiterFound != [] ==> delimiterFound == parseDelimiter && Chunks() == []
    {
      var found, at := FindDelimiter();
      if !found {
        HoldBack(prevSize, n, junk);
        count := n;
      } else {
        ScanHit(parseDelimiter, prevSize, Chunks(), n, junk, at);
        delimiterFound := parseDelimiter;
        FinishAt(at);
        count := (at - prevSize + |parseDelimiter|) % U64;
      }
    }

    method HoldBack(ghost prevSize: nat, ghost n: nat, junk: Memory)
      requires Valid() && Find(Flat(Chunks()), parseDelimiter, 0).None?
      modifies this`parsed, this`parseStatus
      modifies unparsedBuffer`chunksVector, unparsedBuffer`containerBytes
      ensures Valid() && Shown(old(parsed))
      ensures Scan(parseDelimiter, prevSize, old(Chunks()), n, junk) == More(Chunks(), LastParsed(), n)
    {
      var possible := GetLastBytesInCommon(junk);
      ScanMiss(parseDelimiter, prevSize, Chunks(), n, junk, possible);
      var size := unparsedBuffer.Size();
      Parse(size - possible);
      if possible == 0 {
        unparsedBuffer.Clear();
      } else {
        var d, m := unparsedBuffer.Displace(size - possible);
      }
    }

    method FinishAt(at: nat)
      requires Valid() && at <= |Flat(Chunks())|
      modifies this`parsed, this`parseStatus
      modifies unparsedBuffer`chunksVector, unparsedBuffer`containerBytes
      ensures Valid() && Chunks() == []
      ensures parsed == old(parsed) + [old(Flat(Chunks()))[..at]] && parseStatus == verdict(parsed)
    {
      if at == 0 {
        unparsedBuffer.Clear();
        Parse(0);
      } else {
        Parse(at);
      }
      unparsedBuffer.Clear();
    }

    /** The container's search over everything it holds is the reference search. */
    method FindDelimiter() returns (found: bool, at: nat)
      requires Valid()
      ensures Find(Flat(Chunks()), parseDelimiter, 0) == if found then Some(at) else None
    {
      found, at := unparsedBuffer.FindNeedle(parseDelimiter, 0, 0);
      if found {
        RecordSplit.FindFirst(unparsedBuffer.Content(), parseDelimiter, at);
      }
    }

    /** Delimiter mode: one write does to the sub-parser what the delimiter step says. */
    method ParseByDelimiter(buf: seq<byte>) returns (ok: bool, count: nat)
      requires Valid() && parseStatus == STAT_GET_MORE_DATA
      modifies this`streamEnded, this`parsed, this`parseStatus
      modifies unparsedBuffer`chunksVector, unparsedBuffer`containerBytes
      ensures Valid()
      ensures Reply(ok, count, parseStatus, State()) ==
        WriteDelim(BufferLimits(), parseDelimiter, verdict, old(State()), buf)
    {
      var prevSize := unparsedBuffer.Size();
      if |buf| == 0 {
        streamEnded := true;
      }
      var taken := Accept(buf);
      count := 0;
      if |taken| > 0 {
        var appended, n := unparsedBuffer.Append(taken);
        if n == 0 || !appended {
          unparsedBuffer.Clear();
          return false, 0;
        }
        count := n;
      }
      count := CompleteRecord(prevSize, count, old(State()));
      ok := true;
    }

    /** Once the write is in the buffer: parse the record a delimiter or the stream's end completes. */
    method CompleteRecord(prevSize: nat, n: nat, ghost before: DelimState) returns (count: nat)
      requires Valid() && parseStatus == STAT_GET_MORE_DATA
      requires before.records == parsed && |Flat(before.chunks)| == prevSize
      modifies this`parsed, this`parseStatus
      modifies unparsedBuffer`chunksVector, unparsedBuffer`containerBytes
      ensures Valid()
      ensures Reply(true, count, parseStatus, State()) ==
        Recognise(parseDelimiter, verdict, before, streamEnded, old(Chunks()), n)
    {
      count := n;
      var found, at := FindDelimiter();
      if found {
        Parse(at);
        unparsedBuffer.Clear();
        count := (at - prevSize + |parseDelimiter|) % U64;
      } else if streamEnded {
        Parse(unparsedBuffer.Size());
        assert unparsedBuffer.Content()[..unparsedBuffer.Size()] == unparsedBuffer.Content();
        unparsedBuffer.Clear();
      }
    }
  }
}
