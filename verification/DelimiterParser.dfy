/** The sub-parser that collects a record until its delimiter: one write on the chunked buffer, and what a
    whole stream becomes when it reaches the sub-parser through the stream parser in arbitrary writes. */
module DelimiterParser {
  import opened Bytes
  import opened ChunkLayout
  import opened RecordSplit
  import opened StreamParser
  import opened ChunkedDelimiter

  /** What the client's parse callback answers, given the records it has been shown so far. */
  type Verdict = seq<seq<byte>> -> ParseStatus

  datatype DelimState = DelimState(chunks: seq<Chunk>, ended: bool, records: seq<seq<byte>>)

  /** The buffer once the accepted part of a write is in it. */
  function Buffered(limits: Limits, cs: seq<Chunk>, buf: seq<byte>): Appended
    requires limits.maxChunkSize > 0
  {
    var size := |Flat(cs)|;
    var count := Accepted(size, |buf|, limits.maxSize);
    if count == 0 then Appended(true, 0, cs)
    else if count + size >= U64 || count + size > limits.maxSize then Appended(false, 0, cs)
    else AppendChunks(cs, buf[..count], limits.maxChunkSize, limits.maxChunks)
  }

  /** One write into the sub-parser; an empty write says that the stream has ended. */
  ghost function WriteDelim(limits: Limits, d: seq<byte>, verdict: Verdict, st: DelimState, buf: seq<byte>): Reply<DelimState>
    requires d != [] && limits.maxChunkSize > 0
  {
    var ended := st.ended || buf == [];
    var r := Buffered(limits, st.chunks, buf);
    if !r.ok then Reply(false, 0, STAT_GET_MORE_DATA, DelimState([], ended, st.records))
    else Recognise(d, verdict, st, ended, r.chunks, r.count)
  }

  ghost function Recognise(d: seq<byte>, verdict: Verdict, st: DelimState, ended: bool, cs: seq<Chunk>, count: nat): Reply<DelimState>
    requires d != []
  {
    var b := Flat(cs);
    match Find(b, d, 0)
    case Some(p) =>
      var records := st.records + [b[..p]];
      Reply(true, (p - |Flat(st.chunks)| + |d|) % U64, verdict(records), DelimState([], ended, records))
    case None =>
      if ended then
        var records := st.records + [b];
        Reply(true, count, verdict(records), DelimState([], ended, records))
      else Reply(true, count, STAT_GET_MORE_DATA, DelimState(cs, ended, st.records))
  }

  /** The stream so far: its complete records were parsed, the rest waits in the buffer. */
  ghost predicate Open(limits: Limits, d: seq<byte>, st: DelimState, s: seq<byte>)
    requires d != []
  {
    && !st.ended && st.records == Split(s, d).done && Flat(st.chunks) == Split(s, d).rest
    && Sound(st.chunks, limits.maxChunkSize) && |st.chunks| <= limits.maxChunks
  }

  /** What the callback answers once the records are `after`; nobody asks it while they are as `before`. */
  function Answer(verdict: Verdict, before: seq<seq<byte>>, after: seq<seq<byte>>): ParseStatus {
    if |after| == |before| then STAT_GET_MORE_DATA else verdict(after)
  }

  lemma BufferedFlat(limits: Limits, cs: seq<Chunk>, buf: seq<byte>)
    requires limits.Valid() && Sound(cs, limits.maxChunkSize) && |cs| <= limits.maxChunks && buf != []
    ensures var r := Buffered(limits, cs, buf);
      r.ok ==> (
        && 0 < r.count <= |buf| && Flat(r.chunks) == Flat(cs) + buf[..r.count] && |Flat(r.chunks)| < U64
        && Sound(r.chunks, limits.maxChunkSize) && |r.chunks| <= limits.maxChunks)
  {
    var count := Accepted(|Flat(cs)|, |buf|, limits.maxSize);
    AppendExact(cs, buf[..count], limits.maxChunkSize, limits.maxChunks);
    assert buf[..count][..count] == buf[..count];
  }

  /** A delimiter completed by a write ends inside it, because none was in the buffer before. */
  lemma EndsInside(t: seq<byte>, more: seq<byte>, d: seq<byte>, p: nat)
    requires d != [] && Absent(t, d, 0) && FirstAt(t + more, d, 0, p)
    ensures |t| < p + |d| <= |t| + |more|
  {
    if p + |d| <= |t| {
      RecordSplit.OccursInPrefix(t, more, d, p);
    }
  }

  lemma OnlyRecord(c: seq<byte>, d: seq<byte>, p: nat)
    requires d != [] && Find(c, d, 0) == Some(p) && |c| == p + |d|
    ensures Split(c, d).done == [c[..p]] && Split(c, d).rest == []
  {
    SplitStep(c, d, p);
    SplitNothing(c[p + |d|..], d);
  }

  lemma SplitNothing(s: seq<byte>, d: seq<byte>)
    requires d != [] && |s| == 0
    ensures Split(s, d).done == [] && Split(s, d).rest == []
  {
    assert Find(s, d, 0).None?;
  }

  /** The record a delimiter completes, cut off right behind it. */
  lemma RecordComplete(b: seq<byte>, d: seq<byte>, p: nat)
    requires d != [] && Find(b, d, 0) == Some(p)
    ensures Split(b[..p + |d|], d).done == [b[..p]] && Split(b[..p + |d|], d).rest == []
  {
    var k := p + |d|;
    CutAndJoin(b, p, k);
    FirstInPrefix(b[..k], b[k..], d, p, b);
    OnlyRecord(b[..k], d, p);
  }

  lemma CutAndJoin(b: seq<byte>, p: nat, k: nat)
    requires p <= k <= |b|
    ensures b == b[..k] + b[k..] && b[..k][..p] == b[..p]
  {
  }

  lemma FirstInPrefix(c: seq<byte>, more: seq<byte>, d: seq<byte>, p: nat, b: seq<byte>)
    requires b == c + more && |c| == p + |d| && Find(b, d, 0) == Some(p)
    ensures Find(c, d, 0) == Some(p)
  {
    forall j: nat | j <= p ensures OccursAt(c, d, j) <==> OccursAt(b, d, j) {
      RecordSplit.OccursInPrefix(c, more, d, j);
    }
    FindFirst(c, d, p);
  }

  /** One accepted write of at least a byte: it takes at least a byte and no byte past the delimiter it
      completes, the stream taken so far stays split at its leftmost delimiters, and the answer is the callback's to
      the record it completes, if it completes one. */
  lemma WriteLaw(limits: Limits, d: seq<byte>, verdict: Verdict, st: DelimState, s: seq<byte>, buf: seq<byte>)
    requires d != [] && limits.Valid() && Open(limits, d, st, s) && buf != []
    ensures var r := WriteDelim(limits, d, verdict, st, buf);
      r.ok ==> 0 < r.consumed <= |buf| && r.status == Answer(verdict, st.records, r.next.records) && Open(limits, d, r.next, s + buf[..r.consumed])
  {
    var b := Buffered(limits, st.chunks, buf);
    BufferedFlat(limits, st.chunks, buf);
    if b.ok {
      RecogniseLaw(limits, d, verdict, st, s, buf[..b.count], b.chunks);
      var r := Recognise(d, verdict, st, false, b.chunks, b.count);
      assert buf[..b.count][..r.consumed] == buf[..r.consumed];
    }
  }

  lemma RecogniseLaw(limits: Limits, d: seq<byte>, verdict: Verdict, st: DelimState, s: seq<byte>, taken: seq<byte>, cs: seq<Chunk>)
    requires d != [] && limits.Valid() && Open(limits, d, st, s) && taken != []
    requires Flat(cs) == Flat(st.chunks) + taken && |Flat(cs)| < U64
    requires Sound(cs, limits.maxChunkSize) && |cs| <= limits.maxChunks
    ensures var r := Recognise(d, verdict, st, false, cs, |taken|);
      0 < r.consumed <= |taken| && r.status == Answer(verdict, st.records, r.next.records) && Open(limits, d, r.next, s + taken[..r.consumed])
  {
    RestHasNone(s, d);
    match Find(Flat(cs), d, 0)
    case Some(p) =>
      EndsInside(Flat(st.chunks), taken, d, p);
      FoundLaw(Flat(st.chunks), taken, d, p, s);
      ConsumedThrough(d, verdict, st, cs, |taken|, p);
    case None =>
      WaitLaw(Flat(st.chunks), taken, d, s);
  }

  /** The wrapping difference the sub-parser reports lands on the bytes up to the delimiter's end. */
  lemma ConsumedThrough(d: seq<byte>, verdict: Verdict, st: DelimState, cs: seq<Chunk>, count: nat, p: nat)
    requires d != [] && Find(Flat(cs), d, 0) == Some(p)
    requires |Flat(st.chunks)| < p + |d| < U64
    ensures Recognise(d, verdict, st, false, cs, count) ==
      Reply(true, p + |d| - |Flat(st.chunks)|, verdict(st.records + [Flat(cs)[..p]]), DelimState([], false, st.records + [Flat(cs)[..p]]))
  {
  }

  lemma WaitLaw(t: seq<byte>, taken: seq<byte>, d: seq<byte>, s: seq<byte>)
    requires d != [] && t == Split(s, d).rest && Find(t + taken, d, 0).None?
    ensures Split(s + taken[..|taken|], d).done == Split(s, d).done && Split(s + taken[..|taken|], d).rest == t + taken
  {
    SplitMore(s, taken, d);
    assert taken[..|taken|] == taken;
    assert Split(s, d).done + [] == Split(s, d).done;
  }

  lemma FoundLaw(t: seq<byte>, taken: seq<byte>, d: seq<byte>, p: nat, s: seq<byte>)
    requires d != [] && t == Split(s, d).rest && Find(t + taken, d, 0) == Some(p) && |t| < p + |d| <= |t| + |taken|
    ensures var n := p + |d| - |t|;
      Split(s + taken[..n], d).done == Split(s, d).done + [(t + taken)[..p]] && Split(s + taken[..n], d).rest == []
  {
    var n := p + |d| - |t|;
    assert t + taken[..n] == (t + taken)[..p + |d|];
    RecordComplete(t + taken, d, p);
    SplitMore(s, taken[..n], d);
  }
}
