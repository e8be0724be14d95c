/** Where the chunked direct-delimiter parser goes wrong: one-byte writes under which a whole delimiter goes by
    unnoticed, for every delimiter of three bytes or more. */
module StaleIndex {
  import opened Bytes
  import opened ChunkLayout
  import opened DirectDelimiter
  import opened ChunkedDelimiter

  /** Memory in which every byte of the blocks shorter than `n` is `y`. */
  function Filled(y: byte, n: nat): (m: Memory)
    ensures |m| == n && forall v | 0 <= v < n :: |m[v]| == v && (forall i | 0 <= i < v :: m[v][i] == y)
  {
    seq(n, v requires 0 <= v => Row(y, v))
  }

  function Row(y: byte, n: nat): (r: seq<byte>)
    ensures |r| == n && forall i | 0 <= i < n :: r[i] == y
  {
    if n == 0 then [] else [y] + Row(y, n - 1)
  }

  lemma FlatTwo(a: Chunk, b: Chunk)
    ensures Flat([a, b]) == a.data + b.data
  {
    assert [a, b][1..] == [b];
    FlatOne(b);
  }

  lemma FlatThree(a: Chunk, b: Chunk, c: Chunk)
    ensures Flat([a, b, c]) == a.data + b.data + c.data
  {
    assert [a, b, c][1..] == [b, c];
    FlatTwo(b, c);
  }

  /** A one-byte write that does not complete the delimiter, once the suffix in doubt is known. */
  lemma StepByte(limits: Limits, d: seq<byte>, cs: seq<Chunk>, c: Call, next: seq<Chunk>, v: nat)
    requires limits == DEFAULT_LIMITS && d != [] && |cs| < 10 && |Flat(cs)| < 10 && |c.piece| == 1
    requires next == cs + [Chunk(c.piece, EndOffset(cs))]
    requires !OccursAt(Flat(next), d, 0) && |Flat(next)| <= |d|
    requires v <= |Flat(next)| && LastBytesInCommon(d, next, Min(|Flat(next)|, |d| - 1), c.junk) == v
    ensures StepChunks(limits, d, cs, c.piece, c.junk) == More(Keep(next, v), Flat(next)[..|Flat(next)| - v], 1)
  {
    AppendOneChunk(cs, c.piece, limits.maxChunkSize, limits.maxChunks);
    assert c.piece[..1] == c.piece;
    assert Find(Flat(next), d, 0).None?;
  }

  /** One more one-byte write, given what it does to the buffer. */
  lemma RunByte(limits: Limits, d: seq<byte>, calls: seq<Call>, c: Call, st: Progress, s: ChunkStep)
    requires d != [] && limits.maxChunkSize > 0 && st.Reading? && Run(limits, d, calls) == st
    requires s == StepChunks(limits, d, st.chunks, c.piece, c.junk) && s.More? && s.consumed == |c.piece|
    ensures Run(limits, d, calls + [c]) == Reading(s.chunks, st.released + s.released, st.consumed + c.piece)
  {
    assert (calls + [c])[..|calls|] == calls;
    assert c.piece[..|c.piece|] == c.piece;
  }

  // ---- The two writes that spoil the index ------------------------------------------------------

  lemma KeepAll(cs: seq<Chunk>, n: nat)
    requires |Flat(cs)| == n > 0
    ensures Keep(cs, n) == Recalc(cs)
  {
  }

  lemma AllInCommon(d: seq<byte>, cs: seq<Chunk>, c: Call, n: nat)
    requires 0 < n < |d| && Indexed(cs) && Flat(cs) == d[..n] && n < U64
    ensures LastBytesInCommon(d, cs, n, c.junk) == n
  {
    BlockExact(d, cs, n, c.junk);
    assert Flat(cs)[|Flat(cs)| - n..] == d[..n];
  }

  /** First write: the first byte is rightly held back. */
  lemma FirstByte(limits: Limits, d: seq<byte>, c: Call, cs: seq<Chunk>)
    requires limits == DEFAULT_LIMITS && |d| >= 3 && c.piece == [d[0]] && cs == [Chunk(c.piece, 0)]
    ensures StepChunks(limits, d, [], c.piece, c.junk) == More(cs, [], 1)
  {
    FlatOne(cs[0]);
    assert d[..1] == [d[0]];
    AllInCommon(d, cs, c, 1);
    StepByte(limits, d, [], c, cs, 1);
    KeepAll(cs, 1);
  }

  /** Second write: both bytes are rightly held back, but they lie in two chunks and the index is spoilt. */
  lemma SecondByte(limits: Limits, d: seq<byte>, c: Call, cs: seq<Chunk>, next: seq<Chunk>)
    requires limits == DEFAULT_LIMITS && |d| >= 3 && c.piece == [d[1]]
    requires cs == [Chunk([d[0]], 0)] && next == [Chunk([d[0]], 1), Chunk([d[1]], 1)]
    ensures StepChunks(limits, d, cs, c.piece, c.junk) == More(next, [], 1)
  {
    var both := cs + [Chunk(c.piece, 1)];
    FlatOne(cs[0]);
    FlatTwo(both[0], both[1]);
    assert both == [both[0], both[1]];
    assert d[..2] == [d[0], d[1]];
    AllInCommon(d, both, c, 2);
    StepByte(limits, d, cs, c, both, 2);
    KeepAll(both, 2);
    RecalcTwo(both[0], both[1]);
  }

  lemma RecalcTwo(a: Chunk, b: Chunk)
    ensures Recalc([a, b]) == [Chunk(a.data, |a.data|), b]
  {
  }

  // ---- What the spoilt index reads --------------------------------------------------------------

  /** Three one-byte chunks, the first claiming offset one. */
  ghost predicate Spoilt(cs: seq<Chunk>, a: byte, b: byte, c: byte, second: nat) {
    second >= 1 && cs == [Chunk([a], 1), Chunk([b], second), Chunk([c], second + 1)]
  }

  lemma SpoiltFlat(cs: seq<Chunk>, a: byte, b: byte, c: byte, second: nat)
    requires Spoilt(cs, a, b, c, second)
    ensures Flat(cs) == [a, b, c] && Flat(cs[1..]) == [b, c] && Flat(cs[2..]) == [c] && Stale(cs)
  {
    FlatThree(cs[0], cs[1], cs[2]);
    assert cs[1..] == [cs[1], cs[2]];
    FlatTwo(cs[1], cs[2]);
    assert cs[2..] == [cs[2]];
    FlatOne(cs[2]);
  }

  /** The three-byte block of fresh memory cannot be taken for the start of the delimiter. */
  ghost predicate Unlike(junk: Memory, d: seq<byte>)
    requires d != []
  {
    BlockOf(junk, 3) != [] && BlockOf(junk, 3)[0] != d[0]
  }

  /** At offset zero nothing is found, so the fresh memory is compared instead. */
  lemma ReadThree(d: seq<byte>, cs: seq<Chunk>, junk: Memory)
    requires |d| >= 3 && Stale(cs) && |Flat(cs)| == 3 && Unlike(junk, d)
    ensures !BlockMatches(d, cs, 3, junk)
  {
    StaleMissesZero(cs);
    assert Block(cs, 3, junk) == BlockOf(junk, 3);
    assert d[..3][0] == d[0];
  }

  /** At offset one: the first two bytes. */
  lemma ReadTwo(d: seq<byte>, cs: seq<Chunk>, a: byte, b: byte, c: byte, second: nat, junk: Memory)
    requires |d| >= 3 && Spoilt(cs, a, b, c, second)
    ensures |Flat(cs)| == 3 && (BlockMatches(d, cs, 2, junk) <==> d[0] == a && d[1] == b)
  {
    SpoiltFlat(cs, a, b, c, second);
    assert PosForOffset(cs, 1) == Some(0);
    assert TailFrom(cs, 0, 1)[..2] == [a, b];
    PrefixOfPadded(d[..2], [a, b], BlockOf(junk, 2));
    assert d[..2] == [d[0], d[1]];
  }

  /** At offset two: the byte in the middle. */
  lemma ReadOne(d: seq<byte>, cs: seq<Chunk>, a: byte, b: byte, c: byte, junk: Memory)
    requires |d| >= 3 && Spoilt(cs, a, b, c, 2)
    ensures |Flat(cs)| == 3 && (BlockMatches(d, cs, 1, junk) <==> d[0] == b)
  {
    SpoiltFlat(cs, a, b, c, 2);
    assert PosForOffset(cs, 2) == Search(cs, 2, 0, 2, 0) == Search(cs, 2, 1, 2, 1) == Some(1);
    assert TailFrom(cs, 1, 2)[..1] == [b];
    PrefixOfPadded(d[..1], [b], BlockOf(junk, 1));
    assert d[..1] == [d[0]];
  }

  /** From two or three down: `n` is two. */
  lemma CountDown(d: seq<byte>, cs: seq<Chunk>, top: nat, n: nat, junk: Memory)
    requires n == 2 && |d| > n && |Flat(cs)| > n && n <= top <= n + 1 && !BlockMatches(d, cs, n + 1, junk)
    ensures BlockMatches(d, cs, n, junk) ==> LastBytesInCommon(d, cs, top, junk) == n
    ensures !BlockMatches(d, cs, n, junk) && !BlockMatches(d, cs, n - 1, junk) ==> LastBytesInCommon(d, cs, top, junk) == 0
  {
    Count(d, cs, n + 1, junk);
    Count(d, cs, n, junk);
    Count(d, cs, n - 1, junk);
  }

  lemma NotThere(d: seq<byte>, a: byte, b: byte, c: byte)
    requires |d| >= 3 && (b != d[1] || a != d[0] || c != d[2])
    ensures !OccursAt([a, b, c], d, 0)
  {
    var s := [a, b, c];
    assert |d| == 3 ==> s[0..3] == s && s[0] == a && s[1] == b && s[2] == c;
  }

  // ---- The two writes it misleads ---------------------------------------------------------------

  /** Third write: the wrong two bytes are taken for the start of the delimiter and the first is given away. */
  lemma ThirdByte(limits: Limits, d: seq<byte>, x: byte, junk: Memory, cs: seq<Chunk>, next: seq<Chunk>)
    requires limits == DEFAULT_LIMITS && |d| >= 3 && x != d[2] && Unlike(junk, d)
    requires cs == [Chunk([d[0]], 1), Chunk([d[1]], 1)] && next == [Chunk([d[1]], 1), Chunk([x], 2)]
    ensures StepChunks(limits, d, cs, [x], junk) == More(next, [d[0]], 1)
  {
    var c := Call([x], junk);
    var all := cs + [Chunk(c.piece, 2)];
    FlatTwo(cs[0], cs[1]);
    SpoiltKeep(all, d[0], d[1], x, next);
    ThirdInCommon(d, x, junk, all);
    NotThere(d, d[0], d[1], x);
    StepByte(limits, d, cs, c, all, 2);
  }

  lemma SpoiltKeep(cs: seq<Chunk>, a: byte, b: byte, c: byte, next: seq<Chunk>)
    requires Spoilt(cs, a, b, c, 1) && next == [Chunk([b], 1), Chunk([c], 2)]
    ensures Flat(cs) == [a, b, c] && Keep(cs, 2) == next && Flat(cs)[..1] == [a]
  {
    SpoiltFlat(cs, a, b, c, 1);
    assert cs[1..] == [cs[1], cs[2]];
    RecalcTwo(cs[1], cs[2]);
    assert Keep(cs, 2) == DisplaceChunks(cs, 1) == DisplaceChunks(cs[1..], 0) == Recalc(cs[1..]);
  }

  lemma ThirdInCommon(d: seq<byte>, x: byte, junk: Memory, cs: seq<Chunk>)
    requires |d| >= 3 && Unlike(junk, d) && Spoilt(cs, d[0], d[1], x, 1)
    ensures |Flat(cs)| == 3 && LastBytesInCommon(d, cs, Min(3, |d| - 1), junk) == 2
  {
    SpoiltFlat(cs, d[0], d[1], x, 1);
    ReadThree(d, cs, junk);
    ReadTwo(d, cs, d[0], d[1], x, 1, junk);
    CountDown(d, cs, Min(3, |d| - 1), 2, junk);
  }

  /** Fourth write: a byte that does start a delimiter is not recognised and everything is given away. */
  lemma FourthByte(limits: Limits, d: seq<byte>, x: byte, junk: Memory, cs: seq<Chunk>)
    requires limits == DEFAULT_LIMITS && |d| >= 3 && x != d[0] && Unlike(junk, d)
    requires cs == [Chunk([d[1]], 1), Chunk([x], 2)]
    ensures StepChunks(limits, d, cs, [d[0]], junk) == More([], [d[1], x, d[0]], 1)
  {
    var c := Call([d[0]], junk);
    var all := cs + [Chunk(c.piece, 3)];
    FlatTwo(cs[0], cs[1]);
    SpoiltFlat(all, d[1], x, d[0], 2);
    FourthInCommon(d, x, junk, all);
    NotThere(d, d[1], x, d[0]);
    StepByte(limits, d, cs, c, all, 0);
    assert Flat(all)[..3] == Flat(all);
  }

  lemma FourthInCommon(d: seq<byte>, x: byte, junk: Memory, cs: seq<Chunk>)
    requires |d| >= 3 && x != d[0] && Unlike(junk, d) && Spoilt(cs, d[1], x, d[0], 2)
    ensures |Flat(cs)| == 3 && LastBytesInCommon(d, cs, Min(3, |d| - 1), junk) == 0
  {
    SpoiltFlat(cs, d[1], x, d[0], 2);
    ReadThree(d, cs, junk);
    ReadTwo(d, cs, d[1], x, d[0], 2, junk);
    ReadOne(d, cs, d[1], x, d[0], junk);
    CountDown(d, cs, Min(3, |d| - 1), 2, junk);
  }

  // ---- The run ----------------------------------------------------------------------------------

  ghost predicate Reached(st: Progress, chunks: seq<Chunk>, released: seq<byte>, consumed: seq<byte>) {
    st.Reading? && st.chunks == chunks && st.released == released && st.consumed == consumed
  }

  lemma AfterOne(limits: Limits, d: seq<byte>, junk: Memory, none: seq<Call>, one: seq<Chunk>)
    requires limits == DEFAULT_LIMITS && |d| >= 3 && |none| == 0 && one == [Chunk([d[0]], 0)]
    ensures Reached(Run(limits, d, none + [Call([d[0]], junk)]), one, [], [d[0]])
  {
    FirstByte(limits, d, Call([d[0]], junk), one);
    RunByte(limits, d, none, Call([d[0]], junk), Run(limits, d, none), More(one, [], 1));
  }

  lemma AfterTwo(limits: Limits, d: seq<byte>, junk: Memory, first: seq<Call>, one: seq<Chunk>, two: seq<Chunk>)
    requires limits == DEFAULT_LIMITS && |d| >= 3
    requires one == [Chunk([d[0]], 0)] && two == [Chunk([d[0]], 1), Chunk([d[1]], 1)]
    requires Reached(Run(limits, d, first), one, [], [d[0]])
    ensures Reached(Run(limits, d, first + [Call([d[1]], junk)]), two, [], [d[0], d[1]])
  {
    SecondByte(limits, d, Call([d[1]], junk), one, two);
    RunByte(limits, d, first, Call([d[1]], junk), Run(limits, d, first), More(two, [], 1));
  }

  lemma AfterThree(limits: Limits, d: seq<byte>, x: byte, junk: Memory, two: seq<Call>, before: seq<Chunk>, after: seq<Chunk>)
    requires limits == DEFAULT_LIMITS && |d| >= 3 && x != d[2] && Unlike(junk, d)
    requires before == [Chunk([d[0]], 1), Chunk([d[1]], 1)] && after == [Chunk([d[1]], 1), Chunk([x], 2)]
    requires Reached(Run(limits, d, two), before, [], [d[0], d[1]])
    ensures Reached(Run(limits, d, two + [Call([x], junk)]), after, [d[0]], [d[0], d[1], x])
  {
    ThirdByte(limits, d, x, junk, before, after);
    RunByte(limits, d, two, Call([x], junk), Run(limits, d, two), More(after, [d[0]], 1));
  }

  /** What becomes of the four bytes: all of them are given away. */
  lemma AfterFour(limits: Limits, d: seq<byte>, x: byte, junk: Memory, three: seq<Call>, before: seq<Chunk>)
    requires limits == DEFAULT_LIMITS && |d| >= 3 && x != d[0] && Unlike(junk, d)
    requires before == [Chunk([d[1]], 1), Chunk([x], 2)]
    requires Reached(Run(limits, d, three), before, [d[0]], [d[0], d[1], x])
    ensures Reached(Run(limits, d, three + [Call([d[0]], junk)]), [], [d[0], d[1], x, d[0]], [d[0], d[1], x, d[0]])
  {
    FourthByte(limits, d, x, junk, before);
    RunByte(limits, d, three, Call([d[0]], junk), Run(limits, d, three), More([], [d[1], x, d[0]], 1));
  }

  lemma TwoWrites(limits: Limits, d: seq<byte>, junk: Memory, none: seq<Call>, held: seq<Chunk>) returns (calls: seq<Call>)
    requires limits == DEFAULT_LIMITS && |d| >= 3 && |none| == 0 && held == [Chunk([d[0]], 1), Chunk([d[1]], 1)]
    ensures forall i | 0 <= i < |calls| :: |calls[i].piece| == 1 && calls[i].junk == junk
    ensures Reached(Run(limits, d, calls), held, [], [d[0], d[1]])
  {
    var one := [Chunk([d[0]], 0)];
    var first := none + [Call([d[0]], junk)];
    AfterOne(limits, d, junk, none, one);
    AfterTwo(limits, d, junk, first, one, held);
    calls := first + [Call([d[1]], junk)];
  }

  lemma FourWrites(limits: Limits, d: seq<byte>, x: byte, junk: Memory, none: seq<Call>) returns (calls: seq<Call>, gone: seq<byte>)
    requires limits == DEFAULT_LIMITS && |d| >= 3 && x != d[0] && x != d[2] && Unlike(junk, d) && |none| == 0
    ensures forall i | 0 <= i < |calls| :: |calls[i].piece| == 1 && calls[i].junk == junk
    ensures gone == [d[0], d[1], x, d[0]] && Reached(Run(limits, d, calls), [], gone, gone)
  {
    var before, after := [Chunk([d[0]], 1), Chunk([d[1]], 1)], [Chunk([d[1]], 1), Chunk([x], 2)];
    var two := TwoWrites(limits, d, junk, none, before);
    var three := two + [Call([x], junk)];
    AfterThree(limits, d, x, junk, two, before, after);
    AfterFour(limits, d, x, junk, three, after);
    calls, gone := three + [Call([d[0]], junk)], [d[0], d[1], x, d[0]];
  }

  // ---- A byte at a time -------------------------------------------------------------------------

  /** What the buffer looks like between one-byte writes. */
  ghost predicate Bytewise(cs: seq<Chunk>, size: nat) {
    Sound(cs, size) && |cs| <= 2 && (|cs| == 2 ==> Stale(cs))
  }

  lemma {:induction false} OneByteChunks(cs: seq<Chunk>, size: nat)
    requires Sized(cs, size) && size == 1
    ensures |Flat(cs)| == |cs|
  {
    if cs != [] {
      OneByteChunks(cs[1..], size);
    }
  }

  /** Three one-byte chunks are always stale, so of the three bytes at most two are taken for the start of a
      delimiter. */
  lemma AtMostTwo(d: seq<byte>, cs: seq<Chunk>, next: seq<Chunk>, top: nat, junk: Memory)
    requires |d| >= 3 && Bytewise(cs, 1) && Unlike(junk, d) && Sound(next, 1) && |next| == |cs| + 1
    requires (Indexed(next) <==> Indexed(cs)) && top <= |d| && |Flat(next)| == |next| == top
    ensures LastBytesInCommon(d, next, top, junk) <= 2
  {
    if top == 3 {
      ReadThree(d, next, junk);
      Count(d, next, top, junk);
    }
  }

  lemma KeepBytewise(cs: seq<Chunk>, v: nat, size: nat)
    requires Sound(cs, size) && size == 1 && v <= 2 && v <= |Flat(cs)|
    ensures Bytewise(Keep(cs, v), size) && |Keep(cs, v)| == v
  {
    KeepExact(cs, v, size);
    OneByteChunks(Keep(cs, v), size);
  }

  /** One more byte: never more than two are held back, so no delimiter longer than what is then in the buffer
      is found. */
  lemma StepBytewise(limits: Limits, d: seq<byte>, cs: seq<Chunk>, c: Call, size: nat)
    requires limits == DEFAULT_LIMITS && size == 1 && |d| >= 3 && Bytewise(cs, size) && |cs| + 1 < |d|
    requires |c.piece| == size && Unlike(c.junk, d)
    ensures var s := StepChunks(limits, d, cs, c.piece, c.junk);
      s.More? && s.consumed == |c.piece| && Bytewise(s.chunks, size) && |s.chunks| <= |cs| + 1
  {
    var next := cs + [Chunk(c.piece, EndOffset(cs))];
    PushChunk(cs, c.piece, size);
    OneByteChunks(cs, size);
    OneByteChunks(next, size);
    AtMostTwo(d, cs, next, |next|, c.junk);
    var v := LastBytesInCommon(d, next, |next|, c.junk);
    StepByte(limits, d, cs, c, next, v);
    KeepBytewise(next, v, size);
  }

  /** One write for every byte of `s`. */
  function Singles(s: seq<byte>, junk: Memory): (calls: seq<Call>)
    ensures |calls| == |s| && forall i | 0 <= i < |calls| :: calls[i] == Call([s[i]], junk)
  {
    if s == [] then [] else Singles(s[..|s| - 1], junk) + [Call([s[|s| - 1]], junk)]
  }

  lemma RunBytewise(limits: Limits, d: seq<byte>, calls: seq<Call>, c: Call, st: Progress)
    requires limits == DEFAULT_LIMITS && |d| >= 3 && |c.piece| == 1 && Unlike(c.junk, d)
    requires st == Run(limits, d, calls) && st.Reading? && Bytewise(st.chunks, 1) && |st.chunks| + 1 < |d|
    ensures var next := Run(limits, d, calls + [c]);
      && next.Reading? && Bytewise(next.chunks, 1) && |next.chunks| <= |st.chunks| + 1
      && next.consumed == st.consumed + c.piece
  {
    StepBytewise(limits, d, st.chunks, c, 1);
    RunByte(limits, d, calls, c, st, StepChunks(limits, d, st.chunks, c.piece, c.junk));
  }

  lemma SinglesSnoc(before: seq<Call>, s: seq<byte>, n: nat, junk: Memory)
    requires |s| == n + 1
    ensures before + Singles(s, junk) == (before + Singles(s[..n], junk)) + [Call([s[n]], junk)]
    ensures s == s[..n] + [s[n]]
  {
  }

  /** The run waits on, with a byte-wise buffer of at most `room` chunks, having consumed `consumed`. */
  ghost predicate Waits(st: Progress, room: nat, consumed: seq<byte>) {
    st.Reading? && Bytewise(st.chunks, 1) && |st.chunks| <= room && st.consumed == consumed
  }

  lemma WaitsOn(limits: Limits, d: seq<byte>, calls: seq<Call>, c: Call, room: nat, consumed: seq<byte>)
    requires limits == DEFAULT_LIMITS && |d| >= 3 && |c.piece| == 1 && Unlike(c.junk, d)
    requires Waits(Run(limits, d, calls), room, consumed) && (|d| >= 4 || room + 1 < |d|)
    ensures Waits(Run(limits, d, calls + [c]), room + 1, consumed + c.piece)
  {
    RunBytewise(limits, d, calls, c, Run(limits, d, calls));
  }

  /** Byte after byte goes by while the delimiter is longer than what can be in the buffer. */
  lemma {:induction false} FeedBytes(limits: Limits, d: seq<byte>, before: seq<Call>, s: seq<byte>, n: nat, junk: Memory, consumed: seq<byte>)
    requires limits == DEFAULT_LIMITS && |d| >= 3 && Unlike(junk, d) && n == |s| && (|d| >= 4 || n < |d|)
    requires Waits(Run(limits, d, before), 0, consumed)
    ensures Waits(Run(limits, d, before + Singles(s, junk)), n, consumed + s)
    decreases n
  {
    if n == 0 {
      assert before + Singles(s, junk) == before && consumed + s == consumed;
    } else {
      var m: nat := n - 1;
      var calls := before + Singles(s[..m], junk);
      FeedBytes(limits, d, before, s[..m], m, junk, consumed);
      WaitsOn(limits, d, calls, Call([s[m]], junk), m, consumed + s[..m]);
      SinglesSnoc(before, s, m, junk);
      assert consumed + s == consumed + s[..m] + [s[m]];
    }
  }

  /** A stream that comes a byte at a time can bring any number of delimiters of four bytes or more: none is
      recognised while fresh memory does not look like one. */
  lemma NeverRecognised(d: seq<byte>, s: seq<byte>, junk: Memory)
    requires |d| >= 4 && Unlike(junk, d)
    ensures var st := Run(DEFAULT_LIMITS, d, Singles(s, junk)); st.Reading? && st.consumed == s
  {
    FeedBytes(DEFAULT_LIMITS, d, [], s, |s|, junk, []);
    assert [] + Singles(s, junk) == Singles(s, junk) && [] + s == s;
  }

  function OtherByte(a: byte, b: byte): (x: byte)
    ensures x != a && x != b
  {
    if a != 0 && b != 0 then 0 else if a != 1 && b != 1 then 1 else 2
  }

  lemma TailAfter(a: byte, b: byte, x: byte, d: seq<byte>, s: seq<byte>)
    requires d != [] && s == [a, b, x, d[0]] + d[1..]
    ensures OccursAt(s, d, 3)
  {
    assert s[3..3 + |d|] == d;
  }

  lemma LostAfterFour(limits: Limits, d: seq<byte>, x: byte, junk: Memory, none: seq<Call>) returns (calls: seq<Call>)
    requires limits == DEFAULT_LIMITS && |d| >= 3 && x != d[0] && x != d[2] && Unlike(junk, d) && |none| == 0
    ensures forall i | 0 <= i < |calls| :: |calls[i].piece| == 1 && calls[i].junk == junk
    ensures var st := Run(limits, d, calls); st.Reading? && OccursAt(st.consumed, d, 3)
  {
    var four, gone := FourWrites(limits, d, x, junk, none);
    var rest := d[1..];
    FeedBytes(limits, d, four, rest, |rest|, junk, gone);
    TailAfter(d[0], d[1], x, d, gone + rest);
    calls := four + Singles(rest, junk);
  }

  /** For every delimiter of three bytes or more there is a cut under which a whole delimiter goes by. */
  lemma LongDelimiterBroken(d: seq<byte>) returns (calls: seq<Call>)
    requires |d| >= 3
    ensures Physical(d, calls)
    ensures var st := Run(DEFAULT_LIMITS, d, calls); st.Reading? && OccursAt(st.consumed, d, 3)
  {
    var junk := Filled(OtherByte(d[0], d[0]), |d| + 1);
    calls := LostAfterFour(DEFAULT_LIMITS, d, OtherByte(d[0], d[2]), junk, []);
  }

  /** The design's law holds under every cut of every stream for exactly the delimiters of at most two bytes:
      so does what it says about the bytes held back, and so does that no delimiter goes by. */
  lemma LawExactlyForShortDelimiters(d: seq<byte>)
    requires d != []
    ensures AlwaysObserved(d) <==> |d| <= 2
    ensures AlwaysLawful(d) <==> |d| <= 2
  {
    if |d| <= 2 {
      forall calls | Physical(d, calls)
        ensures Lawful(d, Run(DEFAULT_LIMITS, d, calls)) && Observed(d, Run(DEFAULT_LIMITS, d, calls))
      {
        ShortDelimiterCorrect(d, calls);
      }
    } else {
      var calls := LongDelimiterBroken(d);
      assert !Observed(d, Run(DEFAULT_LIMITS, d, calls)) && !Lawful(d, Run(DEFAULT_LIMITS, d, calls));
    }
  }
}
