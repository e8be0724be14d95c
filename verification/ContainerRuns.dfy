/** Whole lives of a chunked container: any run of its operations against one flat byte sequence, exactly when
    the two agree, and exactly when the offset index can be trusted along the way. */
module ContainerRuns {
  import opened Bytes
  import opened ChunkLayout
  import opened ChunkStore

  /** The chunks and the byte counter kept beside them. */
  datatype Store = Store(chunks: seq<Chunk>, bytes: nat)

  datatype Op = Append(buf: seq<byte>) | Displace(n: nat) | Truncate(n: nat) | Clear

  /** What an operation reports, and the store it leaves. */
  datatype Report = Report(ok: bool, count: nat, store: Store)

  function Step(g: Limits, s: Store, op: Op): Report
    requires g.maxChunkSize > 0
  {
    match op
    case Append(buf) =>
      if |buf| + s.bytes >= U64 || |buf| + s.bytes > g.maxSize then Report(false, 0, s)
      else
        var r := AppendChunks(s.chunks, buf, g.maxChunkSize, g.maxChunks);
        Report(r.ok, r.count, Store(r.chunks, s.bytes + r.count))
    case Displace(n) =>
      var asked := Min(n, s.bytes);
      var count := Min(asked, |Flat(s.chunks)|);
      Report(true, count, Store(DisplaceChunks(s.chunks, asked), s.bytes - count))
    case Truncate(n) =>
      if n >= s.bytes then Report(false, s.bytes, s)
      else
        var r := TruncateChunks(s.chunks, n);
        if r.None? then Report(false, 0, s) else Report(true, n, Store(r.value, n))
    case Clear => Report(true, 0, Store([], 0))
  }

  /** The same operation on plain bytes; an append adds what it reports. */
  function OnBytes(flat: seq<byte>, op: Op, count: nat): seq<byte> {
    match op
    case Append(buf) => flat + buf[..Min(count, |buf|)]
    case Displace(n) => flat[Min(n, |flat|)..]
    case Truncate(n) => flat[..Min(n, |flat|)]
    case Clear => []
  }

  ghost predicate Same(s: Store, flat: seq<byte>) {
    Flat(s.chunks) == flat && s.bytes == |flat|
  }

  ghost predicate Healthy(g: Limits, s: Store) {
    g.Valid() && Sound(s.chunks, g.maxChunkSize) && |s.chunks| <= g.maxChunks && s.bytes == |Flat(s.chunks)| < U64
  }

  /** Truncation is the one operation that cuts by the index: it needs to find a chunk where the index says. */
  predicate Trusts(s: Store, op: Op) {
    op.Truncate? && op.n < s.bytes ==> FoundInPlace(s.chunks, op.n)
  }

  /** Will the index be right after the operation? */
  ghost predicate IndexAfter(s: Store, op: Op) {
    match op
    case Append(_) => Indexed(s.chunks)
    case Displace(n) => OneLeft(s.chunks, Min(n, s.bytes))
    case Truncate(_) => Indexed(s.chunks)
    case Clear => true
  }

  lemma AppendRefines(g: Limits, s: Store, buf: seq<byte>)
    requires Healthy(g, s)
    ensures var r := Step(g, s, Append(buf));
      && Same(r.store, OnBytes(Flat(s.chunks), Append(buf), r.count)) && Healthy(g, r.store)
      && (Indexed(r.store.chunks) <==> Indexed(s.chunks))
  {
    AppendExact(s.chunks, buf, g.maxChunkSize, g.maxChunks);
    assert Flat(s.chunks) + buf[..0] == Flat(s.chunks);
  }

  lemma DisplaceRefines(g: Limits, s: Store, n: nat)
    requires Healthy(g, s)
    ensures var r := Step(g, s, Displace(n));
      && Same(r.store, OnBytes(Flat(s.chunks), Displace(n), r.count)) && Healthy(g, r.store)
      && (Indexed(r.store.chunks) <==> OneLeft(s.chunks, Min(n, s.bytes)))
  {
    TailOffsetsPositive(s.chunks, g.maxChunkSize);
    DisplaceExact(s.chunks, Min(n, s.bytes), g.maxChunkSize);
  }

  lemma TruncateRefines(g: Limits, s: Store, n: nat)
    requires Healthy(g, s)
    ensures var r := Step(g, s, Truncate(n));
      && (Same(r.store, OnBytes(Flat(s.chunks), Truncate(n), r.count)) <==> Trusts(s, Truncate(n)))
      && (Trusts(s, Truncate(n)) ==> Healthy(g, r.store) && (Indexed(r.store.chunks) <==> Indexed(s.chunks)))
  {
    if n < s.bytes {
      TruncateRightIff(s.chunks, n);
      if FoundInPlace(s.chunks, n) {
        TruncateKeepsIndex(s.chunks, n, g.maxChunkSize);
      }
    } else {
      assert Flat(s.chunks)[..|Flat(s.chunks)|] == Flat(s.chunks);
    }
  }

  /** An operation does to a healthy store what it does to plain bytes exactly when it can trust the index; then
      the store stays healthy, and whether its index is right can be told beforehand. */
  lemma StepRefines(g: Limits, s: Store, op: Op)
    requires Healthy(g, s)
    ensures var r := Step(g, s, op);
      && (Same(r.store, OnBytes(Flat(s.chunks), op, r.count)) <==> Trusts(s, op))
      && (Trusts(s, op) ==> Healthy(g, r.store) && (Indexed(r.store.chunks) <==> IndexAfter(s, op)))
  {
    match op
    case Append(buf) => AppendRefines(g, s, buf);
    case Displace(n) => DisplaceRefines(g, s, n);
    case Truncate(n) => TruncateRefines(g, s, n);
    case Clear =>
  }

  /** What an operation reports, told beforehand: an append takes all of the data or, when the size allows it, as
      much as the chunks still allowed can hold; a displacement takes what there is; a truncation below the size
      succeeds when the search finds a chunk. */
  lemma StepReports(g: Limits, s: Store, op: Op)
    requires Healthy(g, s)
    ensures var r := Step(g, s, op);
      match op
      case Append(buf) =>
        var room := g.maxChunkSize * (g.maxChunks - |s.chunks|);
        && (r.ok <==> |buf| + s.bytes <= g.maxSize && |buf| <= room)
        && r.count == if |buf| + s.bytes > g.maxSize then 0 else if |buf| <= room then |buf| else room
      case Displace(n) => r.ok && r.count == Min(n, s.bytes)
      case Truncate(n) =>
        && (r.ok <==> n < s.bytes && PosForOffset(s.chunks, n).Some?)
        && r.count == if n >= s.bytes then s.bytes else if r.ok then n else 0
      case Clear => r.ok
  {
    if op.Append? {
      AppendShortfall(s.chunks, op.buf, g.maxChunkSize, g.maxChunks);
      AppendExact(s.chunks, op.buf, g.maxChunkSize, g.maxChunks);
    }
  }

  ghost function LimitsOf(c: BChunks): Limits
    reads c
  {
    Limits(c.maxSize, c.maxChunkSize, c.maxChunks)
  }

  ghost function StoreOf(c: BChunks): Store
    reads c
  {
    Store(c.chunksVector, c.containerBytes)
  }

  /** The container object's operations are the steps. */
  method Apply(c: BChunks, op: Op) returns (ok: bool, count: nat)
    requires c.Valid() && c.maxSize < U64
    modifies c`chunksVector, c`containerBytes
    ensures Report(ok, count, StoreOf(c)) == Step(LimitsOf(c), old(StoreOf(c)), op)
    ensures Trusts(old(StoreOf(c)), op) ==> c.Valid()
  {
    match op {
      case Append(buf) =>
        ok, count := c.Append(buf);
      case Displace(n) =>
        ok, count := c.Displace(n);
      case Truncate(n) =>
        ok, count := c.Truncate(n);
      case Clear =>
        c.Clear();
        ok, count := true, 0;
    }
  }

  // ---- Runs ---------------------------------------------------------------------------------------

  function Run(g: Limits, s: Store, ops: seq<Op>): Store
    requires g.maxChunkSize > 0
    decreases |ops|
  {
    if ops == [] then s else Run(g, Step(g, s, ops[0]).store, ops[1..])
  }

  /** The container and the plain bytes agree at the start and after every operation of the run. */
  ghost predicate AgreesThroughout(g: Limits, s: Store, flat: seq<byte>, ops: seq<Op>)
    requires g.maxChunkSize > 0
    decreases |ops|
  {
    && Same(s, flat)
    && (ops != [] ==>
          var r := Step(g, s, ops[0]);
          AgreesThroughout(g, r.store, OnBytes(flat, ops[0], r.count), ops[1..]))
  }

  /** Every truncation of the run finds its chunk where the index says. */
  predicate TrustedRun(g: Limits, s: Store, ops: seq<Op>)
    requires g.maxChunkSize > 0
    decreases |ops|
  {
    ops != [] ==> Trusts(s, ops[0]) && TrustedRun(g, Step(g, s, ops[0]).store, ops[1..])
  }

  /** Any run of appends, displacements, truncations and clears is the same run on plain bytes exactly when
      every truncation finds its chunk in place; the first that does not breaks the agreement. */
  lemma {:induction false} RunRefines(g: Limits, s: Store, ops: seq<Op>)
    requires Healthy(g, s)
    ensures AgreesThroughout(g, s, Flat(s.chunks), ops) <==> TrustedRun(g, s, ops)
    ensures TrustedRun(g, s, ops) ==> Healthy(g, Run(g, s, ops))
    decreases |ops|
  {
    if ops != [] {
      StepRefines(g, s, ops[0]);
      if Trusts(s, ops[0]) {
        RunRefines(g, Step(g, s, ops[0]).store, ops[1..]);
      }
    }
  }

  /** The index is right at the start and after every operation of the run. */
  ghost predicate IndexedThroughout(g: Limits, s: Store, ops: seq<Op>)
    requires g.maxChunkSize > 0
    decreases |ops|
  {
    Indexed(s.chunks) && (ops != [] ==> IndexedThroughout(g, Step(g, s, ops[0]).store, ops[1..]))
  }

  /** Every displacement of the run keeps no more than the last chunk. */
  predicate LeavesOne(g: Limits, s: Store, ops: seq<Op>)
    requires g.maxChunkSize > 0
    decreases |ops|
  {
    ops != [] ==>
      && (ops[0].Displace? ==> OneLeft(s.chunks, Min(ops[0].n, s.bytes)))
      && LeavesOne(g, Step(g, s, ops[0]).store, ops[1..])
  }

  lemma IndexedTrusts(g: Limits, s: Store, op: Op)
    requires Healthy(g, s) && Indexed(s.chunks)
    ensures Trusts(s, op)
  {
    if op.Truncate? && op.n < s.bytes {
      RightIndexInPlace(s.chunks, op.n);
    }
  }

  /** A run never loses its index exactly when each displacement keeps no more than the last chunk; then it may
      truncate freely. */
  lemma {:induction false} IndexKept(g: Limits, s: Store, ops: seq<Op>)
    requires Healthy(g, s) && Indexed(s.chunks)
    ensures IndexedThroughout(g, s, ops) <==> LeavesOne(g, s, ops)
    ensures LeavesOne(g, s, ops) ==> TrustedRun(g, s, ops)
    decreases |ops|
  {
    if ops != [] {
      IndexedTrusts(g, s, ops[0]);
      StepRefines(g, s, ops[0]);
      if IndexAfter(s, ops[0]) {
        IndexKept(g, Step(g, s, ops[0]).store, ops[1..]);
      }
    }
  }

  /** The index is lost by exactly the displacements that keep more than the last chunk, and with it the copy of
      the whole container and some truncation. */
  lemma CopyAfterDisplaceIff(g: Limits, s: Store, n: nat)
    requires Healthy(g, s) && n < s.bytes
    ensures var next := Step(g, s, Displace(n)).store.chunks;
      && (CopyOut(next, |Flat(next)|, 0) == Copied(true, Flat(s.chunks)[n..]) <==> OneLeft(s.chunks, n))
      && ((forall k: nat | k < |Flat(next)| :: TruncatesTo(next, k)) <==> OneLeft(s.chunks, n))
  {
    DisplaceRefines(g, s, n);
    var next := Step(g, s, Displace(n)).store.chunks;
    WholeCopyIffIndexed(next, g.maxChunkSize);
    TruncationsRightIffIndexed(next, g.maxChunkSize);
  }

  // ---- A run that goes wrong ------------------------------------------------------------------------

  lemma AppendOne(g: Limits, s: Store, buf: seq<byte>)
    requires g.Valid() && 0 < |buf| <= g.maxChunkSize && |s.chunks| < g.maxChunks && s.bytes + |buf| <= g.maxSize
    ensures Step(g, s, Append(buf))
         == Report(true, |buf|, Store(s.chunks + [Chunk(buf, EndOffset(s.chunks))], s.bytes + |buf|))
  {
    AppendOneChunk(s.chunks, buf, g.maxChunkSize, g.maxChunks);
  }

  lemma SecondOfTwo(a: byte, b: byte, x: Chunk, rest: seq<Chunk>)
    requires x.data == [a, b] && |rest| == 1
    ensures DisplaceChunks([x] + rest, 1) == [Chunk([b], 1)] + rest
  {
    var cut := [x.Displaced(1)] + rest;
    assert ([x] + rest)[1..] == rest && Flat([x] + rest) == x.data + Flat(rest);
    assert x.Displaced(1) == Chunk([b], x.offset);
    assert Revisited(1, 1) == 1;
    assert Recalc(cut) == [Chunk([b], 1)] + rest;
  }

  /** Two bytes, two bytes, one off the front, cut to one: the byte that should be left is dropped with all
      others, and the counter still says one. */
  lemma TruncationLosesAll(g: Limits, a: byte, b: byte, c: byte, d: byte)
    requires g.Valid() && g.maxChunkSize >= 2 && g.maxChunks >= 2 && g.maxSize >= 4
    ensures var ops := [Append([a, b]), Append([c, d]), Displace(1), Truncate(1)];
      Run(g, Store([], 0), ops) == Store([], 1) && !AgreesThroughout(g, Store([], 0), [], ops)
  {
    var ops := [Append([a, b]), Append([c, d]), Displace(1), Truncate(1)];
    var empty := Store([], 0);
    AppendOne(g, empty, [a, b]);
    var one := Step(g, empty, ops[0]).store;
    AppendOne(g, one, [c, d]);
    var two := Step(g, one, ops[1]).store;
    assert one.chunks == [Chunk([a, b], 0)] && two.chunks == [Chunk([a, b], 0)] + [Chunk([c, d], 2)];
    FlatAppend([Chunk([a, b], 0)], [Chunk([c, d], 2)]);
    FlatOne(Chunk([a, b], 0));
    FlatOne(Chunk([c, d], 2));
    SecondOfTwo(a, b, Chunk([a, b], 0), [Chunk([c, d], 2)]);
    var three := Step(g, two, ops[2]).store;
    assert three == Store([Chunk([b], 1), Chunk([c, d], 2)], 3);
    assert PosForOffset(three.chunks, 1) == Some(0);
    var four := Step(g, three, ops[3]).store;
    assert four == Store([], 1);
    RunOfTwo(g, two, ops[2..], three, four);
    RunOfTwo(g, empty, ops[..2], one, two);
    RunJoins(g, empty, ops[..2], ops[2..]);
    assert ops[..2] + ops[2..] == ops;
    if AgreesThroughout(g, empty, [], ops) {
      AgreementLasts(g, empty, [], ops);
    }
  }

  lemma RunOfTwo(g: Limits, s: Store, ops: seq<Op>, one: Store, two: Store)
    requires g.maxChunkSize > 0 && |ops| == 2
    requires one == Step(g, s, ops[0]).store && two == Step(g, one, ops[1]).store
    ensures Run(g, s, ops) == two
  {
    var last := ops[1..];
    assert last[0] == ops[1] && last[1..] == [];
    assert Run(g, one, last) == Run(g, two, last[1..]) == two;
  }

  lemma {:induction false} RunJoins(g: Limits, s: Store, a: seq<Op>, b: seq<Op>)
    requires g.maxChunkSize > 0
    ensures Run(g, s, a + b) == Run(g, Run(g, s, a), b)
    decreases |a|
  {
    if a == [] {
      assert a + b == b;
    } else {
      assert (a + b)[1..] == a[1..] + b;
      RunJoins(g, Step(g, s, a[0]).store, a[1..], b);
    }
  }

  lemma {:induction false} AgreementLasts(g: Limits, s: Store, flat: seq<byte>, ops: seq<Op>)
    requires g.maxChunkSize > 0 && AgreesThroughout(g, s, flat, ops)
    ensures var last := Run(g, s, ops); last.bytes == |Flat(last.chunks)|
    decreases |ops|
  {
    if ops != [] {
      var r := Step(g, s, ops[0]);
      AgreementLasts(g, r.store, OnBytes(flat, ops[0], r.count), ops[1..]);
    }
  }
}
