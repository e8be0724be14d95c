/** The direct-delimiter parser as it runs on the chunked container. The suffix to hold back is read
    through the offset index, and the displacement that leaves it in the buffer is what spoils the index:
    here is one write on a chunk vector, when it agrees with the flat algorithm, and for which delimiters
    the law therefore holds under every cut of the stream. */
module ChunkedDelimiter {
  import opened Bytes
  import opened ChunkLayout
  import opened DirectDelimiter

  /** The limits a container is constructed with. */
  const DEFAULT_LIMITS: Limits := Limits(U64 - 1, 65536, 262144)

  datatype ChunkStep =
    | Failed(chunks: seq<Chunk>)
    | More(chunks: seq<Chunk>, released: seq<byte>, consumed: nat)
    | Found(released: seq<byte>, consumed: nat)

  /** What freshly allocated memory happens to hold: entry `v` is the block of `v` bytes. */
  type Memory = seq<seq<byte>>

  function BlockOf(junk: Memory, v: nat): seq<byte> {
    if v < |junk| then junk[v] else []
  }

  /** The comparison block: what the copy wrote into it, then whatever the fresh memory held. */
  function Block(cs: seq<Chunk>, v: nat, junk: Memory): seq<byte>
    requires v <= |Flat(cs)|
  {
    CopyOut(cs, v, |Flat(cs)| - v).data + BlockOf(junk, v)
  }

  /** Does the block compare equal to the start of the delimiter? */
  predicate BlockMatches(d: seq<byte>, cs: seq<Chunk>, v: nat, junk: Memory)
    requires v <= |Flat(cs)| && v <= |d|
  {
    d[..v] <= Block(cs, v, junk)
  }

  /** Counting down from `v`: the first length at which the copied-out suffix compares equal to the start
      of the delimiter. */
  function LastBytesInCommon(d: seq<byte>, cs: seq<Chunk>, v: nat, junk: Memory): (r: nat)
    requires v <= |Flat(cs)| && v <= |d|
    ensures r <= v
  {
    if v == 0 || BlockMatches(d, cs, v, junk) then v else LastBytesInCommon(d, cs, v - 1, junk)
  }

  lemma Count(d: seq<byte>, cs: seq<Chunk>, v: nat, junk: Memory)
    requires 0 < v <= |d| && v <= |Flat(cs)|
    ensures LastBytesInCommon(d, cs, v, junk) == if BlockMatches(d, cs, v, junk) then v else LastBytesInCommon(d, cs, v - 1, junk)
  {
  }

  /** Every candidate longer than `v`, up to `top`, compares unequal. */
  ghost predicate NoneAbove(d: seq<byte>, cs: seq<Chunk>, v: nat, top: nat, junk: Memory)
    requires v <= top <= |d| && top <= |Flat(cs)|
    decreases top - v
  {
    v == top || (!BlockMatches(d, cs, v + 1, junk) && NoneAbove(d, cs, v + 1, top, junk))
  }

  /** Where the count stops. */
  lemma {:induction false} CountedDown(d: seq<byte>, cs: seq<Chunk>, top: nat, v: nat, junk: Memory)
    requires v <= top <= |d| && top <= |Flat(cs)| && NoneAbove(d, cs, v, top, junk)
    ensures LastBytesInCommon(d, cs, top, junk) == LastBytesInCommon(d, cs, v, junk)
    decreases top - v
  {
    if v < top {
      CountedDown(d, cs, top, v + 1, junk);
    }
  }

  lemma OneMore(d: seq<byte>, cs: seq<Chunk>, w: nat, v: nat, top: nat, junk: Memory)
    requires v == w + 1 && v <= top <= |d| && top <= |Flat(cs)|
    requires !BlockMatches(d, cs, v, junk) && NoneAbove(d, cs, v, top, junk)
    ensures NoneAbove(d, cs, w, top, junk)
  {
  }

  lemma CountStops(d: seq<byte>, cs: seq<Chunk>, top: nat, v: nat, junk: Memory)
    requires v <= top <= |d| && top <= |Flat(cs)| && NoneAbove(d, cs, v, top, junk)
    requires v == 0 || BlockMatches(d, cs, v, junk)
    ensures LastBytesInCommon(d, cs, top, junk) == v
  {
    CountedDown(d, cs, top, v, junk);
  }

  /** How much of a write the container takes: it is cut to the room left, unless there is none. */
  function Accepted(size: nat, count: nat, maxSize: nat): (n: nat)
    ensures n <= count
  {
    var left := if size > maxSize then 0 else maxSize - size;
    if count > left && left > 0 then left else count
  }

  ghost function StepChunks(limits: Limits, d: seq<byte>, cs: seq<Chunk>, piece: seq<byte>, junk: Memory): ChunkStep
    requires d != [] && limits.maxChunkSize > 0
  {
    var size := |Flat(cs)|;
    var count := Accepted(size, |piece|, limits.maxSize);
    if count == 0 || count + size >= U64 || count + size > limits.maxSize then Failed(cs)
    else
      var r := AppendChunks(cs, piece[..count], limits.maxChunkSize, limits.maxChunks);
      if !r.ok then Failed(r.chunks) else Scan(d, size, r.chunks, count, junk)
  }

  /** Once the write is in the buffer: look for the delimiter, or release all but the suffix in doubt. */
  ghost function Scan(d: seq<byte>, prevSize: nat, cs: seq<Chunk>, count: nat, junk: Memory): ChunkStep
    requires d != []
  {
    var b := Flat(cs);
    match Find(b, d, 0)
    case Some(p) => Found(b[..p], (p - prevSize + |d|) % U64)
    case None =>
      var v := LastBytesInCommon(d, cs, Min(|b|, |d| - 1), junk);
      More(Keep(cs, v), b[..|b| - v], count)
  }

  /** The buffer once all but its last `v` bytes have been given away. */
  function Keep(cs: seq<Chunk>, v: nat): seq<Chunk>
    requires v <= |Flat(cs)|
  {
    if v == 0 then [] else DisplaceChunks(cs, |Flat(cs)| - v)
  }

  lemma ScanMiss(d: seq<byte>, prevSize: nat, cs: seq<Chunk>, count: nat, junk: Memory, v: nat)
    requires d != [] && Find(Flat(cs), d, 0).None? && v == LastBytesInCommon(d, cs, Min(|Flat(cs)|, |d| - 1), junk)
    ensures Scan(d, prevSize, cs, count, junk) == More(Keep(cs, v), Flat(cs)[..|Flat(cs)| - v], count)
  {
  }

  lemma ScanHit(d: seq<byte>, prevSize: nat, cs: seq<Chunk>, count: nat, junk: Memory, p: nat)
    requires d != [] && Find(Flat(cs), d, 0) == Some(p)
    ensures Scan(d, prevSize, cs, count, junk) == Found(Flat(cs)[..p], (p - prevSize + |d|) % U64)
  {
  }

  // ---- One write -------------------------------------------------------------------------------

  /** A sound vector of at most `maxLen` chunks whose index is right exactly when no more than one of them is left. */
  ghost predicate Settled(limits: Limits, maxLen: nat, cs: seq<Chunk>) {
    Sound(cs, limits.maxChunkSize) && |cs| <= maxLen && (Indexed(cs) <==> |cs| <= 1)
  }

  /** The step did to the accepted bytes what the flat algorithm does, and left a settled vector. */
  ghost predicate RefinesFlat(limits: Limits, d: seq<byte>, held: seq<byte>, taken: seq<byte>, maxLen: nat, s: ChunkStep)
    requires d != [] && |held| < |d|
  {
    match s
    case Failed(_) => true
    case More(next, out, n) =>
      && n == |taken| && StepFlat(d, held, taken) == FlatMore(out, Flat(next))
      && Settled(limits, maxLen, next)
    case Found(out, n) =>
      && |held| <= |out| + |d|
      && StepFlat(d, held, taken) == FlatFound(out, n) && n == |out| + |d| - |held| <= |taken|
  }

  lemma BlockExact(d: seq<byte>, cs: seq<Chunk>, v: nat, junk: Memory)
    requires Indexed(cs) && |Flat(cs)| < U64 && v <= |Flat(cs)| && v < |d|
    ensures BlockMatches(d, cs, v, junk) <==> Border(Flat(cs), d, v)
  {
    var b := Flat(cs);
    var block := Block(cs, v, junk);
    SuffixCopied(cs, v);
    PaddedBorder(b, d, v, block, BlockOf(junk, v));
  }

  lemma PaddedBorder(b: seq<byte>, d: seq<byte>, v: nat, block: seq<byte>, pad: seq<byte>)
    requires v <= |b| && v < |d| && block == b[|b| - v..] + pad
    ensures d[..v] <= block <==> Border(b, d, v)
  {
    PrefixOfPadded(d[..v], b[|b| - v..], pad);
  }

  lemma SuffixCopied(cs: seq<Chunk>, v: nat)
    requires Indexed(cs) && |Flat(cs)| < U64 && v <= |Flat(cs)|
    ensures CopyOut(cs, v, |Flat(cs)| - v).data == Flat(cs)[|Flat(cs)| - v..]
  {
    CopyOutExact(cs, v, |Flat(cs)| - v);
  }

  lemma PrefixOfPadded(x: seq<byte>, y: seq<byte>, pad: seq<byte>)
    requires |x| == |y|
    ensures x <= y + pad <==> x == y
  {
  }

  lemma CountFlat(b: seq<byte>, d: seq<byte>, v: nat)
    requires d != [] && 0 < v <= |b| && v < |d|
    ensures LastInCommon(b, d, v) == if Border(b, d, v) then v else LastInCommon(b, d, v - 1)
  {
  }

  lemma SameCount(d: seq<byte>, cs: seq<Chunk>, b: seq<byte>, v: nat, junk: Memory)
    requires b == Flat(cs) && 0 < v <= |b| && v < |d|
    requires BlockMatches(d, cs, v, junk) <==> Border(b, d, v)
    requires LastBytesInCommon(d, cs, v - 1, junk) == LastInCommon(b, d, v - 1)
    ensures LastBytesInCommon(d, cs, v, junk) == LastInCommon(b, d, v)
  {
    Count(d, cs, v, junk);
    CountFlat(b, d, v);
  }

  lemma SameCountNext(d: seq<byte>, cs: seq<Chunk>, b: seq<byte>, w: nat, v: nat, junk: Memory)
    requires Indexed(cs) && b == Flat(cs) && |b| < U64 && v == w + 1 <= |b| && v < |d|
    requires LastBytesInCommon(d, cs, w, junk) == LastInCommon(b, d, w)
    ensures LastBytesInCommon(d, cs, v, junk) == LastInCommon(b, d, v)
  {
    BlockExact(d, cs, v, junk);
    SameCount(d, cs, b, v, junk);
  }

  /** With a right index the suffix read back is the true one, whatever the fresh memory held. */
  lemma {:induction false} LastBytesExact(d: seq<byte>, cs: seq<Chunk>, b: seq<byte>, top: nat, junk: Memory)
    requires d != [] && Indexed(cs) && b == Flat(cs) && |b| < U64 && top <= |b| && top < |d|
    ensures LastBytesInCommon(d, cs, top, junk) == LastInCommon(b, d, top)
  {
    if top > 0 {
      var w: nat := top - 1;
      LastBytesExact(d, cs, b, w, junk);
      SameCountNext(d, cs, b, w, top, junk);
    }
  }

  lemma ScanMisses(d: seq<byte>, held: seq<byte>, piece: seq<byte>, cs: seq<Chunk>, junk: Memory)
    requires d != [] && |held| < |d| && Flat(cs) == held + piece && |Flat(cs)| < U64 && Indexed(cs)
    requires Find(Flat(cs), d, 0).None?
    ensures var b := Flat(cs);
      var v := LastInCommon(b, d, Min(|b|, |d| - 1));
      && Scan(d, |held|, cs, |piece|, junk) == More(Keep(cs, v), b[..|b| - v], |piece|)
      && StepFlat(d, held, piece) == FlatMore(b[..|b| - v], b[|b| - v..])
  {
    var b := Flat(cs);
    LastBytesExact(d, cs, b, Min(|b|, |d| - 1), junk);
    var v := LastInCommon(b, d, Min(|b|, |d| - 1));
    ScanMiss(d, |held|, cs, |piece|, junk, v);
    FlatMiss(d, held, piece, b, v);
  }

  lemma FlatMiss(d: seq<byte>, held: seq<byte>, piece: seq<byte>, b: seq<byte>, v: nat)
    requires d != [] && |held| < |d| && b == held + piece && Find(b, d, 0).None?
    requires v == LastInCommon(b, d, Min(|b|, |d| - 1))
    ensures StepFlat(d, held, piece) == FlatMore(b[..|b| - v], b[|b| - v..])
  {
  }

  lemma ScanMissRefines(limits: Limits, d: seq<byte>, held: seq<byte>, piece: seq<byte>, cs: seq<Chunk>, junk: Memory, s: ChunkStep)
    requires d != [] && |held| < |d| && Flat(cs) == held + piece && |Flat(cs)| < U64
    requires Sound(cs, limits.maxChunkSize) && Indexed(cs) && Find(Flat(cs), d, 0).None?
    requires s == Scan(d, |held|, cs, |piece|, junk)
    ensures s.More? && RefinesFlat(limits, d, held, piece, |cs|, s)
  {
    ScanMisses(d, held, piece, cs, junk);
    KeepExact(cs, LastInCommon(Flat(cs), d, Min(|Flat(cs)|, |d| - 1)), limits.maxChunkSize);
  }

  lemma ScanHitRefines(limits: Limits, d: seq<byte>, held: seq<byte>, piece: seq<byte>, cs: seq<Chunk>, junk: Memory, s: ChunkStep)
    requires d != [] && |held| < |d| && Flat(cs) == held + piece && |Flat(cs)| < U64
    requires Find(Flat(cs), d, 0).Some? && s == Scan(d, |held|, cs, |piece|, junk)
    ensures s.Found? && RefinesFlat(limits, d, held, piece, |cs|, s)
  {
    ScanHit(d, |held|, cs, |piece|, junk, Find(Flat(cs), d, 0).value);
  }

  lemma ScanRefinesFlat(limits: Limits, d: seq<byte>, held: seq<byte>, piece: seq<byte>, cs: seq<Chunk>, junk: Memory, s: ChunkStep)
    requires d != [] && |held| < |d| && Flat(cs) == held + piece && |Flat(cs)| < U64
    requires Sound(cs, limits.maxChunkSize) && Indexed(cs) && s == Scan(d, |held|, cs, |piece|, junk)
    ensures !s.Failed? && RefinesFlat(limits, d, held, piece, |cs|, s)
  {
    if Find(Flat(cs), d, 0).None? {
      ScanMissRefines(limits, d, held, piece, cs, junk, s);
    } else {
      ScanHitRefines(limits, d, held, piece, cs, junk, s);
    }
  }

  lemma KeepExact(cs: seq<Chunk>, v: nat, maxChunkSize: nat)
    requires Sound(cs, maxChunkSize) && v <= |Flat(cs)|
    ensures var next := Keep(cs, v);
      && Flat(next) == Flat(cs)[|Flat(cs)| - v..] && |next| <= |cs|
      && Sound(next, maxChunkSize) && (Indexed(next) <==> |next| <= 1)
  {
    var n := |Flat(cs)| - v;
    if v > 0 {
      TailOffsetsPositive(cs, maxChunkSize);
      DisplaceExact(cs, n, maxChunkSize);
      assert Min(n, |Flat(cs)|) == n;
    } else {
      assert Flat(cs)[n..] == [];
    }
  }

  /** With a right index one write does what the flat algorithm does with the accepted bytes; the index is
      right afterwards exactly when at most one chunk is left holding the suffix. */
  lemma StepRefinesFlat(limits: Limits, d: seq<byte>, cs: seq<Chunk>, piece: seq<byte>, junk: Memory)
    requires d != [] && limits.Valid() && |cs| <= limits.maxChunks && |Flat(cs)| < |d|
    requires Sound(cs, limits.maxChunkSize) && Indexed(cs)
    ensures var taken := piece[..Accepted(|Flat(cs)|, |piece|, limits.maxSize)];
      RefinesFlat(limits, d, Flat(cs), taken, limits.maxChunks, StepChunks(limits, d, cs, piece, junk))
  {
    var count := Accepted(|Flat(cs)|, |piece|, limits.maxSize);
    if 0 < count && count + |Flat(cs)| < U64 && count + |Flat(cs)| <= limits.maxSize {
      AppendExact(cs, piece[..count], limits.maxChunkSize, limits.maxChunks);
      var r := AppendChunks(cs, piece[..count], limits.maxChunkSize, limits.maxChunks);
      if r.ok {
        ScanRefinesFlat(limits, d, Flat(cs), piece[..count], r.chunks, junk, Scan(d, |Flat(cs)|, r.chunks, count, junk));
      }
    }
  }

  lemma StepRefused(limits: Limits, d: seq<byte>, cs: seq<Chunk>, piece: seq<byte>, junk: Memory, count: nat)
    requires d != [] && limits.Valid() && count == Accepted(|Flat(cs)|, |piece|, limits.maxSize)
    ensures StepChunks(limits, d, cs, piece, junk).Failed? <==>
      count == 0 || count + |Flat(cs)| > limits.maxSize
      || !AppendChunks(cs, piece[..count], limits.maxChunkSize, limits.maxChunks).ok
  {
  }

  /** A write is refused exactly when it is empty, the container is full, or what it may still hold of the write
      does not fit the chunks it may still create. */
  lemma StepFailsIff(limits: Limits, d: seq<byte>, cs: seq<Chunk>, piece: seq<byte>, junk: Memory)
    requires d != [] && limits.Valid() && |cs| <= limits.maxChunks
    ensures StepChunks(limits, d, cs, piece, junk).Failed? <==>
      piece == [] || |Flat(cs)| >= limits.maxSize
      || Min(|piece|, limits.maxSize - |Flat(cs)|) > limits.maxChunkSize * (limits.maxChunks - |cs|)
  {
    var count := Accepted(|Flat(cs)|, |piece|, limits.maxSize);
    StepRefused(limits, d, cs, piece, junk, count);
    AppendShortfall(cs, piece[..count], limits.maxChunkSize, limits.maxChunks);
  }

  // ---- Runs: any cut of a stream into writes ----------------------------------------------------

  /** One write, with the contents of the fresh memory each comparison block will get. */
  datatype Call = Call(piece: seq<byte>, junk: Memory)

  /** Writes are non-empty, and a fresh block of any length the parser asks for has that many bytes. */
  ghost predicate Physical(d: seq<byte>, calls: seq<Call>) {
    forall i | 0 <= i < |calls| :: calls[i].piece != [] && forall v: nat | v < |d| :: |BlockOf(calls[i].junk, v)| >= v
  }

  /** A run reads on, or has met the delimiter, or a write reported more bytes than it was given, or was refused. */
  datatype Progress =
    | Reading(chunks: seq<Chunk>, released: seq<byte>, consumed: seq<byte>)
    | Done(released: seq<byte>, consumed: seq<byte>)
    | Overrun
    | Broken

  ghost function Advance(limits: Limits, d: seq<byte>, st: Progress, call: Call): Progress
    requires d != [] && limits.maxChunkSize > 0
  {
    if !st.Reading? then st
    else match StepChunks(limits, d, st.chunks, call.piece, call.junk)
      case Failed(_) => Broken
      case More(next, out, n) =>
        if n > |call.piece| then Overrun else Reading(next, st.released + out, st.consumed + call.piece[..n])
      case Found(out, n) =>
        if n > |call.piece| then Overrun else Done(st.released + out, st.consumed + call.piece[..n])
  }

  ghost function Run(limits: Limits, d: seq<byte>, calls: seq<Call>): Progress
    requires d != [] && limits.maxChunkSize > 0
  {
    if calls == [] then Reading([], [], [])
    else Advance(limits, d, Run(limits, d, calls[..|calls| - 1]), calls[|calls| - 1])
  }

  /** What the design promises of a run: while reading, no delimiter has gone by and the longest possible
      start of one is held back; when done, the stream is split at its first delimiter. */
  ghost predicate Correct(d: seq<byte>, st: Progress) {
    match st
    case Reading(cs, released, consumed) => Waiting(d, consumed, released, Flat(cs))
    case Done(released, consumed) => Split(d, consumed, released)
    case Overrun => false
    case Broken => true
  }

  /** What a client can observe of it: no delimiter has gone by unnoticed, and no byte has been given away
      that an arriving delimiter may need; when done, the stream is split at its first delimiter. */
  ghost predicate Lawful(d: seq<byte>, st: Progress) {
    match st
    case Reading(_, released, consumed) =>
      && Absent(consumed, d, 0) && released <= consumed
      && forall w | |consumed| - |released| < w :: !Border(consumed, d, w)
    case Done(released, consumed) => Split(d, consumed, released)
    case Overrun => false
    case Broken => true
  }

  /** The least a client can expect: while reading, no delimiter has gone by; when done, the stream is split at
      its first delimiter. */
  ghost predicate Observed(d: seq<byte>, st: Progress) {
    match st
    case Reading(_, _, consumed) => Absent(consumed, d, 0)
    case Done(released, consumed) => Split(d, consumed, released)
    case Overrun => false
    case Broken => true
  }

  /** After every write of the run the held suffix lies in a single chunk. */
  ghost predicate Tidy(limits: Limits, d: seq<byte>, calls: seq<Call>)
    requires d != [] && limits.maxChunkSize > 0
  {
    forall k | 0 <= k <= |calls| :: var st := Run(limits, d, calls[..k]); st.Reading? ==> |st.chunks| <= 1
  }

  /** A run whose held suffixes stay in a single chunk is correct, for every cut of the stream. */
  lemma {:induction false} TidyRunCorrect(limits: Limits, d: seq<byte>, calls: seq<Call>)
    requires d != [] && |d| < U64 && limits.Valid() && Tidy(limits, d, calls)
    ensures var st := Run(limits, d, calls);
      Correct(d, st) && (st.Reading? ==> Settled(limits, limits.maxChunks, st.chunks))
  {
    if calls != [] {
      var n := |calls| - 1;
      var init := calls[..n];
      assert forall k | 0 <= k <= n :: init[..k] == calls[..k];
      TidyRunCorrect(limits, d, init);
      var st := Run(limits, d, init);
      if st.Reading? {
        AdvanceCorrect(limits, d, st, calls[n]);
      }
    }
  }

  lemma AdvanceCorrect(limits: Limits, d: seq<byte>, st: Progress, call: Call)
    requires d != [] && |d| < U64 && limits.Valid() && st.Reading? && Correct(d, st)
    requires Settled(limits, limits.maxChunks, st.chunks) && |st.chunks| <= 1
    ensures var next := Advance(limits, d, st, call);
      Correct(d, next) && (next.Reading? ==> Settled(limits, limits.maxChunks, next.chunks))
  {
    StepLaw(limits, d, st.consumed, st.released, st.chunks, call.piece, call.junk);
  }

  /** One write from a waiting state with at most one chunk in the buffer. */
  lemma StepLaw(limits: Limits, d: seq<byte>, consumed: seq<byte>, released: seq<byte>, cs: seq<Chunk>, piece: seq<byte>, junk: Memory)
    requires d != [] && |d| < U64 && limits.Valid() && Waiting(d, consumed, released, Flat(cs))
    requires Settled(limits, limits.maxChunks, cs) && |cs| <= 1
    ensures KeepsLaw(limits, d, consumed, released, piece, StepChunks(limits, d, cs, piece, junk))
  {
    StepRefinesFlat(limits, d, cs, piece, junk);
    RefinedStepLaw(limits, d, consumed, released, Flat(cs), piece, Accepted(|Flat(cs)|, |piece|, limits.maxSize),
      StepChunks(limits, d, cs, piece, junk));
  }

  ghost predicate KeepsLaw(limits: Limits, d: seq<byte>, consumed: seq<byte>, released: seq<byte>, piece: seq<byte>, s: ChunkStep) {
    match s
    case Failed(_) => true
    case More(next, out, n) =>
      && n <= |piece| && Waiting(d, consumed + piece[..n], released + out, Flat(next))
      && Settled(limits, limits.maxChunks, next)
    case Found(out, n) => 0 < n <= |piece| && Split(d, consumed + piece[..n], released + out)
  }

  lemma RefinedStepLaw(limits: Limits, d: seq<byte>, consumed: seq<byte>, released: seq<byte>, held: seq<byte>,
      piece: seq<byte>, count: nat, s: ChunkStep)
    requires d != [] && Waiting(d, consumed, released, held) && count <= |piece|
    requires RefinesFlat(limits, d, held, piece[..count], limits.maxChunks, s)
    ensures KeepsLaw(limits, d, consumed, released, piece, s)
  {
    match s
    case Failed(_) =>
    case More(next, out, n) =>
      FlatMoreLaw(d, consumed, released, held, piece[..count], out, Flat(next));
    case Found(out, n) =>
      FlatFoundLaw(d, consumed, released, held, piece[..count], out, n);
      assert piece[..count][..n] == piece[..n];
  }

  lemma FlatMoreLaw(d: seq<byte>, consumed: seq<byte>, released: seq<byte>, held: seq<byte>, taken: seq<byte>, out: seq<byte>, keep: seq<byte>)
    requires d != [] && Waiting(d, consumed, released, held) && StepFlat(d, held, taken) == FlatMore(out, keep)
    ensures Waiting(d, consumed + taken, released + out, keep)
  {
    FlatStepLaw(d, consumed, released, held, taken);
  }

  lemma FlatFoundLaw(d: seq<byte>, consumed: seq<byte>, released: seq<byte>, held: seq<byte>, taken: seq<byte>, out: seq<byte>, n: nat)
    requires d != [] && Waiting(d, consumed, released, held) && StepFlat(d, held, taken) == FlatFound(out, n)
    ensures 0 < n <= |taken| && Split(d, consumed + taken[..n], released + out)
  {
    FlatStepLaw(d, consumed, released, held, taken);
  }

  // ---- When the held suffix stays in one chunk --------------------------------------------------

  lemma {:induction false} AppendedLast(cs: seq<Chunk>, buf: seq<byte>, maxChunkSize: nat, maxChunks: nat)
    requires maxChunkSize > 0 && buf != [] && AppendChunks(cs, buf, maxChunkSize, maxChunks).ok
    ensures var r := AppendChunks(cs, buf, maxChunkSize, maxChunks).chunks;
      r != [] && (|buf| <= maxChunkSize ==> r[|r| - 1].data == buf)
    decreases |buf|
  {
    var n := Min(|buf|, maxChunkSize);
    if n < |buf| {
      AppendedLast(cs + [Chunk(buf[..n], EndOffset(cs))], buf[n..], maxChunkSize, maxChunks);
    } else {
      assert buf[n..] == [] && buf[..n] == buf;
    }
  }

  /** What keeps a write tidy: a delimiter of at most two bytes, or a write that is at least one byte short
      of the delimiter and no longer than a chunk, with room for it. */
  ghost predicate Roomy(limits: Limits, d: seq<byte>, piece: seq<byte>) {
    |d| <= 2 || (|d| - 1 <= |piece| <= limits.maxChunkSize && 2 * (|d| - 1) <= limits.maxSize)
  }

  lemma ScanTidy(d: seq<byte>, prevSize: nat, cs: seq<Chunk>, count: nat, junk: Memory, maxChunkSize: nat)
    requires d != [] && cs != [] && Sized(cs, maxChunkSize) && |d| - 1 <= |cs[|cs| - 1].data|
    ensures var s := Scan(d, prevSize, cs, count, junk); s.More? ==> |s.chunks| <= 1
  {
    var b := Flat(cs);
    if Find(b, d, 0).None? {
      var v := LastBytesInCommon(d, cs, Min(|b|, |d| - 1), junk);
      DisplaceLeavesOne(cs, |b| - v, maxChunkSize);
    }
  }

  lemma StepTidy(limits: Limits, d: seq<byte>, cs: seq<Chunk>, piece: seq<byte>, junk: Memory)
    requires d != [] && limits.Valid() && |cs| <= 1 && |cs| <= limits.maxChunks && |Flat(cs)| < |d|
    requires Sound(cs, limits.maxChunkSize) && Roomy(limits, d, piece)
    ensures var s := StepChunks(limits, d, cs, piece, junk); s.More? ==> |s.chunks| <= 1
  {
    var count := Accepted(|Flat(cs)|, |piece|, limits.maxSize);
    var buf := piece[..count];
    var r := AppendChunks(cs, buf, limits.maxChunkSize, limits.maxChunks);
    if 0 < count && r.ok {
      LastChunkWide(limits, d, cs, buf);
      AppendExact(cs, buf, limits.maxChunkSize, limits.maxChunks);
      if count + |Flat(cs)| < U64 && count + |Flat(cs)| <= limits.maxSize {
        ScanTidy(d, |Flat(cs)|, r.chunks, count, junk, limits.maxChunkSize);
      }
    }
  }

  lemma LastChunkWide(limits: Limits, d: seq<byte>, cs: seq<Chunk>, buf: seq<byte>)
    requires d != [] && limits.Valid() && |cs| <= limits.maxChunks && buf != []
    requires Sound(cs, limits.maxChunkSize) && AppendChunks(cs, buf, limits.maxChunkSize, limits.maxChunks).ok
    requires |d| <= 2 || |d| - 1 <= |buf| <= limits.maxChunkSize
    ensures var r := AppendChunks(cs, buf, limits.maxChunkSize, limits.maxChunks).chunks;
      r != [] && |d| - 1 <= |r[|r| - 1].data|
  {
    AppendedLast(cs, buf, limits.maxChunkSize, limits.maxChunks);
    AppendExact(cs, buf, limits.maxChunkSize, limits.maxChunks);
  }

  lemma {:induction false} RoomyRunTidy(limits: Limits, d: seq<byte>, calls: seq<Call>)
    requires d != [] && |d| < U64 && limits.Valid()
    requires forall i | 0 <= i < |calls| :: Roomy(limits, d, calls[i].piece)
    ensures Tidy(limits, d, calls)
  {
    if calls != [] {
      var n := |calls| - 1;
      var init := calls[..n];
      RoomyRunTidy(limits, d, init);
      TidyRunCorrect(limits, d, init);
      TidyEnd(limits, d, init);
      AdvanceTidy(limits, d, Run(limits, d, init), calls[n]);
      TidySnoc(limits, d, calls);
    }
  }

  lemma TidyEnd(limits: Limits, d: seq<byte>, calls: seq<Call>)
    requires d != [] && limits.maxChunkSize > 0 && Tidy(limits, d, calls)
    ensures var st := Run(limits, d, calls); st.Reading? ==> |st.chunks| <= 1
  {
    assert calls[..|calls|] == calls;
  }

  lemma AdvanceTidy(limits: Limits, d: seq<byte>, st: Progress, call: Call)
    requires d != [] && limits.Valid() && Correct(d, st) && Roomy(limits, d, call.piece)
    requires st.Reading? ==> |st.chunks| <= 1 && Settled(limits, limits.maxChunks, st.chunks)
    ensures var next := Advance(limits, d, st, call); next.Reading? ==> |next.chunks| <= 1
  {
    if st.Reading? {
      StepTidy(limits, d, st.chunks, call.piece, call.junk);
    }
  }

  lemma TidySnoc(limits: Limits, d: seq<byte>, calls: seq<Call>)
    requires d != [] && limits.maxChunkSize > 0 && calls != [] && Tidy(limits, d, calls[..|calls| - 1])
    requires var st := Run(limits, d, calls); st.Reading? ==> |st.chunks| <= 1
    ensures Tidy(limits, d, calls)
  {
    var init := calls[..|calls| - 1];
    forall k | 0 <= k <= |calls|
      ensures var r := Run(limits, d, calls[..k]); r.Reading? ==> |r.chunks| <= 1
    {
      if k < |calls| {
        assert calls[..k] == init[..k];
      } else {
        assert calls[..k] == calls;
      }
    }
  }

  /** Writes for which a container with one chunk in use always has room. */
  ghost predicate Fits(limits: Limits, d: seq<byte>, calls: seq<Call>) {
    |d| <= limits.maxSize && limits.maxChunks >= 1
    && forall i | 0 <= i < |calls| :: 0 < |calls[i].piece| <= limits.maxChunkSize * (limits.maxChunks - 1)
  }

  /** A tidy run of writes that fit is never broken off. */
  lemma {:induction false} TidyRunUnbroken(limits: Limits, d: seq<byte>, calls: seq<Call>)
    requires d != [] && |d| < U64 && limits.Valid() && Tidy(limits, d, calls) && Fits(limits, d, calls)
    ensures !Run(limits, d, calls).Broken?
  {
    if calls != [] {
      var n := |calls| - 1;
      var init := calls[..n];
      assert forall k | 0 <= k <= n :: init[..k] == calls[..k];
      TidyRunUnbroken(limits, d, init);
      TidyRunCorrect(limits, d, init);
      TidyEnd(limits, d, init);
      var st := Run(limits, d, init);
      if st.Reading? {
        FittingWrite(limits, d, st.chunks, calls[n].piece, calls[n].junk);
      }
    }
  }

  lemma FittingWrite(limits: Limits, d: seq<byte>, cs: seq<Chunk>, piece: seq<byte>, junk: Memory)
    requires d != [] && limits.Valid() && |cs| <= 1 <= limits.maxChunks && |Flat(cs)| < |d| <= limits.maxSize
    requires 0 < |piece| <= limits.maxChunkSize * (limits.maxChunks - 1)
    ensures !StepChunks(limits, d, cs, piece, junk).Failed?
  {
    StepFailsIff(limits, d, cs, piece, junk);
    MoreRoom(limits.maxChunkSize, limits.maxChunks - 1, limits.maxChunks - |cs|);
  }

  lemma MoreRoom(size: nat, a: nat, b: nat)
    requires a <= b
    ensures size * a <= size * b
  {
  }

  ghost predicate NoneEmpty(calls: seq<Call>) {
    forall i | 0 <= i < |calls| :: calls[i].piece != []
  }

  lemma ChunkFits(limits: Limits, d: seq<byte>, calls: seq<Call>)
    requires |d| <= limits.maxSize && limits.maxChunks >= 2
    requires forall i | 0 <= i < |calls| :: 0 < |calls[i].piece| <= limits.maxChunkSize
    ensures Fits(limits, d, calls)
  {
    MoreRoom(limits.maxChunkSize, 1, limits.maxChunks - 1);
  }

  /** Every cut into writes of at least |d| - 1 bytes and at most a chunk is parsed correctly, to the end when
      the container may hold two chunks and no write is empty. */
  lemma WideWritesCorrect(limits: Limits, d: seq<byte>, calls: seq<Call>)
    requires d != [] && |d| < U64 && limits.Valid() && 2 * (|d| - 1) <= limits.maxSize
    requires forall i | 0 <= i < |calls| :: |d| - 1 <= |calls[i].piece| <= limits.maxChunkSize
    ensures Correct(d, Run(limits, d, calls))
    ensures limits.maxChunks >= 2 && |d| <= limits.maxSize && NoneEmpty(calls) ==> !Run(limits, d, calls).Broken?
  {
    RoomyRunTidy(limits, d, calls);
    TidyRunCorrect(limits, d, calls);
    if limits.maxChunks >= 2 && |d| <= limits.maxSize && NoneEmpty(calls) {
      ChunkFits(limits, d, calls);
      TidyRunUnbroken(limits, d, calls);
    }
  }

  // ---- For which delimiters every cut is parsed correctly ---------------------------------------

  ghost predicate AlwaysLawful(d: seq<byte>)
    requires d != []
  {
    forall calls | Physical(d, calls) :: Lawful(d, Run(DEFAULT_LIMITS, d, calls))
  }

  ghost predicate AlwaysObserved(d: seq<byte>)
    requires d != []
  {
    forall calls | Physical(d, calls) :: Observed(d, Run(DEFAULT_LIMITS, d, calls))
  }

  /** A delimiter of one or two bytes is honoured under every cut of every stream, and the run is broken off
      only by a write that is empty or longer than all but one of the container's chunks. */
  lemma ShortDelimiterCorrect(d: seq<byte>, calls: seq<Call>)
    requires 0 < |d| <= 2
    ensures var st := Run(DEFAULT_LIMITS, d, calls); Correct(d, st) && Lawful(d, st) && Observed(d, st)
    ensures (forall i | 0 <= i < |calls| :: 0 < |calls[i].piece| <= 65536 * 262143) ==> !Run(DEFAULT_LIMITS, d, calls).Broken?
  {
    RoomyRunTidy(DEFAULT_LIMITS, d, calls);
    TidyRunCorrect(DEFAULT_LIMITS, d, calls);
    if forall i | 0 <= i < |calls| :: 0 < |calls[i].piece| <= 65536 * 262143 {
      TidyRunUnbroken(DEFAULT_LIMITS, d, calls);
    }
  }
}
