/** Parsing up to a delimiter while handing data on early. After every write the parser releases all it
    has except the longest suffix that could still turn out to be the start of the delimiter. Here is that
    algorithm on flat bytes, right for every delimiter and every cut of the stream. */
module DirectDelimiter {
  import opened Bytes

  // ---- Borders: what must be held back ---------------------------------------------------------

  /** The last `v` bytes of the stream are a proper prefix of the delimiter. */
  predicate Border(s: seq<byte>, d: seq<byte>, v: nat) {
    v < |d| && v <= |s| && s[|s| - v..] == d[..v]
  }

  ghost predicate LongestBorder(s: seq<byte>, d: seq<byte>, v: nat) {
    Border(s, d, v) && forall w | v < w :: !Border(s, d, w)
  }

  /** The longest border no longer than `v`, counting down. */
  function LastInCommon(s: seq<byte>, d: seq<byte>, v: nat): (r: nat)
    requires d != [] && v <= |s| && v < |d|
    ensures r <= v && Border(s, d, r) && forall w | r < w <= v :: !Border(s, d, w)
  {
    if v == 0 || Border(s, d, v) then v else LastInCommon(s, d, v - 1)
  }

  // ---- The algorithm on flat bytes -------------------------------------------------------------

  datatype FlatStep = FlatMore(released: seq<byte>, held: seq<byte>) | FlatFound(released: seq<byte>, consumed: nat)

  ghost function StepFlat(d: seq<byte>, held: seq<byte>, piece: seq<byte>): FlatStep
    requires d != [] && |held| < |d|
  {
    var b := held + piece;
    match Find(b, d, 0)
    case Some(p) => FlatFound(b[..p], p + |d| - |held|)
    case None =>
      var v := LastInCommon(b, d, Min(|b|, |d| - 1));
      FlatMore(b[..|b| - v], b[|b| - v..])
  }

  /** Between writes: nothing found yet, and what is held back is the longest possible start of a delimiter. */
  ghost predicate Waiting(d: seq<byte>, consumed: seq<byte>, released: seq<byte>, held: seq<byte>) {
    Absent(consumed, d, 0) && consumed == released + held && LongestBorder(consumed, d, |held|)
  }

  /** At the end: everything before the first delimiter was released and the stream was consumed through it. */
  ghost predicate Split(d: seq<byte>, consumed: seq<byte>, released: seq<byte>) {
    FirstAt(consumed, d, 0, |released|) && consumed == released + d
  }

  /** A delimiter that starts in `s` and ends after it makes a border of `s`. */
  lemma CutOccurrence(s: seq<byte>, more: seq<byte>, d: seq<byte>, j: nat)
    requires OccursAt(s + more, d, j) && j < |s|
    ensures if j + |d| <= |s| then OccursAt(s, d, j) else Border(s, d, |s| - j)
  {
    var t := s + more;
    if j + |d| <= |s| {
      assert s[j..j + |d|] == t[j..j + |d|];
    } else {
      assert d[..|s| - j] == t[j..j + |d|][..|s| - j] == s[j..];
    }
  }

  /** A border of `s + more` that reaches back into `s` leaves a border of `s`. */
  lemma CutBorder(s: seq<byte>, more: seq<byte>, d: seq<byte>, u: nat)
    requires Border(s + more, d, u + |more|)
    ensures Border(s, d, u)
  {
    var t := s + more;
    assert s[|s| - u..] == t[|t| - (u + |more|)..][..u] == d[..u + |more|][..u] == d[..u];
  }

  /** A delimiter can only start in the held bytes or after them. */
  lemma NoEarlyStart(d: seq<byte>, consumed: seq<byte>, released: seq<byte>, held: seq<byte>, more: seq<byte>, j: nat)
    requires d != [] && Waiting(d, consumed, released, held) && j < |released|
    ensures !OccursAt(consumed + more, d, j)
  {
    if OccursAt(consumed + more, d, j) {
      CutOccurrence(consumed, more, d, j);
    }
  }

  /** Nor can a border of the longer stream reach back past the held bytes. */
  lemma NoLongBorder(d: seq<byte>, consumed: seq<byte>, released: seq<byte>, held: seq<byte>, more: seq<byte>, w: nat)
    requires d != [] && Waiting(d, consumed, released, held) && w > |held| + |more|
    ensures !Border(consumed + more, d, w)
  {
    if Border(consumed + more, d, w) {
      CutBorder(consumed, more, d, w - |more|);
    }
  }

  /** Shifting past the released bytes moves occurrences and borders one for one. */
  lemma Shifted(d: seq<byte>, released: seq<byte>, b: seq<byte>, j: nat, w: nat)
    ensures OccursAt(released + b, d, |released| + j) <==> OccursAt(b, d, j)
    ensures w <= |b| ==> (Border(released + b, d, w) <==> Border(b, d, w))
  {
    var s := released + b;
    if j + |d| <= |b| {
      assert s[|released| + j..|released| + j + |d|] == b[j..j + |d|];
    }
    if w <= |b| {
      assert s[|s| - w..] == b[|b| - w..];
    }
  }

  /** The flat algorithm, one write: it goes on waiting with the right bytes held, or splits the stream at
      its first delimiter, consuming at least one byte of the write and no byte beyond the delimiter. */
  lemma FlatStepLaw(d: seq<byte>, consumed: seq<byte>, released: seq<byte>, held: seq<byte>, piece: seq<byte>)
    requires d != [] && Waiting(d, consumed, released, held)
    ensures match StepFlat(d, held, piece)
      case FlatMore(out, keep) => Waiting(d, consumed + piece, released + out, keep)
      case FlatFound(out, n) =>
        0 < n <= |piece| && n == |out| + |d| - |held| && Split(d, consumed + piece[..n], released + out)
  {
    match Find(held + piece, d, 0)
    case Some(p) => FoundAfterHeld(d, consumed, released, held, piece, p);
    case None =>
      var b := held + piece;
      StillWaiting(d, consumed, released, held, piece, LastInCommon(b, d, Min(|b|, |d| - 1)));
  }

  lemma StillWaiting(d: seq<byte>, consumed: seq<byte>, released: seq<byte>, held: seq<byte>, piece: seq<byte>, v: nat)
    requires d != [] && Waiting(d, consumed, released, held) && Absent(held + piece, d, 0)
    requires v <= |held + piece| && Border(held + piece, d, v)
    requires forall w | v < w <= Min(|held + piece|, |d| - 1) :: !Border(held + piece, d, w)
    ensures var b := held + piece;
      Waiting(d, consumed + piece, released + b[..|b| - v], b[|b| - v..])
  {
    var b := held + piece;
    var keep := b[|b| - v..];
    StillAbsent(d, consumed, released, held, piece);
    LongestShifted(d, consumed, released, held, piece, v);
    Reassociate(consumed, released, held, piece, |b| - v);
    assert |keep| == v;
  }

  lemma Reassociate(consumed: seq<byte>, released: seq<byte>, held: seq<byte>, piece: seq<byte>, k: nat)
    requires consumed == released + held && k <= |held + piece|
    ensures consumed + piece == released + (held + piece)[..k] + (held + piece)[k..]
  {
  }

  lemma StillAbsent(d: seq<byte>, consumed: seq<byte>, released: seq<byte>, held: seq<byte>, piece: seq<byte>)
    requires d != [] && Waiting(d, consumed, released, held) && Absent(held + piece, d, 0)
    ensures Absent(consumed + piece, d, 0)
  {
    assert consumed + piece == released + (held + piece);
    forall j: nat ensures !OccursAt(consumed + piece, d, j) {
      if j < |released| {
        NoEarlyStart(d, consumed, released, held, piece, j);
      } else {
        Shifted(d, released, held + piece, j - |released|, 0);
      }
    }
  }

  lemma LongestShifted(d: seq<byte>, consumed: seq<byte>, released: seq<byte>, held: seq<byte>, piece: seq<byte>, v: nat)
    requires d != [] && Waiting(d, consumed, released, held) && v <= |held + piece|
    requires Border(held + piece, d, v) && forall w | v < w <= Min(|held + piece|, |d| - 1) :: !Border(held + piece, d, w)
    ensures LongestBorder(consumed + piece, d, v)
  {
    var b, s := held + piece, consumed + piece;
    assert s == released + b;
    Shifted(d, released, b, 0, v);
    forall w | v < w ensures !Border(s, d, w) {
      if w <= |b| {
        Shifted(d, released, b, 0, w);
      } else {
        NoLongBorder(d, consumed, released, held, piece, w);
      }
    }
  }

  lemma OccursInPrefix(s: seq<byte>, k: nat, d: seq<byte>, j: nat)
    requires k <= |s| && OccursAt(s[..k], d, j)
    ensures OccursAt(s, d, j)
  {
    assert s[j..j + |d|] == s[..k][j..j + |d|];
  }

  lemma FoundAfterHeld(d: seq<byte>, consumed: seq<byte>, released: seq<byte>, held: seq<byte>, piece: seq<byte>, p: nat)
    requires d != [] && Waiting(d, consumed, released, held)
    requires FirstAt(held + piece, d, 0, p)
    ensures var n := p + |d| - |held|;
      0 < n <= |piece| && Split(d, consumed + piece[..n], released + (held + piece)[..p])
  {
    var b, s, n := held + piece, consumed + piece, p + |d| - |held|;
    var c := consumed + piece[..n];
    assert s == released + b;
    assert c == s[..|released| + p + |d|] == (released + b[..p]) + b[p..p + |d|];
    forall j | 0 <= j < |released| + p ensures !OccursAt(c, d, j) {
      if OccursAt(c, d, j) {
        OccursInPrefix(s, |c|, d, j);
        if j < |released| {
          NoEarlyStart(d, consumed, released, held, piece, j);
        } else {
          Shifted(d, released, b, j - |released|, 0);
        }
      }
    }
    assert c[|released| + p..|released| + p + |d|] == b[p..p + |d|];
  }

  // ---- Whole streams -----------------------------------------------------------------------------

  datatype FlatRun = FlatReading(released: seq<byte>, held: seq<byte>) | FlatEnded(released: seq<byte>, consumed: seq<byte>)

  /** The flat algorithm over a stream cut into writes; after the delimiter it takes no more. */
  ghost function RunFlat(d: seq<byte>, writes: seq<seq<byte>>): (r: FlatRun)
    requires d != []
    ensures r.FlatReading? ==> |r.held| < |d|
  {
    if writes == [] then FlatReading([], [])
    else
      var n := |writes| - 1;
      match RunFlat(d, writes[..n])
      case FlatEnded(released, consumed) => FlatEnded(released, consumed)
      case FlatReading(released, held) =>
        match StepFlat(d, held, writes[n])
        case FlatMore(out, keep) => FlatReading(released + out, keep)
        case FlatFound(out, k) => FlatEnded(released + out, Concat(writes[..n]) + writes[n][..Min(k, |writes[n]|)])
  }

  /** Before the delimiter all but its longest possible start has been given away; at the end exactly the
      bytes before the first delimiter have, and the stream was consumed exactly through it. */
  ghost predicate RightSoFar(d: seq<byte>, stream: seq<byte>, r: FlatRun) {
    match r
    case FlatReading(released, held) => Waiting(d, stream, released, held)
    case FlatEnded(released, consumed) => consumed <= stream && Split(d, consumed, released)
  }

  /** For every delimiter and every cut of every stream the flat algorithm is right. */
  lemma {:induction false} FlatRunLaw(d: seq<byte>, writes: seq<seq<byte>>)
    requires d != []
    ensures RightSoFar(d, Concat(writes), RunFlat(d, writes))
  {
    if writes != [] {
      var n := |writes| - 1;
      var init, piece := writes[..n], writes[n];
      FlatRunLaw(d, init);
      ConcatSnoc(init, piece);
      assert writes == init + [piece];
      if RunFlat(d, init).FlatReading? {
        var released, held := RunFlat(d, init).released, RunFlat(d, init).held;
        FlatStepLaw(d, Concat(init), released, held, piece);
        EndsWithin(Concat(init), piece);
      }
    }
  }

  lemma EndsWithin(s: seq<byte>, piece: seq<byte>)
    ensures forall k: nat | k <= |piece| :: s + piece[..k] <= s + piece
  {
  }

  /** So a stream is split at its first delimiter exactly when it has one, the same for every cut. */
  lemma FlatRunFinds(d: seq<byte>, writes: seq<seq<byte>>)
    requires d != []
    ensures RunFlat(d, writes).FlatEnded? <==> Find(Concat(writes), d, 0).Some?
    ensures RunFlat(d, writes).FlatEnded? ==> RunFlat(d, writes).released == Concat(writes)[..Find(Concat(writes), d, 0).value]
  {
    FlatRunLaw(d, writes);
    var stream := Concat(writes);
    if RunFlat(d, writes).FlatEnded? {
      var released, consumed := RunFlat(d, writes).released, RunFlat(d, writes).consumed;
      assert consumed == stream[..|consumed|];
      FirstInLonger(stream, |consumed|, d, |released|);
    }
  }

  lemma FirstInLonger(s: seq<byte>, k: nat, d: seq<byte>, p: nat)
    requires k <= |s| && FirstAt(s[..k], d, 0, p) && k == p + |d|
    ensures FirstAt(s, d, 0, p)
  {
    forall j: nat | j <= p ensures OccursAt(s[..k], d, j) <==> OccursAt(s, d, j) {
      SamePlace(s, k, d, j);
    }
  }

  lemma SamePlace(s: seq<byte>, k: nat, d: seq<byte>, j: nat)
    requires j + |d| <= k <= |s|
    ensures OccursAt(s[..k], d, j) <==> OccursAt(s, d, j)
  {
    assert s[..k][j..j + |d|] == s[j..j + |d|];
  }
}
