/** Turning named parameters of an SQL query into positional marks, one key a pass. */
module QueryKeys {
  import opened Bytes

  const MARK: char := '?'

  // ---- The reference: one scan from the left, always taking the longest key ------------------------

  datatype Rewritten = Rewritten(text: string, outs: seq<string>)

  ghost predicate LongestAt(q: string, keys: seq<string>, k: string) {
    k in keys && k != "" && k <= q && forall j | j in keys && j <= q :: |j| <= |k|
  }

  /** The longest key the query begins with, if it begins with any. */
  ghost function Longest(q: string, keys: seq<string>): (r: Option<string>)
    ensures r.Some? ==> LongestAt(q, keys, r.value)
    ensures r.None? ==> forall k | k in keys && k != "" :: !(k <= q)
  {
    if k: string :| LongestAt(q, keys, k) then Some(k)
    else
      assert forall k | k in keys && k != "" :: !(k <= q) by {
        if k :| k in keys && k != "" && k <= q {
          LongestExists(q, keys, k);
        }
      }
      None
  }

  ghost function Tokenise(q: string, keys: seq<string>): Rewritten
    decreases |q|
  {
    if q == "" then Rewritten("", [])
    else match Longest(q, keys)
      case Some(k) =>
        var more := Tokenise(q[|k|..], keys);
        Rewritten([MARK] + more.text, [k] + more.outs)
      case None =>
        var more := Tokenise(q[1..], keys);
        Rewritten([q[0]] + more.text, more.outs)
  }

  /** Puts the parameters back where the marks are. */
  function Restore(text: string, outs: seq<string>): string {
    if text == "" then ""
    else if text[0] == MARK && outs != [] then outs[0] + Restore(text[1..], outs[1..])
    else [text[0]] + Restore(text[1..], outs)
  }

  function Marks(text: string): nat {
    if text == "" then 0 else (if text[0] == MARK then 1 else 0) + Marks(text[1..])
  }

  /** Restoring undoes the rewriting of a query that has no mark of its own. */
  lemma {:induction false} TokeniseRestores(q: string, keys: seq<string>)
    requires MARK !in q
    ensures Restore(Tokenise(q, keys).text, Tokenise(q, keys).outs) == q
    decreases |q|
  {
    if q != "" {
      match Longest(q, keys) {
        case Some(k) =>
          var more := Tokenise(q[|k|..], keys);
          TokeniseRestores(q[|k|..], keys);
          RestoreMark(k, more.text, more.outs);
          assert q == k + q[|k|..];
        case None =>
          var more := Tokenise(q[1..], keys);
          TokeniseRestores(q[1..], keys);
          RestoreChar(q[0], more.text, more.outs);
      }
    }
  }

  lemma RestoreMark(k: string, text: string, outs: seq<string>)
    ensures Restore([MARK] + text, [k] + outs) == k + Restore(text, outs)
  {
    assert ([MARK] + text)[1..] == text && ([k] + outs)[1..] == outs;
  }

  lemma RestoreChar(c: char, text: string, outs: seq<string>)
    requires c != MARK
    ensures Restore([c] + text, outs) == [c] + Restore(text, outs)
  {
    assert ([c] + text)[1..] == text;
  }

  /** There is a parameter for every mark, and one for each, exactly when the query had none of its own. */
  lemma {:induction false} MarksMatchParameters(q: string, keys: seq<string>)
    requires forall k | k in keys :: MARK !in k
    ensures Marks(Tokenise(q, keys).text) == Marks(q) + |Tokenise(q, keys).outs|
    decreases |q|
  {
    if q != "" {
      match Longest(q, keys) {
        case Some(k) =>
          MarksMatchParameters(q[|k|..], keys);
          assert q == k + q[|k|..];
          NoMarks(k, q[|k|..]);
        case None =>
          MarksMatchParameters(q[1..], keys);
      }
    }
  }

  lemma {:induction false} NoMarks(a: string, b: string)
    requires MARK !in a
    ensures Marks(a + b) == Marks(b)
  {
    if a == "" {
      assert a + b == b;
    } else {
      assert (a + b)[1..] == a[1..] + b;
      NoMarks(a[1..], b);
    }
  }

  lemma LongestUnique(q: string, keys: seq<string>, k: string)
    requires LongestAt(q, keys, k)
    ensures Longest(q, keys) == Some(k)
  {
    var j := Longest(q, keys).value;
    assert j == q[..|j|] && k == q[..|k|];
  }

  lemma TokeniseMatch(q: string, keys: seq<string>, k: string)
    requires Longest(q, keys) == Some(k)
    ensures Tokenise(q, keys).text == [MARK] + Tokenise(q[|k|..], keys).text
    ensures Tokenise(q, keys).outs == [k] + Tokenise(q[|k|..], keys).outs
  {
  }

  lemma LongestExists(q: string, keys: seq<string>, k: string)
    requires k in keys && k != "" && k <= q
    ensures exists j: string :: LongestAt(q, keys, j)
    decreases |q| - |k|
  {
    if j: string :| j in keys && j <= q && |j| > |k| {
      LongestExists(q, keys, j);
    } else {
      assert LongestAt(q, keys, k);
    }
  }

  // ---- One pass ------------------------------------------------------------------------------

  /** Key `k` at `p` is the leftmost key of the query, and the longest there. */
  ghost predicate IsFirst(q: string, keys: seq<string>, p: nat, k: string) {
    && k in keys && OccursAt(q, k, p)
    && forall j, i: nat | j in keys && OccursAt(q, j, i) :: p < i || (p == i && |j| <= |k|)
  }

  ghost predicate NoneOccurs(q: string, keys: seq<string>) {
    forall k | k in keys :: Absent(q, k, 0)
  }

  /** No key comes after one it is a proper prefix of. */
  ghost predicate PrefixesFirst(keys: seq<string>) {
    keys != [] ==> (forall k | k in keys[1..] :: !(k < keys[0])) && PrefixesFirst(keys[1..])
  }

  lemma {:induction false} PrefixesFirstAt(keys: seq<string>, i: nat, j: nat)
    requires PrefixesFirst(keys) && i < j < |keys|
    ensures !(keys[j] < keys[i])
  {
    if i == 0 {
      assert keys[1..][j - 1] == keys[j] && keys[j] in keys[1..];
    } else {
      PrefixesFirstAt(keys[1..], i - 1, j - 1);
    }
  }

  /** The order of the map the keys come from: character by character. */
  predicate Below(a: string, b: string) {
    b != "" && (a == "" || a[0] < b[0] || (a[0] == b[0] && Below(a[1..], b[1..])))
  }

  predicate Sorted(keys: seq<string>) {
    |keys| > 1 ==> Below(keys[0], keys[1]) && Sorted(keys[1..])
  }

  lemma {:induction false} BelowIsNoExtension(a: string, b: string)
    requires Below(a, b)
    ensures !(b < a)
    decreases a
  {
    if a != "" && a[0] == b[0] {
      BelowIsNoExtension(a[1..], b[1..]);
      TailOfPrefix(b, a);
    }
  }

  lemma TailOfPrefix(b: string, a: string)
    requires a != "" && b != ""
    ensures b < a ==> b[1..] < a[1..]
  {
  }

  lemma {:induction false} BelowTransitive(a: string, b: string, c: string)
    requires Below(a, b) && Below(b, c)
    ensures Below(a, c)
  {
    if a != "" && a[0] == b[0] == c[0] {
      BelowTransitive(a[1..], b[1..], c[1..]);
    }
  }

  lemma {:induction false} SortedBelow(keys: seq<string>, j: nat)
    requires Sorted(keys) && 0 < j < |keys|
    ensures Below(keys[0], keys[j])
  {
    if j > 1 {
      SortedBelow(keys[1..], j - 1);
      BelowTransitive(keys[0], keys[1], keys[j]);
    }
  }

  lemma {:induction false} SortedPutsPrefixesFirst(keys: seq<string>)
    requires Sorted(keys)
    ensures PrefixesFirst(keys)
  {
    if keys != [] {
      forall k | k in keys[1..] ensures !(k < keys[0]) {
        var j :| 0 <= j < |keys[1..]| && keys[1..][j] == k;
        SortedBelow(keys, j + 1);
        BelowIsNoExtension(keys[0], k);
      }
      SortedPutsPrefixesFirst(keys[1..]);
    }
  }

  /** The keys that are not in `gone`, in their order. */
  function Without(keys: seq<string>, gone: seq<string>): (r: seq<string>)
    ensures forall k :: k in r <==> k in keys && k !in gone
    ensures PrefixesFirst(keys) ==> PrefixesFirst(r)
  {
    if keys == [] then []
    else
      var rest := Without(keys[1..], gone);
      assert keys == [keys[0]] + keys[1..];
      if keys[0] in gone then rest else
        var r := [keys[0]] + rest;
        assert r[1..] == rest;
        r
  }

  // ---- What repeating passes computes ---------------------------------------------------------

  lemma TokeniseSkip(q: string, keys: seq<string>)
    requires q != "" && Longest(q, keys) == None
    ensures Tokenise(q, keys).text == [q[0]] + Tokenise(q[1..], keys).text
    ensures Tokenise(q, keys).outs == Tokenise(q[1..], keys).outs
  {
  }

  /** `t` is what is before the match, a mark, and the scan of what is after it. */
  ghost predicate SplitsAt(t: Rewritten, q: string, p: nat, k: string, more: Rewritten)
    requires p <= |q|
  {
    t.text == q[..p] + [MARK] + more.text && t.outs == [k] + more.outs
  }

  lemma Regroup(q: string, t: Rewritten, p: nat, k: string, more: Rewritten, all: Rewritten)
    requires 0 < p <= |q| && SplitsAt(t, q[1..], p - 1, k, more)
    requires all.text == [q[0]] + t.text && all.outs == t.outs
    ensures SplitsAt(all, q, p, k, more)
  {
    assert q[..p] == [q[0]] + q[1..][..p - 1];
  }

  lemma SplitsAtStart(q: string, t: Rewritten, p: nat, k: string, more: Rewritten)
    requires p == 0 && t.text == [MARK] + more.text && t.outs == [k] + more.outs
    ensures SplitsAt(t, q, p, k, more)
  {
  }

  /** The first match splits the scan: what is before it is copied, what is after it is scanned on. */
  lemma {:induction false} TokeniseAtFirst(q: string, keys: seq<string>, p: nat, k: string, rest: string)
    requires IsFirst(q, keys, p, k) && k != "" && rest == q[p + |k|..]
    ensures SplitsAt(Tokenise(q, keys), q, p, k, Tokenise(rest, keys))
    decreases p
  {
    if p == 0 {
      FirstIsLongest(q, keys, k);
      LongestUnique(q, keys, k);
      TokeniseMatch(q, keys, k);
      SplitsAtStart(q, Tokenise(q, keys), p, k, Tokenise(rest, keys));
    } else {
      NothingBefore(q, keys, p, k);
      TokeniseAtFirst(q[1..], keys, p - 1, k, rest);
      CopyOne(q, keys, p, k, Tokenise(rest, keys));
    }
  }

  lemma CopyOne(q: string, keys: seq<string>, p: nat, k: string, more: Rewritten)
    requires 0 < p <= |q| && Longest(q, keys) == None && SplitsAt(Tokenise(q[1..], keys), q[1..], p - 1, k, more)
    ensures SplitsAt(Tokenise(q, keys), q, p, k, more)
  {
    TokeniseSkip(q, keys);
    Regroup(q, Tokenise(q[1..], keys), p, k, more, Tokenise(q, keys));
  }

  lemma FirstIsLongest(q: string, keys: seq<string>, k: string)
    requires IsFirst(q, keys, 0, k) && k != ""
    ensures LongestAt(q, keys, k)
  {
    forall j | j in keys && j <= q ensures |j| <= |k| {
      assert OccursAt(q, j, 0);
    }
  }

  lemma NothingBefore(q: string, keys: seq<string>, p: nat, k: string)
    requires IsFirst(q, keys, p, k) && p > 0
    ensures Longest(q, keys) == None
    ensures IsFirst(q[1..], keys, p - 1, k)
  {
    forall j: string | j in keys ensures !(j <= q) {
      assert j <= q ==> OccursAt(q, j, 0);
    }
    assert q[1..][p - 1..p - 1 + |k|] == q[p..p + |k|];
    forall j, i: nat | j in keys && OccursAt(q[1..], j, i) ensures p - 1 < i || (p - 1 == i && |j| <= |k|) {
      assert q[1..][i..i + |j|] == q[i + 1..i + 1 + |j|];
      assert OccursAt(q, j, i + 1);
    }
  }

  lemma {:induction false} TokeniseNone(q: string, keys: seq<string>)
    requires NoneOccurs(q, keys)
    ensures Tokenise(q, keys) == Rewritten(q, [])
    decreases |q|
  {
    if q != "" {
      forall j: string | j in keys ensures !(j <= q) {
        assert j <= q ==> OccursAt(q, j, 0);
      }
      forall k | k in keys ensures Absent(q[1..], k, 0) {
        ShiftAbsent(q, k);
      }
      TokeniseNone(q[1..], keys);
    }
  }

  lemma ShiftAbsent(q: string, k: string)
    requires q != "" && Absent(q, k, 0)
    ensures Absent(q[1..], k, 0)
  {
    forall i | 0 <= i ensures !OccursAt(q[1..], k, i) {
      if OccursAt(q[1..], k, i) {
        assert q[1..][i..i + |k|] == q[i + 1..i + 1 + |k|];
        assert OccursAt(q, k, i + 1);
      }
    }
  }

  /** Keys that do not occur can be dropped: the scan is the same. */
  lemma {:induction false} DropUnfound(q: string, keys: seq<string>, fewer: seq<string>)
    requires forall k | k in fewer :: k in keys
    requires forall k | k in keys && k !in fewer :: Absent(q, k, 0)
    ensures Tokenise(q, fewer) == Tokenise(q, keys)
    decreases |q|
  {
    if q != "" {
      forall j | j in keys && j !in fewer ensures !(j <= q) && Absent(q[1..], j, 0) {
        assert j <= q ==> OccursAt(q, j, 0);
        ShiftAbsent(q, j);
      }
      SameLongest(q, keys, fewer);
      match Longest(q, keys) {
        case Some(k) =>
          forall j | j in keys && j !in fewer ensures Absent(q[|k|..], j, 0) {
            TailAbsent(q, j, |k|);
          }
          DropUnfound(q[|k|..], keys, fewer);
        case None =>
          DropUnfound(q[1..], keys, fewer);
      }
    }
  }

  lemma SameLongest(q: string, keys: seq<string>, fewer: seq<string>)
    requires forall k | k in fewer :: k in keys
    requires forall k | k in keys && k !in fewer :: !(k <= q)
    ensures Longest(q, fewer) == Longest(q, keys)
  {
    if Longest(q, keys).Some? {
      LongestUnique(q, fewer, Longest(q, keys).value);
    }
  }

  lemma TailAbsent(q: string, k: string, n: nat)
    requires n <= |q| && Absent(q, k, 0)
    ensures Absent(q[n..], k, 0)
  {
    forall i | 0 <= i ensures !OccursAt(q[n..], k, i) {
      if OccursAt(q[n..], k, i) {
        assert q[n..][i..i + |k|] == q[i + n..i + n + |k|];
        assert OccursAt(q, k, i + n);
      }
    }
  }

  /** Between two passes: `text` is rewritten for good, `rest` is still to be scanned. */
  datatype Scan = Scan(text: string, rest: string, outs: seq<string>, keys: seq<string>)

  ghost predicate Clean(keys: seq<string>) {
    forall k | k in keys :: k != "" && MARK !in k
  }

  /** No key is found before the part still to be scanned. */
  ghost predicate Settled(s: Scan) {
    forall k, i: nat | k in s.keys && OccursAt(s.text + s.rest, k, i) :: i >= |s.text|
  }

  ghost predicate OnScan(goal: Rewritten, s: Scan) {
    && Clean(s.keys) && Settled(s)
    && goal.text == s.text + Tokenise(s.rest, s.keys).text
    && goal.outs == s.outs + Tokenise(s.rest, s.keys).outs
  }

  /** The keys a pass leaves are those that occur. */
  ghost predicate Found(q: string, keys: seq<string>, left: seq<string>) {
    forall k: string :: k in left <==> k in keys && !Absent(q, k, 0)
  }

  function Replaced(q: string, p: nat, k: string): string
    requires p + |k| <= |q|
  {
    q[..p] + [MARK] + q[p + |k|..]
  }

  lemma FirstInRest(s: Scan, p: nat, k: string)
    requires Settled(s) && IsFirst(s.text + s.rest, s.keys, p, k)
    ensures p >= |s.text| && IsFirst(s.rest, s.keys, p - |s.text|, k)
  {
    var q, n := s.text + s.rest, |s.text|;
    assert s.rest[p - n..p - n + |k|] == q[p..p + |k|];
    forall j, i: nat | j in s.keys && OccursAt(s.rest, j, i) ensures p - n < i || (p - n == i && |j| <= |k|) {
      assert q[i + n..i + n + |j|] == s.rest[i..i + |j|];
      assert OccursAt(q, j, i + n);
    }
  }

  /** A mark stops every match, so what was copied before it stays settled. */
  lemma SettledAfterMark(q: string, keys: seq<string>, p: nat, k: string, left: seq<string>, outs: seq<string>)
    requires Clean(keys) && IsFirst(q, keys, p, k) && Found(q, keys, left)
    ensures Settled(Scan(q[..p] + [MARK], q[p + |k|..], outs, left))
  {
    var now := (q[..p] + [MARK]) + q[p + |k|..];
    forall j, i: nat | j in left && OccursAt(now, j, i) ensures i >= p + 1 {
      assert now[p] == MARK;
      NotAcross(now, q, j, i, p);
    }
  }

  lemma NotAcross(now: string, q: string, j: string, i: nat, p: nat)
    requires OccursAt(now, j, i) && p < |now| && MARK !in j && now[p] == MARK && p <= |q| && now[..p] == q[..p]
    ensures i <= p ==> i + |j| <= p && OccursAt(q, j, i)
  {
    assert forall n: nat | n < |j| :: j[n] == now[i..i + |j|][n];
    if i + |j| <= p {
      assert q[i..i + |j|] == q[..p][i..i + |j|] == now[..p][i..i + |j|] == now[i..i + |j|];
    }
  }

  /** What is left to scan after a pass, with the keys it leaves. */
  lemma RestAfter(q: string, keys: seq<string>, m: nat, k: string, left: seq<string>, tail: string)
    requires IsFirst(q, keys, m, k) && k != "" && tail == q[m + |k|..]
    requires forall j | j in left :: j in keys
    requires forall j | j in keys && j !in left :: Absent(tail, j, 0)
    ensures SplitsAt(Tokenise(q, keys), q, m, k, Tokenise(tail, left))
  {
    TokeniseAtFirst(q, keys, m, k, tail);
    DropUnfound(tail, keys, left);
    SameSplit(Tokenise(q, keys), q, m, k, Tokenise(tail, keys), Tokenise(tail, left));
  }

  lemma SameSplit(t: Rewritten, q: string, p: nat, k: string, more: Rewritten, other: Rewritten)
    requires p <= |q| && SplitsAt(t, q, p, k, more) && more == other
    ensures SplitsAt(t, q, p, k, other)
  {
  }

  lemma DroppedAbsent(q: string, keys: seq<string>, left: seq<string>, n: nat, tail: string)
    requires Found(q, keys, left) && n <= |q| && tail == q[n..]
    ensures forall j | j in keys && j !in left :: Absent(tail, j, 0)
  {
    forall j | j in keys && j !in left ensures Absent(tail, j, 0) {
      TailAbsent(q, j, n);
    }
  }

  lemma ScanStep(goal: Rewritten, s: Scan, q: string, p: nat, k: string, left: seq<string>)
    requires OnScan(goal, s) && q == s.text + s.rest && IsFirst(q, s.keys, p, k) && Found(q, s.keys, left)
    ensures OnScan(goal, Scan(q[..p] + [MARK], q[p + |k|..], s.outs + [k], left))
  {
    SettledAfterMark(q, s.keys, p, k, left, s.outs + [k]);
    ScanTexts(goal, s, q, p, k, left, q[p + |k|..]);
  }

  lemma ScanTexts(goal: Rewritten, s: Scan, q: string, p: nat, k: string, left: seq<string>, rest: string)
    requires OnScan(goal, s) && q == s.text + s.rest && IsFirst(q, s.keys, p, k) && Found(q, s.keys, left)
    requires rest == q[p + |k|..]
    ensures goal.text == (q[..p] + [MARK]) + Tokenise(rest, left).text
    ensures goal.outs == (s.outs + [k]) + Tokenise(rest, left).outs
  {
    FirstInRest(s, p, k);
    DroppedAbsent(q, s.keys, left, p + |k|, rest);
    assert rest == s.rest[p - |s.text| + |k|..];
    RestAfter(s.rest, s.keys, p - |s.text|, k, left, rest);
    GoalAfter(goal, s, q, p, k, Tokenise(s.rest, s.keys), Tokenise(rest, left));
  }

  /** What was copied and recorded in a pass joins what was before. */
  lemma GoalAfter(goal: Rewritten, s: Scan, q: string, p: nat, k: string, t: Rewritten, more: Rewritten)
    requires q == s.text + s.rest && |s.text| <= p <= |q| && SplitsAt(t, s.rest, p - |s.text|, k, more)
    requires goal.text == s.text + t.text && goal.outs == s.outs + t.outs
    ensures goal.text == (q[..p] + [MARK]) + more.text && goal.outs == (s.outs + [k]) + more.outs
  {
    assert q[..p] == s.text + s.rest[..p - |s.text|];
  }

  lemma ScanEnds(goal: Rewritten, s: Scan)
    requires OnScan(goal, s) && NoneOccurs(s.text + s.rest, s.keys)
    ensures goal == Rewritten(s.text + s.rest, s.outs)
  {
    forall k | k in s.keys ensures Absent(s.rest, k, 0) {
      TailAbsent(s.text + s.rest, k, |s.text|);
      assert (s.text + s.rest)[|s.text|..] == s.rest;
    }
    TokeniseNone(s.rest, s.keys);
  }

  lemma ScanStarts(q: string, keys: seq<string>)
    requires Clean(keys)
    ensures OnScan(Tokenise(q, keys), Scan("", q, [], keys))
  {
    assert "" + q == q;
  }

  // ---- When repeating passes ends ------------------------------------------------------------------

  /** An empty key is found again in every pass, and so is a key that is the mark itself once the query has one. */
  ghost predicate Endless(q: string, keys: seq<string>) {
    "" in keys || ([MARK] in keys && MARK in q)
  }

  lemma OccursByElement(q: string, c: char)
    ensures c in q <==> exists i: nat :: OccursAt(q, [c], i)
    ensures c in q <==> !Absent(q, [c], 0)
  {
    if c in q {
      var i :| 0 <= i < |q| && q[i] == c;
      assert q[i..i + 1] == [c] && OccursAt(q, [c], i);
    }
    if i: nat :| OccursAt(q, [c], i) {
      assert q[i] == q[i..i + 1][0];
    }
  }

  /** A pass neither starts nor stops this. */
  lemma EndlessStays(q: string, keys: seq<string>, p: nat, k: string, left: seq<string>)
    requires IsFirst(q, keys, p, k) && Found(q, keys, left)
    ensures Endless(Replaced(q, p, k), left) <==> Endless(q, keys)
  {
    var now := Replaced(q, p, k);
    assert now[p] == MARK;
    OccursByElement(q, MARK);
    assert OccursAt(q, "", 0);
  }

  lemma EndlessFinds(q: string, keys: seq<string>)
    requires Endless(q, keys)
    ensures !NoneOccurs(q, keys)
  {
    OccursByElement(q, MARK);
    assert OccursAt(q, "", 0);
  }

  /** What every pass makes smaller. */
  function Weight(q: string): nat {
    if q == "" then 0 else (if q[0] == MARK then 1 else 2) + Weight(q[1..])
  }

  lemma {:induction false} WeightSplits(a: string, b: string)
    ensures Weight(a + b) == Weight(a) + Weight(b)
  {
    if a == "" {
      assert a + b == b;
    } else {
      assert (a + b)[1..] == a[1..] + b;
      WeightSplits(a[1..], b);
    }
  }

  lemma PassShrinks(q: string, keys: seq<string>, p: nat, k: string)
    requires IsFirst(q, keys, p, k) && !Endless(q, keys)
    ensures Weight(Replaced(q, p, k)) < Weight(q)
  {
    var mark, rest := [MARK], q[p + |k|..];
    OccursByElement(q, MARK);
    assert k != mark;
    AtLeastTwo(k, mark);
    assert q == q[..p] + (k + rest);
    WeightSplits(q[..p], k + rest);
    WeightSplits(k, rest);
    assert Replaced(q, p, k) == q[..p] + (mark + rest);
    WeightSplits(q[..p], mark + rest);
    WeightSplits(mark, rest);
  }

  lemma AtLeastTwo(k: string, mark: string)
    requires k != "" && k != mark && mark == [MARK]
    ensures Weight(k) >= 2 && Weight(mark) == 1
  {
    assert Weight(mark[1..]) == 0;
    if k[0] == MARK {
      assert k == mark + k[1..] && k[1..] != "";
    }
  }

  // ---- Passes, one after the other -----------------------------------------------------------------

  datatype Pending = Pending(query: string, keys: seq<string>)

  /** The keys a pass leaves. */
  ghost function Kept(q: string, keys: seq<string>): (r: seq<string>)
    ensures Found(q, keys, r)
  {
    if keys == [] then []
    else
      var rest := Kept(q, keys[1..]);
      assert keys == [keys[0]] + keys[1..];
      if Absent(q, keys[0], 0) then rest else [keys[0]] + rest
  }

  /** One pass, if it finds a key. */
  ghost function Pass(s: Pending): Option<Pending> {
    if p: nat, k: string :| IsFirst(s.query, s.keys, p, k)
    then Some(Pending(Replaced(s.query, p, k), Kept(s.query, s.keys)))
    else None
  }

  /** What `n` passes leave, if each of them finds a key. */
  ghost function Passes(s: Pending, n: nat): Option<Pending>
    decreases n
  {
    if n == 0 then Some(s) else match Pass(s)
      case None => None
      case Some(t) => Passes(t, n - 1)
  }

  lemma {:induction false} FirstKeyExists(q: string, keys: seq<string>) returns (p: nat, k: string)
    requires !NoneOccurs(q, keys)
    ensures IsFirst(q, keys, p, k)
  {
    var first, rest := keys[0], keys[1..];
    assert keys == [first] + rest;
    p, k := 0, first;
    if Find(q, first, 0).Some? {
      p := Find(q, first, 0).value;
    }
    if !NoneOccurs(q, rest) {
      var p1, k1 := FirstKeyExists(q, rest);
      if Find(q, first, 0).None? || p1 < p || (p1 == p && |k1| > |first|) {
        p, k := p1, k1;
      }
    }
  }

  lemma PassOnce(s: Pending)
    ensures Pass(s).None? <==> NoneOccurs(s.query, s.keys)
    ensures Pass(s).Some? ==>
      var t := Pass(s).value;
      && (Endless(t.query, t.keys) <==> Endless(s.query, s.keys))
      && (!Endless(s.query, s.keys) ==> Weight(t.query) < Weight(s.query))
  {
    if Pass(s).Some? {
      var p: nat, k: string :| IsFirst(s.query, s.keys, p, k)
        && Pass(s).value == Pending(Replaced(s.query, p, k), Kept(s.query, s.keys));
      assert !Absent(s.query, k, 0);
      EndlessStays(s.query, s.keys, p, k, Kept(s.query, s.keys));
      if !Endless(s.query, s.keys) {
        PassShrinks(s.query, s.keys, p, k);
      }
    } else if !NoneOccurs(s.query, s.keys) {
      var p, k := FirstKeyExists(s.query, s.keys);
    }
  }

  lemma PassesStep(s: Pending, t: Pending, n: nat, m: nat)
    requires Pass(s) == Some(t) && n == m + 1
    ensures Passes(s, n) == Passes(t, m)
  {
  }

  lemma PassEndless(s: Pending)
    requires Endless(s.query, s.keys)
    ensures Pass(s).Some? && Endless(Pass(s).value.query, Pass(s).value.keys)
  {
    EndlessFinds(s.query, s.keys);
    PassOnce(s);
  }

  lemma {:induction false} EndlessPasses(s: Pending, n: nat)
    requires Endless(s.query, s.keys)
    ensures Passes(s, n).Some?
    decreases n
  {
    if n > 0 {
      PassEndless(s);
      var t, m: nat := Pass(s).value, n - 1;
      EndlessPasses(t, m);
      PassesStep(s, t, n, m);
    }
  }

  lemma {:induction false} PassesRunOut(s: Pending, n: nat)
    requires !Endless(s.query, s.keys) && Weight(s.query) < n
    ensures Passes(s, n).None?
    decreases n
  {
    PassOnce(s);
    if Pass(s).Some? {
      var t, m: nat := Pass(s).value, n - 1;
      PassesRunOut(t, m);
      PassesStep(s, t, n, m);
    }
  }

  /** Repeating passes ends exactly when no key is empty and none is the mark itself in a query that has one. */
  lemma PassesEndIff(s: Pending)
    ensures (exists n: nat :: Passes(s, n).None?) <==> !Endless(s.query, s.keys)
  {
    if Endless(s.query, s.keys) {
      forall n: nat | true ensures Passes(s, n).Some? {
        EndlessPasses(s, n);
      }
    } else {
      PassesRunOut(s, Weight(s.query) + 1);
    }
  }

  // ---- The code -------------------------------------------------------------------------------

  method StringFind(q: string, key: string) returns (pos: Option<nat>)
    ensures pos.Some? ==> FirstAt(q, key, 0, pos.value)
    ensures pos.None? ==> Absent(q, key, 0)
  {
    var i := 0;
    while i + |key| <= |q|
      invariant forall j | 0 <= j < i :: !OccursAt(q, key, j)
    {
      if q[i..i + |key|] == key {
        return Some(i);
      }
      i := i + 1;
    }
    return None;
  }

  class Query {
    var query: string
    var keysByPos: seq<string>

    constructor (sql: string)
      ensures query == sql && keysByPos == []
    {
      query, keysByPos := sql, [];
    }

    /** Replaces the leftmost key, the longest one there, by a mark and records it; keys that do not occur
        are dropped. False, with nothing changed, when none occurs. */
    method ReplaceFirstKey(keysIn: seq<string>) returns (found: bool, keysLeft: seq<string>, ghost pos: nat, ghost key: string)
      requires PrefixesFirst(keysIn)
      modifies this
      ensures Found(old(query), keysIn, keysLeft) && PrefixesFirst(keysLeft)
      ensures found <==> !NoneOccurs(old(query), keysIn)
      ensures found ==> IsFirst(old(query), keysIn, pos, key) && query == Replaced(old(query), pos, key)
      ensures found ==> keysByPos == old(keysByPos) + [key]
      ensures !found ==> query == old(query) && keysByPos == old(keysByPos)
    {
      var toDelete: seq<string> := [];
      var firstKeyPos: Option<nat> := None;
      var firstKeyFound: string := "";
      for i := 0 to |keysIn|
        invariant query == old(query) && keysByPos == old(keysByPos)
        invariant forall k :: k in toDelete <==> k in keysIn[..i] && Absent(query, k, 0)
        invariant firstKeyPos.None? ==> NoneOccurs(query, keysIn[..i])
        invariant firstKeyPos.Some? ==> IsFirst(query, keysIn[..i], firstKeyPos.value, firstKeyFound)
      {
        var k := keysIn[i];
        assert keysIn[..i + 1] == keysIn[..i] + [k];
        var p := StringFind(query, k);
        match p {
          case None =>
            toDelete := toDelete + [k];
          case Some(at) =>
            if firstKeyPos.None? || at <= firstKeyPos.value {
              if firstKeyPos.Some? && at == firstKeyPos.value {
                LaterIsLonger(query, keysIn, i, firstKeyFound, at);
              }
              firstKeyPos, firstKeyFound := Some(at), k;
            }
        }
      }
      assert keysIn[..|keysIn|] == keysIn;
      keysLeft := Without(keysIn, toDelete);
      found, pos, key := firstKeyPos.Some?, 0, firstKeyFound;
      if found {
        var at := firstKeyPos.value;
        pos := at;
        keysByPos := keysByPos + [firstKeyFound];
        query := query[..at] + [MARK] + query[at + |firstKeyFound|..];
      }
    }

    /** The caller's loop, which ends exactly for the queries and keys admitted here. */
    method PostBindInputVars(keys: seq<string>)
      requires Sorted(keys) && keysByPos == [] && !Endless(query, keys)
      modifies this
      ensures Clean(keys) ==> Rewritten(query, keysByPos) == Tokenise(old(query), keys)
    {
      SortedPutsPrefixesFirst(keys);
      var keysIn := keys;
      var more := true;
      ghost var goal := Tokenise(query, keys);
      ghost var scan := Scan("", query, [], keys);
      if Clean(keys) {
        ScanStarts(query, keys);
      }
      assert "" + query == query;
      while more
        invariant PrefixesFirst(keysIn) && !Endless(query, keysIn)
        invariant Clean(keys) ==> OnScan(goal, scan)
        invariant more ==> scan.keys == keysIn
        invariant query == scan.text + scan.rest && keysByPos == scan.outs
        invariant !more ==> NoneOccurs(query, scan.keys)
        decreases more, Weight(query)
      {
        ghost var was := query;
        var left;
        ghost var pos, key;
        more, left, pos, key := ReplaceFirstKey(keysIn);
        if more {
          EndlessStays(was, keysIn, pos, key, left);
          PassShrinks(was, keysIn, pos, key);
          if Clean(keys) {
            ScanStep(goal, scan, was, pos, key, left);
          }
          scan := Scan(was[..pos] + [MARK], was[pos + |key|..], scan.outs + [key], left);
        }
        keysIn := left;
      }
      if Clean(keys) {
        ScanEnds(goal, scan);
      }
    }
  }

  lemma LaterIsLonger(q: string, keys: seq<string>, i: nat, found: string, at: nat)
    requires PrefixesFirst(keys) && i < |keys| && found in keys[..i]
    requires OccursAt(q, found, at) && OccursAt(q, keys[i], at)
    ensures |keys[i]| >= |found|
  {
    var j :| 0 <= j < i && keys[j] == found;
    PrefixesFirstAt(keys, j, i);
    SamePlace(q, keys[i], found, at);
  }

  lemma SamePlace(q: string, a: string, b: string, at: nat)
    requires OccursAt(q, a, at) && OccursAt(q, b, at)
    ensures |a| <= |b| ==> a <= b
  {
    if |a| <= |b| {
      assert b[..|a|] == q[at..at + |b|][..|a|] == q[at..at + |a|];
    }
  }
}
