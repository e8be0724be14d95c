/** Splitting a stream into records at its leftmost, non-overlapping delimiters: the reference the
    delimiter sub-parser is measured against, and how it extends when more of the stream arrives. */
module RecordSplit {
  import opened Bytes

  datatype Records = Records(done: seq<seq<byte>>, rest: seq<byte>)

  ghost function Split(s: seq<byte>, d: seq<byte>): Records
    requires d != []
    decreases |s|
  {
    match Find(s, d, 0)
    case None => Records([], s)
    case Some(i) =>
      var more := Split(s[i + |d|..], d);
      Records([s[..i]] + more.done, more.rest)
  }

  lemma OccursInPrefix(s: seq<byte>, more: seq<byte>, d: seq<byte>, j: nat)
    requires j + |d| <= |s|
    ensures OccursAt(s + more, d, j) <==> OccursAt(s, d, j)
  {
    assert (s + more)[j..j + |d|] == s[j..j + |d|];
  }

  /** The first occurrence is unique, so any first occurrence is the one the reference search finds. */
  lemma FindFirst(s: seq<byte>, d: seq<byte>, i: nat)
    requires FirstAt(s, d, 0, i)
    ensures Find(s, d, 0) == Some(i)
  {
  }

  /** More of the stream does not move the first delimiter. */
  lemma FirstStays(s: seq<byte>, more: seq<byte>, d: seq<byte>)
    requires Find(s, d, 0).Some?
    ensures Find(s + more, d, 0) == Find(s, d, 0)
  {
    var i := Find(s, d, 0).value;
    OccursInPrefix(s, more, d, i);
    forall j | 0 <= j < i ensures !OccursAt(s + more, d, j) {
      OccursInPrefix(s, more, d, j);
    }
    FindFirst(s + more, d, i);
  }

  /** One record at a time. */
  lemma SplitStep(s: seq<byte>, d: seq<byte>, i: nat)
    requires d != [] && Find(s, d, 0) == Some(i)
    ensures Split(s, d).done == [s[..i]] + Split(s[i + |d|..], d).done
    ensures Split(s, d).rest == Split(s[i + |d|..], d).rest
  {
  }

  lemma ShiftedSplit(s: seq<byte>, more: seq<byte>, d: seq<byte>, i: nat)
    requires d != [] && Find(s, d, 0) == Some(i)
    ensures Split(s + more, d).done == [s[..i]] + Split(s[i + |d|..] + more, d).done
    ensures Split(s + more, d).rest == Split(s[i + |d|..] + more, d).rest
  {
    FirstStays(s, more, d);
    assert (s + more)[..i] == s[..i] && (s + more)[i + |d|..] == s[i + |d|..] + more;
    SplitStep(s + more, d, i);
  }

  /** Splitting a longer stream: the records already complete stay, and splitting goes on from the rest. */
  lemma {:induction false} SplitMore(s: seq<byte>, more: seq<byte>, d: seq<byte>)
    requires d != []
    ensures Split(s + more, d).done == Split(s, d).done + Split(Split(s, d).rest + more, d).done
    ensures Split(s + more, d).rest == Split(Split(s, d).rest + more, d).rest
    decreases |s|
  {
    match Find(s, d, 0)
    case Some(i) =>
      var t := s[i + |d|..];
      ShiftedSplit(s, more, d, i);
      SplitStep(s, d, i);
      SplitMore(t, more, d);
      Regroup(s[..i], Split(t, d).done, Split(Split(t, d).rest + more, d).done);
    case None =>
      assert [] + Split(s + more, d).done == Split(s + more, d).done;
  }

  lemma Regroup(x: seq<byte>, a: seq<seq<byte>>, b: seq<seq<byte>>)
    ensures [x] + (a + b) == ([x] + a) + b
  {
  }

  /** What is left over holds no delimiter. */
  lemma {:induction false} RestHasNone(s: seq<byte>, d: seq<byte>)
    requires d != []
    ensures Absent(Split(s, d).rest, d, 0) && |Split(s, d).rest| <= |s|
    decreases |s|
  {
    if Find(s, d, 0).Some? {
      RestHasNone(s[Find(s, d, 0).value + |d|..], d);
    }
  }

  /** Putting the delimiters back between the records restores the stream. */
  function Join(done: seq<seq<byte>>, rest: seq<byte>, d: seq<byte>): seq<byte> {
    if done == [] then rest else done[0] + d + Join(done[1..], rest, d)
  }

  lemma {:induction false} SplitJoins(s: seq<byte>, d: seq<byte>)
    requires d != []
    ensures Join(Split(s, d).done, Split(s, d).rest, d) == s
    decreases |s|
  {
    if Find(s, d, 0).Some? {
      var i := Find(s, d, 0).value;
      SplitStep(s, d, i);
      SplitJoins(s[i + |d|..], d);
      assert Split(s, d).done[1..] == Split(s[i + |d|..], d).done;
      CutAt(s, d, i);
    }
  }

  lemma CutAt(s: seq<byte>, d: seq<byte>, i: nat)
    requires OccursAt(s, d, i)
    ensures s == s[..i] + d + s[i + |d|..]
  {
  }
}
