/** Bytes, machine-word bounds and the reference notion of "first occurrence"
    that the containers, the stream parsers and the query rewriter are measured against. */
module Bytes {

  type byte = b: int | 0 <= b < 256

  /** One past the largest value of a 64-bit unsigned counter. */
  const U64: int := 0x1_0000_0000_0000_0000

  datatype Option<+T> = None | Some(value: T)

  function Min(a: nat, b: nat): nat {
    if a <= b then a else b
  }

  predicate OccursAt<T(==)>(hay: seq<T>, needle: seq<T>, i: int) {
    0 <= i && i + |needle| <= |hay| && hay[i..i + |needle|] == needle
  }

  /** `i` is the first occurrence of the needle at or after `from`. */
  ghost predicate FirstAt<T>(hay: seq<T>, needle: seq<T>, from: nat, i: int) {
    from <= i && OccursAt(hay, needle, i) && forall j | from <= j < i :: !OccursAt(hay, needle, j)
  }

  /** The needle does not occur at or after `from`. */
  ghost predicate Absent<T>(hay: seq<T>, needle: seq<T>, from: nat) {
    forall j | from <= j :: !OccursAt(hay, needle, j)
  }

  /** The reference search: the first occurrence at or after `from`, if there is one. */
  ghost function Find<T>(hay: seq<T>, needle: seq<T>, from: nat): (r: Option<nat>)
    ensures r.Some? ==> FirstAt(hay, needle, from, r.value)
    ensures r.None? ==> Absent(hay, needle, from)
  {
    if i: nat :| from <= i && OccursAt(hay, needle, i) then
      FirstExists(hay, needle, from, i);
      var f: nat :| FirstAt(hay, needle, from, f);
      Some(f)
    else None
  }

  lemma FirstExists<T>(hay: seq<T>, needle: seq<T>, from: nat, i: nat)
    requires from <= i && OccursAt(hay, needle, i)
    ensures exists f: nat :: FirstAt(hay, needle, from, f)
    decreases i - from
  {
    if f: nat :| from <= f < i && OccursAt(hay, needle, f) {
      FirstExists(hay, needle, from, f);
    } else {
      assert FirstAt(hay, needle, from, i);
    }
  }

  /** Concatenation of a list of pieces. */
  function Concat<T>(pieces: seq<seq<T>>): seq<T> {
    if pieces == [] then [] else pieces[0] + Concat(pieces[1..])
  }

  lemma ConcatAppend<T>(a: seq<seq<T>>, b: seq<seq<T>>)
    ensures Concat(a + b) == Concat(a) + Concat(b)
  {
    if a == [] {
      assert a + b == b;
    } else {
      assert (a + b)[1..] == a[1..] + b;
      ConcatAppend(a[1..], b);
    }
  }

  lemma ConcatSnoc<T>(a: seq<seq<T>>, x: seq<T>)
    ensures Concat(a + [x]) == Concat(a) + x
  {
    ConcatAppend(a, [x]);
    assert Concat([x]) == x + Concat<T>([]);
  }
}
