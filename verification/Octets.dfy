/** Bytes as bit vectors, for the code that shifts, masks and combines their bits, and the masking of one byte
    sequence with another. */
module Octets {

  type octet = bv8

  function Xor(a: seq<octet>, b: seq<octet>): (r: seq<octet>)
    requires |a| <= |b|
    ensures |r| == |a|
  {
    if a == [] then [] else [a[0] ^ b[0]] + Xor(a[1..], b[1..])
  }

  lemma {:induction false} XorAt(a: seq<octet>, b: seq<octet>, i: nat)
    requires i < |a| <= |b|
    ensures Xor(a, b)[i] == a[i] ^ b[i]
  {
    if i > 0 {
      XorAt(a[1..], b[1..], i - 1);
    }
  }

  lemma XorBack(a: seq<octet>, k: seq<octet>)
    requires |a| <= |k|
    ensures Xor(Xor(a, k), k) == a
  {
  }

  /** `wire` is `plain` masked with the start of `k`. */
  ghost predicate Masked(wire: seq<octet>, plain: seq<octet>, k: seq<octet>) {
    |plain| <= |k| && wire == Xor(plain, k)
  }

  lemma {:induction false} XorSplit(a: seq<octet>, b: seq<octet>, k: seq<octet>)
    requires |a| + |b| <= |k|
    ensures Xor(a + b, k) == Xor(a, k) + Xor(b, k[|a|..])
    decreases |a|
  {
    if a == [] {
      assert a + b == b && k[0..] == k;
    } else {
      assert (a + b)[1..] == a[1..] + b && k[1..][|a[1..]|..] == k[|a|..];
      XorSplit(a[1..], b, k[1..]);
    }
  }

  lemma XorPrefix(a: seq<octet>, k: seq<octet>, k': seq<octet>)
    requires |a| <= |k| <= |k'| && k'[..|k|] == k
    ensures Xor(a, k') == Xor(a, k)
  {
  }

  lemma XorSnoc(a: seq<octet>, c: octet, noise: seq<octet>)
    requires |a| < |noise|
    ensures Xor(a + [c], noise) == Xor(a, noise) + [c ^ noise[|a|]]
  {
    var one := [c];
    XorSplit(a, one, noise);
    XorAt(one, noise[|a|..], 0);
  }

  lemma XorTake(a: seq<octet>, k: seq<octet>, n: nat)
    requires n <= |a| <= |k|
    ensures Xor(a, k)[..n] == Xor(a[..n], k)
  {
    assert a == a[..n] + a[n..];
    XorSplit(a[..n], a[n..], k);
  }
}
