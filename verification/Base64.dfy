/** Base64: the byte-by-byte encoder and decoders, and the noisy variant, against groups of three bytes and
    four letters. Bytes are 8-bit words, so shifts and sums drop bits where the program's do. */
module Base64 {
  import opened Octets

  const PAD: octet := 61

  /** What a search of the alphabet that finds nothing becomes in a byte. */
  const NOWHERE: octet := 255

  /** The alphabet in order: A-Z, a-z, 0-9, '+' and '/'. */
  function Letter(v: octet): (c: octet)
    requires v < 64
    ensures InAlphabet(c)
  {
    if v < 26 then 65 + v else if v < 52 then 71 + v else if v < 62 then v - 4 else if v == 62 then 43 else 47
  }

  /** Letter by letter, the alphabet of section 4 of RFC 4648: from 'A', from 'a' and from '0' upwards without a gap,
      then '+' and '/'. */
  lemma LettersInOrder(v: octet)
    requires v < 64
    ensures Letter(0) == 65 && Letter(26) == 97 && Letter(52) == 48 && Letter(62) == 43 && Letter(63) == 47
    ensures v != 25 && v != 51 && v < 61 ==> Letter(v + 1) == Letter(v) + 1
  {
  }

  predicate IsAlnum(c: octet) {
    65 <= c <= 90 || 97 <= c <= 122 || 48 <= c <= 57
  }

  predicate InAlphabet(c: octet) {
    c != PAD && (IsAlnum(c) || c == 47 || c == 43)
  }

  function Position(c: octet): (v: octet)
    ensures if InAlphabet(c) then v < 64 && Letter(v) == c else v == NOWHERE
    ensures forall u: octet :: u < 64 && Letter(u) == c ==> u == v
  {
    if 65 <= c <= 90 then c - 65 else if 97 <= c <= 122 then c - 71 else if 48 <= c <= 57 then c + 4
    else if c == 43 then 62 else if c == 47 then 63 else NOWHERE
  }

  // ---- Three bytes and four letters -------------------------------------------------------------

  function First(b0: octet): octet { (b0 & 0xfc) >> 2 }
  function Second(b0: octet, b1: octet): octet { ((b0 & 0x03) << 4) + ((b1 & 0xf0) >> 4) }
  function Third(b1: octet, b2: octet): octet { ((b1 & 0x0f) << 2) + ((b2 & 0xc0) >> 6) }
  function Fourth(b2: octet): octet { b2 & 0x3f }

  function High(c0: octet, c1: octet): octet { (c0 << 2) + ((c1 & 0x30) >> 4) }
  function Middle(c1: octet, c2: octet): octet { ((c1 & 0xf) << 4) + ((c2 & 0x3c) >> 2) }
  function Low(c2: octet, c3: octet): octet { ((c2 & 0x3) << 6) + c3 }

  /** The four values of a group, from the left, are its 24 bits six by six (section 4 of RFC 4648). */
  lemma GroupBits(b0: octet, b1: octet, b2: octet)
    ensures First(b0) < 64 && Second(b0, b1) < 64 && Third(b1, b2) < 64 && Fourth(b2) < 64
    ensures (First(b0) as bv24 << 18) | (Second(b0, b1) as bv24 << 12) | (Third(b1, b2) as bv24 << 6) | Fourth(b2) as bv24
         == (b0 as bv24 << 16) | (b1 as bv24 << 8) | b2 as bv24
  {
  }

  lemma GroupBack(b0: octet, b1: octet, b2: octet)
    ensures High(First(b0), Second(b0, b1)) == b0
    ensures Middle(Second(b0, b1), Third(b1, b2)) == b1
    ensures Low(Third(b1, b2), Fourth(b2)) == b2
  {
  }

  // ---- Whole texts --------------------------------------------------------------------------------

  function EncodeGroup(b0: octet, b1: octet, b2: octet): (r: seq<octet>)
    ensures |r| == 4 && forall i | 0 <= i < 4 :: InAlphabet(r[i])
  {
    GroupBits(b0, b1, b2);
    [Letter(First(b0)), Letter(Second(b0, b1)), Letter(Third(b1, b2)), Letter(Fourth(b2))]
  }

  function Padding(n: nat): (r: seq<octet>)
    ensures |r| == n && forall i | 0 <= i < n :: r[i] == PAD
  {
    if n == 0 then [] else [PAD] + Padding(n - 1)
  }

  function Zeros(n: nat): (r: seq<octet>)
    ensures |r| == n && forall i | 0 <= i < n :: r[i] == 0
  {
    if n == 0 then [] else [0] + Zeros(n - 1)
  }

  /** Three bytes at a time; one or two left over give two or three letters and padding. */
  function Encoded(b: seq<octet>): seq<octet> {
    if b == [] then []
    else if |b| < 3 then
      var p := b + Zeros(3 - |b|);
      EncodeGroup(p[0], p[1], p[2])[..|b| + 1] + Padding(3 - |b|)
    else EncodeGroup(b[0], b[1], b[2]) + Encoded(b[3..])
  }

  function DecodeGroup(c: seq<octet>): (r: seq<octet>)
    requires |c| == 4
    ensures |r| == 3
  {
    [High(Position(c[0]), Position(c[1])), Middle(Position(c[1]), Position(c[2])), Low(Position(c[2]), Position(c[3]))]
  }

  /** How many letters of the alphabet a text begins with, counting no further than four. */
  function Letters(s: seq<octet>, from: nat): (n: nat)
    requires from <= 4
    ensures from <= n <= 4 && (n > from ==> n <= |s|)
    decreases 4 - from
  {
    if from == 4 || from >= |s| || !InAlphabet(s[from]) then from else Letters(s, from + 1)
  }

  /** Four letters at a time up to the first character outside the alphabet; `x` letters left over give
      `x - 1` bytes. */
  function Decoded(s: seq<octet>): seq<octet>
    decreases |s|
  {
    var x := Letters(s, 0);
    if x == 4 then DecodeGroup(s[..4]) + Decoded(s[4..])
    else if x == 0 then []
    else DecodeGroup(s[..x] + Zeros(4 - x))[..x - 1]
  }

  lemma GroupOfLetters(b0: octet, b1: octet, b2: octet)
    ensures DecodeGroup(EncodeGroup(b0, b1, b2)) == [b0, b1, b2]
  {
    GroupBits(b0, b1, b2);
    GroupBack(b0, b1, b2);
  }

  lemma AllLetters(s: seq<octet>, n: nat)
    requires n <= 4 && n <= |s| && forall i | 0 <= i < n :: InAlphabet(s[i])
    requires n < 4 ==> n == |s| || !InAlphabet(s[n])
    ensures Letters(s, 0) == n
  {
    AllLettersFrom(s, n, 0);
  }

  lemma {:induction false} AllLettersFrom(s: seq<octet>, n: nat, from: nat)
    requires from <= n <= 4 && n <= |s| && forall i | 0 <= i < n :: InAlphabet(s[i])
    requires n < 4 ==> n == |s| || !InAlphabet(s[n])
    ensures Letters(s, from) == n
    decreases n - from
  {
    if from < n {
      AllLettersFrom(s, n, from + 1);
    }
  }

  lemma DecodedGroup(group: seq<octet>, rest: seq<octet>)
    requires |group| == 4 && forall i | 0 <= i < 4 :: InAlphabet(group[i])
    ensures Decoded(group + rest) == DecodeGroup(group) + Decoded(rest)
  {
    var s := group + rest;
    AllLetters(s, 4);
    assert s[..4] == group && s[4..] == rest;
  }

  lemma DecodedTail(s: seq<octet>, x: nat)
    requires 0 < x < 4 && x == Letters(s, 0)
    ensures Decoded(s) == DecodeGroup(s[..x] + Zeros(4 - x))[..x - 1]
  {
  }

  lemma TailLetters(letters: seq<octet>, x: nat, pads: nat, s: seq<octet>)
    requires |letters| == 4 && 0 < x < 4 && pads > 0 && (forall i | 0 <= i < 4 :: InAlphabet(letters[i]))
    requires s == letters[..x] + Padding(pads)
    ensures Letters(s, 0) == x && Decoded(s) == DecodeGroup(letters[..x] + Zeros(4 - x))[..x - 1]
  {
    AllLetters(s, x);
    assert s[..x] == letters[..x];
    DecodedTail(s, x);
  }

  lemma TailBack(b: seq<octet>, p: seq<octet>, letters: seq<octet>, x: nat, s: seq<octet>)
    requires |p| == 3 && |letters| == 4 && 0 < x < 4 && b == p[..x - 1]
    requires DecodeGroup(letters) == p && forall i | 0 <= i < 4 :: InAlphabet(letters[i])
    requires s == letters[..x] + Padding(4 - x)
    ensures Decoded(s) == b
  {
    TailLetters(letters, x, 4 - x, s);
    SameBytes(letters[..x] + Zeros(4 - x), letters, x);
  }

  lemma GroupDecodes(p: seq<octet>, letters: seq<octet>)
    requires |p| == 3 && letters == EncodeGroup(p[0], p[1], p[2])
    ensures DecodeGroup(letters) == p
  {
    GroupOfLetters(p[0], p[1], p[2]);
    assert [p[0], p[1], p[2]] == p;
  }

  lemma ShortBack(b: seq<octet>, p: seq<octet>, letters: seq<octet>, s: seq<octet>)
    requires 0 < |b| < 3 && p == b + Zeros(3 - |b|) && letters == EncodeGroup(p[0], p[1], p[2])
    requires s == letters[..|b| + 1] + Padding(3 - |b|)
    ensures Decoded(s) == b
  {
    GroupDecodes(p, letters);
    TailBack(b, p, letters, |b| + 1, s);
  }

  /** The first bytes of a group depend on its first letters only. */
  lemma SameBytes(c: seq<octet>, d: seq<octet>, x: nat)
    requires |c| == |d| == 4 && 0 < x <= 4 && forall i | 0 <= i < x :: c[i] == d[i]
    ensures DecodeGroup(c)[..x - 1] == DecodeGroup(d)[..x - 1]
  {
  }

  /** Decoding an encoding gives the bytes back, for every byte string. */
  lemma {:induction false} DecodedEncoded(b: seq<octet>)
    ensures Decoded(Encoded(b)) == b
    decreases |b|
  {
    if |b| >= 3 {
      GroupOfLetters(b[0], b[1], b[2]);
      DecodedGroup(EncodeGroup(b[0], b[1], b[2]), Encoded(b[3..]));
      DecodedEncoded(b[3..]);
      assert b == [b[0], b[1], b[2]] + b[3..];
    } else if b != [] {
      var p := b + Zeros(3 - |b|);
      ShortBack(b, p, EncodeGroup(p[0], p[1], p[2]), Encoded(b));
    }
  }

  /** Four letters for every three bytes begun. */
  lemma {:induction false} EncodedLength(b: seq<octet>)
    ensures |Encoded(b)| == (|b| + 2) / 3 * 4
    decreases |b|
  {
    if |b| >= 3 {
      EncodedLength(b[3..]);
    }
  }

  /** Decoding never yields more bytes than there are characters, so a container of that size suffices. */
  lemma {:induction false} DecodedFits(s: seq<octet>)
    ensures |Decoded(s)| <= |s|
    decreases |s|
  {
    if Letters(s, 0) == 4 {
      DecodedFits(s[4..]);
    }
  }

  // ---- The code ---------------------------------------------------------------------------------

  ghost predicate Spells(values: seq<octet>, letters: seq<octet>) {
    |values| == |letters| == 4 && forall i | 0 <= i < 4 :: values[i] < 64 && Letter(values[i]) == letters[i]
  }

  lemma GroupSpells(b0: octet, b1: octet, b2: octet, v: seq<octet>)
    requires |v| == 4 && v[0] == First(b0) && v[1] == Second(b0, b1) && v[2] == Third(b1, b2) && v[3] == Fourth(b2)
    ensures Spells(v, EncodeGroup(b0, b1, b2))
  {
    GroupBits(b0, b1, b2);
  }

  /** Fills `cont4` with the values of the letters for the three bytes in `cont3`. */
  method BytesToSextets(cont3: array<octet>, cont4: array<octet>)
    requires cont3.Length == 3 && cont4.Length == 4 && cont3 != cont4
    modifies cont4
    ensures Spells(cont4[..], EncodeGroup(cont3[0], cont3[1], cont3[2]))
  {
    cont4[0] := (cont3[0] & 0xfc) >> 2;
    cont4[1] := ((cont3[0] & 0x03) << 4) + ((cont3[1] & 0xf0) >> 4);
    cont4[2] := ((cont3[1] & 0x0f) << 2) + ((cont3[2] & 0xc0) >> 6);
    cont4[3] := cont3[2] & 0x3f;
    GroupSpells(cont3[0], cont3[1], cont3[2], cont4[..]);
  }

  method AppendLetters(text: seq<octet>, cont4: array<octet>, n: nat, ghost group: seq<octet>) returns (r: seq<octet>)
    requires n <= 4 && Spells(cont4[..], group)
    ensures r == text + group[..n]
  {
    r := text;
    assert group[..0] == [];
    for y := 0 to n
      invariant r == text + group[..y]
    {
      assert group[..y + 1] == group[..y] + [group[y]];
      r := r + [Letter(cont4[y])];
    }
  }

  /** Replaces the four characters of `cont4` by their values and fills `cont3` with the bytes. */
  method LettersToBytes(cont4: array<octet>, cont3: array<octet>)
    requires cont3.Length == 3 && cont4.Length == 4 && cont3 != cont4
    modifies cont3, cont4
    ensures cont3[..] == DecodeGroup(old(cont4[..]))
  {
    ghost var was := cont4[..];
    for x := 0 to 4
      invariant forall i | 0 <= i < 4 :: cont4[i] == if i < x then Position(was[i]) else was[i]
    {
      cont4[x] := Position(cont4[x]);
    }
    cont3[0] := (cont4[0] << 2) + ((cont4[1] & 0x30) >> 4);
    cont3[1] := ((cont4[1] & 0xf) << 4) + ((cont4[2] & 0x3c) >> 2);
    cont3[2] := ((cont4[2] & 0x3) << 6) + cont4[3];
  }

  lemma {:induction false} PaddingEnd(n: nat)
    ensures Padding(n) + [PAD] == Padding(n + 1)
  {
    if n > 0 {
      PaddingEnd(n - 1);
    }
  }

  /** Between two bytes: `done` is written, `left` waits in the buffer, the text goes on at `i`. */
  ghost predicate Encoding(buf: seq<octet>, done: seq<octet>, left: seq<octet>, i: nat) {
    i <= |buf| && |left| < 3 && done + Encoded(left + buf[i..]) == Encoded(buf)
  }

  lemma EncodingTakes(buf: seq<octet>, done: seq<octet>, left: seq<octet>, i: nat, more: seq<octet>)
    requires Encoding(buf, done, left, i) && i < |buf| && more == left + [buf[i]]
    ensures |more| < 3 ==> Encoding(buf, done, more, i + 1)
    ensures |more| == 3 ==> Encoding(buf, done + EncodeGroup(more[0], more[1], more[2]), [], i + 1)
  {
    var rest := buf[i + 1..];
    assert left + buf[i..] == more + rest;
    if |more| == 3 {
      assert (more + rest)[3..] == rest && [] + rest == rest;
      Joined(done, EncodeGroup(more[0], more[1], more[2]), Encoded(rest));
    }
  }

  lemma EncodingEnds(buf: seq<octet>, done: seq<octet>, left: seq<octet>, padded: seq<octet>)
    requires Encoding(buf, done, left, |buf|)
    requires |padded| == 3 && left <= padded && forall i | |left| <= i < 3 :: padded[i] == 0
    ensures Encoded(buf) == if left == [] then done
                            else done + EncodeGroup(padded[0], padded[1], padded[2])[..|left| + 1] + Padding(3 - |left|)
  {
    assert left + buf[|buf|..] == left;
    if left != [] {
      EncodedTail(left, padded);
      Joined(done, EncodeGroup(padded[0], padded[1], padded[2])[..|left| + 1], Padding(3 - |left|));
    }
  }

  lemma Joined(a: seq<octet>, b: seq<octet>, c: seq<octet>)
    ensures a + (b + c) == a + b + c
  {
  }

  lemma EncodedTail(left: seq<octet>, padded: seq<octet>)
    requires 0 < |left| < 3 == |padded| && left <= padded && forall i | |left| <= i < 3 :: padded[i] == 0
    ensures Encoded(left) == EncodeGroup(padded[0], padded[1], padded[2])[..|left| + 1] + Padding(3 - |left|)
  {
    assert padded == left + Zeros(3 - |left|);
  }

  /** One more byte into the buffer; with the third, `cont4` spells their letters and the buffer is empty again. */
  method TakeByte(cont3: array<octet>, cont4: array<octet>, x: nat, c: octet, ghost left: seq<octet>, ghost more: seq<octet>)
    returns (y: nat)
    requires cont3.Length == 3 && cont4.Length == 4 && cont3 != cont4
    requires x < 3 && left == cont3[..x] && more == left + [c]
    modifies cont3, cont4
    ensures if x == 2 then y == 0 && Spells(cont4[..], EncodeGroup(more[0], more[1], more[2])) else y == x + 1 && cont3[..y] == more
  {
    cont3[x] := c;
    y := x + 1;
    assert cont3[..y] == more;
    if y == 3 {
      BytesToSextets(cont3, cont4);
      y := 0;
    }
  }

  method ToBase64(buf: seq<octet>) returns (encodedString: seq<octet>)
    ensures encodedString == Encoded(buf)
  {
    var cont3, cont4 := new octet[3], new octet[4];
    var x: nat, i: nat := 0, 0;
    encodedString := [];
    assert cont3[..x] == [] && [] + buf[0..] == buf;
    while i < |buf|
      invariant x < 3 && Encoding(buf, encodedString, cont3[..x], i)
    {
      ghost var left := cont3[..x];
      ghost var more := left + [buf[i]];
      EncodingTakes(buf, encodedString, left, i, more);
      x := TakeByte(cont3, cont4, x, buf[i], left, more);
      i := i + 1;
      if x == 0 {
        ghost var group := EncodeGroup(more[0], more[1], more[2]);
        encodedString := AppendLetters(encodedString, cont4, 4, group);
        assert group[..4] == group && cont3[..x] == [];
      }
    }
    encodedString := EncodeTail(buf, encodedString, cont3, cont4, x);
  }

  /** The one or two bytes left over, and the padding. */
  method EncodeTail(ghost buf: seq<octet>, done: seq<octet>, cont3: array<octet>, cont4: array<octet>, left: nat)
    returns (r: seq<octet>)
    requires cont3.Length == 3 && cont4.Length == 4 && cont3 != cont4
    requires left < 3 && Encoding(buf, done, cont3[..left], |buf|)
    modifies cont3, cont4
    ensures r == Encoded(buf)
  {
    ghost var letters := cont3[..left];
    for y := left to 3
      invariant cont3[..left] == letters && forall n | left <= n < y :: cont3[n] == 0
    {
      cont3[y] := 0;
    }
    EncodingEnds(buf, done, letters, cont3[..]);
    if left == 0 {
      return done;
    }
    BytesToSextets(cont3, cont4);
    r := AppendLetters(done, cont4, left + 1, EncodeGroup(cont3[0], cont3[1], cont3[2]));
    ghost var text := r;
    for x := left to 3
      invariant r == text + Padding(x - left)
    {
      PaddingEnd(x - left);
      r := r + [PAD];
    }
  }

  /** The sink one of the decoders appends to. */
  class BinContainer {
    const data: array<octet>
    var usedSize: nat

    ghost predicate Valid()
      reads this
    {
      usedSize <= data.Length
    }

    ghost function Contents(): seq<octet>
      requires Valid()
      reads this, data
    {
      data[..usedSize]
    }

    constructor (len: nat)
      ensures Valid() && Contents() == [] && data.Length == len && fresh(data)
    {
      data := new octet[len];
      usedSize := 0;
    }

    /** A byte that finds the container full is dropped. */
    method Append(c: octet)
      requires Valid()
      modifies this`usedSize, data
      ensures Valid()
      ensures Contents() == if old(usedSize) == data.Length then old(Contents()) else old(Contents()) + [c]
    {
      if usedSize == data.Length {
        return;
      }
      data[usedSize] := c;
      usedSize := usedSize + 1;
    }
  }

  /** Between two characters, as for the encoder. */
  ghost predicate Decoding(text: seq<octet>, done: seq<octet>, left: seq<octet>, i: nat) {
    && i <= |text| && |left| < 4 && (forall n | 0 <= n < |left| :: InAlphabet(left[n]))
    && done + Decoded(left + text[i..]) == Decoded(text)
  }

  lemma DecodingStarts(text: seq<octet>)
    ensures Decoding(text, [], [], 0)
  {
    assert [] + text[0..] == text;
  }

  lemma DecodingTakes(text: seq<octet>, done: seq<octet>, left: seq<octet>, i: nat, more: seq<octet>)
    requires Decoding(text, done, left, i) && i < |text| && InAlphabet(text[i]) && more == left + [text[i]]
    ensures |more| < 4 ==> Decoding(text, done, more, i + 1)
    ensures |more| == 4 ==> Decoding(text, done + DecodeGroup(more), [], i + 1)
  {
    var rest := text[i + 1..];
    assert left + text[i..] == more + rest;
    if |more| == 4 {
      DecodedGroup(more, rest);
      assert [] + rest == rest;
      Joined(done, DecodeGroup(more), Decoded(rest));
    }
  }

  lemma DecodingEnds(text: seq<octet>, done: seq<octet>, left: seq<octet>, i: nat, padded: seq<octet>)
    requires Decoding(text, done, left, i) && (i < |text| ==> !InAlphabet(text[i]))
    requires |padded| == 4 && left <= padded && forall n | |left| <= n < 4 :: padded[n] == 0
    ensures Decoded(text) == if left == [] then done else done + DecodeGroup(padded)[..|left| - 1]
  {
    var s := left + text[i..];
    AllLetters(s, |left|);
    assert s[..|left|] + Zeros(4 - |left|) == padded;
  }

  /** One more letter into the buffer; with the fourth, `cont3` holds their bytes and the buffer is empty again. */
  method TakeLetter(cont4: array<octet>, cont3: array<octet>, x: nat, ghost text: seq<octet>, ghost done: seq<octet>,
                    ghost i: nat, c: octet)
    returns (y: nat)
    requires cont3.Length == 3 && cont4.Length == 4 && cont3 != cont4
    requires x < 4 && Decoding(text, done, cont4[..x], i) && i < |text| && c == text[i] && InAlphabet(c)
    modifies cont3, cont4
    ensures y == if x == 3 then 0 else x + 1
    ensures Decoding(text, if x == 3 then done + cont3[..3] else done, cont4[..y], i + 1)
  {
    ghost var left := cont4[..x];
    ghost var more := left + [c];
    DecodingTakes(text, done, left, i, more);
    cont4[x] := c;
    y := x + 1;
    assert cont4[..y] == more;
    if y == 4 {
      assert cont4[..] == more;
      LettersToBytes(cont4, cont3);
      y := 0;
      assert cont4[..y] == [] && cont3[..3] == cont3[..];
    }
  }

  /** The letters left over at the end: `cont3` begins with their `n` bytes. */
  method TakeRest(cont4: array<octet>, cont3: array<octet>, x: nat, ghost text: seq<octet>, ghost done: seq<octet>, ghost i: nat)
    returns (n: nat)
    requires cont3.Length == 3 && cont4.Length == 4 && cont3 != cont4
    requires x < 4 && Decoding(text, done, cont4[..x], i) && (i < |text| ==> !InAlphabet(text[i]))
    modifies cont3, cont4
    ensures n <= 3 && Decoded(text) == done + cont3[..n]
  {
    ghost var left := cont4[..x];
    for y := x to 4
      invariant cont4[..x] == left && forall n | x <= n < y :: cont4[n] == 0
    {
      cont4[y] := 0;
    }
    DecodingEnds(text, done, left, i, cont4[..]);
    if x == 0 {
      assert done + cont3[..0] == done;
      return 0;
    }
    LettersToBytes(cont4, cont3);
    n := x - 1;
  }

  method FromBase64(text: seq<octet>) returns (decodedString: seq<octet>)
    ensures decodedString == Decoded(text)
  {
    var cont4, cont3 := new octet[4], new octet[3];
    var x: nat, bufPos: nat := 0, 0;
    decodedString := [];
    DecodingStarts(text);
    assert cont4[..x] == [];
    while bufPos < |text| && InAlphabet(text[bufPos])
      invariant x < 4 && Decoding(text, decodedString, cont4[..x], bufPos)
    {
      x := TakeLetter(cont4, cont3, x, text, decodedString, bufPos, text[bufPos]);
      bufPos := bufPos + 1;
      if x == 0 {
        decodedString := AppendBytes(decodedString, cont3, 3);
      }
    }
    var n := TakeRest(cont4, cont3, x, text, decodedString, bufPos);
    decodedString := AppendBytes(decodedString, cont3, n);
  }

  method AppendBytes(done: seq<octet>, cont3: array<octet>, n: nat) returns (r: seq<octet>)
    requires n <= 3 == cont3.Length
    ensures r == done + cont3[..n]
  {
    r := done;
    for y := 0 to n
      invariant r == done + cont3[..y]
    {
      r := r + [cont3[y]];
    }
  }

  /** The container has the text's size and so never drops a byte: same result as the string decoder. */
  method FromBase64ToBin(text: seq<octet>) returns (r: BinContainer)
    ensures r.Valid() && r.Contents() == Decoded(text)
  {
    r := new BinContainer(|text|);
    DecodedFits(text);
    var cont4, cont3 := new octet[4], new octet[3];
    var x: nat, bufPos: nat := 0, 0;
    ghost var done: seq<octet> := [];
    DecodingStarts(text);
    assert cont4[..x] == [];
    while bufPos < |text| && InAlphabet(text[bufPos])
      invariant r.Valid() && r.data.Length == |text| && fresh(r) && fresh(r.data) && r.data != cont4 && r.data != cont3
      invariant x < 4 && Decoding(text, done, cont4[..x], bufPos) && r.Contents() == done
    {
      x, done := TakeInto(r, cont4, cont3, x, text, done, bufPos);
      bufPos := bufPos + 1;
    }
    var n := TakeRest(cont4, cont3, x, text, done, bufPos);
    assert |done + cont3[..n]| <= |text|;
    StoreBytes(r, cont3, n);
  }

  /** One more letter; with the fourth, their bytes go into the container. */
  method TakeInto(r: BinContainer, cont4: array<octet>, cont3: array<octet>, x: nat, text: seq<octet>, ghost done: seq<octet>,
                  i: nat)
    returns (y: nat, ghost more: seq<octet>)
    requires cont3.Length == 3 && cont4.Length == 4 && cont3 != cont4 && r.data != cont4 && r.data != cont3
    requires x < 4 && Decoding(text, done, cont4[..x], i) && i < |text| && InAlphabet(text[i])
    requires r.Valid() && r.data.Length == |text| && r.Contents() == done
    modifies cont3, cont4, r`usedSize, r.data
    ensures y < 4 && Decoding(text, more, cont4[..y], i + 1) && r.Valid() && r.Contents() == more
  {
    y := TakeLetter(cont4, cont3, x, text, done, i, text[i]);
    more := done;
    if y == 0 {
      more := done + cont3[..3];
      DoneFits(text, more, cont4[..y], i + 1);
      StoreBytes(r, cont3, 3);
    }
  }

  lemma DoneFits(text: seq<octet>, done: seq<octet>, left: seq<octet>, i: nat)
    requires Decoding(text, done, left, i)
    ensures |done| <= |text|
  {
    DecodedFits(text);
  }

  method StoreBytes(r: BinContainer, cont3: array<octet>, n: nat)
    requires n <= 3 == cont3.Length && r.Valid() && r.data != cont3 && r.usedSize + n <= r.data.Length
    modifies r`usedSize, r.data
    ensures r.Valid() && r.Contents() == old(r.Contents()) + cont3[..n]
  {
    for y := 0 to n
      invariant r.Valid() && r.Contents() == old(r.Contents()) + cont3[..y]
    {
      r.Append(cont3[y]);
    }
  }

  // ---- The obfuscated variant: `noise` is what the seeded generator draws, one byte a byte ---------------

  function Unmasked(text: seq<octet>, noise: seq<octet>): seq<octet>
    requires |text| <= |noise|
  {
    DecodedFits(text);
    Xor(Decoded(text), noise)
  }

  /** For every seed, decoding an obfuscated text with the seed it was made with gives the bytes back. */
  lemma ObfuscationBack(buf: seq<octet>, noise: seq<octet>)
    requires |buf| <= |noise| && |Encoded(Xor(buf, noise))| <= |noise|
    ensures Unmasked(Encoded(Xor(buf, noise)), noise) == buf
  {
    DecodedEncoded(Xor(buf, noise));
    XorBack(buf, noise);
  }

  method ToBase64Obf(buf: seq<octet>, noise: seq<octet>) returns (r: seq<octet>)
    requires |buf| <= |noise|
    ensures r == Encoded(Xor(buf, noise))
  {
    var obfBuf: seq<octet> := [];
    assert buf[..0] == [];
    for i := 0 to |buf|
      invariant obfBuf == Xor(buf[..i], noise)
    {
      assert buf[..i + 1] == buf[..i] + [buf[i]];
      XorSnoc(buf[..i], buf[i], noise);
      obfBuf := obfBuf + [buf[i] ^ noise[i]];
    }
    assert buf[..|buf|] == buf;
    r := ToBase64(obfBuf);
  }

  method FromBase64Obf(text: seq<octet>, noise: seq<octet>) returns (decodedString: seq<octet>)
    requires |text| <= |noise|
    ensures decodedString == Unmasked(text, noise)
  {
    DecodedFits(text);
    var cont4, cont3 := new octet[4], new octet[3];
    var x: nat, bufPos: nat := 0, 0;
    decodedString := [];
    ghost var done: seq<octet> := [];
    DecodingStarts(text);
    assert cont4[..x] == [];
    while bufPos < |text| && InAlphabet(text[bufPos])
      invariant x < 4 && Decoding(text, done, cont4[..x], bufPos)
      invariant Masked(decodedString, done, noise)
    {
      x := TakeLetter(cont4, cont3, x, text, done, bufPos, text[bufPos]);
      bufPos := bufPos + 1;
      if x == 0 {
        ghost var more := done + cont3[..3];
        DoneFits(text, more, cont4[..x], bufPos);
        decodedString := AppendMasked(decodedString, cont3, 3, noise, done);
        done := more;
      }
    }
    var n := TakeRest(cont4, cont3, x, text, done, bufPos);
    decodedString := AppendMasked(decodedString, cont3, n, noise, done);
  }

  method AppendMasked(masked: seq<octet>, cont3: array<octet>, n: nat, noise: seq<octet>, ghost done: seq<octet>)
    returns (r: seq<octet>)
    requires n <= 3 == cont3.Length && |done| + n <= |noise| && Masked(masked, done, noise)
    ensures Masked(r, done + cont3[..n], noise)
  {
    r := masked;
    assert done + cont3[..0] == done;
    for y := 0 to n
      invariant r == Xor(done + cont3[..y], noise)
    {
      assert done + cont3[..y + 1] == (done + cont3[..y]) + [cont3[y]];
      XorSnoc(done + cont3[..y], cont3[y], noise);
      r := r + [cont3[y] ^ noise[|masked| + y]];
    }
  }
}
