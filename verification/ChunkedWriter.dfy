/** The HTTP chunked writer, against a decoder for the chunked coding of section 7.1 of RFC 9112. */
module ChunkedWriter {
  import opened Bytes
  import opened Streams

  const U32: nat := 0x1_0000_0000
  const CR: byte := 13
  const LF: byte := 10

  function CrLf(): (r: seq<byte>)
    ensures |r| == 2
  {
    [CR, LF]
  }

  // ---- Hexadecimal ------------------------------------------------------------------------------

  predicate IsHex(c: byte) {
    48 <= c <= 57 || 65 <= c <= 70 || 97 <= c <= 102
  }

  function HexDigit(v: nat): (c: byte)
    requires v < 16
    ensures IsHex(c) && DigitValue(c) == v
  {
    if v < 10 then 48 + v else 55 + v
  }

  const DIGITS: string := "0123456789ABCDEF"

  lemma DigitIsInOrder(v: nat)
    requires v < 16
    ensures DIGITS[v] as int == HexDigit(v)
  {
  }

  function DigitValue(c: byte): nat
    requires IsHex(c)
  {
    if c <= 57 then c - 48 else if c <= 70 then c - 55 else c - 87
  }

  function Hex(n: nat): (r: seq<byte>)
    ensures |r| > 0 && forall i | 0 <= i < |r| :: IsHex(r[i])
  {
    if n < 16 then [HexDigit(n)] else Hex(n / 16) + [HexDigit(n % 16)]
  }

  function HexValue(s: seq<byte>): nat
    requires forall i | 0 <= i < |s| :: IsHex(s[i])
  {
    if s == [] then 0 else HexValue(s[..|s| - 1]) * 16 + DigitValue(s[|s| - 1])
  }

  lemma {:induction false} HexBack(n: nat)
    ensures HexValue(Hex(n)) == n
  {
    if n < 16 {
      var r := Hex(n);
      assert r[..|r| - 1] == [];
    } else {
      HexBack(n / 16);
      assert Hex(n)[..|Hex(n)| - 1] == Hex(n / 16);
    }
  }

  // ---- The decoder --------------------------------------------------------------------------------

  datatype Decoding = Bad | Done(payload: seq<byte>, rest: seq<byte>)

  function Digits(s: seq<byte>): (k: nat)
    ensures k <= |s| && forall i | 0 <= i < k :: IsHex(s[i])
    ensures k < |s| ==> !IsHex(s[k])
  {
    if s == [] || !IsHex(s[0]) then 0 else 1 + Digits(s[1..])
  }

  predicate CrLfAt(s: seq<byte>, i: nat) {
    i + 2 <= |s| && s[i] == CR && s[i + 1] == LF
  }

  /** Chunks up to the one of size zero, an empty trailer, and what follows the body. */
  function Decode(s: seq<byte>): Decoding
    decreases |s|
  {
    var k := Digits(s);
    if k == 0 || !CrLfAt(s, k) then Bad
    else DecodeChunk(HexValue(s[..k]), s[k + 2..])
  }

  function DecodeChunk(n: nat, s: seq<byte>): Decoding
    decreases |s|
  {
    if n == 0 then (if CrLfAt(s, 0) then Done([], s[2..]) else Bad)
    else if !CrLfAt(s, n) then Bad
    else Prepend(s[..n], Decode(s[n + 2..]))
  }

  function Prepend(w: seq<byte>, d: Decoding): Decoding {
    if d.Done? then Done(w + d.payload, d.rest) else Bad
  }

  lemma {:induction false} DigitsOf(digits: seq<byte>, t: seq<byte>)
    requires forall i | 0 <= i < |digits| :: IsHex(digits[i])
    requires t != [] ==> !IsHex(t[0])
    ensures Digits(digits + t) == |digits|
  {
    if digits == [] {
      assert digits + t == t;
    } else {
      assert (digits + t)[1..] == digits[1..] + t;
      DigitsOf(digits[1..], t);
    }
  }

  lemma HeaderDecodes(n: nat, line: seq<byte>, s: seq<byte>)
    requires line == CrLf()
    ensures Decode(Hex(n) + line + s) == DecodeChunk(n, s)
  {
    var all, digits := Hex(n) + line + s, Hex(n);
    assert all == digits + (line + s);
    DigitsOf(digits, line + s);
    assert all[..|digits|] == digits && all[|digits| + 2..] == s;
    HexBack(n);
  }

  lemma DataDecodes(w: seq<byte>, line: seq<byte>, after: seq<byte>)
    requires w != [] && line == CrLf()
    ensures DecodeChunk(|w|, w + line + after) == Prepend(w, Decode(after))
  {
    var s := w + line + after;
    assert s[|w|] == line[0] && s[|w| + 1] == line[1];
    assert s[..|w|] == w && s[|w| + 2..] == after;
  }

  lemma EndDecodes(line: seq<byte>, after: seq<byte>)
    requires line == CrLf()
    ensures DecodeChunk(0, line + after) == Done([], after)
  {
    assert (line + after)[2..] == after;
  }

  // ---- What the writer emits ----------------------------------------------------------------------

  function ChunkHeader(pos: nat, count: nat): seq<byte> {
    Break(pos > 0) + Hex(Announced(count)) + CrLf()
  }

  /** The size a chunk announces: its count cut to 32 bits. */
  function Announced(count: nat): (n: nat)
    ensures count < U32 ==> n == count
    ensures count >= U32 ==> n < count
  {
    count % U32
  }

  function LastChunk(): (r: seq<byte>)
    ensures |r| == 5
  {
    [48] + CrLf() + CrLf()
  }

  lemma HexZero(n: nat)
    requires n == 0
    ensures Hex(n) == [48]
  {
  }

  /** A run of the writer from position `pos`: one chunk a write, then the end of the buffer. */
  function Emitted(pos: nat, writes: seq<seq<byte>>): seq<byte>
    decreases |writes|
  {
    if writes == [] then Break(pos > 0) + LastChunk()
    else ChunkHeader(pos, |writes[0]|) + writes[0] + Emitted(pos + |writes[0]|, writes[1..])
  }

  /** The same text grouped the decoder's way: each chunk with the line end that closes it. */
  function Text(started: bool, writes: seq<seq<byte>>): (r: seq<byte>)
    ensures |r| > 0 && IsHex(r[0])
    decreases |writes|
  {
    if writes == [] then LastChunk()
    else
      var w := writes[0];
      Hex(Announced(|w|)) + CrLf() + (w + Break(started || w != []) + Text(started || w != [], writes[1..]))
  }

  /** The line end that goes before every chunk once something was written. */
  function Break(started: bool): seq<byte> {
    if started then CrLf() else []
  }

  lemma {:induction false} EmittedIsText(pos: nat, writes: seq<seq<byte>>)
    ensures Emitted(pos, writes) == Break(pos > 0) + Text(pos > 0, writes)
    decreases |writes|
  {
    if writes != [] {
      EmittedIsText(pos + |writes[0]|, writes[1..]);
      var next := pos + |writes[0]|;
      Grouped(Break(pos > 0), Hex(Announced(|writes[0]|)), CrLf(), writes[0], Break(next > 0), Text(next > 0, writes[1..]));
    }
  }

  lemma Grouped(a: seq<byte>, b: seq<byte>, c: seq<byte>, w: seq<byte>, d: seq<byte>, t: seq<byte>)
    ensures (a + b + c) + w + (d + t) == a + (b + c + (w + d + t))
  {
  }

  ghost predicate Small(writes: seq<seq<byte>>) {
    forall w | w in writes :: |w| < U32
  }

  ghost predicate NoneEmpty(writes: seq<seq<byte>>) {
    forall w | w in writes :: w != []
  }

  /** One write at a time: a chunk decodes to its bytes and what follows; an empty one ends the body. */
  lemma ChunkDecodes(text: seq<byte>, w: seq<byte>, line: seq<byte>, after: seq<byte>)
    requires w != [] && line == CrLf() && text == Hex(|w|) + line + (w + line + after)
    ensures Decode(text) == Prepend(w, Decode(after))
  {
    HeaderDecodes(|w|, line, w + line + after);
    DataDecodes(w, line, after);
  }

  lemma EmptyChunkEnds(text: seq<byte>, n: nat, line: seq<byte>, gap: seq<byte>, after: seq<byte>)
    requires n == 0 && line == CrLf() && text == Hex(n) + line + (gap + after)
    requires gap == line || (gap == [] && after != [] && IsHex(after[0]))
    ensures Decode(text) == if gap == line then Done([], after) else Bad
  {
    HeaderDecodes(n, line, gap + after);
    if gap == line {
      EndDecodes(line, after);
    } else {
      assert gap + after == after;
    }
  }

  lemma LastDecodes(last: seq<byte>, none: seq<byte>)
    requires last == LastChunk() && none == []
    ensures Decode(last) == Done(none, none)
  {
    var line, n: nat := CrLf(), 0;
    HexZero(n);
    HeaderDecodes(n, line, line);
    EndDecodes(line, none);
    assert line + none == line;
  }

  /** The body decodes to exactly the payload exactly when no write is empty. */
  lemma {:induction false} TextDecodes(started: bool, writes: seq<seq<byte>>)
    requires Small(writes)
    ensures Decode(Text(started, writes)) == Done(Concat(writes), []) <==> NoneEmpty(writes)
    decreases |writes|
  {
    if writes == [] {
      LastDecodes(Text(started, writes), []);
    } else if writes[0] == [] {
      var after := Text(started, writes[1..]);
      assert writes[0] in writes && writes[0] + Break(started) + after == Break(started) + after;
      EmptyChunkEnds(Text(started, writes), |writes[0]|, CrLf(), Break(started), after);
    } else {
      assert writes[0] in writes;
      ChunkDecodes(Text(started, writes), writes[0], CrLf(), Text(true, writes[1..]));
      TextDecodes(true, writes[1..]);
      OneOfThem(writes);
      SamePrepend(writes[0], Decode(Text(true, writes[1..])), Concat(writes[1..]));
    }
  }

  lemma OneOfThem(writes: seq<seq<byte>>)
    requires writes != [] && writes[0] != []
    ensures NoneEmpty(writes) <==> NoneEmpty(writes[1..])
  {
    if NoneEmpty(writes[1..]) {
      forall i | 0 <= i < |writes| ensures writes[i] != [] {
        assert i > 0 ==> writes[i] == writes[1..][i - 1] && writes[1..][i - 1] in writes[1..];
      }
    }
    assert forall w | w in writes[1..] :: w in writes;
  }

  lemma SamePrepend(w: seq<byte>, d: Decoding, p: seq<byte>)
    ensures Prepend(w, d) == Done(w + p, []) <==> d == Done(p, [])
  {
    if d.Done? && w + d.payload == w + p {
      assert d.payload == (w + d.payload)[|w|..] == (w + p)[|w|..] == p;
    }
  }

  /** For every sequence of writes below 4 GiB: the receiver gets the payload and nothing else, whatever
      line ends or digits it holds, if and only if none of the writes was empty. */
  lemma ChunkedRoundTrip(writes: seq<seq<byte>>)
    requires Small(writes)
    ensures Decode(Emitted(0, writes)) == Done(Concat(writes), []) <==> NoneEmpty(writes)
  {
    EmittedIsText(0, writes);
    TextDecodes(false, writes);
    assert [] + Text(false, writes) == Text(false, writes);
  }

  // ---- A write of 4 GiB or more ----------------------------------------------------------------------

  /** Framing takes at least five bytes more than the payload, and ten when there is any payload. */
  lemma {:induction false} FramingTakesSpace(s: seq<byte>)
    ensures Decode(s).Done? ==> |Decode(s).payload| + |Decode(s).rest| + 5 <= |s|
    ensures Decode(s).Done? && Decode(s).payload != [] ==> |Decode(s).payload| + |Decode(s).rest| + 10 <= |s|
    decreases |s|
  {
    var k := Digits(s);
    if k > 0 && CrLfAt(s, k) {
      var n, t := HexValue(s[..k]), s[k + 2..];
      if n > 0 && CrLfAt(t, n) {
        FramingTakesSpace(t[n + 2..]);
      }
    }
  }

  /** The size is announced modulo 2^32, so one write is received whole exactly when it is not empty and
      shorter than that. */
  lemma SingleWriteExact(w: seq<byte>, writes: seq<seq<byte>>)
    requires writes == [w]
    ensures Decode(Emitted(0, writes)) == Done(w, []) <==> 0 < |w| < U32
  {
    var none := writes[1..];
    assert none == [] && Concat(none) == [] && Concat(writes) == w + Concat(none) == w;
    assert w in writes;
    if |w| < U32 {
      ChunkedRoundTrip(writes);
      assert forall v | v in writes :: v == w;
    } else {
      var pos: nat := 0;
      EmittedIsText(pos, writes);
      assert Break(pos > 0) + Text(false, writes) == Text(false, writes);
      LargeWriteCut(w, Announced(|w|), CrLf(), Text(true, none));
    }
  }

  lemma LargeWriteCut(w: seq<byte>, n: nat, line: seq<byte>, last: seq<byte>)
    requires n < |w| && line == CrLf() && last == LastChunk()
    ensures Decode(Hex(n) + line + (w + line + last)) != Done(w, [])
  {
    var s := w + line + last;
    HeaderDecodes(n, line, s);
    CutShort(n, s, |w|);
  }

  lemma CutShort(n: nat, s: seq<byte>, size: nat)
    requires n < size && |s| == size + 7
    ensures DecodeChunk(n, s).Done? ==> |DecodeChunk(n, s).payload| < size || DecodeChunk(n, s).rest != []
  {
    if n > 0 && CrLfAt(s, n) {
      FramingTakesSpace(s[n + 2..]);
    }
  }

  // ---- The code -----------------------------------------------------------------------------------

  class Writer {
    const dst: Sink
    var pos: nat

    constructor (dst: Sink)
      ensures this.dst == dst && pos == 0
    {
      this.dst, pos := dst, 0;
    }

    /** One chunk, unless the sink fails or ends on the way; a count at the very top of the 64-bit range is
        refused. The status counts the header's bytes too. */
    method Write(buf: seq<byte>) returns (cur: Status)
      modifies this`pos, dst
      ensures |buf| + 64 >= U64 ==> !cur.succeed && dst.content == old(dst.content)
      ensures old(dst.content) <= dst.content <= old(dst.content) + ChunkHeader(old(pos), |buf|) + buf || cur.finish
      ensures cur.succeed <==> |buf| + 64 < U64 && dst.failures == old(dst.failures)
      ensures cur.succeed ==> pos == old(pos) + |buf|
      ensures !cur.succeed ==> pos == old(pos)
      ensures cur.succeed && !cur.finish ==> dst.content == old(dst.content) + ChunkHeader(old(pos), |buf|) + buf
    {
      if |buf| + 64 >= U64 {
        return Status(0, false, false);
      }
      var strhex := ChunkHeader(pos, |buf|);
      cur := dst.WriteFullStream(strhex);
      if !cur.succeed {
        return;
      }
      assert strhex[..|strhex|] == strhex && buf[..|buf|] == buf;
      var st := dst.WriteFullStream(buf);
      cur := Plus(cur, st);
      if !cur.succeed {
        return;
      }
      pos := pos + |buf|;
    }

    method EndBuffer() returns (ok: bool, ghost finish: bool)
      modifies dst
      ensures old(dst.content) <= dst.content <= old(dst.content) + Emitted(pos, [])
      ensures ok && !finish ==> dst.content == old(dst.content) + Emitted(pos, [])
      ensures (ok <==> dst.failures == old(dst.failures)) && (finish <==> dst.ends > old(dst.ends))
    {
      var cur := dst.WriteFullStream(Break(pos > 0) + LastChunk());
      return cur.succeed, cur.finish;
    }
  }
}
