/** The chunk vector of the chunked byte container, as values: what append, displace, truncate, the
    offset search and the indexed copy do to a vector of owned chunks, and when the vector's offset
    index can be trusted. */
module ChunkLayout {
  import opened Bytes

  /** One owned block of memory and the absolute offset it believes it starts at. */
  datatype Chunk = Chunk(data: seq<byte>, offset: nat) {
    function NextOffset(): nat {
      |data| + offset
    }

    predicate ContainsOffset(o: nat) {
      offset <= o < NextOffset()
    }

    function Displaced(n: nat): Chunk {
      if n >= |data| then Chunk([], offset) else Chunk(data[n..], offset)
    }

    function Truncated(size: nat): Chunk {
      if size >= offset + |data| || size == 0 || size <= offset then this
      else Chunk(data[..size - offset], offset)
    }
  }

  /** The limits a container works under. */
  datatype Limits = Limits(maxSize: nat, maxChunkSize: nat, maxChunks: nat) {
    ghost predicate Valid() {
      maxSize < U64 && 0 < maxChunkSize <= 65536
    }
  }

  /** The flat byte sequence a chunk vector stands for. */
  function Flat(cs: seq<Chunk>): seq<byte> {
    if cs == [] then [] else cs[0].data + Flat(cs[1..])
  }

  /** Every chunk is non-empty and no larger than the configured chunk size. */
  ghost predicate Sized(cs: seq<Chunk>, maxChunkSize: nat) {
    forall i | 0 <= i < |cs| :: 0 < |cs[i].data| <= maxChunkSize
  }

  /** The offset index is right: offsets are contiguous from zero. */
  ghost predicate Indexed(cs: seq<Chunk>) {
    cs != [] ==> cs[0].offset == 0 && forall i, j | 0 <= i < j < |cs| && j == i + 1 :: cs[j].offset == cs[i].NextOffset()
  }

  /** The only other state the container gets into: no chunk admits to hold byte 0. */
  ghost predicate Stale(cs: seq<Chunk>) {
    cs != [] && forall i | 0 <= i < |cs| :: cs[i].offset > 0
  }

  ghost predicate Sound(cs: seq<Chunk>, maxChunkSize: nat) {
    Sized(cs, maxChunkSize) && (Indexed(cs) || Stale(cs))
  }

  lemma FlatAppend(a: seq<Chunk>, b: seq<Chunk>)
    ensures Flat(a + b) == Flat(a) + Flat(b)
  {
    if a == [] {
      assert a + b == b;
    } else {
      assert (a + b)[1..] == a[1..] + b;
      FlatAppend(a[1..], b);
    }
  }

  lemma FlatSplit(cs: seq<Chunk>, i: nat)
    requires i <= |cs|
    ensures Flat(cs) == Flat(cs[..i]) + Flat(cs[i..])
  {
    assert cs == cs[..i] + cs[i..];
    FlatAppend(cs[..i], cs[i..]);
  }

  lemma FlatHead(cs: seq<Chunk>, i: nat)
    requires i < |cs|
    ensures Flat(cs[i..]) == cs[i].data + Flat(cs[i + 1..])
  {
    assert cs[i..][0] == cs[i] && cs[i..][1..] == cs[i + 1..];
  }

  lemma FlatOne(c: Chunk)
    ensures Flat([c]) == c.data
  {
    assert Flat([c][1..]) == [];
  }

  /** The number of bytes in front of chunk `i`. */
  function StartOf(cs: seq<Chunk>, i: nat): nat
    requires i <= |cs|
  {
    if i == 0 then 0 else StartOf(cs, i - 1) + |cs[i - 1].data|
  }

  lemma {:induction false} StartIsLength(cs: seq<Chunk>, i: nat)
    requires i <= |cs|
    ensures StartOf(cs, i) == |Flat(cs[..i])| <= |Flat(cs)|
  {
    FlatSplit(cs, i);
    if i > 0 {
      StartIsLength(cs, i - 1);
      assert cs[..i] == cs[..i - 1] + [cs[i - 1]];
      FlatAppend(cs[..i - 1], [cs[i - 1]]);
      FlatOne(cs[i - 1]);
    }
  }

  lemma StartOfEnd(cs: seq<Chunk>)
    ensures StartOf(cs, |cs|) == |Flat(cs)|
  {
    StartIsLength(cs, |cs|);
    assert cs[..|cs|] == cs;
  }

  lemma ChunkInFlat(cs: seq<Chunk>, i: nat)
    requires i < |cs|
    ensures Flat(cs) == Flat(cs[..i]) + (cs[i].data + Flat(cs[i + 1..])) && StartOf(cs, i) == |Flat(cs[..i])|
  {
    StartIsLength(cs, i);
    FlatSplit(cs, i);
    FlatHead(cs, i);
  }

  /** Where a slice of one chunk lies in the flat sequence. */
  lemma FlatSlice(cs: seq<Chunk>, i: nat, from: nat, n: nat, at: nat)
    requires i < |cs| && from + n <= |cs[i].data| && at == StartOf(cs, i) + from
    ensures StartOf(cs, i) + |cs[i].data| <= |Flat(cs)| && Flat(cs)[at..at + n] == cs[i].data[from..from + n]
  {
    ChunkInFlat(cs, i);
    SliceInside(Flat(cs), Flat(cs[..i]), cs[i].data, Flat(cs[i + 1..]), from, n, at);
  }

  lemma SliceInside(s: seq<byte>, a: seq<byte>, d: seq<byte>, r: seq<byte>, from: nat, n: nat, at: nat)
    requires s == a + (d + r) && from + n <= |d| && at == |a| + from
    ensures |a| + |d| <= |s| && s[at..at + n] == d[from..from + n]
  {
  }

  /** With a right index, a chunk's offset is the number of bytes in front of it. */
  lemma {:induction false} IndexedStart(cs: seq<Chunk>, i: nat)
    requires Indexed(cs) && i < |cs|
    ensures cs[i].offset == |Flat(cs[..i])| && cs[i].NextOffset() == |Flat(cs[..i + 1])| <= |Flat(cs)|
  {
    if i > 0 {
      IndexedStart(cs, i - 1);
    }
    assert cs[..i + 1] == cs[..i] + [cs[i]];
    FlatAppend(cs[..i], [cs[i]]);
    FlatOne(cs[i]);
    FlatSplit(cs, i + 1);
  }

  // ---- The offset search -------------------------------------------------------------------

  /** The next probe of the search, always between the two bounds. */
  function Probe(curmin: nat, curmax: nat): (p: nat)
    requires curmin <= curmax
    ensures curmin <= p <= curmax
  {
    if curmin == curmax then curmin
    else curmin + (curmax + 1 - curmin) / 2 - (curmax - curmin) % 2
  }

  function Search(cs: seq<Chunk>, o: nat, curpos: nat, curmax: nat, curmin: nat): (r: Option<nat>)
    requires curmin <= curpos <= curmax < |cs|
    ensures r.Some? ==> curmin <= r.value <= curmax && cs[r.value].ContainsOffset(o)
    decreases curmax - curmin
  {
    if cs[curpos].ContainsOffset(o) then Some(curpos)
    else if o < cs[curpos].offset then
      if curpos == curmin then None
      else Search(cs, o, Probe(curmin, curpos - 1), curpos - 1, curmin)
    else if curpos == curmax then None
    else Search(cs, o, Probe(curpos + 1, curmax), curmax, curpos + 1)
  }

  function PosForOffset(cs: seq<Chunk>, o: nat): (r: Option<nat>)
    ensures r.Some? ==> r.value < |cs| && cs[r.value].ContainsOffset(o)
  {
    if cs == [] then None
    else if |cs| == 1 then Search(cs, o, 0, 0, 0)
    else Search(cs, o, |cs| / 2 - 1, |cs| - 1, 0)
  }

  lemma {:induction false} SearchComplete(cs: seq<Chunk>, o: nat, curpos: nat, curmax: nat, curmin: nat, at: nat)
    requires Indexed(cs) && curmin <= curpos <= curmax < |cs|
    requires curmin <= at <= curmax && cs[at].ContainsOffset(o)
    ensures Search(cs, o, curpos, curmax, curmin) == Some(at)
    decreases curmax - curmin
  {
    if at < curpos {
      OffsetsGrow(cs, at, curpos);
      SearchComplete(cs, o, Probe(curmin, curpos - 1), curpos - 1, curmin, at);
    } else if at > curpos {
      OffsetsGrow(cs, curpos, at);
      SearchComplete(cs, o, Probe(curpos + 1, curmax), curmax, curpos + 1, at);
    }
  }

  lemma {:induction false} OffsetsGrow(cs: seq<Chunk>, i: nat, j: nat)
    requires Indexed(cs) && i < j < |cs|
    ensures cs[i].NextOffset() <= cs[j].offset
    decreases j - i
  {
    if i + 1 < j {
      OffsetsGrow(cs, i + 1, j);
    }
  }

  lemma {:induction false} ChunkCovering(cs: seq<Chunk>, o: nat) returns (at: nat)
    requires o < |Flat(cs)|
    ensures at < |cs| && |Flat(cs[..at])| <= o < |Flat(cs[..at + 1])|
  {
    if o < |cs[0].data| {
      at := 0;
      assert cs[..1] == [cs[0]];
      FlatOne(cs[0]);
    } else {
      var k := ChunkCovering(cs[1..], o - |cs[0].data|);
      at := k + 1;
      assert cs[..at] == [cs[0]] + cs[1..][..k] && cs[..at + 1] == [cs[0]] + cs[1..][..k + 1];
      FlatOne(cs[0]);
      FlatAppend([cs[0]], cs[1..][..k]);
      FlatAppend([cs[0]], cs[1..][..k + 1]);
    }
  }

  /** With a right index the search finds the one chunk holding the offset, exactly when the offset is in range. */
  lemma {:induction false} SearchExact(cs: seq<Chunk>, o: nat)
    requires Indexed(cs)
    ensures PosForOffset(cs, o).Some? <==> o < |Flat(cs)|
    ensures PosForOffset(cs, o).Some? ==> forall j | 0 <= j < |cs| :: cs[j].ContainsOffset(o) ==> j == PosForOffset(cs, o).value
  {
    forall j | 0 <= j < |cs| && cs[j].ContainsOffset(o)
      ensures PosForOffset(cs, o) == Some(j) && o < |Flat(cs)|
    {
      SearchComplete(cs, o, if |cs| == 1 then 0 else |cs| / 2 - 1, |cs| - 1, 0, j);
      IndexedStart(cs, j);
    }
    if o < |Flat(cs)| {
      var at := ChunkCovering(cs, o);
      IndexedStart(cs, at);
      assert cs[at].ContainsOffset(o);
    }
  }

  /** With a stale index nothing is found at offset zero. */
  lemma StaleMissesZero(cs: seq<Chunk>)
    requires Stale(cs)
    ensures PosForOffset(cs, 0).None?
  {
  }

  // ---- The indexed copy --------------------------------------------------------------------

  datatype Copied = Copied(ok: bool, data: seq<byte>)

  /** The bytes from absolute offset `o` on, as chunk `i` and its successors present them. */
  function TailFrom(cs: seq<Chunk>, i: nat, o: nat): seq<byte>
    requires i < |cs| && cs[i].ContainsOffset(o)
  {
    cs[i].data[o - cs[i].offset..] + Flat(cs[i + 1..])
  }

  function CopyOut(cs: seq<Chunk>, bytes: nat, offset: nat): Copied {
    if offset + bytes >= U64 then Copied(false, [])
    else if bytes == 0 then Copied(true, [])
    else if offset + bytes > |Flat(cs)| then Copied(false, [])
    else match PosForOffset(cs, offset)
      case None => Copied(false, [])
      case Some(i) =>
        var t := TailFrom(cs, i, offset);
        Copied(true, t[..Min(bytes, |t|)])
  }

  /** With a right index the copy is the requested slice. */
  lemma {:induction false} CopyOutExact(cs: seq<Chunk>, bytes: nat, offset: nat)
    requires Indexed(cs) && offset + bytes <= |Flat(cs)| < U64
    ensures CopyOut(cs, bytes, offset) == Copied(true, Flat(cs)[offset..offset + bytes])
  {
    if bytes > 0 {
      SearchExact(cs, offset);
      var i := PosForOffset(cs, offset).value;
      IndexedStart(cs, i);
      FlatSplit(cs, i);
      assert Flat(cs[i..]) == cs[i].data + Flat(cs[i + 1..]) by {
        assert cs[i..][1..] == cs[i + 1..];
      }
    }
  }

  /** Copying the whole container out works in exactly the states with a right index. */
  lemma {:induction false} WholeCopyIffIndexed(cs: seq<Chunk>, maxChunkSize: nat)
    requires Sound(cs, maxChunkSize) && cs != [] && |Flat(cs)| < U64
    ensures CopyOut(cs, |Flat(cs)|, 0) == Copied(true, Flat(cs)) <==> Indexed(cs)
  {
    if Indexed(cs) {
      CopyOutExact(cs, |Flat(cs)|, 0);
    } else {
      StaleMissesZero(cs);
      assert |Flat(cs)| >= |cs[0].data| > 0;
    }
  }

  // ---- Append ------------------------------------------------------------------------------

  datatype Appended = Appended(ok: bool, count: nat, chunks: seq<Chunk>)

  function EndOffset(cs: seq<Chunk>): nat {
    if cs == [] then 0 else cs[|cs| - 1].NextOffset()
  }

  function AppendChunks(cs: seq<Chunk>, buf: seq<byte>, maxChunkSize: nat, maxChunks: nat): Appended
    requires maxChunkSize > 0
    decreases |buf|
  {
    if buf == [] then Appended(true, 0, cs)
    else if |cs| + 1 > maxChunks then Appended(false, 0, cs)
    else
      var n := Min(|buf|, maxChunkSize);
      var r := AppendChunks(cs + [Chunk(buf[..n], EndOffset(cs))], buf[n..], maxChunkSize, maxChunks);
      Appended(r.ok, n + r.count, r.chunks)
  }

  lemma AppendOneChunk(cs: seq<Chunk>, buf: seq<byte>, maxChunkSize: nat, maxChunks: nat)
    requires 0 < |buf| <= maxChunkSize && |cs| < maxChunks
    ensures AppendChunks(cs, buf, maxChunkSize, maxChunks) == Appended(true, |buf|, cs + [Chunk(buf, EndOffset(cs))])
  {
    var next := cs + [Chunk(buf, EndOffset(cs))];
    assert buf[..|buf|] == buf && buf[|buf|..] == [];
    assert AppendChunks(next, buf[|buf|..], maxChunkSize, maxChunks) == Appended(true, 0, next);
  }

  /** One more chunk keeps the vector sound and its index as right or as stale as it was. */
  lemma PushChunk(cs: seq<Chunk>, data: seq<byte>, maxChunkSize: nat)
    requires Sound(cs, maxChunkSize) && 0 < |data| <= maxChunkSize
    ensures var r := cs + [Chunk(data, EndOffset(cs))];
      Flat(r) == Flat(cs) + data && Sound(r, maxChunkSize) && (Indexed(r) <==> Indexed(cs))
  {
    var r := cs + [Chunk(data, EndOffset(cs))];
    FlatAppend(cs, [Chunk(data, EndOffset(cs))]);
    FlatOne(Chunk(data, EndOffset(cs)));
    if Indexed(cs) {
      assert Indexed(r);
    } else {
      assert r[0] == cs[0] && Stale(r);
    }
  }

  lemma CutRegroups(a: seq<byte>, buf: seq<byte>, n: nat, m: nat)
    requires n <= |buf| && m <= |buf[n..]|
    ensures (a + buf[..n]) + buf[n..][..m] == a + buf[..n + m]
  {
    assert buf[..n] + buf[n..][..m] == buf[..n + m];
  }

  /** Appending adds exactly the reported prefix and never changes whether the index is right. */
  lemma {:induction false} AppendExact(cs: seq<Chunk>, buf: seq<byte>, maxChunkSize: nat, maxChunks: nat)
    requires maxChunkSize > 0 && Sound(cs, maxChunkSize) && |cs| <= maxChunks
    ensures var r := AppendChunks(cs, buf, maxChunkSize, maxChunks);
      && r.count <= |buf|
      && Flat(r.chunks) == Flat(cs) + buf[..r.count]
      && (r.ok <==> r.count == |buf|)
      && |cs| <= |r.chunks| <= maxChunks && cs <= r.chunks
      && Sound(r.chunks, maxChunkSize)
      && (Indexed(r.chunks) <==> Indexed(cs))
    decreases |buf|
  {
    if buf != [] && |cs| + 1 <= maxChunks {
      var n := Min(|buf|, maxChunkSize);
      var next := cs + [Chunk(buf[..n], EndOffset(cs))];
      PushChunk(cs, buf[..n], maxChunkSize);
      AppendExact(next, buf[n..], maxChunkSize, maxChunks);
      var more := AppendChunks(next, buf[n..], maxChunkSize, maxChunks);
      CutRegroups(Flat(cs), buf, n, more.count);
    } else {
      assert buf[..0] == [];
    }
  }

  /** An append that falls short has filled every chunk it was still allowed to create. */
  lemma {:induction false} AppendShortfall(cs: seq<Chunk>, buf: seq<byte>, maxChunkSize: nat, maxChunks: nat)
    requires maxChunkSize > 0 && |cs| <= maxChunks
    ensures var r := AppendChunks(cs, buf, maxChunkSize, maxChunks);
      r.ok <==> |buf| <= maxChunkSize * (maxChunks - |cs|)
    ensures var r := AppendChunks(cs, buf, maxChunkSize, maxChunks);
      !r.ok ==> r.count == maxChunkSize * (maxChunks - |cs|)
    decreases |buf|
  {
    var room := maxChunks - |cs|;
    if buf != [] && |cs| + 1 <= maxChunks {
      var n := Min(|buf|, maxChunkSize);
      AppendShortfall(cs + [Chunk(buf[..n], EndOffset(cs))], buf[n..], maxChunkSize, maxChunks);
      assert maxChunkSize * room == maxChunkSize + maxChunkSize * (room - 1);
      assert maxChunkSize * (room - 1) >= 0;
    } else {
      assert room == 0 ==> maxChunkSize * room == 0;
    }
  }

  // ---- Displace ----------------------------------------------------------------------------

  /** The running offset after `passes` visits to a chunk of `size` bytes. */
  function Revisited(passes: nat, size: nat): (offset: nat)
    ensures offset > 0 <==> passes > 0 && size > 0
  {
    if passes == 0 then 0 else Revisited(passes - 1, size) + size
  }

  lemma RevisitedIsProduct(passes: nat, size: nat)
    ensures Revisited(passes, size) == passes * size
  {
  }

  /** What the offset recalculation leaves behind: its cursor never leaves chunk 0, which it visits once
      for every chunk, each time moving its offset on by the chunk's own size. */
  function Recalc(cs: seq<Chunk>): seq<Chunk> {
    if cs == [] then cs else cs[0 := Chunk(cs[0].data, Revisited(|cs| - 1, |cs[0].data|))]
  }

  function DisplaceChunks(cs: seq<Chunk>, n: nat): seq<Chunk>
    decreases |cs|
  {
    if n == 0 then Recalc(cs)
    else if cs == [] then cs
    else if n >= |cs[0].data| then DisplaceChunks(cs[1..], n - |cs[0].data|)
    else Recalc([cs[0].Displaced(n)] + cs[1..])
  }

  /** All that stays after displacing `n` bytes lies in the last chunk. */
  predicate OneLeft(cs: seq<Chunk>, n: nat) {
    cs == [] || |Flat(cs)| <= n + |cs[|cs| - 1].data|
  }

  lemma FirstAndLast(cs: seq<Chunk>)
    requires |cs| >= 2
    ensures |cs[0].data| + |cs[|cs| - 1].data| <= |Flat(cs)|
  {
    var rest := cs[1..];
    FlatSplit(rest, |rest| - 1);
    FlatHead(rest, |rest| - 1);
    assert rest[|rest| - 1] == cs[|cs| - 1];
  }

  /** A displacement leaves at most one chunk exactly when what it keeps lies in the last one. */
  lemma {:induction false} DisplaceLeavesOne(cs: seq<Chunk>, n: nat, maxChunkSize: nat)
    requires Sized(cs, maxChunkSize)
    ensures |DisplaceChunks(cs, n)| <= 1 <==> OneLeft(cs, n)
    decreases |cs|
  {
    if cs != [] {
      if n > 0 && n >= |cs[0].data| {
        DisplaceLeavesOne(cs[1..], n - |cs[0].data|, maxChunkSize);
      } else if |cs| >= 2 {
        FirstAndLast(cs);
      } else {
        assert cs == [cs[0]];
        FlatOne(cs[0]);
      }
    }
  }

  /** Displacing removes exactly the requested prefix, but the index survives it only when what is left lies
      in the last chunk. */
  lemma DisplaceExact(cs: seq<Chunk>, n: nat, maxChunkSize: nat)
    requires Sized(cs, maxChunkSize) && forall i | 1 <= i < |cs| :: cs[i].offset > 0
    ensures var r := DisplaceChunks(cs, n);
      && Flat(r) == Flat(cs)[Min(n, |Flat(cs)|)..]
      && |r| <= |cs|
      && Sound(r, maxChunkSize)
      && (Indexed(r) <==> OneLeft(cs, n))
      && (|r| <= 1 <==> OneLeft(cs, n))
  {
    DisplaceFlat(cs, n, maxChunkSize);
    DisplaceLeavesOne(cs, n, maxChunkSize);
  }

  lemma {:induction false} DisplaceFlat(cs: seq<Chunk>, n: nat, maxChunkSize: nat)
    requires Sized(cs, maxChunkSize) && forall i | 1 <= i < |cs| :: cs[i].offset > 0
    ensures var r := DisplaceChunks(cs, n);
      && Flat(r) == Flat(cs)[Min(n, |Flat(cs)|)..]
      && |r| <= |cs|
      && Sound(r, maxChunkSize)
      && (Indexed(r) <==> |r| <= 1)
    decreases |cs|
  {
    if n == 0 {
      RecalcFlat(cs, maxChunkSize);
    } else if cs != [] {
      if n >= |cs[0].data| {
        DisplaceFlat(cs[1..], n - |cs[0].data|, maxChunkSize);
      } else {
        var cut := [cs[0].Displaced(n)] + cs[1..];
        assert cut[1..] == cs[1..];
        assert Flat(cut) == Flat(cs)[n..];
        RecalcFlat(cut, maxChunkSize);
      }
    }
  }

  lemma RecalcFlat(cs: seq<Chunk>, maxChunkSize: nat)
    requires Sized(cs, maxChunkSize) && forall i | 1 <= i < |cs| :: cs[i].offset > 0
    ensures Flat(Recalc(cs)) == Flat(cs) && Sound(Recalc(cs), maxChunkSize)
    ensures Indexed(Recalc(cs)) <==> |cs| <= 1
  {
    if cs != [] {
      RestartFlat(cs, Revisited(|cs| - 1, |cs[0].data|), maxChunkSize);
    }
  }

  lemma RestartFlat(cs: seq<Chunk>, start: nat, maxChunkSize: nat)
    requires Sized(cs, maxChunkSize) && cs != [] && forall i | 1 <= i < |cs| :: cs[i].offset > 0
    requires start > 0 <==> |cs| > 1
    ensures var r := cs[0 := Chunk(cs[0].data, start)];
      Flat(r) == Flat(cs) && Sound(r, maxChunkSize) && (Indexed(r) <==> |cs| <= 1)
  {
    var r := cs[0 := Chunk(cs[0].data, start)];
    assert r[1..] == cs[1..];
    if |cs| > 1 {
      assert Stale(r);
    }
  }

  lemma TailOffsetsPositive(cs: seq<Chunk>, maxChunkSize: nat)
    requires Sound(cs, maxChunkSize)
    ensures forall i | 1 <= i < |cs| :: cs[i].offset > 0
  {
    forall i | 1 <= i < |cs| ensures cs[i].offset > 0 {
      if Indexed(cs) {
        OffsetsGrow(cs, 0, i);
      }
    }
  }

  // ---- Truncate ----------------------------------------------------------------------------

  function TruncateChunks(cs: seq<Chunk>, bytes: nat): Option<seq<Chunk>> {
    match PosForOffset(cs, bytes)
    case None => None
    case Some(i) => Some(if cs[i].offset == bytes then cs[..i] else cs[..i] + [cs[i].Truncated(bytes)])
  }

  /** With a right index truncation keeps exactly the requested prefix. */
  lemma {:induction false} TruncateExact(cs: seq<Chunk>, bytes: nat, maxChunkSize: nat)
    requires Sized(cs, maxChunkSize) && Indexed(cs) && bytes < |Flat(cs)|
    ensures var r := TruncateChunks(cs, bytes);
      r.Some? && Flat(r.value) == Flat(cs)[..bytes] && Sized(r.value, maxChunkSize) && Indexed(r.value) && |r.value| <= |cs|
  {
    SearchExact(cs, bytes);
    var i := PosForOffset(cs, bytes).value;
    IndexedStart(cs, i);
    FlatSplit(cs, i);
    if cs[i].offset != bytes {
      FlatAppend(cs[..i], [cs[i].Truncated(bytes)]);
      FlatOne(cs[i].Truncated(bytes));
      assert cs[i..][0] == cs[i];
    }
  }

  /** The search finds a chunk that is where the index says. */
  predicate FoundInPlace(cs: seq<Chunk>, bytes: nat) {
    var at := PosForOffset(cs, bytes);
    at.Some? && cs[at.value].offset == StartOf(cs, at.value)
  }

  /** Truncation keeps exactly the requested prefix. */
  predicate TruncatesTo(cs: seq<Chunk>, bytes: nat)
    requires bytes <= |Flat(cs)|
  {
    var r := TruncateChunks(cs, bytes);
    r.Some? && Flat(r.value) == Flat(cs)[..bytes]
  }

  /** What truncation at chunk `i` keeps: the chunks before it and its part up to the claimed offset. */
  lemma CutAt(cs: seq<Chunk>, i: nat, bytes: nat)
    requires i < |cs| && cs[i].ContainsOffset(bytes)
    ensures var r := if cs[i].offset == bytes then cs[..i] else cs[..i] + [cs[i].Truncated(bytes)];
      Flat(r) <= Flat(cs) && |Flat(r)| == StartOf(cs, i) + bytes - cs[i].offset
  {
    var k := bytes - cs[i].offset;
    StartIsLength(cs, i);
    FlatSplit(cs, i);
    FlatHead(cs, i);
    if k > 0 {
      FlatAppend(cs[..i], [cs[i].Truncated(bytes)]);
      FlatOne(cs[i].Truncated(bytes));
      PrefixOfPart(Flat(cs[..i]), cs[i].data, Flat(cs[i + 1..]), k);
    }
  }

  lemma PrefixOfPart(a: seq<byte>, d: seq<byte>, r: seq<byte>, k: nat)
    requires k <= |d|
    ensures a + d[..k] <= a + (d + r)
  {
  }

  /** For every length and every index: truncation is right exactly when the search finds a chunk that lies
      where it claims to. */
  lemma TruncateRightIff(cs: seq<Chunk>, bytes: nat)
    requires bytes < |Flat(cs)|
    ensures TruncatesTo(cs, bytes) <==> FoundInPlace(cs, bytes)
  {
    var at := PosForOffset(cs, bytes);
    if at.Some? {
      CutAt(cs, at.value, bytes);
    }
  }

  lemma RightIndexInPlace(cs: seq<Chunk>, bytes: nat)
    requires Indexed(cs) && bytes < |Flat(cs)|
    ensures FoundInPlace(cs, bytes)
  {
    SearchExact(cs, bytes);
    var i := PosForOffset(cs, bytes).value;
    IndexedStart(cs, i);
    StartIsLength(cs, i);
  }

  /** All truncations are right exactly when the index is. */
  lemma TruncationsRightIffIndexed(cs: seq<Chunk>, maxChunkSize: nat)
    requires Sound(cs, maxChunkSize) && cs != []
    ensures (forall n: nat | n < |Flat(cs)| :: TruncatesTo(cs, n)) <==> Indexed(cs)
  {
    if Indexed(cs) {
      forall n: nat | n < |Flat(cs)| ensures TruncatesTo(cs, n) {
        RightIndexInPlace(cs, n);
        TruncateRightIff(cs, n);
      }
    } else {
      var zero: nat := 0;
      assert |Flat(cs)| >= |cs[0].data| > 0;
      StaleMissesZero(cs);
      TruncateRightIff(cs, zero);
    }
  }

  /** A truncation that is right leaves the index as it was: right, or no chunk admitting to byte 0. */
  lemma TruncateKeepsIndex(cs: seq<Chunk>, bytes: nat, maxChunkSize: nat)
    requires Sound(cs, maxChunkSize) && bytes < |Flat(cs)| && FoundInPlace(cs, bytes)
    ensures var r := TruncateChunks(cs, bytes).value;
      Sound(r, maxChunkSize) && |r| <= |cs| && (Indexed(cs) ==> Indexed(r)) && (Stale(cs) ==> Stale(r))
  {
    if Indexed(cs) {
      TruncateExact(cs, bytes, maxChunkSize);
    }
  }
}
