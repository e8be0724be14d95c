/** The chunked byte container: the vector of chunks with its byte counter and limits, and the
    operations that walk it. Every operation is tied to the flat byte sequence `Content()`; those that
    go through the offset index say what a stale index makes of them. */
module ChunkStore {
  import opened Bytes
  import opened ChunkLayout
  import opened Streams

  /** Position of the first `c` among the first `n` bytes (the C library's memchr). */
  function MemChr(s: seq<byte>, c: byte, n: nat): (r: Option<nat>)
    requires n <= |s|
    ensures r.Some? ==> r.value < n && s[r.value] == c && c !in s[..r.value]
    ensures r.None? ==> c !in s[..n]
  {
    if n == 0 then None
    else match MemChr(s, c, n - 1)
      case Some(i) => Some(i)
      case None => if s[n - 1] == c then Some(n - 1) else None
  }

  predicate IsUpper(c: byte) { 65 <= c <= 90 }
  predicate IsLower(c: byte) { 97 <= c <= 122 }
  function ToUpper(c: byte): byte { if IsLower(c) then c - 32 else c }
  function ToLower(c: byte): byte { if IsUpper(c) then c + 32 else c }

  /** The bytes the character search stops at: with the flag set, both cases of a letter. */
  predicate Candidate(c: byte, caseSensitive: bool, x: byte) {
    if caseSensitive then x == ToUpper(c) || x == ToLower(c) else x == c
  }

  ghost predicate NoCandidate(flat: seq<byte>, c: byte, caseSensitive: bool, lo: nat, hi: nat) {
    hi <= |flat| && forall j | lo <= j < hi :: !Candidate(c, caseSensitive, flat[j])
  }

  /** The first candidate among the first `n` bytes, found with one or two memchr calls. */
  function CandidateIn(s: seq<byte>, c: byte, caseSensitive: bool, n: nat): (r: Option<nat>)
    requires n <= |s|
    ensures r.Some? ==> r.value < n && Candidate(c, caseSensitive, s[r.value])
    ensures NoCandidate(s, c, caseSensitive, 0, if r.Some? then r.value else n)
  {
    if !caseSensitive || (!IsUpper(c) && !IsLower(c)) then
      var r := MemChr(s, c, n);
      assert r.Some? ==> forall j | 0 <= j < r.value :: s[j] in s[..r.value];
      assert r.None? ==> forall j | 0 <= j < n :: s[j] in s[..n];
      r
    else
      var u, l := MemChr(s, ToUpper(c), n), MemChr(s, ToLower(c), n);
      assert u.Some? ==> forall j | 0 <= j < u.value :: s[j] in s[..u.value];
      assert l.Some? ==> forall j | 0 <= j < l.value :: s[j] in s[..l.value];
      assert forall j | 0 <= j < n :: s[j] in s[..n];
      if u.Some? && l.Some? then (if u.value <= l.value then u else l)
      else if u.Some? then u else l
  }

  /** Scanning on into a chunk: a stretch without candidates grows by the chunk's own stretch. */
  lemma ScanChunk(cs: seq<Chunk>, i: nat, from: nat, n: nat, c: byte, caseSensitive: bool, lo: nat)
    requires i < |cs| && from + n <= |cs[i].data| && lo <= StartOf(cs, i) + from
    requires NoCandidate(Flat(cs), c, caseSensitive, lo, StartOf(cs, i) + from)
    requires NoCandidate(cs[i].data[from..], c, caseSensitive, 0, n)
    ensures StartOf(cs, i) + |cs[i].data| <= |Flat(cs)|
    ensures NoCandidate(Flat(cs), c, caseSensitive, lo, StartOf(cs, i) + from + n)
    ensures from + n < |cs[i].data| ==> Flat(cs)[StartOf(cs, i) + from + n] == cs[i].data[from..][n]
  {
    var size := |cs[i].data| - from;
    var start := StartOf(cs, i) + from;
    FlatSlice(cs, i, from, size, start);
    forall j | start <= j < start + size ensures Flat(cs)[j] == cs[i].data[from..][j - start] {
      assert Flat(cs)[j] == Flat(cs)[start..start + size][j - start];
    }
  }

  /** Comparing on into a chunk: agreement grows by a slice of it exactly when the slice is what comes next. */
  lemma CompareChunk(cs: seq<Chunk>, i: nat, from: nat, n: nat, buf: seq<byte>, o: nat, done: nat)
    requires i < |cs| && from + n <= |cs[i].data| && StartOf(cs, i) + from == o + done
    requires Agree(Flat(cs), buf, o, done) && done + n <= |buf|
    ensures StartOf(cs, i) + |cs[i].data| <= |Flat(cs)|
    ensures Agree(Flat(cs), buf, o, done + n) <==> cs[i].data[from..from + n] == buf[done..done + n]
    ensures cs[i].data[from..from + n] != buf[done..done + n] ==> !OccursAt(Flat(cs), buf, o)
  {
    FlatSlice(cs, i, from, n, StartOf(cs, i) + from);
    AgreeMore(Flat(cs), buf, o, done, StartOf(cs, i) + from, done + n, cs[i].data[from..from + n]);
  }

  /** The pieces written so far are the flat bytes from `lo` to `hi`. */
  ghost predicate Written(flat: seq<byte>, pieces: seq<seq<byte>>, lo: nat, hi: nat) {
    lo <= hi <= |flat| && Concat(pieces) == flat[lo..hi]
  }

  /** Writing on into a chunk: what has been written grows by a slice of it. */
  lemma WriteChunk(cs: seq<Chunk>, i: nat, from: nat, n: nat, lo: nat, at: nat, pieces: seq<seq<byte>>)
    requires i < |cs| && from + n <= |cs[i].data| && at == StartOf(cs, i) + from
    requires Written(Flat(cs), pieces, lo, at)
    ensures Written(Flat(cs), pieces + [cs[i].data[from..from + n]], lo, at + n)
  {
    var piece := cs[i].data[from..from + n];
    FlatSlice(cs, i, from, n, at);
    assert |piece| == n && Flat(cs)[at..at + n] == piece;
    WrittenMore(Flat(cs), pieces, lo, at, piece);
  }

  lemma WrittenMore(flat: seq<byte>, pieces: seq<seq<byte>>, lo: nat, hi: nat, piece: seq<byte>)
    requires Written(flat, pieces, lo, hi)
    requires hi + |piece| <= |flat| && flat[hi..hi + |piece|] == piece
    ensures Written(flat, pieces + [piece], lo, hi + |piece|)
  {
    ConcatSnoc(pieces, piece);
    assert flat[lo..hi + |piece|] == flat[lo..hi] + piece;
  }

  /** The first `n` bytes of `buf` are what lies in `flat` at `o`. */
  ghost predicate Agree(flat: seq<byte>, buf: seq<byte>, o: nat, n: nat) {
    n <= |buf| && o + n <= |flat| && flat[o..o + n] == buf[..n]
  }

  /** Agreement grows by a piece exactly when the piece is what the buffer says comes next. */
  lemma AgreeMore(flat: seq<byte>, buf: seq<byte>, o: nat, n: nat, at: nat, m: nat, piece: seq<byte>)
    requires Agree(flat, buf, o, n) && at == o + n && m == n + |piece| <= |buf|
    requires at + |piece| <= |flat| && flat[at..at + |piece|] == piece
    ensures Agree(flat, buf, o, m) <==> piece == buf[n..m]
    ensures piece != buf[n..m] ==> !OccursAt(flat, buf, o)
  {
    SliceJoin(flat, o, at, o + m);
    SliceJoin(buf, 0, n, m);
    SameHead(flat[o..at], piece, buf[n..m]);
    if OccursAt(flat, buf, o) {
      OccursAgree(flat, buf, o, m);
    }
  }

  lemma SliceJoin(s: seq<byte>, a: nat, b: nat, c: nat)
    requires a <= b <= c <= |s|
    ensures s[a..c] == s[a..b] + s[b..c]
  {
  }

  lemma SameHead(head: seq<byte>, x: seq<byte>, y: seq<byte>)
    requires |x| == |y|
    ensures head + x == head + y <==> x == y
  {
    if head + x == head + y {
      assert x == (head + x)[|head|..] == (head + y)[|head|..] == y;
    }
  }

  lemma OccursAgree(flat: seq<byte>, buf: seq<byte>, o: nat, m: nat)
    requires OccursAt(flat, buf, o) && m <= |buf|
    ensures Agree(flat, buf, o, m)
  {
    assert flat[o..o + |buf|][..m] == flat[o..o + m];
  }

  ghost predicate NoneIn(flat: seq<byte>, needle: seq<byte>, lo: nat, hi: nat) {
    forall j | lo <= j < hi :: !OccursAt(flat, needle, j)
  }

  /** An occurrence can only start at a candidate for the needle's first byte. */
  lemma NoneBeforeCandidate(flat: seq<byte>, needle: seq<byte>, lo: nat, mid: nat, hi: nat)
    requires needle != [] && lo <= mid <= hi
    requires NoneIn(flat, needle, lo, mid) && NoCandidate(flat, needle[0], true, mid, hi)
    ensures NoneIn(flat, needle, lo, hi)
  {
    forall j | mid <= j < hi ensures !OccursAt(flat, needle, j) {
      if OccursAt(flat, needle, j) {
        assert flat[j..j + |needle|][0] == needle[0];
        assert Candidate(needle[0], true, flat[j]);
      }
    }
  }

  class BChunks {
    var chunksVector: seq<Chunk>
    var containerBytes: nat
    var maxSize: nat
    const maxChunkSize: nat
    const maxChunks: nat

    ghost predicate Valid()
      reads this
    {
      && 0 < maxChunkSize <= 65536
      && |chunksVector| <= maxChunks
      && Sound(chunksVector, maxChunkSize)
      && containerBytes == |Flat(chunksVector)| < U64
    }

    ghost function Content(): seq<byte>
      reads this
    {
      Flat(chunksVector)
    }

    constructor (maxChunkSize: nat := 65536, maxChunks: nat := 262144, maxSize: nat := U64 - 1)
      requires 0 < maxChunkSize <= 65536
      ensures Valid() && Content() == [] && Indexed(chunksVector)
      ensures this.maxChunkSize == maxChunkSize && this.maxChunks == maxChunks && this.maxSize == maxSize
    {
      this.maxChunkSize, this.maxChunks, this.maxSize := maxChunkSize, maxChunks, maxSize;
      chunksVector, containerBytes := [], 0;
    }

    function Size(): nat
      reads this
    {
      containerBytes
    }

    function GetSizeLeft(): nat
      reads this
    {
      if containerBytes > maxSize then 0 else maxSize - containerBytes
    }

    method Clear()
      modifies this`chunksVector, this`containerBytes
      ensures chunksVector == [] && containerBytes == 0
      ensures old(Valid()) ==> Valid() && Indexed(chunksVector)
    {
      containerBytes := 0;
      chunksVector := [];
    }

    /** Adds all the bytes, or exactly the reported prefix when the chunk limit is met, or nothing when
        the size limit or the 64-bit counter would be passed. */
    method Append(data: seq<byte>) returns (ok: bool, count: nat)
      requires Valid()
      modifies this`chunksVector, this`containerBytes
      ensures Valid()
      ensures |data| + old(containerBytes) >= U64 || |data| + old(containerBytes) > maxSize ==>
        !ok && count == 0 && chunksVector == old(chunksVector)
      ensures |data| + old(containerBytes) < U64 && |data| + old(containerBytes) <= maxSize ==>
        Appended(ok, count, chunksVector) == AppendChunks(old(chunksVector), data, maxChunkSize, maxChunks)
      ensures count <= |data| && Content() == old(Content()) + data[..count]
      ensures ok ==> count == |data|
      ensures Indexed(chunksVector) <==> old(Indexed(chunksVector))
    {
      if |data| + containerBytes >= U64 || |data| + containerBytes > maxSize {
        return false, 0;
      }
      if |data| == 0 {
        return true, 0;
      }
      ok, count := Append2(data);
    }

    method Append2(buf: seq<byte>) returns (ok: bool, count: nat)
      requires Valid() && |buf| + containerBytes < U64
      modifies this`chunksVector, this`containerBytes
      ensures Valid()
      ensures Appended(ok, count, chunksVector) == AppendChunks(old(chunksVector), buf, maxChunkSize, maxChunks)
      ensures count <= |buf| && Content() == old(Content()) + buf[..count]
      ensures ok <==> count == |buf|
      ensures Indexed(chunksVector) <==> old(Indexed(chunksVector))
    {
      AppendExact(chunksVector, buf, maxChunkSize, maxChunks);
      ghost var goal := AppendChunks(chunksVector, buf, maxChunkSize, maxChunks);
      var rest := buf;
      count := 0;
      while |rest| > 0
        invariant count + |rest| == |buf| && rest == buf[count..]
        invariant containerBytes == old(containerBytes) + count
        invariant var r := AppendChunks(chunksVector, rest, maxChunkSize, maxChunks);
          goal == Appended(r.ok, count + r.count, r.chunks)
      {
        var chunkSize := if |rest| < maxChunkSize then |rest| else maxChunkSize;
        if |chunksVector| + 1 > maxChunks {
          return false, count;
        }
        var offset := if |chunksVector| == 0 then 0 else chunksVector[|chunksVector| - 1].NextOffset();
        chunksVector := chunksVector + [Chunk(rest[..chunkSize], offset)];
        containerBytes := containerBytes + chunkSize;
        count := count + chunkSize;
        rest := rest[chunkSize..];
      }
      ok := true;
    }

    /** Removes the requested prefix (or everything). The index is right afterwards exactly when all that is
        kept lies in the last chunk. */
    method Displace(bytes: nat) returns (ok: bool, count: nat)
      requires Valid()
      modifies this`chunksVector, this`containerBytes
      ensures Valid() && ok && count == Min(bytes, |old(Content())|)
      ensures chunksVector == DisplaceChunks(old(chunksVector), count)
      ensures Content() == old(Content())[count..]
      ensures Indexed(chunksVector) <==> old(OneLeft(chunksVector, Min(bytes, containerBytes)))
      ensures |chunksVector| <= 1 <==> Indexed(chunksVector)
    {
      TailOffsetsPositive(chunksVector, maxChunkSize);
      DisplaceExact(chunksVector, Min(bytes, containerBytes), maxChunkSize);
      ok, count := Displace2(if bytes > containerBytes then containerBytes else bytes);
    }

    method Displace2(bytes: nat) returns (ok: bool, count: nat)
      requires Sized(chunksVector, maxChunkSize) && bytes <= containerBytes == |Flat(chunksVector)|
      modifies this`chunksVector, this`containerBytes
      ensures ok && count == bytes && containerBytes == old(containerBytes) - bytes
      ensures chunksVector == DisplaceChunks(old(chunksVector), bytes)
    {
      ghost var goal := DisplaceChunks(chunksVector, bytes);
      var bytesToDisplace: nat := bytes;
      ok, count := true, 0;
      while bytesToDisplace > 0
        invariant Sized(chunksVector, maxChunkSize)
        invariant count + bytesToDisplace == bytes && bytesToDisplace <= |Flat(chunksVector)|
        invariant containerBytes == old(containerBytes) - count
        invariant DisplaceChunks(chunksVector, bytesToDisplace) == goal
      {
        if |chunksVector| == 0 {
          return;
        }
        var size := |chunksVector[0].data|;
        if bytesToDisplace >= size {
          count := count + size;
          bytesToDisplace := bytesToDisplace - size;
          containerBytes := containerBytes - size;
          chunksVector := chunksVector[1..];
        } else {
          count := count + bytesToDisplace;
          ghost var rest := chunksVector[1..];
          chunksVector := chunksVector[0 := chunksVector[0].Displaced(bytesToDisplace)];
          assert chunksVector == [chunksVector[0]] + rest;
          containerBytes := containerBytes - bytesToDisplace;
          bytesToDisplace := 0;
        }
      }
      RecalcChunkOffsets();
    }

    /** The documented purpose is to recalculate every offset; the cursor stays on chunk 0. */
    method RecalcChunkOffsets()
      modifies this`chunksVector
      ensures chunksVector == Recalc(old(chunksVector))
    {
      var currentOffset := 0;
      var vpos, vsize := 0, |chunksVector|;
      ghost var size := if vsize > 0 then |chunksVector[0].data| else 0;
      while vpos < vsize
        invariant vpos <= vsize == |chunksVector|
        invariant currentOffset == Revisited(vpos, size)
        invariant vpos == 0 ==> chunksVector == old(chunksVector)
        invariant vpos > 0 ==> chunksVector == old(chunksVector)[0 := Chunk(old(chunksVector)[0].data, Revisited(vpos - 1, size))]
      {
        chunksVector := chunksVector[0 := Chunk(chunksVector[0].data, currentOffset)];
        currentOffset := chunksVector[0].NextOffset();
        vpos := vpos + 1;
      }
    }

    /** Keeps exactly the requested prefix if and only if the search finds a chunk that lies where the index
        says, which with a right index it always does. */
    method Truncate(bytes: nat) returns (ok: bool, count: nat)
      requires Valid()
      modifies this`chunksVector, this`containerBytes
      ensures bytes >= old(containerBytes) ==> !ok && count == old(containerBytes) && chunksVector == old(chunksVector) && Valid()
      ensures bytes < old(containerBytes) ==> (ok <==> TruncateChunks(old(chunksVector), bytes).Some?)
      ensures ok ==> chunksVector == TruncateChunks(old(chunksVector), bytes).value && containerBytes == count == bytes
      ensures !ok ==> chunksVector == old(chunksVector) && containerBytes == old(containerBytes)
      ensures !ok && bytes < old(containerBytes) ==> count == 0
      ensures bytes < old(containerBytes) ==>
        (ok && Content() == old(Content())[..bytes] <==> FoundInPlace(old(chunksVector), bytes))
      ensures bytes < old(containerBytes) && FoundInPlace(old(chunksVector), bytes) ==>
        Valid() && (Indexed(chunksVector) <==> old(Indexed(chunksVector)))
      ensures old(Indexed(chunksVector)) && bytes < old(containerBytes) ==> FoundInPlace(old(chunksVector), bytes)
    {
      if bytes >= containerBytes {
        return false, containerBytes;
      }
      TruncateOutcome(chunksVector, bytes, maxChunkSize);
      var pos := PosForOffset(chunksVector, bytes);
      if pos.None? {
        return false, 0;
      }
      var ival: int := pos.value;
      if chunksVector[ival].offset == bytes {
        ival := ival - 1;
      } else {
        chunksVector := chunksVector[ival := chunksVector[ival].Truncated(bytes)];
      }
      chunksVector := chunksVector[..ival + 1];
      containerBytes := bytes;
      return true, containerBytes;
    }

    static lemma TruncateOutcome(cs: seq<Chunk>, bytes: nat, maxChunkSize: nat)
      requires Sound(cs, maxChunkSize) && bytes < |Flat(cs)|
      ensures TruncatesTo(cs, bytes) <==> FoundInPlace(cs, bytes)
      ensures Indexed(cs) ==> FoundInPlace(cs, bytes)
      ensures FoundInPlace(cs, bytes) ==>
        var r := TruncateChunks(cs, bytes).value;
        Sound(r, maxChunkSize) && |r| <= |cs| && (Indexed(r) <==> Indexed(cs))
    {
      TruncateRightIff(cs, bytes);
      if Indexed(cs) {
        RightIndexInPlace(cs, bytes);
      }
      if FoundInPlace(cs, bytes) {
        TruncateKeepsIndex(cs, bytes, maxChunkSize);
      }
    }

    /** Copies bytes out through the offset index. */
    method CopyOut(bytes: nat, offset: nat) returns (r: Copied)
      requires Valid()
      ensures bytes == U64 - 1 && offset > containerBytes ==> r == Copied(false, [])
      ensures bytes == U64 - 1 && offset <= containerBytes ==>
        r == ChunkLayout.CopyOut(chunksVector, containerBytes - offset, offset)
      ensures bytes != U64 - 1 ==> r == ChunkLayout.CopyOut(chunksVector, bytes, offset)
    {
      var n := bytes;
      if n == U64 - 1 {
        if offset > containerBytes {
          return Copied(false, []);
        }
        n := containerBytes - offset;
      }
      if offset + n >= U64 {
        return Copied(false, []);
      }
      if n == 0 {
        return Copied(true, []);
      }
      if offset + n > containerBytes {
        return Copied(false, []);
      }
      r := CopyOut2(n, offset);
    }

    method CopyOut2(roBytes: nat, offset: nat) returns (r: Copied)
      requires Valid() && 0 < roBytes && offset + roBytes <= containerBytes
      ensures r == ChunkLayout.CopyOut(chunksVector, roBytes, offset)
    {
      var pos := PosForOffset(chunksVector, offset);
      if pos.None? {
        return Copied(false, []);
      }
      var data := CopyOnFrom(pos.value, roBytes, offset);
      r := Copied(true, data);
    }

    /** From the chunk the search found on, chunk after chunk. */
    method CopyOnFrom(at: nat, roBytes: nat, offset: nat) returns (buf: seq<byte>)
      requires at < |chunksVector| && chunksVector[at].ContainsOffset(offset)
      ensures var tail := TailFrom(chunksVector, at, offset); buf == tail[..Min(roBytes, |tail|)]
    {
      ghost var tail := TailFrom(chunksVector, at, offset);
      var icurrentChunk := at;
      var current := chunksVector[icurrentChunk].data[offset - chunksVector[icurrentChunk].offset..];
      ghost var rest := Flat(chunksVector[icurrentChunk + 1..]);
      var bytes: nat := roBytes;
      buf := [];
      assert tail == buf + current + rest;
      while bytes > 0
        invariant icurrentChunk < |chunksVector| && |buf| + bytes == roBytes
        invariant rest == Flat(chunksVector[icurrentChunk + 1..])
        invariant tail == buf + current + rest
        decreases |chunksVector| - icurrentChunk, bytes
      {
        if bytes > |current| {
          buf := buf + current;
          bytes := bytes - |current|;
        } else {
          CutTail(tail, buf, current, rest, bytes);
          return buf + current[..bytes];
        }
        if icurrentChunk == |chunksVector| - 1 {
          assert buf == tail;
          return;
        }
        NextPart(chunksVector, icurrentChunk + 1, tail, buf, rest);
        icurrentChunk := icurrentChunk + 1;
        current := chunksVector[icurrentChunk].data;
        rest := Flat(chunksVector[icurrentChunk + 1..]);
      }
      assert |buf| == roBytes && tail[..roBytes] == buf;
    }

    static lemma NextPart(cs: seq<Chunk>, i: nat, tail: seq<byte>, buf: seq<byte>, rest: seq<byte>)
      requires i < |cs| && rest == Flat(cs[i..]) && tail == buf + rest
      ensures tail == buf + cs[i].data + Flat(cs[i + 1..])
    {
      FlatHead(cs, i);
    }

    static lemma CutTail(tail: seq<byte>, buf: seq<byte>, current: seq<byte>, rest: seq<byte>, n: nat)
      requires tail == buf + current + rest && n <= |current|
      ensures |buf| + n <= |tail| && tail[..|buf| + n] == buf + current[..n]
    {
    }

    /** Is this what the container holds at the offset? Walks the chunks by size, so the index plays no part. */
    method Compare2(buf: seq<byte>, roOffset: nat) returns (same: bool)
      requires Valid()
      ensures same <==> roOffset + |buf| < U64 && (buf == [] || OccursAt(Content(), buf, roOffset))
    {
      if roOffset + |buf| >= U64 {
        return false;
      }
      if |buf| == 0 {
        return true;
      }
      if roOffset + |buf| > containerBytes {
        return false;
      }
      ghost var flat := Content();
      var offset: nat, compared: nat := roOffset, 0;
      var vpos: nat := 0;
      StartOfEnd(chunksVector);
      while vpos < |chunksVector|
        invariant vpos <= |chunksVector| && compared < |buf|
        invariant StartOf(chunksVector, vpos) + offset == roOffset + compared
        invariant offset > 0 ==> compared == 0
        invariant Agree(flat, buf, roOffset, compared)
      {
        var current := chunksVector[vpos].data;
        if offset > |current| {
          StartIsLength(chunksVector, vpos + 1);
          offset := offset - |current|;
        } else {
          var n := if |buf| - compared > |current| - offset then |current| - offset else |buf| - compared;
          CompareChunk(chunksVector, vpos, offset, n, buf, roOffset, compared);
          if current[offset..offset + n] != buf[compared..compared + n] {
            return false;
          }
          offset := 0;
          compared := compared + n;
          if compared == |buf| {
            return true;
          }
        }
        vpos := vpos + 1;
      }
      return false;
    }

    /** The first candidate byte in the search space, if the space lies inside the container. */
    method FindChar(c: byte, roOffset: nat, roSearchSpace: nat, caseSensitive: bool) returns (found: bool, at: nat)
      requires Valid()
      ensures found ==> roOffset <= at < roOffset + roSearchSpace <= |Content()| && Candidate(c, caseSensitive, Content()[at])
      ensures found ==> NoCandidate(Content(), c, caseSensitive, roOffset, at)
      ensures !found && roOffset + roSearchSpace <= |Content()| ==>
        NoCandidate(Content(), c, caseSensitive, roOffset, roOffset + roSearchSpace)
    {
      if roOffset + roSearchSpace >= U64 || roOffset > containerBytes || roOffset + roSearchSpace > containerBytes {
        return false, U64 - 1;
      }
      ghost var flat := Content();
      var chunks := chunksVector;
      var offset: nat, searchSpace: nat, retpos: nat := roOffset, roSearchSpace, 0;
      var vpos: nat := 0;
      StartOfEnd(chunks);
      while vpos < |chunks|
        invariant vpos <= |chunks| && retpos == StartOf(chunks, vpos)
        invariant retpos + offset + searchSpace == roOffset + roSearchSpace
        invariant retpos + offset >= roOffset && (offset > 0 ==> retpos + offset == roOffset)
        invariant NoCandidate(flat, c, caseSensitive, roOffset, retpos + offset)
      {
        var original := chunks[vpos].data;
        if offset > |original| {
          StartIsLength(chunks, vpos + 1);
          offset := offset - |original|;
        } else {
          var size := |original| - offset;
          var n := if searchSpace > size then size else searchSpace;
          var pos := CandidateIn(original[offset..], c, caseSensitive, n);
          ScanChunk(chunks, vpos, offset, if pos.Some? then pos.value else n, c, caseSensitive, roOffset);
          if pos.Some? {
            return true, retpos + offset + pos.value;
          }
          if searchSpace > size {
            searchSpace := searchSpace - size;
          } else {
            return false, 0;
          }
          offset := 0;
        }
        retpos := retpos + |original|;
        vpos := vpos + 1;
      }
      return false, 0;
    }

    /** The number of start positions a search covers; zero asks for all of them. */
    function Window(offset: nat, searchSpace: nat): nat
      requires offset <= containerBytes
      reads this
    {
      if searchSpace == 0 then containerBytes - offset else searchSpace
    }

    /** Exact-case search: the first occurrence starting in the search window, for every chunk layout. */
    method FindNeedle(needle: seq<byte>, offset: nat, roSearchSpace: nat) returns (found: bool, at: nat)
      requires Valid()
      ensures needle != [] && found ==>
        FirstAt(Content(), needle, offset, at) && at < offset + Window(offset, roSearchSpace)
      ensures needle != [] ==>
        (found <==> (
          && offset <= |Content()|
          && |needle| <= Window(offset, roSearchSpace) <= |Content()| - offset
          && exists j | offset <= j < offset + Window(offset, roSearchSpace) :: OccursAt(Content(), needle, j)))
      ensures needle == [] && offset + roSearchSpace < U64 ==>
        (found <==> offset <= |Content()| && Window(offset, roSearchSpace) > 0) && (found ==> at == 0)
    {
      if offset + |needle| >= U64 || offset + roSearchSpace >= U64 || offset > containerBytes {
        return false, U64 - 1;
      }
      var searchSpace: nat := roSearchSpace;
      if searchSpace == 0 {
        searchSpace := containerBytes - offset;
      }
      if searchSpace == 0 {
        return false, 0;
      }
      if searchSpace < |needle| {
        return false, U64 - 1;
      }
      if |needle| == 0 {
        return true, 0;
      }
      ghost var flat, window := Content(), searchSpace;
      var currentOffset: nat := offset;
      var pos: nat;
      found, pos := FindChar(needle[0], currentOffset, searchSpace, true);
      while found
        invariant window == Window(offset, roSearchSpace) && |needle| <= window
        invariant currentOffset + searchSpace == offset + window && currentOffset >= offset
        invariant found ==> currentOffset <= pos < currentOffset + searchSpace <= |flat|
        invariant NoneIn(flat, needle, offset, currentOffset)
        invariant found ==> NoCandidate(flat, needle[0], true, currentOffset, pos)
        invariant !found && offset + window <= |flat| ==> NoCandidate(flat, needle[0], true, currentOffset, offset + window)
        decreases searchSpace, found
      {
        NoneBeforeCandidate(flat, needle, offset, currentOffset, pos);
        searchSpace := searchSpace - (pos - currentOffset);
        currentOffset := pos;
        var same := Compare2(needle, currentOffset);
        if same {
          return true, currentOffset;
        }
        if searchSpace == 0 {
          break;
        }
        currentOffset := currentOffset + 1;
        searchSpace := searchSpace - 1;
        found, pos := FindChar(needle[0], currentOffset, searchSpace, true);
      }
      if offset + window <= |flat| {
        NoneBeforeCandidate(flat, needle, offset, currentOffset, offset + window);
      }
      return false, 0;
    }

    /** The requested slice, copied out 8192 bytes at a time. */
    method ToString(roBytes: nat, roOffset: nat) returns (r: seq<byte>)
      requires Valid()
      ensures Indexed(chunksVector) && roBytes != U64 - 1 && roOffset + roBytes <= |Content()| ==>
        r == Content()[roOffset..roOffset + roBytes]
      ensures Indexed(chunksVector) && roBytes == U64 - 1 && roOffset <= |Content()| ==> r == Content()[roOffset..]
      ensures (roBytes == U64 - 1 && roOffset > |Content()|) || (roBytes != U64 - 1 && roOffset + roBytes > |Content()|) ==> r == []
    {
      var bytes: nat, offset: nat := roBytes, roOffset;
      r := [];
      if bytes == U64 - 1 {
        if offset > containerBytes {
          return;
        }
        bytes := containerBytes - offset;
      }
      if offset + bytes >= U64 || bytes == 0 || offset + bytes > containerBytes {
        return;
      }
      ghost var end := offset + bytes;
      while bytes > 0
        invariant roOffset <= offset && offset + bytes == end <= |Content()|
        invariant Indexed(chunksVector) ==> r == Content()[roOffset..offset]
      {
        var copyBytes := if bytes > 8192 then 8192 else bytes;
        bytes := bytes - copyBytes;
        var out := CopyOut(copyBytes, offset);
        if Indexed(chunksVector) {
          CopyOutExact(chunksVector, copyBytes, offset);
          assert Content()[roOffset..offset] + Content()[offset..offset + copyBytes] == Content()[roOffset..offset + copyBytes];
        }
        if !out.ok {
          return;
        }
        r := r + out.data;
        offset := offset + copyBytes;
      }
    }

    /** Writes a slice (clipped to what is there) to a stream, whatever the state of the index: all of it, or the
        reported prefix when the stream fails or has had enough. */
    method AppendTo(out: Sink, roBytes: nat, offset: nat) returns (ok: bool, count: nat, ghost st: Status)
      requires Valid() && roBytes < U64 && offset < U64
      modifies out
      ensures ok <==> roBytes == 0 || (offset <= |Content()| && (roBytes == U64 - 1 || offset + roBytes < U64))
      ensures !ok || roBytes == 0 ==> count == 0 && out.content == old(out.content)
      ensures ok && roBytes > 0 ==>
        var slice := Content()[offset..Min(offset + roBytes, |Content()|)];
        && count <= |slice| && out.content == old(out.content) + slice[..count]
        && (st.succeed && !st.finish ==> count == |slice|)
        && (st.succeed <==> out.failures == old(out.failures)) && (st.finish <==> out.ends > old(out.ends))
    {
      var bytes := roBytes;
      st := Status(0, true, false);
      if bytes == U64 - 1 {
        if offset > containerBytes {
          return false, 0, st;
        }
        bytes := containerBytes - offset;
      }
      if offset + bytes >= U64 {
        return false, 0, st;
      }
      if bytes == 0 {
        assert out.content + [] == out.content;
        return true, 0, st;
      }
      if offset > containerBytes {
        return false, 0, st;
      }
      if offset + bytes > containerBytes {
        bytes := containerBytes - offset;
      }
      count, st := CopyTo2(out, bytes, offset);
      ok := true;
    }

    method CopyTo2(out: Sink, bytes: nat, offset: nat) returns (count: nat, ghost st: Status)
      requires Valid() && offset + bytes <= |Content()|
      modifies out
      ensures count <= bytes && out.content == old(out.content) + Content()[offset..offset + bytes][..count]
      ensures st.succeed && !st.finish ==> count == bytes
      ensures (st.succeed <==> out.failures == old(out.failures)) && (st.finish <==> out.ends > old(out.ends))
    {
      var pieces := CopyChunks(bytes, offset);
      var acum := CopyToSOUsingCleanVector(out, pieces);
      st := acum;
      count := acum.bytesWritten;
    }

    /** Hands the pieces over one after the other, up to the first write that fails, falls short or is the last. */
    static method CopyToSOUsingCleanVector(out: Sink, pieces: seq<seq<byte>>) returns (acum: Status)
      modifies out
      ensures acum.bytesWritten <= |Concat(pieces)|
      ensures out.content == old(out.content) + Concat(pieces)[..acum.bytesWritten]
      ensures acum.succeed && !acum.finish ==> acum.bytesWritten == |Concat(pieces)|
      ensures (acum.succeed <==> out.failures == old(out.failures)) && (acum.finish <==> out.ends > old(out.ends))
    {
      acum := Status(0, true, false);
      ghost var was := out.content;
      for i := 0 to |pieces|
        invariant acum.succeed && !acum.finish && acum.bytesWritten == |Concat(pieces[..i])|
        invariant out.content == was + Concat(pieces[..i]) && out.failures == old(out.failures) && out.ends == old(out.ends)
      {
        var cur := out.WriteFullStream(pieces[i]);
        HandedOver(pieces, i, was, cur.bytesWritten);
        acum := Plus(acum, cur);
        if !cur.succeed || cur.bytesWritten != |pieces[i]| || cur.finish {
          return;
        }
      }
      assert pieces[..|pieces|] == pieces;
    }

    /** After `n` bytes of piece `i`, a prefix of all pieces has been written. */
    static lemma HandedOver(pieces: seq<seq<byte>>, i: nat, was: seq<byte>, n: nat)
      requires i < |pieces| && n <= |pieces[i]|
      ensures var done := |Concat(pieces[..i])| + n;
        done <= |Concat(pieces)| && was + Concat(pieces[..i]) + pieces[i][..n] == was + Concat(pieces)[..done]
      ensures Concat(pieces[..i + 1]) == Concat(pieces[..i]) + pieces[i]
    {
      assert pieces[..i + 1] == pieces[..i] + [pieces[i]] && pieces == pieces[..i + 1] + pieces[i + 1..];
      ConcatSnoc(pieces[..i], pieces[i]);
      ConcatAppend(pieces[..i + 1], pieces[i + 1..]);
    }

    /** The pieces of the chunks that make up a slice. */
    method CopyChunks(bytes: nat, roOffset: nat) returns (pieces: seq<seq<byte>>)
      requires Valid() && roOffset + bytes <= |Content()|
      ensures Concat(pieces) == Content()[roOffset..roOffset + bytes]
    {
      var offset: nat := roOffset;
      pieces := [];
      if bytes == 0 {
        return;
      }
      ghost var done: nat := roOffset;
      var chunks := chunksVector;
      var dataToCopy: nat := bytes;
      var vpos: nat := 0;
      StartOfEnd(chunks);
      while vpos < |chunks|
        invariant vpos <= |chunks| && 0 < dataToCopy
        invariant StartOf(chunks, vpos) + offset == done && done + dataToCopy == roOffset + bytes
        invariant offset > 0 ==> dataToCopy == bytes
        invariant Written(Flat(chunks), pieces, roOffset, done)
      {
        var size := |chunks[vpos].data|;
        if offset > size {
          StartIsLength(chunks, vpos + 1);
          offset := offset - size;
        } else {
          var n := if dataToCopy > size - offset then size - offset else dataToCopy;
          WriteChunk(chunks, vpos, offset, n, roOffset, done, pieces);
          pieces := pieces + [chunks[vpos].data[offset..offset + n]];
          offset := 0;
          done := done + n;
          dataToCopy := dataToCopy - n;
          if dataToCopy == 0 {
            return;
          }
        }
        vpos := vpos + 1;
      }
    }
  }
}
