/** Windows over another container: any run of cuts on a window is one slice of what it looks at. */
module Views {
  import opened Bytes

  /** The length that means "to the end". */
  const UNLIMITED: nat := 0xFFFF_FFFF_FFFF_FFFF

  /** What a window looks at: plain bytes, or another window. */
  datatype Source = Plain(bytes: seq<byte>) | Window(of: Source, offset: nat, maxBytes: nat)

  predicate Sound(s: Source)
    decreases s, 0
  {
    match s
    case Plain(b) => |b| < UNLIMITED
    case Window(of, offset, maxBytes) => Sound(of) && offset <= Size(of) && maxBytes <= UNLIMITED
  }

  function Size(s: Source): (n: nat)
    requires Sound(s)
    ensures n < UNLIMITED
    decreases s, 1
  {
    match s
    case Plain(b) => |b|
    case Window(of, offset, maxBytes) =>
      var available := Size(of) - offset;
      if maxBytes == UNLIMITED || maxBytes > available then available else maxBytes
  }

  /** The bytes seen through the window. */
  function Content(s: Source): (b: seq<byte>)
    requires Sound(s)
    ensures |b| == Size(s)
  {
    match s
    case Plain(b) => b
    case Window(of, offset, _) => Content(of)[offset..offset + Size(s)]
  }

  // ---- Reading -------------------------------------------------------------------------------------

  datatype Copied = Copied(ok: bool, data: seq<byte>)

  /** The checks every container makes first. */
  function CopyOut(s: Source, roBytes: nat, offset: nat): Copied
    requires Sound(s) && roBytes <= UNLIMITED && offset <= UNLIMITED
    decreases s, 1
  {
    if roBytes == UNLIMITED && offset > Size(s) then Copied(false, [])
    else
      var bytes := if roBytes == UNLIMITED then Size(s) - offset else roBytes;
      if offset + bytes > UNLIMITED then Copied(false, [])
      else if bytes == 0 then Copied(true, [])
      else if offset + bytes > Size(s) then Copied(false, [])
      else CopyOut2(s, bytes, offset)
  }

  /** A window passes the request on, moved and cut to its size. */
  function CopyOut2(s: Source, bytes: nat, offset: nat): Copied
    requires Sound(s) && bytes <= UNLIMITED && offset + bytes <= Size(s)
    decreases s, 0
  {
    match s
    case Plain(b) => Copied(true, b[offset..offset + bytes])
    case Window(of, start, _) =>
      if offset > Size(s) then Copied(false, [])
      else
        var maxBytesToCopy := Size(s) - offset;
        CopyOut(of, if maxBytesToCopy > bytes then bytes else maxBytesToCopy, start + offset)
  }

  predicate Compare(s: Source, mem: seq<byte>, offset: nat)
    requires Sound(s) && |mem| <= UNLIMITED && offset <= UNLIMITED
    decreases s, 1
  {
    && offset + |mem| <= UNLIMITED
    && (mem == [] || (offset + |mem| <= Size(s) && Compare2(s, mem, offset)))
  }

  predicate Compare2(s: Source, mem: seq<byte>, offset: nat)
    requires Sound(s) && offset + |mem| <= Size(s)
    decreases s, 0
  {
    match s
    case Plain(b) => b[offset..offset + |mem|] == mem
    case Window(of, start, _) =>
      var maxBytesToCompare := Size(s) - offset;
      Compare(of, mem[..if maxBytesToCompare > |mem| then |mem| else maxBytesToCompare], start + offset)
  }

  /** Through any nesting of windows a copy is the slice asked for, or refused when that is not there. */
  lemma {:induction false} CopyOutIsSlice(s: Source, bytes: nat, offset: nat)
    requires Sound(s) && bytes < UNLIMITED && offset <= UNLIMITED
    ensures CopyOut(s, bytes, offset)
         == if bytes == 0 && offset <= UNLIMITED then Copied(true, [])
            else if offset + bytes <= Size(s) then Copied(true, Content(s)[offset..offset + bytes])
            else Copied(false, [])
    decreases s
  {
    if s.Window? && 0 < bytes && offset + bytes <= Size(s) {
      CopyOutIsSlice(s.of, bytes, s.offset + offset);
      WithinSlice(Content(s.of), s.offset, s.offset + Size(s), offset, bytes);
    }
  }

  lemma CopyBehind(w: Source, n: nat, start: nat)
    requires w.Window? && Sound(w) && start + n <= Size(w)
    ensures CopyOut(w.of, n, w.offset + start) == Copied(true, Content(w)[start..start + n])
  {
    CopyOutIsSlice(w.of, n, w.offset + start);
    WithinSlice(Content(w.of), w.offset, w.offset + Size(w), start, n);
  }

  lemma CopyAllIsRest(s: Source, offset: nat)
    requires Sound(s) && offset <= UNLIMITED
    ensures CopyOut(s, UNLIMITED, offset)
         == if offset <= Size(s) then Copied(true, Content(s)[offset..]) else Copied(false, [])
  {
    if offset <= Size(s) {
      CopyOutIsSlice(s, Size(s) - offset, offset);
    }
  }

  lemma {:induction false} CompareIsOccurrence(s: Source, mem: seq<byte>, offset: nat)
    requires Sound(s) && |mem| <= UNLIMITED && offset <= UNLIMITED
    ensures Compare(s, mem, offset) <==> offset + |mem| <= UNLIMITED && (mem == [] || OccursAt(Content(s), mem, offset))
    decreases s
  {
    if s.Window? && mem != [] && offset + |mem| <= Size(s) {
      assert mem[..|mem|] == mem;
      CompareIsOccurrence(s.of, mem, s.offset + offset);
      WithinSlice(Content(s.of), s.offset, s.offset + Size(s), offset, |mem|);
    }
  }

  // ---- Cutting -------------------------------------------------------------------------------------

  datatype Cut = Displace(bytes: nat) | Truncate(bytes: nat)

  function AfterDisplace(w: Source, asked: nat): Source
    requires w.Window? && Sound(w)
  {
    var bytes := if asked > Size(w) then Size(w) else asked;
    Window(w.of, w.offset + bytes, if w.maxBytes != UNLIMITED then w.maxBytes - bytes else w.maxBytes)
  }

  function AfterTruncate(w: Source, bytes: nat): Source
    requires w.Window? && Sound(w)
  {
    if bytes >= Size(w) then w else w.(maxBytes := bytes)
  }

  function AfterCut(w: Source, c: Cut): Source
    requires w.Window? && Sound(w)
  {
    match c
    case Displace(n) => AfterDisplace(w, n)
    case Truncate(n) => AfterTruncate(w, n)
  }

  lemma DisplacedSize(w: Source, asked: nat, n: nat)
    requires w.Window? && Sound(w) && n == Min(asked, Size(w))
    ensures var r := AfterDisplace(w, asked);
      r.Window? && Sound(r) && r.of == w.of && r.offset == w.offset + n && Size(r) == Size(w) - n
  {
  }

  lemma DisplaceIsSuffix(w: Source, asked: nat)
    requires w.Window? && Sound(w)
    ensures Sound(AfterDisplace(w, asked)) && Content(AfterDisplace(w, asked)) == Content(w)[Min(asked, Size(w))..]
  {
    var n := Min(asked, Size(w));
    DisplacedSize(w, asked, n);
    SuffixOfSlice(Content(w.of), w.offset, n, w.offset + n, Size(w) - n, w.offset + Size(w));
  }

  lemma TruncateIsPrefix(w: Source, bytes: nat)
    requires w.Window? && Sound(w)
    ensures Sound(AfterTruncate(w, bytes)) && Content(AfterTruncate(w, bytes)) == Content(w)[..Min(bytes, Size(w))]
  {
    SliceOfSlice(Content(w.of), w.offset, w.offset + Size(w), Min(bytes, Size(w)));
  }

  /** Both cuts, also with a limit beyond what is there or none at all: a suffix or a prefix remains. */
  lemma CutIsSlice(w: Source, c: Cut)
    requires w.Window? && Sound(w)
    ensures AfterCut(w, c).Window? && Sound(AfterCut(w, c))
    ensures Content(AfterCut(w, c))
         == if c.Displace? then Content(w)[Min(c.bytes, Size(w))..] else Content(w)[..Min(c.bytes, Size(w))]
  {
    DisplaceIsSuffix(w, c.bytes);
    TruncateIsPrefix(w, c.bytes);
  }

  function AfterCuts(w: Source, cuts: seq<Cut>): Source
    requires w.Window? && Sound(w)
    decreases |cuts|
  {
    if cuts == [] then w else
      CutIsSlice(w, cuts[0]);
      AfterCuts(AfterCut(w, cuts[0]), cuts[1..])
  }

  datatype Range = Range(lo: nat, hi: nat)

  function Narrowed(r: Range, c: Cut): (n: Range)
    requires r.lo <= r.hi
    ensures r.lo <= n.lo <= n.hi <= r.hi
  {
    var bytes := Min(c.bytes, r.hi - r.lo);
    if c.Displace? then Range(r.lo + bytes, r.hi) else Range(r.lo, r.lo + bytes)
  }

  /** The one range a run of cuts leaves of `lo..hi`. */
  function Net(r: Range, cuts: seq<Cut>): (n: Range)
    requires r.lo <= r.hi
    ensures r.lo <= n.lo <= n.hi <= r.hi
    decreases |cuts|
  {
    if cuts == [] then r else Net(Narrowed(r, cuts[0]), cuts[1..])
  }

  lemma CutNarrows(w: Source, c: Cut, whole: seq<byte>, r: Range)
    requires w.Window? && Sound(w) && r.lo <= r.hi <= |whole| && Content(w) == whole[r.lo..r.hi]
    ensures AfterCut(w, c).Window? && Sound(AfterCut(w, c))
    ensures Content(AfterCut(w, c)) == whole[Narrowed(r, c).lo..Narrowed(r, c).hi]
  {
    var n: nat := Min(c.bytes, r.hi - r.lo);
    assert Size(w) == r.hi - r.lo;
    CutIsSlice(w, c);
    SliceOfSlice(whole, r.lo, r.hi, n);
  }

  /** Any run of displacements and truncations on a window, or on a window on a window, leaves one slice. */
  lemma {:induction false} CutsAreOneSlice(w: Source, cuts: seq<Cut>, whole: seq<byte>, r: Range)
    requires w.Window? && Sound(w) && r.lo <= r.hi <= |whole| && Content(w) == whole[r.lo..r.hi]
    ensures AfterCuts(w, cuts).Window? && Sound(AfterCuts(w, cuts))
    ensures Content(AfterCuts(w, cuts)) == whole[Net(r, cuts).lo..Net(r, cuts).hi]
    decreases |cuts|
  {
    if cuts != [] {
      CutNarrows(w, cuts[0], whole, r);
      CutsAreOneSlice(AfterCut(w, cuts[0]), cuts[1..], whole, Narrowed(r, cuts[0]));
    }
  }

  lemma WithinSlice(s: seq<byte>, lo: nat, hi: nat, offset: nat, n: nat)
    requires lo <= hi <= |s| && lo + offset + n <= hi
    ensures s[lo..hi][offset..offset + n] == s[lo + offset..lo + offset + n]
  {
    var a, b := s[lo..hi][offset..offset + n], s[lo + offset..lo + offset + n];
    forall i | 0 <= i < n ensures a[i] == b[i] {
      assert a[i] == s[lo..hi][offset + i] == s[lo + offset + i];
    }
  }

  lemma SuffixOfSlice(s: seq<byte>, lo: nat, n: nat, mid: nat, left: nat, hi: nat)
    requires mid == lo + n && mid + left == hi <= |s|
    ensures s[lo..hi][n..] == s[mid..mid + left]
  {
  }

  lemma SliceOfSlice(s: seq<byte>, lo: nat, hi: nat, n: nat)
    requires lo <= lo + n <= hi <= |s|
    ensures s[lo..hi][n..] == s[lo + n..hi] && s[lo..hi][..n] == s[lo..lo + n]
  {
  }

  // ---- The window object ------------------------------------------------------------------------------

  class BRef {
    var referenced: Option<Source>
    var offset: nat
    var maxBytes: nat

    ghost predicate Valid()
      reads this
    {
      referenced.Some? ==> Sound(Window(referenced.value, offset, maxBytes))
    }

    function View(): Source
      requires referenced.Some?
      reads this
    {
      Window(referenced.value, offset, maxBytes)
    }

    /** What can be read through the window: nothing when it looks at nothing. */
    ghost function Shown(): (s: seq<byte>)
      requires Valid()
      reads this
    {
      if referenced.None? then [] else Content(View())
    }

    constructor ()
      ensures Valid() && referenced == None && Shown() == []
    {
      referenced, offset, maxBytes := None, 0, 0;
    }

    /** A window can begin anywhere up to the end of what it looks at. */
    method Reference(bc: Source, start: nat, limit: nat) returns (ok: bool)
      requires Valid() && Sound(bc) && limit <= UNLIMITED
      modifies this
      ensures Valid() && (ok <==> start <= Size(bc))
      ensures ok ==> referenced.Some? && View() == Window(bc, start, limit)
      ensures ok ==> Shown() == Content(bc)[start..start + Min(limit, Size(bc) - start)]
      ensures !ok ==> referenced == old(referenced) && offset == old(offset) && maxBytes == old(maxBytes)
    {
      if start > Size(bc) {
        return false;
      }
      referenced, offset, maxBytes := Some(bc), start, limit;
      return true;
    }

    method DisplaceBy(asked: nat) returns (ok: bool, displaced: nat)
      requires Valid()
      modifies this`offset, this`maxBytes
      ensures Valid() && ok == referenced.Some?
      ensures ok ==> displaced == Min(asked, Size(old(View()))) && View() == AfterDisplace(old(View()), asked)
      ensures !ok ==> displaced == 0 && offset == old(offset) && maxBytes == old(maxBytes)
      ensures displaced == Min(asked, |old(Shown())|) && Shown() == old(Shown())[displaced..]
    {
      if referenced.None? {
        return false, 0;
      }
      CutIsSlice(View(), Displace(asked));
      displaced := asked;
      if displaced > Size(View()) {
        displaced := Size(View());
      }
      if maxBytes != UNLIMITED {
        maxBytes := maxBytes - displaced;
      }
      offset := offset + displaced;
      ok := true;
    }

    method TruncateTo(bytes: nat) returns (ok: bool, size: nat)
      requires Valid()
      modifies this`maxBytes
      ensures Valid()
      ensures referenced.None? ==> !ok && size == 0 && maxBytes == old(maxBytes)
      ensures referenced.Some? ==> View() == AfterTruncate(old(View()), bytes) && ok == (bytes < Size(old(View())))
      ensures referenced.Some? ==> size == Min(bytes, Size(old(View()))) == Size(View())
      ensures ok == (bytes < |old(Shown())|) && Shown() == old(Shown())[..Min(bytes, |old(Shown())|)]
    {
      if referenced.None? {
        return false, 0;
      }
      CutIsSlice(View(), Truncate(bytes));
      if bytes >= Size(View()) {
        return false, Size(View());
      }
      maxBytes := bytes;
      return true, bytes;
    }

    /** Looking at nothing, it shows nothing. */
    method Clear2() returns (ok: bool)
      requires Valid()
      modifies this`referenced
      ensures ok && referenced == None && Valid() && Shown() == []
    {
      referenced := None;
      ok := true;
    }

    /** The checks every container makes first: what is read is the slice asked for, the rest when everything
        is asked for, or nothing at all when that is not there. */
    method CopyOutAt(roBytes: nat, start: nat) returns (r: Copied)
      requires Valid() && roBytes <= UNLIMITED && start <= UNLIMITED
      ensures roBytes == UNLIMITED ==>
        r == if start <= |Shown()| then Copied(true, Shown()[start..]) else Copied(false, [])
      ensures 0 < roBytes < UNLIMITED ==>
        r == if start + roBytes <= |Shown()| then Copied(true, Shown()[start..start + roBytes]) else Copied(false, [])
      ensures roBytes == 0 ==> r == Copied(true, [])
    {
      var currentSize := if referenced.None? then 0 else Size(View());
      var bytes := roBytes;
      if bytes == UNLIMITED {
        if start > currentSize {
          return Copied(false, []);
        }
        bytes := currentSize - start;
      }
      if start + bytes > UNLIMITED {
        return Copied(false, []);
      }
      if bytes == 0 {
        return Copied(true, []);
      }
      if start + bytes > currentSize {
        return Copied(false, []);
      }
      r := CopyOutAt2(bytes, start);
    }

    /** The request is cut to what the window shows and passed on to what it looks at. */
    method CopyOutAt2(bytes: nat, start: nat) returns (r: Copied)
      requires Valid() && bytes <= UNLIMITED
      ensures referenced.None? || start > |Shown()| ==> r == Copied(false, [])
      ensures referenced.Some? && start <= |Shown()| ==>
        r == Copied(true, Shown()[start..Min(start + bytes, |Shown()|)])
    {
      if referenced.None? {
        return Copied(false, []);
      }
      if start > Size(View()) {
        return Copied(false, []);
      }
      var maxBytesToCopy := Size(View()) - start;
      var bytesToCopy := if maxBytesToCopy > bytes then bytes else maxBytesToCopy;
      CopyBehind(View(), bytesToCopy, start);
      r := CopyOut(referenced.value, bytesToCopy, offset + start);
    }
  }
}
