/** Whole streams through the stream parser with a delimiter sub-parser whose callback may ask for more or reject a
    record. */
module DelimiterStream {
  import opened Bytes
  import opened ChunkLayout
  import opened RecordSplit
  import opened StreamParser
  import opened ChunkedDelimiter
  import opened DelimiterParser

  ghost function DelimProtocol(limits: Limits, d: seq<byte>, verdict: Verdict): Protocol<DelimState>
    requires d != [] && limits.maxChunkSize > 0
  {
    Protocol((st, buf) => WriteDelim(limits, d, verdict, st, buf), st => Refused)
  }

  /** Unfolding one call of a write. */
  lemma FeedOnce(limits: Limits, d: seq<byte>, verdict: Verdict, st: DelimState, buf: seq<byte>, budget: nat)
    requires d != [] && limits.Valid() && budget > 0
    ensures var p := DelimProtocol(limits, d, verdict);
      var r := WriteDelim(limits, d, verdict, st, buf);
      r.ok && r.consumed <= |buf| && r.status == STAT_GET_MORE_DATA ==>
        Feed(p, Some(st), buf, budget) ==
          if r.consumed == |buf| then Last(buf, false, Some(r.next))
          else After(buf[..r.consumed], Feed(p, Some(r.next), buf[r.consumed..], budget - 1))
    ensures var r := WriteDelim(limits, d, verdict, st, buf);
      r.ok && r.consumed <= |buf| && r.status != STAT_GET_MORE_DATA ==>
        Feed(DelimProtocol(limits, d, verdict), Some(st), buf, budget) == Failure(1, Some(r.next))
    ensures !WriteDelim(limits, d, verdict, st, buf).ok ==> !Feed(DelimProtocol(limits, d, verdict), Some(st), buf, budget).ok
  {
    var n := WriteDelim(limits, d, verdict, st, buf).consumed;
    if n == |buf| {
      assert buf[..n] == buf && buf[n..] == [];
    }
  }

  /** A write that succeeds leaves the stream split at its leftmost delimiters. */
  lemma {:induction false} FeedLaw(limits: Limits, d: seq<byte>, verdict: Verdict, st: DelimState, s: seq<byte>, buf: seq<byte>, budget: nat)
    requires d != [] && limits.Valid() && Open(limits, d, st, s) && buf != []
    ensures var out := Feed(DelimProtocol(limits, d, verdict), Some(st), buf, budget);
      out.ok ==> out.count == |buf| && out.parser.Some? && Open(limits, d, out.parser.value, s + buf)
    decreases budget
  {
    if budget > 0 {
      var r := WriteDelim(limits, d, verdict, st, buf);
      WriteLaw(limits, d, verdict, st, s, buf);
      FeedOnce(limits, d, verdict, st, buf, budget);
      if r.ok && r.status == STAT_GET_MORE_DATA {
        CutWrite(s, buf, r.consumed);
        if r.consumed < |buf| {
          FeedLaw(limits, d, verdict, r.next, s + buf[..r.consumed], buf[r.consumed..], budget - 1);
        }
      }
    }
  }

  lemma HonestOnce(limits: Limits, d: seq<byte>, verdict: Verdict, st: DelimState, buf: seq<byte>, next: nat, budget: nat)
    requires d != [] && limits.Valid() && budget == next + 1
    requires var r := WriteDelim(limits, d, verdict, st, buf);
      r.ok ==>
        && r.consumed <= |buf|
        && (r.status != STAT_GET_MORE_DATA || r.consumed == |buf| || HonestRun(DelimProtocol(limits, d, verdict), Some(r.next), buf[r.consumed..], next))
    ensures HonestRun(DelimProtocol(limits, d, verdict), Some(st), buf, budget)
  {
  }

  /** A delimiter sub-parser never claims more than it was given, in any state a stream brings it to. */
  lemma {:induction false} OpenIsHonest(limits: Limits, d: seq<byte>, verdict: Verdict, st: DelimState, s: seq<byte>, buf: seq<byte>, budget: nat)
    requires d != [] && limits.Valid() && Open(limits, d, st, s) && buf != []
    ensures HonestRun(DelimProtocol(limits, d, verdict), Some(st), buf, budget)
    decreases budget
  {
    if budget > 0 {
      var r, next: nat := WriteDelim(limits, d, verdict, st, buf), budget - 1;
      WriteLaw(limits, d, verdict, st, s, buf);
      if r.ok && r.consumed < |buf| {
        OpenIsHonest(limits, d, verdict, r.next, s + buf[..r.consumed], buf[r.consumed..], next);
      }
      HonestOnce(limits, d, verdict, st, buf, next, budget);
    }
  }

  lemma CutWrite(s: seq<byte>, buf: seq<byte>, n: nat)
    requires n <= |buf|
    ensures s + buf[..n] + buf[n..] == s + buf && (n == |buf| ==> buf[..n] == buf)
  {
  }

  // ---- Any sequence of writes -------------------------------------------------------------------

  /** The parser after a sequence of writes, if every one of them succeeded. */
  function Writes<S>(p: Protocol<S>, parser: Option<S>, writes: seq<seq<byte>>, maxTTL: nat): Option<Option<S>> {
    if writes == [] then Some(parser)
    else match Writes(p, parser, writes[..|writes| - 1], maxTTL)
      case None => None
      case Some(q) =>
        var out := Feed(p, q, writes[|writes| - 1], maxTTL + 1);
        if out.ok then Some(out.parser) else None
  }

  const FRESH: DelimState := DelimState([], false, [])

  /** If the writes all succeed, their records are the stream's split and the rest of it is in the buffer. */
  ghost predicate StreamSplit(limits: Limits, d: seq<byte>, verdict: Verdict, writes: seq<seq<byte>>, maxTTL: nat)
    requires d != [] && limits.maxChunkSize > 0
  {
    var end := Writes(DelimProtocol(limits, d, verdict), Some(FRESH), writes, maxTTL);
    end.Some? ==> end.value.Some? && Open(limits, d, end.value.value, Concat(writes))
  }

  /** However a stream is cut into non-empty writes, if they all succeed the records parsed are exactly
      its split at the leftmost non-overlapping delimiters, and the rest waits in the buffer. */
  lemma {:induction false} StreamLaw(limits: Limits, d: seq<byte>, verdict: Verdict, writes: seq<seq<byte>>, maxTTL: nat)
    requires d != [] && limits.Valid()
    requires forall i | 0 <= i < |writes| :: writes[i] != []
    ensures StreamSplit(limits, d, verdict, writes, maxTTL)
  {
    if writes == [] {
      assert Split([], d) == Records([], []);
    } else {
      var n := |writes| - 1;
      StreamLaw(limits, d, verdict, writes[..n], maxTTL);
      StreamMore(limits, d, verdict, writes[..n], writes[n], maxTTL);
      assert writes == writes[..n] + [writes[n]];
    }
  }

  lemma StreamMore(limits: Limits, d: seq<byte>, verdict: Verdict, writes: seq<seq<byte>>, buf: seq<byte>, maxTTL: nat)
    requires d != [] && limits.Valid() && buf != []
    requires StreamSplit(limits, d, verdict, writes, maxTTL)
    ensures StreamSplit(limits, d, verdict, writes + [buf], maxTTL)
  {
    assert (writes + [buf])[..|writes|] == writes;
    ConcatSnoc(writes, buf);
    var end := Writes(DelimProtocol(limits, d, verdict), Some(FRESH), writes, maxTTL);
    if end.Some? {
      FeedLaw(limits, d, verdict, end.value.value, Concat(writes), buf, maxTTL + 1);
    }
  }

  /** The end of the stream makes a last record of what waits in the buffer, whatever the callback says to it. */
  lemma EndLaw(limits: Limits, d: seq<byte>, verdict: Verdict, st: DelimState, s: seq<byte>, none: seq<byte>, budget: nat)
    requires d != [] && limits.Valid() && Open(limits, d, st, s) && none == [] && budget > 0
    ensures var p := DelimProtocol(limits, d, verdict);
      && HonestRun(p, Some(st), none, budget)
      && Feed(p, Some(st), none, budget).parser == Some(Ended(s, d))
      && Feed(p, Some(st), none, budget).ok == (verdict(Ended(s, d).records) == STAT_GET_MORE_DATA)
  {
    RestHasNone(s, d);
    var r := WriteDelim(limits, d, verdict, st, none);
    assert Buffered(limits, st.chunks, none) == Appended(true, 0, st.chunks);
    assert Find(Flat(st.chunks), d, 0).None?;
    assert r == Reply(true, 0, verdict(Ended(s, d).records), Ended(s, d));
    FeedOnce(limits, d, verdict, st, none, budget);
  }

  /** The sub-parser once the stream `s` has ended: every piece between delimiters is a record. */
  ghost function Ended(s: seq<byte>, d: seq<byte>): DelimState
    requires d != []
  {
    DelimState([], true, Split(s, d).done + [Split(s, d).rest])
  }

  /** Pieces written into a parser with this sub-parser one after the other, as long as every write succeeds. */
  method WritePieces(pieces: seq<seq<byte>>, out: Parser<DelimState>, ghost limits: Limits, ghost d: seq<byte>, ghost verdict: Verdict)
    returns (ok: bool)
    requires d != [] && limits.Valid() && forall i | 0 <= i < |pieces| :: pieces[i] != []
    requires out.protocol == DelimProtocol(limits, d, verdict) && out.currentParser == Some(FRESH)
    modifies out`currentParser
    ensures ok == Writes(out.protocol, Some(FRESH), pieces, out.maxTTL).Some?
    ensures ok ==> out.currentParser.Some? && Open(limits, d, out.currentParser.value, Concat(pieces))
  {
    ghost var p, budget := out.protocol, out.maxTTL + 1;
    StreamLaw(limits, d, verdict, [], out.maxTTL);
    for i := 0 to |pieces|
      invariant Writes(p, Some(FRESH), pieces[..i], out.maxTTL) == Some(out.currentParser)
      invariant out.currentParser.Some? && Open(limits, d, out.currentParser.value, Concat(pieces[..i]))
    {
      ghost var st, s := out.currentParser.value, Concat(pieces[..i]);
      OpenIsHonest(limits, d, verdict, st, s, pieces[i], budget);
      FeedLaw(limits, d, verdict, st, s, pieces[i], budget);
      NextWrite(pieces, i);
      var succeed, finish, n := out.WriteFullStream(pieces[i]);
      if !succeed {
        WritesStop(p, Some(FRESH), pieces, i + 1, out.maxTTL);
        return false;
      }
    }
    assert pieces[..|pieces|] == pieces;
    ok := true;
  }

  /** A stream written into a parser with this sub-parser, piece by piece as it is read, until it ends or cannot be
      read on: when every write succeeds, the records are all its pieces between delimiters. */
  method StreamTo(pieces: seq<seq<byte>>, readToEnd: bool, out: Parser<DelimState>,
      ghost limits: Limits, ghost d: seq<byte>, ghost verdict: Verdict)
    returns (ok: bool)
    requires d != [] && limits.Valid() && forall i | 0 <= i < |pieces| :: pieces[i] != []
    requires out.protocol == DelimProtocol(limits, d, verdict) && out.currentParser == Some(FRESH)
    modifies out`currentParser
    ensures var all := Writes(out.protocol, Some(FRESH), pieces, out.maxTTL);
      && ok == (readToEnd && all.Some?)
      && (all.Some? ==> out.currentParser == Some(Ended(Concat(pieces), d)))
  {
    ok := WritePieces(pieces, out, limits, d, verdict);
    if ok {
      EndLaw(limits, d, verdict, out.currentParser.value, Concat(pieces), [], out.maxTTL + 1);
      out.WriteEOF();
      ok := readToEnd;
    }
  }

  lemma NextWrite(writes: seq<seq<byte>>, i: nat)
    requires i < |writes|
    ensures writes[..i + 1][..i] == writes[..i] && Concat(writes[..i + 1]) == Concat(writes[..i]) + writes[i]
  {
    assert writes[..i + 1] == writes[..i] + [writes[i]];
    ConcatSnoc(writes[..i], writes[i]);
  }

  lemma {:induction false} WritesStop<S>(p: Protocol<S>, first: Option<S>, writes: seq<seq<byte>>, i: nat, maxTTL: nat)
    requires i <= |writes| && Writes(p, first, writes[..i], maxTTL).None?
    ensures Writes(p, first, writes, maxTTL).None?
    decreases |writes|
  {
    if i == |writes| {
      assert writes[..i] == writes;
    } else {
      var init := writes[..|writes| - 1];
      assert init[..i] == writes[..i];
      WritesStop(p, first, init, i, maxTTL);
    }
  }

  // ---- Exactly when a write succeeds ------------------------------------------------------------

  /** One call for each record the write completes, and one more if bytes are left behind them. */
  ghost function CallsNeeded(x: seq<byte>, d: seq<byte>): nat
    requires d != []
  {
    |Split(x, d).done| + if Split(x, d).rest == [] then 0 else 1
  }

  /** The whole write fits in the buffer behind what is there. */
  ghost predicate Room(limits: Limits, cs: seq<Chunk>, buf: seq<byte>)
    requires limits.maxChunkSize > 0
  {
    |Flat(cs)| + |buf| <= limits.maxSize && AppendChunks(cs, buf, limits.maxChunkSize, limits.maxChunks).ok
  }

  /** With room, a write is accepted whole: it completes a record, or all of it waits. */
  lemma RoomyWrite(limits: Limits, d: seq<byte>, verdict: Verdict, st: DelimState, s: seq<byte>, buf: seq<byte>)
    requires d != [] && limits.Valid() && Open(limits, d, st, s) && buf != []
    requires Room(limits, st.chunks, buf)
    ensures var r := WriteDelim(limits, d, verdict, st, buf);
      var b := Flat(st.chunks) + buf;
      && r.ok
      && (Find(b, d, 0).None? ==> r.consumed == |buf| && r.next.records == st.records)
      && (Find(b, d, 0).Some? ==>
            && r.consumed == Find(b, d, 0).value + |d| - |Flat(st.chunks)| && r.next.chunks == []
            && r.next.records == st.records + [b[..Find(b, d, 0).value]])
  {
    assert buf[..|buf|] == buf;
    assert Buffered(limits, st.chunks, buf) == AppendChunks(st.chunks, buf, limits.maxChunkSize, limits.maxChunks);
    AppendExact(st.chunks, buf, limits.maxChunkSize, limits.maxChunks);
    var b := Flat(st.chunks) + buf;
    if Find(b, d, 0).Some? {
      RestHasNone(s, d);
      EndsInside(Flat(st.chunks), buf, d, Find(b, d, 0).value);
    }
  }

  lemma RoomLeft(limits: Limits, cs: seq<Chunk>, buf: seq<byte>, n: nat)
    requires limits.Valid() && |cs| <= limits.maxChunks && Room(limits, cs, buf) && n <= |buf|
    ensures Room(limits, [], buf[n..])
  {
    AppendShortfall(cs, buf, limits.maxChunkSize, limits.maxChunks);
    AppendShortfall([], buf[n..], limits.maxChunkSize, limits.maxChunks);
    MoreRoom(limits.maxChunkSize, limits.maxChunks - |cs|, limits.maxChunks);
  }

  lemma FeedOk(limits: Limits, d: seq<byte>, verdict: Verdict, st: DelimState, buf: seq<byte>, next: nat, budget: nat)
    requires d != [] && limits.Valid() && budget == next + 1
    requires var r := WriteDelim(limits, d, verdict, st, buf); r.ok && r.consumed <= |buf|
    ensures var p, r := DelimProtocol(limits, d, verdict), WriteDelim(limits, d, verdict, st, buf);
      Feed(p, Some(st), buf, budget).ok <==>
        r.status == STAT_GET_MORE_DATA && (r.consumed == |buf| || Feed(p, Some(r.next), buf[r.consumed..], next).ok)
  {
    FeedOnce(limits, d, verdict, st, buf, budget);
  }

  /** The callback asks for more after each of the records. */
  ghost predicate Welcome(verdict: Verdict, before: seq<seq<byte>>, records: seq<seq<byte>>)
    decreases |records|
  {
    records != [] ==>
      verdict(before + [records[0]]) == STAT_GET_MORE_DATA && Welcome(verdict, before + [records[0]], records[1..])
  }

  lemma WelcomeFirst(verdict: Verdict, before: seq<seq<byte>>, first: seq<byte>, more: seq<seq<byte>>)
    ensures Welcome(verdict, before, [first] + more)
       <==> verdict(before + [first]) == STAT_GET_MORE_DATA && Welcome(verdict, before + [first], more)
  {
    assert ([first] + more)[1..] == more;
  }

  /** With room for it, a write succeeds exactly when the callback asks for more after each record it completes and
      the records, and the bytes left behind them, can be handed over within the budget. */
  lemma {:induction false} FeedSucceedsIff(limits: Limits, d: seq<byte>, verdict: Verdict, st: DelimState, s: seq<byte>, buf: seq<byte>, budget: nat)
    requires d != [] && limits.Valid() && Open(limits, d, st, s) && buf != []
    requires Room(limits, st.chunks, buf)
    ensures Feed(DelimProtocol(limits, d, verdict), Some(st), buf, budget).ok
       <==> CallsNeeded(Flat(st.chunks) + buf, d) <= budget && Welcome(verdict, st.records, Split(Flat(st.chunks) + buf, d).done)
    decreases budget
  {
    if budget > 0 {
      var r := WriteDelim(limits, d, verdict, st, buf);
      var next: nat := budget - 1;
      RoomyStep(limits, d, verdict, st, s, buf);
      if r.consumed < |buf| && r.status == STAT_GET_MORE_DATA {
        FeedSucceedsIff(limits, d, verdict, r.next, s + buf[..r.consumed], buf[r.consumed..], next);
      }
      FeedOk(limits, d, verdict, st, buf, next, budget);
    }
  }

  lemma RoomyStep(limits: Limits, d: seq<byte>, verdict: Verdict, st: DelimState, s: seq<byte>, buf: seq<byte>)
    requires d != [] && limits.Valid() && Open(limits, d, st, s) && buf != []
    requires Room(limits, st.chunks, buf)
    ensures var r := WriteDelim(limits, d, verdict, st, buf);
      && r.ok && 0 < r.consumed <= |buf|
      && Open(limits, d, r.next, s + buf[..r.consumed])
      && (r.consumed < |buf| ==> Room(limits, r.next.chunks, buf[r.consumed..]))
      && CallsNeeded(Flat(st.chunks) + buf, d) ==
        1 + (if r.consumed < |buf| then CallsNeeded(Flat(r.next.chunks) + buf[r.consumed..], d) else 0)
      && (Welcome(verdict, st.records, Split(Flat(st.chunks) + buf, d).done) <==>
            r.status == STAT_GET_MORE_DATA
            && (r.consumed < |buf| ==> Welcome(verdict, r.next.records, Split(Flat(r.next.chunks) + buf[r.consumed..], d).done)))
  {
    var r := WriteDelim(limits, d, verdict, st, buf);
    WriteLaw(limits, d, verdict, st, s, buf);
    RoomyWrite(limits, d, verdict, st, s, buf);
    CallsCount(Flat(st.chunks), buf, d, r.consumed);
    WelcomeStep(verdict, st.records, Flat(st.chunks), buf, d, r.consumed, r.next.records);
    if r.consumed < |buf| {
      RoomLeft(limits, st.chunks, buf, r.consumed);
      assert Flat(r.next.chunks) + buf[r.consumed..] == buf[r.consumed..];
    }
  }

  lemma WelcomeHit(verdict: Verdict, before: seq<seq<byte>>, b: seq<byte>, d: seq<byte>, p: nat, rest: seq<byte>, after: seq<seq<byte>>)
    requires d != [] && Find(b, d, 0) == Some(p) && rest == b[p + |d|..] && after == before + [b[..p]]
    ensures Welcome(verdict, before, Split(b, d).done)
       <==> verdict(after) == STAT_GET_MORE_DATA && Welcome(verdict, after, Split(rest, d).done)
  {
    SplitStep(b, d, p);
    WelcomeFirst(verdict, before, b[..p], Split(rest, d).done);
  }

  lemma WelcomeMiss(verdict: Verdict, before: seq<seq<byte>>, b: seq<byte>, d: seq<byte>)
    requires d != [] && Find(b, d, 0).None?
    ensures Welcome(verdict, before, Split(b, d).done)
  {
  }

  lemma WelcomeStep(verdict: Verdict, before: seq<seq<byte>>, t: seq<byte>, buf: seq<byte>, d: seq<byte>, n: nat, after: seq<seq<byte>>)
    requires d != [] && n <= |buf|
    requires var f := Find(t + buf, d, 0);
      if f.Some? then n == f.value + |d| - |t| && after == before + [(t + buf)[..f.value]] else n == |buf| && after == before
    ensures Welcome(verdict, before, Split(t + buf, d).done) <==>
      Answer(verdict, before, after) == STAT_GET_MORE_DATA && (n < |buf| ==> Welcome(verdict, after, Split(buf[n..], d).done))
  {
    var f := Find(t + buf, d, 0);
    if f.None? {
      WelcomeMiss(verdict, before, t + buf, d);
    } else {
      assert (t + buf)[f.value + |d|..] == buf[n..];
      WelcomeHit(verdict, before, t + buf, d, f.value, buf[n..], after);
      if n == |buf| {
        SplitNothing(buf[n..], d);
      }
    }
  }

  lemma CallsCount(t: seq<byte>, buf: seq<byte>, d: seq<byte>, n: nat)
    requires d != [] && buf != [] && n <= |buf|
    requires var f := Find(t + buf, d, 0); if f.Some? then n == f.value + |d| - |t| else n == |buf|
    ensures CallsNeeded(t + buf, d) == 1 + (if n < |buf| then CallsNeeded(buf[n..], d) else 0)
  {
    if Find(t + buf, d, 0).Some? {
      CallsAfterOne(t, buf, d, n);
    }
  }

  lemma CallsAfterOne(t: seq<byte>, buf: seq<byte>, d: seq<byte>, n: nat)
    requires d != [] && Find(t + buf, d, 0).Some? && n <= |buf| && n == Find(t + buf, d, 0).value + |d| - |t|
    ensures CallsNeeded(t + buf, d) == 1 + CallsNeeded(buf[n..], d)
    ensures n == |buf| ==> CallsNeeded(buf[n..], d) == 0
  {
    var p := Find(t + buf, d, 0).value;
    SplitStep(t + buf, d, p);
    assert (t + buf)[p + |d|..] == buf[n..];
    if n == |buf| {
      assert buf[n..] == [] && Split([], d) == Records([], []);
    }
  }
}
