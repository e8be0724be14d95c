/** The stream parser that hands incoming data to its current sub-parser, changes sub-parsers when asked,
    and goes on with whatever the sub-parser left, within a budget of calls for one write. The sub-parsers
    and the protocol's choice of the next one are parameters. */
module StreamParser {
  import opened Bytes

  datatype ParseStatus = STAT_ERROR | STAT_GET_MORE_DATA | STAT_GOTO_NEXT_SUBPARSER

  /** What a sub-parser answers to a write: whether it failed, how many bytes it took, what it asks for. */
  datatype Reply<S> = Reply(ok: bool, consumed: nat, status: ParseStatus, next: S)

  /** The protocol's answer to a change request: refused, or the next sub-parser (none at the end). */
  datatype Change<S> = Refused | ChangeTo(parser: Option<S>)

  datatype Protocol<!S> = Protocol(write: (S, seq<byte>) -> Reply<S>, change: S -> Change<S>)

  /** How one write ends: the calls it took, the pieces the sub-parsers took in order, and who is next. */
  datatype Outcome<S> = Outcome(ok: bool, count: nat, finished: bool, calls: nat, taken: seq<seq<byte>>, parser: Option<S>)

  function Failure<S>(calls: nat, parser: Option<S>): Outcome<S> {
    Outcome(false, 0, false, calls, [], parser)
  }

  /** `out` preceded by one more call that took `piece`. */
  function After<S>(piece: seq<byte>, out: Outcome<S>): Outcome<S> {
    if out.ok then out.(count := |piece| + out.count, calls := out.calls + 1, taken := [piece] + out.taken)
    else out.(calls := out.calls + 1)
  }

  function Last<S>(piece: seq<byte>, finished: bool, parser: Option<S>): Outcome<S> {
    Outcome(true, |piece|, finished, 1, [piece], parser)
  }

  /** One write: `budget` calls are left before the time-to-live limit answers. */
  function Feed<S>(p: Protocol<S>, parser: Option<S>, buf: seq<byte>, budget: nat): Outcome<S>
    decreases budget
  {
    if budget == 0 then Failure(1, parser)
    else match parser
      case None =>
        if buf == [] then Failure(1, None)
        else
          var out := Feed(p, None, buf, budget - 1);
          out.(calls := out.calls + 1)
      case Some(s) =>
        var r := p.write(s, buf);
        if !r.ok || r.consumed > |buf| then Failure(1, Some(r.next))
        else
          var piece, rest := buf[..r.consumed], buf[r.consumed..];
          match r.status
          case STAT_ERROR => Failure(1, Some(r.next))
          case STAT_GET_MORE_DATA =>
            if rest == [] then Last(piece, false, Some(r.next))
            else After(piece, Feed(p, Some(r.next), rest, budget - 1))
          case STAT_GOTO_NEXT_SUBPARSER =>
            match p.change(r.next)
            case Refused => Failure(1, Some(r.next))
            case ChangeTo(q) =>
              if q.None? then Last(piece, true, None)
              else if rest == [] then Last(piece, false, q)
              else After(piece, Feed(p, q, rest, budget - 1))
  }

  /** Along this write no sub-parser that accepts a write claims more than it was given. */
  ghost predicate HonestRun<S>(p: Protocol<S>, parser: Option<S>, buf: seq<byte>, budget: nat)
    decreases budget
  {
    budget == 0 || parser.None? ||
    var r := p.write(parser.value, buf);
    r.ok ==>
      && r.consumed <= |buf|
      && match r.status
         case STAT_ERROR => true
         case STAT_GET_MORE_DATA =>
           r.consumed == |buf| || HonestRun(p, Some(r.next), buf[r.consumed..], budget - 1)
         case STAT_GOTO_NEXT_SUBPARSER =>
           var c := p.change(r.next);
           c.Refused? || c.parser.None? || r.consumed == |buf| || HonestRun(p, c.parser, buf[r.consumed..], budget - 1)
  }

  /** A successful write took each of the bytes it reports exactly once and in order, reports all of them
      unless the protocol finished, and stays within its budget; a failing one makes at most one call more. */
  lemma {:induction false} FeedConserves<S>(p: Protocol<S>, parser: Option<S>, buf: seq<byte>, budget: nat)
    ensures Conserves(Feed(p, parser, buf, budget), buf, budget)
    decreases budget
  {
    if budget > 0 {
      match parser
      case None => NoParserFails(p, buf, budget);
      case Some(s) =>
        var r := p.write(s, buf);
        if r.ok && r.consumed <= |buf| {
          var next: nat := budget - 1;
          FeedConserves(p, Handed(p, r), buf[r.consumed..], next);
          AfterConserves(buf, r.consumed, Feed(p, Handed(p, r), buf[r.consumed..], next), next);
          ConcatOne(buf[..r.consumed]);
          FeedCases(p, s, buf, r, next, budget);
        }
    }
  }

  ghost predicate Conserves<S>(out: Outcome<S>, buf: seq<byte>, budget: nat) {
    && out.calls <= budget + 1
    && (out.ok ==> out.calls <= budget && |out.taken| == out.calls)
    && (out.ok ==> out.count <= |buf| && Concat(out.taken) == buf[..out.count])
    && (out.ok ==> out.count == |buf| || out.finished)
    && (out.finished ==> out.ok && out.parser.None?)
  }

  /** Who gets the rest of a write. */
  function Handed<S>(p: Protocol<S>, r: Reply<S>): Option<S> {
    if r.status.STAT_GOTO_NEXT_SUBPARSER? && p.change(r.next).ChangeTo? then p.change(r.next).parser else Some(r.next)
  }

  lemma FeedCases<S>(p: Protocol<S>, s: S, buf: seq<byte>, r: Reply<S>, next: nat, budget: nat)
    requires budget == next + 1 && r == p.write(s, buf) && r.ok && r.consumed <= |buf|
    ensures var out := Feed(p, Some(s), buf, budget);
      || (!out.ok && !out.finished && out.calls == 1)
      || (out == Last(buf[..r.consumed], out.finished, out.parser) && (out.finished ==> out.parser.None?) && (r.consumed == |buf| || out.finished))
      || out == After(buf[..r.consumed], Feed(p, Handed(p, r), buf[r.consumed..], next))
  {
  }

  lemma AfterConserves<S>(buf: seq<byte>, n: nat, out: Outcome<S>, next: nat)
    requires n <= |buf| && Conserves(out, buf[n..], next)
    ensures Conserves(After(buf[..n], out), buf, next + 1)
  {
    if out.ok {
      assert ([buf[..n]] + out.taken)[1..] == out.taken;
      assert buf[..n] + buf[n..][..out.count] == buf[..n + out.count];
    }
  }

  lemma CallsWithinBudget<S>(p: Protocol<S>, parser: Option<S>, buf: seq<byte>, budget: nat)
    ensures Feed(p, parser, buf, budget).calls <= budget + 1
    ensures Feed(p, parser, buf, budget).ok ==> Feed(p, parser, buf, budget).calls <= budget
  {
    FeedConserves(p, parser, buf, budget);
  }

  lemma ConcatOne(piece: seq<byte>)
    ensures Concat([piece]) == piece
  {
    assert [piece][1..] == [];
  }

  /** With no sub-parser the write spins until its budget is gone and fails. */
  lemma {:induction false} NoParserFails<S>(p: Protocol<S>, buf: seq<byte>, budget: nat)
    ensures var out := Feed(p, None, buf, budget);
      !out.ok && !out.finished && out.calls == if buf == [] && budget > 0 then 1 else budget + 1
    decreases budget
  {
    if budget > 0 {
      NoParserFails(p, buf, budget - 1);
    }
  }

  // ---- Who gets what -------------------------------------------------------------------------------

  /** One call: the sub-parser, what it was offered and what it answered. */
  datatype Call<S> = Call(parser: S, offered: seq<byte>, reply: Reply<S>)

  /** Whom an answer designates for what comes next: nobody when the protocol has finished; no designation when the
      sub-parser refuses or fails or the protocol refuses the change. */
  function Designated<S>(p: Protocol<S>, r: Reply<S>): Option<Option<S>> {
    if !r.ok || r.status.STAT_ERROR? then None
    else if r.status.STAT_GET_MORE_DATA? then Some(Some(r.next))
    else match p.change(r.next)
      case Refused => None
      case ChangeTo(q) => Some(q)
  }

  /** The call leaves bytes for the one after it. */
  predicate LeavesOver<S>(c: Call<S>) {
    c.reply.consumed < |c.offered|
  }

  /** Each call goes to the sub-parser designated by the one before it, with exactly what that one left. */
  ghost predicate Chained<S>(p: Protocol<S>, s: S, buf: seq<byte>, calls: seq<Call<S>>) {
    && calls != [] && calls[0].parser == s && calls[0].offered == buf
    && (forall i | 0 <= i < |calls| :: calls[i].reply == p.write(calls[i].parser, calls[i].offered))
    && (forall i, j | 0 <= i < j < |calls| && j == i + 1 ::
          LeavesOver(calls[i]) && Designated(p, calls[i].reply) == Some(Some(calls[j].parser))
          && calls[j].offered == calls[i].offered[calls[i].reply.consumed..])
  }

  /** How the last call ends the write. It succeeds when that call designates and nothing is left over, or nobody is to
      come; it fails when the call does not designate, or when the budget is used up. Whoever was designated last is
      the current sub-parser afterwards. */
  ghost predicate EndsWrite<S>(p: Protocol<S>, last: Call<S>, ok: bool, finished: bool, end: Option<S>, usedUp: bool) {
    var d := Designated(p, last.reply);
    && (finished <==> ok && end.None?)
    && (ok ==> last.reply.consumed <= |last.offered| && d == Some(end) && (end.None? || !LeavesOver(last)))
    && (!ok ==>
          if d.None? || last.reply.consumed > |last.offered| then end == Some(last.reply.next)
          else usedUp && LeavesOver(last) && end.Some? && d == Some(end))
  }

  ghost predicate Dispatched<S>(p: Protocol<S>, s: S, buf: seq<byte>, calls: seq<Call<S>>, ok: bool, finished: bool,
                                end: Option<S>, budget: nat)
  {
    && Chained(p, s, buf, calls) && |calls| <= budget
    && EndsWrite(p, calls[|calls| - 1], ok, finished, end, |calls| == budget)
  }

  /** From each call what it says it has consumed. */
  ghost predicate TakenFrom<S>(taken: seq<seq<byte>>, calls: seq<Call<S>>) {
    && |taken| == |calls|
    && forall i | 0 <= i < |calls| ::
         calls[i].reply.consumed <= |calls[i].offered| && taken[i] == calls[i].offered[..calls[i].reply.consumed]
  }

  lemma ChainedMore<S>(p: Protocol<S>, first: Call<S>, more: seq<Call<S>>)
    requires first.reply == p.write(first.parser, first.offered) && LeavesOver(first)
    requires more != [] && Designated(p, first.reply) == Some(Some(more[0].parser))
    requires Chained(p, more[0].parser, first.offered[first.reply.consumed..], more)
    ensures Chained(p, first.parser, first.offered, [first] + more)
  {
    var calls := [first] + more;
    forall i | 0 <= i < |calls| ensures calls[i].reply == p.write(calls[i].parser, calls[i].offered) {
      assert i > 0 ==> calls[i] == more[i - 1];
    }
    forall i, j | 0 <= i < j < |calls| && j == i + 1
      ensures LeavesOver(calls[i]) && Designated(p, calls[i].reply) == Some(Some(calls[j].parser))
      ensures calls[j].offered == calls[i].offered[calls[i].reply.consumed..]
    {
      assert calls[j] == more[j - 1];
      assert i > 0 ==> calls[i] == more[i - 1];
    }
  }

  /** What a write does with one call, and that it goes on exactly when somebody is designated and bytes are left. */
  lemma FeedStep<S>(p: Protocol<S>, s: S, buf: seq<byte>, budget: nat, next: nat, c: Call<S>)
    requires budget == next + 1 && c == Call(s, buf, p.write(s, buf))
    ensures var out, d := Feed(p, Some(s), buf, budget), Designated(p, c.reply);
      if d.Some? && d.value.Some? && LeavesOver(c)
      then out == After(buf[..c.reply.consumed], Feed(p, d.value, buf[c.reply.consumed..], next))
      else EndsWrite(p, c, out.ok, out.finished, out.parser, false)
           && (out.ok ==> out.taken == [buf[..c.reply.consumed]])
  {
  }

  /** Every write is dispatched by what the sub-parsers and the protocol answer, and takes from each call what it
      answered. */
  lemma {:induction false} FeedDispatches<S>(p: Protocol<S>, s: S, buf: seq<byte>, budget: nat) returns (calls: seq<Call<S>>)
    requires budget > 0
    ensures var out := Feed(p, Some(s), buf, budget);
      && Dispatched(p, s, buf, calls, out.ok, out.finished, out.parser, budget)
      && (out.ok ==> TakenFrom(out.taken, calls))
    decreases budget
  {
    var c, next: nat := Call(s, buf, p.write(s, buf)), budget - 1;
    var d := Designated(p, c.reply);
    FeedStep(p, s, buf, budget, next, c);
    calls := [c];
    if d.Some? && d.value.Some? && LeavesOver(c) && next > 0 {
      var more := FeedDispatches(p, d.value.value, buf[c.reply.consumed..], next);
      ChainedMore(p, c, more);
      calls := [c] + more;
    }
  }

  class Parser<S(!new)> {
    var currentParser: Option<S>
    var maxTTL: nat
    const protocol: Protocol<S>

    constructor (protocol: Protocol<S>, first: Option<S>)
      ensures this.protocol == protocol && currentParser == first && maxTTL == 4096
    {
      this.protocol := protocol;
      currentParser, maxTTL := first, 4096;
    }

    /** One entry into the recursive hand-over; `ttl` counts the entries of this write. */
    method ParseData(buf: seq<byte>, ttl: nat, fin: bool) returns (ok: bool, count: nat, ttl': nat, finished: bool)
      requires ttl <= maxTTL + 1 && HonestRun(protocol, currentParser, buf, maxTTL + 1 - ttl)
      modifies this`currentParser
      ensures var out := Feed(protocol, old(currentParser), buf, maxTTL + 1 - ttl);
        && ok == out.ok && count == out.count && currentParser == out.parser
        && finished == (fin || out.finished)
        && ttl' == Min(ttl + out.calls, maxTTL + 1)
      decreases maxTTL + 1 - ttl
    {
      CallsWithinBudget(protocol, currentParser, buf, maxTTL + 1 - ttl);
      finished := fin;
      if ttl > maxTTL {
        return false, 0, ttl, finished;
      }
      ttl' := ttl + 1;
      var written: nat := 0;
      var writtenOk := false;
      if currentParser.Some? {
        var reply := protocol.write(currentParser.value, buf);
        currentParser := Some(reply.next);
        writtenOk, written := reply.ok, reply.consumed;
        if !reply.ok {
          return false, 0, ttl', finished;
        }
        match reply.status {
          case STAT_GOTO_NEXT_SUBPARSER =>
            var change := protocol.change(reply.next);
            if change.Refused? {
              return false, 0, ttl', finished;
            }
            currentParser := change.parser;
            if currentParser.None? {
              finished := true;
            }
            if currentParser.None? || written == |buf| {
              return true, written, ttl', finished;
            }
          case STAT_GET_MORE_DATA =>
            if written == |buf| {
              return true, written, ttl', finished;
            }
          case STAT_ERROR =>
            return false, 0, ttl', finished;
        }
      }
      if written != |buf| {
        var n;
        ok, n, ttl', finished := ParseData(buf[written..], ttl', finished);
        if !ok {
          return false, n, ttl', finished;
        }
        return true, n + written, ttl', finished;
      } else {
        return writtenOk, written, ttl', finished;
      }
    }

    /** Every write gets a fresh budget; `calls` is who got what on the way. */
    method Write(buf: seq<byte>) returns (succeed: bool, finish: bool, bytesWritten: nat, ghost calls: seq<Call<S>>)
      requires HonestRun(protocol, currentParser, buf, maxTTL + 1)
      modifies this`currentParser
      ensures var out := Feed(protocol, old(currentParser), buf, maxTTL + 1);
        succeed == out.ok && finish == out.finished && bytesWritten == out.count && currentParser == out.parser
      ensures old(currentParser).Some? ==>
        Dispatched(protocol, old(currentParser).value, buf, calls, succeed, finish, currentParser, maxTTL + 1)
    {
      calls := [];
      if currentParser.Some? {
        calls := FeedDispatches(protocol, currentParser.value, buf, maxTTL + 1);
      }
      var ttl;
      succeed, bytesWritten, ttl, finish := ParseData(buf, 0, false);
      FeedConserves(protocol, old(currentParser), buf, maxTTL + 1);
    }

    /** The end of the stream reaches the sub-parser as an empty write. */
    method WriteEOF()
      requires HonestRun(protocol, currentParser, [], maxTTL + 1)
      modifies this`currentParser
      ensures currentParser == Feed(protocol, old(currentParser), [], maxTTL + 1).parser
    {
      var ok, n, ttl, finished := ParseData([], 0, false);
    }

    /** The loop every stream writes a buffer with; one write is enough, since one that succeeds takes all of the
        buffer unless parsing has finished. */
    method WriteFullStream(buf: seq<byte>) returns (succeed: bool, finish: bool, bytesWritten: nat)
      requires HonestRun(protocol, currentParser, buf, maxTTL + 1)
      modifies this`currentParser
      ensures buf == [] ==> succeed && !finish && bytesWritten == 0 && currentParser == old(currentParser)
      ensures buf != [] ==>
        var out := Feed(protocol, old(currentParser), buf, maxTTL + 1);
        succeed == out.ok && finish == out.finished && bytesWritten == out.count && currentParser == out.parser
    {
      FeedConserves(protocol, currentParser, buf, maxTTL + 1);
      succeed, finish, bytesWritten := true, false, 0;
      while bytesWritten < |buf|
        invariant succeed && !finish && bytesWritten <= |buf|
        invariant bytesWritten == 0 ==> currentParser == old(currentParser)
        invariant bytesWritten > 0 ==>
          var out := Feed(protocol, old(currentParser), buf, maxTTL + 1);
          out.ok && !out.finished && bytesWritten == out.count == |buf| && currentParser == out.parser
        decreases |buf| - bytesWritten
      {
        assert bytesWritten == 0 && buf[0..] == buf;
        var n;
        ghost var calls;
        succeed, finish, n, calls := Write(buf[bytesWritten..]);
        bytesWritten := bytesWritten + n;
        if !succeed || finish {
          return;
        }
      }
    }
  }
}
