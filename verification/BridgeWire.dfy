/** The bridge's framed wire: one thread forwards what it reads as length-prefixed blocks, another sends pings
    (empty blocks), and a mutex decides whose turn it is. Every step below is one partial write, so a run is
    any interleaving of the two threads with any fragmentation and any failure. */
module BridgeWire {
  import opened Bytes
  import opened SocketStream

  /** The width of a block's length on the wire. */
  const WIDTH: nat := 2
  const CHUNK: nat := 4096

  type block = b: seq<byte> | |b| < 0x1_0000

  /** The blocks of a wire, one frame after the other; a ping is an empty block. */
  function Wire(blocks: seq<block>): seq<byte> {
    if blocks == [] then [] else Wire(blocks[..|blocks| - 1]) + BlockFrame(blocks[|blocks| - 1])
  }

  /** The block behind its length in two bytes, most significant first. */
  function BlockFrame(b: block): (r: seq<byte>)
    ensures |r| == WIDTH + |b|
  {
    [|b| / 256, |b| % 256] + b
  }

  function Length(high: byte, low: byte): nat {
    256 * (high as int) + low
  }

  function Unblock(s: seq<byte>): (r: Option<Framed>)
    ensures r.Some? ==> |r.value.rest| < |s|
  {
    if |s| < WIDTH then None
    else
      var n: nat := WIDTH + Length(s[0], s[1]);
      if |s| < n then None else Some(Framed(s[WIDTH..n], s[n..]))
  }

  lemma RangeOfTwo()
    ensures Range(2) == 0x1_0000
  {
    assert Range(2) == 256 * Range(1) && Range(1) == 256 * Range(0);
  }

  lemma TwoBytes(v: nat)
    requires v < 0x1_0000
    ensures v < Range(2) && BigEndian(2, v) == [v / 256, v % 256]
  {
    RangeOfTwo();
    assert BigEndian(1, v / 256) == BigEndian(0, v / 256 / 256) + [v / 256 % 256];
  }

  /** These are the frames of a 16-bit block write and read. */
  lemma BlockFrameIsFrame(b: block)
    ensures |b| < Range(WIDTH) && BlockFrame(b) == Frame(WIDTH, b)
  {
    TwoBytes(|b|);
  }

  lemma UnblockIsUnframe(s: seq<byte>)
    ensures Unblock(s) == Unframe(WIDTH, s)
  {
    if |s| >= 2 {
      var v: nat := Length(s[0], s[1]);
      TwoBytes(v);
      assert v / 256 == s[0] && v % 256 == s[1];
      BigEndianBack(2, v);
      assert s[..2] == [s[0], s[1]];
    }
  }

  /** What the far side writes out after reading these bytes: the payload of every whole frame. */
  function Delivered(s: seq<byte>): seq<byte>
    decreases |s|
  {
    match Unblock(s)
    case None => []
    case Some(f) => f.payload + Delivered(f.rest)
  }

  lemma FrameFirst(b: block, rest: seq<byte>)
    ensures Unblock(BlockFrame(b) + rest) == Some(Framed(b, rest))
  {
    var s := BlockFrame(b) + rest;
    assert Length(s[0], s[1]) == |b|;
    assert s[WIDTH..WIDTH + |b|] == b && s[WIDTH + |b|..] == rest;
  }

  /** A proper prefix of a frame is no frame. */
  lemma PartOfFrame(b: block, k: nat)
    requires k < |BlockFrame(b)|
    ensures Unblock(BlockFrame(b)[..k]) == None
  {
    var part := BlockFrame(b)[..k];
    if k >= WIDTH {
      assert Length(part[0], part[1]) == |b|;
    }
  }

  lemma FrameDelivers(b: block, tail: seq<byte>, s: seq<byte>)
    requires s == BlockFrame(b) + tail
    ensures Delivered(s) == b + Delivered(tail)
  {
    FrameFirst(b, tail);
  }

  lemma LastFrame(blocks: seq<block>, tail: seq<byte>)
    requires blocks != []
    ensures Wire(blocks) + tail == Wire(blocks[..|blocks| - 1]) + (BlockFrame(blocks[|blocks| - 1]) + tail)
  {
  }

  lemma InitAndLast<T>(s: seq<T>, init: seq<T>, last: T)
    requires s != [] && init == s[..|s| - 1] && last == s[|s| - 1]
    ensures s == init + [last]
  {
  }

  lemma LastBlock(blocks: seq<block>, init: seq<block>, last: block, after: seq<byte>)
    requires blocks == init + [last]
    ensures Concat(blocks) + after == Concat(init) + (last + after)
  {
    ConcatSnoc(init, last);
    Joined(Concat(init), last, after);
  }

  lemma Joined(a: seq<byte>, b: seq<byte>, c: seq<byte>)
    ensures (a + b) + c == a + (b + c)
  {
  }

  lemma {:induction false} FramesDeliver(blocks: seq<block>, tail: seq<byte>, s: seq<byte>)
    requires s == Wire(blocks) + tail
    ensures Delivered(s) == Concat(blocks) + Delivered(tail)
    decreases |blocks|
  {
    if blocks == [] {
      assert s == tail;
    } else {
      var init, last := blocks[..|blocks| - 1], blocks[|blocks| - 1];
      var more := BlockFrame(last) + tail;
      LastFrame(blocks, tail);
      FramesDeliver(init, more, s);
      FrameDelivers(last, tail, more);
      InitAndLast(blocks, init, last);
      LastBlock(blocks, init, last, Delivered(tail));
    }
  }

  /** A frame at the start of a prefix is the frame at the start of the whole. */
  lemma FrameOfPrefix(part: seq<byte>, whole: seq<byte>)
    requires part <= whole && Unblock(part).Some?
    ensures Unblock(whole).Some? && Unblock(part).value.payload == Unblock(whole).value.payload
    ensures Unblock(part).value.rest <= Unblock(whole).value.rest
  {
    var n: nat := WIDTH + Length(part[0], part[1]);
    assert part[WIDTH..n] == whole[WIDTH..n] && part[n..] <= whole[n..];
  }

  /** The far side acts on a prefix of the wire as on the start of the whole. */
  lemma {:induction false} DeliveredGrows(part: seq<byte>, whole: seq<byte>)
    requires part <= whole
    ensures Delivered(part) <= Delivered(whole)
    decreases |part|
  {
    if Unblock(part).Some? {
      FrameOfPrefix(part, whole);
      DeliveredGrows(Unblock(part).value.rest, Unblock(whole).value.rest);
    }
  }

  // ---- The two threads ---------------------------------------------------------------------------

  datatype Thread = Forwarder | Pinger

  /** Stopped keeps the block whose write failed. */
  datatype Task = Idle | Waiting(payload: block) | Writing(payload: block, sent: nat) | Stopped(payload: block)

  /** `blocks` and `torn` record what was put on the wire: whole frames, and the part of one under way or cut off. */
  datatype Bridge = Bridge(blockSize: nat, input: seq<byte>, wire: seq<byte>, open: bool, lock: Option<Thread>,
                           forwarder: Task, pinger: Task, blocks: seq<block>, torn: seq<byte>)

  datatype Event =
    | Read(n: nat)
    | EndOfInput
    | PingDue
    | Lock(who: Thread)
    | Put(who: Thread, k: nat)
    | PutFails(who: Thread)
    | Unlock(who: Thread)
    | Shutdown

  function TaskOf(s: Bridge, who: Thread): Task {
    if who == Forwarder then s.forwarder else s.pinger
  }

  function WithTask(s: Bridge, who: Thread, t: Task): Bridge {
    if who == Forwarder then s.(forwarder := t) else s.(pinger := t)
  }

  /** How much one partial write may take: header and payload are written by separate calls. */
  function Offered(payload: block, sent: nat): nat
    requires sent <= |BlockFrame(payload)|
  {
    if sent < WIDTH then WIDTH - sent else Min(WIDTH + |payload| - sent, CHUNK)
  }

  predicate InProgress(t: Task) {
    t.Writing? && t.sent < |BlockFrame(t.payload)|
  }

  predicate Possible(s: Bridge, e: Event) {
    match e
    case Read(n) => s.forwarder.Idle? && 0 < n <= |s.input| && n <= s.blockSize
    case EndOfInput => s.forwarder.Idle?
    case PingDue => s.pinger.Idle?
    case Lock(who) => s.lock == None && TaskOf(s, who).Waiting?
    case Put(who, k) => s.open && InProgress(TaskOf(s, who)) && 0 < k <= Offered(TaskOf(s, who).payload, TaskOf(s, who).sent)
    case PutFails(who) => InProgress(TaskOf(s, who))
    case Unlock(who) => TaskOf(s, who).Writing? && !InProgress(TaskOf(s, who))
    case Shutdown => true
  }

  /** After a failed write the socket is shut down and the mutex released; the forwarding thread gives up,
      the pinger tries again later. */
  function Next(s: Bridge, e: Event): Bridge
    requires Possible(s, e) && s.blockSize < 0x1_0000
  {
    match e
    case Read(n) => s.(forwarder := Waiting(s.input[..n]), input := s.input[n..])
    case EndOfInput => s.(forwarder := Stopped([]))
    case PingDue => s.(pinger := Waiting([]))
    case Lock(who) => WithTask(s, who, Writing(TaskOf(s, who).payload, 0)).(lock := Some(who))
    case Put(who, k) => AfterPut(s, who, TaskOf(s, who).payload, TaskOf(s, who).sent, k)
    case PutFails(who) =>
      WithTask(s, who, if who == Forwarder then Stopped(s.forwarder.payload) else Idle).(open := false, lock := None)
    case Unlock(who) => WithTask(s, who, Idle).(lock := None)
    case Shutdown => s.(open := false)
  }

  function AfterPut(s: Bridge, who: Thread, payload: block, sent: nat, k: nat): Bridge
    requires sent + k <= |BlockFrame(payload)|
  {
    var frame := BlockFrame(payload);
    var t := WithTask(s, who, Writing(payload, sent + k)).(wire := s.wire + frame[sent..sent + k]);
    if sent + k == |frame| then t.(blocks := s.blocks + [payload], torn := []) else t.(torn := frame[..sent + k])
  }

  /** What the forwarding thread has read and not yet put on the wire as a whole frame. */
  function Held(t: Task): seq<byte> {
    match t
    case Idle => []
    case Waiting(p) => p
    case Writing(p, sent) => if InProgress(t) then p else []
    case Stopped(p) => p
  }

  /** The wire is whole frames and the part of at most one more. */
  ghost predicate WholeFrames(s: Bridge) {
    && s.wire == Wire(s.blocks) + s.torn
    && exists b: block :: |s.torn| < |BlockFrame(b)| && s.torn == BlockFrame(b)[..|s.torn|]
  }

  /** Whoever holds the mutex is the one that writes, and what it wrote is the part under way. */
  ghost predicate OneWriter(s: Bridge) {
    && (forall who: Thread :: TaskOf(s, who).Writing? <==> s.lock == Some(who))
    && (s.open && s.lock.None? ==> s.torn == [])
    && (s.open && s.lock.Some? ==> UnderWay(TaskOf(s, s.lock.value), s.torn))
  }

  ghost predicate UnderWay(t: Task, torn: seq<byte>) {
    && t.Writing? && t.sent <= |BlockFrame(t.payload)|
    && torn == if InProgress(t) then BlockFrame(t.payload)[..t.sent] else []
  }

  ghost predicate Sizes(s: Bridge) {
    && s.blockSize < 0x1_0000 && |Held(s.forwarder)| <= s.blockSize && Held(s.pinger) == []
    && (s.forwarder.Writing? ==> s.forwarder.sent <= |BlockFrame(s.forwarder.payload)| && |s.forwarder.payload| <= s.blockSize)
    && (s.pinger.Writing? ==> s.pinger.payload == [] && s.pinger.sent <= |BlockFrame(s.pinger.payload)|)
    && forall b | b in s.blocks :: |b| <= s.blockSize
  }

  /** Nothing is lost, doubled or reordered on this side of the wire. */
  ghost predicate Conserved(s: Bridge, source: seq<byte>) {
    Concat(s.blocks) + (Held(s.forwarder) + s.input) == source
  }

  ghost predicate Inv(s: Bridge, source: seq<byte>) {
    WholeFrames(s) && OneWriter(s) && Sizes(s) && Conserved(s, source)
  }

  function Start(blockSize: nat, source: seq<byte>): Bridge {
    Bridge(blockSize, source, [], true, None, Idle, Idle, [], [])
  }

  lemma StartInv(blockSize: nat, source: seq<byte>)
    requires blockSize < 0x1_0000
    ensures Inv(Start(blockSize, source), source)
  {
    var s, b: block := Start(blockSize, source), [];
    assert |s.torn| < |BlockFrame(b)| && s.torn == BlockFrame(b)[..|s.torn|];
  }

  lemma ReadInv(s: Bridge, source: seq<byte>, n: nat)
    requires Inv(s, source) && Possible(s, Read(n))
    ensures Inv(Next(s, Read(n)), source)
  {
    assert s.input[..n] + s.input[n..] == [] + s.input;
    var t := Next(s, Read(n));
    assert forall who: Thread :: TaskOf(t, who).Writing? ==> TaskOf(s, who) == TaskOf(t, who);
  }

  lemma FragmentJoins(wire: seq<byte>, whole: seq<byte>, frame: seq<byte>, sent: nat, k: nat)
    requires sent + k <= |frame| && wire == whole + frame[..sent]
    ensures wire + frame[sent..sent + k] == whole + frame[..sent + k]
  {
    assert frame[..sent] + frame[sent..sent + k] == frame[..sent + k];
  }

  /** The fragment written continues the part of the frame under way, and completes it or leaves a part. */
  lemma PutOnWire(s: Bridge, who: Thread, payload: block, sent: nat, k: nat)
    requires WholeFrames(s) && sent + k <= |BlockFrame(payload)| && s.torn == BlockFrame(payload)[..sent]
    ensures WholeFrames(AfterPut(s, who, payload, sent, k))
  {
    var t, frame := AfterPut(s, who, payload, sent, k), BlockFrame(payload);
    FragmentJoins(s.wire, Wire(s.blocks), frame, sent, k);
    if sent + k == |frame| {
      assert t.blocks[..|t.blocks| - 1] == s.blocks && frame[..sent + k] == frame;
    }
    assert |t.torn| < |frame| && t.torn == frame[..|t.torn|];
  }

  lemma PutHolds(s: Bridge, who: Thread, k: nat)
    requires Sizes(s) && Possible(s, Put(who, k))
    ensures var t, payload := Next(s, Put(who, k)), TaskOf(s, who).payload;
      && t.input == s.input
      && (who == Pinger ==> payload == [])
      && (Held(s.forwarder) == if who == Forwarder then payload else Held(t.forwarder))
      && (t.blocks != s.blocks ==> t.blocks == s.blocks + [payload] && (who == Forwarder ==> Held(t.forwarder) == []))
      && (t.blocks == s.blocks ==> Held(t.forwarder) == Held(s.forwarder))
  {
  }

  lemma PutConserves(s: Bridge, source: seq<byte>, who: Thread, k: nat)
    requires Sizes(s) && Conserved(s, source) && Possible(s, Put(who, k))
    ensures Conserved(Next(s, Put(who, k)), source)
  {
    var payload, t := TaskOf(s, who).payload, Next(s, Put(who, k));
    PutHolds(s, who, k);
    if t.blocks != s.blocks {
      ConcatSnoc(s.blocks, payload);
      MoveHeld(Concat(s.blocks), payload, Held(s.forwarder), Held(t.forwarder), s.input);
    }
  }

  /** Held bytes are put behind those that were put before. */
  lemma MoveHeld(put: seq<byte>, payload: seq<byte>, held: seq<byte>, left: seq<byte>, input: seq<byte>)
    requires (held == payload && left == []) || (payload == [] && held == left)
    ensures put + (held + input) == (put + payload) + (left + input)
  {
    if payload == [] {
      assert put + payload == put;
      assert held == left;
    } else {
      assert left + input == input;
    }
  }

  lemma PutTakesTurns(s: Bridge, who: Thread, k: nat)
    requires OneWriter(s) && Sizes(s) && Possible(s, Put(who, k))
    ensures OneWriter(Next(s, Put(who, k)))
  {
    var payload, sent := TaskOf(s, who).payload, TaskOf(s, who).sent;
    var t := Next(s, Put(who, k));
    assert s.lock == Some(who) && TaskOf(t, who) == Writing(payload, sent + k);
    assert forall w: Thread :: TaskOf(t, w).Writing? <==> TaskOf(s, w).Writing?;
  }

  lemma PutKeepsSizes(s: Bridge, who: Thread, k: nat)
    requires Sizes(s) && Possible(s, Put(who, k))
    ensures Sizes(Next(s, Put(who, k)))
  {
  }

  lemma PutInv(s: Bridge, source: seq<byte>, who: Thread, k: nat)
    requires Inv(s, source) && Possible(s, Put(who, k))
    ensures Inv(Next(s, Put(who, k)), source)
  {
    var payload, sent := TaskOf(s, who).payload, TaskOf(s, who).sent;
    assert s.lock == Some(who) && UnderWay(TaskOf(s, who), s.torn);
    PutOnWire(s, who, payload, sent, k);
    PutTakesTurns(s, who, k);
    PutKeepsSizes(s, who, k);
    PutConserves(s, source, who, k);
  }

  lemma LockInv(s: Bridge, source: seq<byte>, who: Thread)
    requires Inv(s, source) && Possible(s, Lock(who))
    ensures Inv(Next(s, Lock(who)), source)
  {
    var t := Next(s, Lock(who));
    assert forall w: Thread :: w != who ==> TaskOf(t, w) == TaskOf(s, w);
  }

  lemma PutFailsInv(s: Bridge, source: seq<byte>, who: Thread)
    requires Inv(s, source) && Possible(s, PutFails(who))
    ensures Inv(Next(s, PutFails(who)), source)
  {
    var t := Next(s, PutFails(who));
    assert forall w: Thread :: w != who ==> TaskOf(t, w) == TaskOf(s, w);
  }

  lemma UnlockInv(s: Bridge, source: seq<byte>, who: Thread)
    requires Inv(s, source) && Possible(s, Unlock(who))
    ensures Inv(Next(s, Unlock(who)), source)
  {
    var t := Next(s, Unlock(who));
    assert forall w: Thread :: w != who ==> TaskOf(t, w) == TaskOf(s, w);
  }

  /** Every step of either thread keeps the wire whole frames plus at most one partial frame. */
  lemma StepInv(s: Bridge, source: seq<byte>, e: Event)
    requires Inv(s, source) && Possible(s, e)
    ensures Inv(Next(s, e), source)
  {
    match e
    case Read(n) => ReadInv(s, source, n);
    case Lock(who) => LockInv(s, source, who);
    case Put(who, k) => PutInv(s, source, who, k);
    case PutFails(who) => PutFailsInv(s, source, who);
    case Unlock(who) => UnlockInv(s, source, who);
    case _ =>
  }

  ghost predicate Feasible(s: Bridge, events: seq<Event>)
    requires s.blockSize < 0x1_0000
    decreases |events|
  {
    events != [] ==> Possible(s, events[0]) && Feasible(Next(s, events[0]), events[1..])
  }

  ghost function After(s: Bridge, events: seq<Event>): Bridge
    requires s.blockSize < 0x1_0000 && Feasible(s, events)
    decreases |events|
  {
    if events == [] then s else After(Next(s, events[0]), events[1..])
  }

  lemma {:induction false} RunInv(s: Bridge, source: seq<byte>, events: seq<Event>)
    requires Inv(s, source) && Feasible(s, events)
    ensures Inv(After(s, events), source)
    decreases |events|
  {
    if events != [] {
      StepInv(s, source, events[0]);
      RunInv(Next(s, events[0]), source, events[1..]);
    }
  }

  lemma WholeWire(s: Bridge)
    requires WholeFrames(s)
    ensures Delivered(s.wire) == Concat(s.blocks)
  {
    var b: block :| |s.torn| < |BlockFrame(b)| && s.torn == BlockFrame(b)[..|s.torn|];
    PartOfFrame(b, |s.torn|);
    FramesDeliver(s.blocks, s.torn, s.wire);
  }

  lemma PartDelivers(s: Bridge, source: seq<byte>, arrived: seq<byte>)
    requires WholeFrames(s) && Conserved(s, source) && arrived <= s.wire
    ensures Delivered(arrived) <= source && Delivered(s.wire) + (Held(s.forwarder) + s.input) == source
  {
    WholeWire(s);
    DeliveredGrows(arrived, s.wire);
  }

  /** How many bytes an event takes off the near side's input, and how many it puts on the wire. */
  function Taken(e: Event): nat {
    if e.Read? then e.n else 0
  }

  function Written(e: Event): nat {
    if e.Put? then e.k else 0
  }

  function TakenIn(events: seq<Event>): nat
    decreases |events|
  {
    if events == [] then 0 else Taken(events[0]) + TakenIn(events[1..])
  }

  function WrittenIn(events: seq<Event>): nat
    decreases |events|
  {
    if events == [] then 0 else Written(events[0]) + WrittenIn(events[1..])
  }

  lemma StepMoves(s: Bridge, e: Event)
    requires Possible(s, e) && s.blockSize < 0x1_0000
    ensures |Next(s, e).input| == |s.input| - Taken(e) && |Next(s, e).wire| == |s.wire| + Written(e)
    ensures Next(s, e).blockSize == s.blockSize
  {
  }

  lemma {:induction false} RunMoves(s: Bridge, events: seq<Event>)
    requires s.blockSize < 0x1_0000 && Feasible(s, events)
    ensures var end := After(s, events);
      |end.input| == |s.input| - TakenIn(events) && |end.wire| == |s.wire| + WrittenIn(events)
    decreases |events|
  {
    if events != [] {
      StepMoves(s, events[0]);
      RunMoves(Next(s, events[0]), events[1..]);
    }
  }

  lemma OneEvent(s: Bridge, e: Event)
    requires s.blockSize < 0x1_0000 && Possible(s, e)
    ensures Feasible(s, [e]) && After(s, [e]) == Next(s, e)
  {
    assert [e][1..] == [];
  }

  lemma EventFirst(s: Bridge, e: Event, more: seq<Event>)
    requires s.blockSize < 0x1_0000 && Possible(s, e) && Feasible(Next(s, e), more)
    ensures Feasible(s, [e] + more) && After(s, [e] + more) == After(Next(s, e), more)
  {
    assert ([e] + more)[1..] == more;
  }

  /** The rest of the frame is on the wire, and the mutex is free again. */
  ghost predicate Finished(s: Bridge, end: Bridge, who: Thread, payload: block, sent: nat)
    requires sent <= |BlockFrame(payload)|
  {
    && end.wire == s.wire + BlockFrame(payload)[sent..]
    && end.blocks == s.blocks + (if sent < |BlockFrame(payload)| then [payload] else [])
    && end.lock == None && TaskOf(end, who) == Idle
  }

  lemma FinishedSooner(s: Bridge, end: Bridge, who: Thread, payload: block, sent: nat, k: nat, next: nat)
    requires 0 < k && next == sent + k <= |BlockFrame(payload)|
    requires Finished(AfterPut(s, who, payload, sent, k), end, who, payload, next)
    ensures Finished(s, end, who, payload, sent)
  {
    var frame := BlockFrame(payload);
    assert s.wire + frame[sent..] == (s.wire + frame[sent..sent + k]) + frame[next..];
    assert (s.blocks + [payload]) + [] == s.blocks + [payload];
  }

  lemma FinishedNow(s: Bridge, who: Thread, payload: block, sent: nat)
    requires s.blockSize < 0x1_0000 && TaskOf(s, who) == Writing(payload, sent) && sent == |BlockFrame(payload)|
    ensures Finished(s, Next(s, Unlock(who)), who, payload, sent)
  {
    assert s.wire + BlockFrame(payload)[sent..] == s.wire && s.blocks + [] == s.blocks;
  }

  /** A thread that has the mutex can write out its frame, part by part, and give the mutex back. */
  lemma {:induction false} FinishFrame(s: Bridge, who: Thread, payload: block, sent: nat) returns (events: seq<Event>)
    requires s.blockSize < 0x1_0000 && s.open && TaskOf(s, who) == Writing(payload, sent) && sent <= |BlockFrame(payload)|
    ensures Feasible(s, events) && Finished(s, After(s, events), who, payload, sent)
    decreases |BlockFrame(payload)| - sent
  {
    if sent == |BlockFrame(payload)| {
      events := [Unlock(who)];
      OneEvent(s, Unlock(who));
      FinishedNow(s, who, payload, sent);
    } else {
      var k: nat := Offered(payload, sent);
      var next := Next(s, Put(who, k));
      var more := FinishFrame(next, who, payload, sent + k);
      EventFirst(s, Put(who, k), more);
      FinishedSooner(s, After(next, more), who, payload, sent, k, sent + k);
      events := [Put(who, k)] + more;
    }
  }

  /** Whenever the mutex is free on an open socket, a thread with a block or a ping to send can put exactly its
      frame on the wire. */
  lemma TurnPutsFrame(s: Bridge, who: Thread) returns (events: seq<Event>)
    requires s.blockSize < 0x1_0000 && s.open && s.lock == None && TaskOf(s, who).Waiting?
    ensures Feasible(s, events)
    ensures var end, payload := After(s, events), TaskOf(s, who).payload;
      && end.wire == s.wire + BlockFrame(payload) && end.blocks == s.blocks + [payload]
      && end.lock == None && TaskOf(end, who) == Idle
  {
    var payload := TaskOf(s, who).payload;
    var more := FinishFrame(Next(s, Lock(who)), who, payload, 0);
    EventFirst(s, Lock(who), more);
    assert BlockFrame(payload)[0..] == BlockFrame(payload);
    events := [Lock(who)] + more;
  }

  /** A forwarding thread at rest can read a block and put it on the wire as a frame ... */
  lemma ForwardsBlock(s: Bridge, n: nat) returns (events: seq<Event>)
    requires s.blockSize < 0x1_0000 && s.open && s.lock == None && Possible(s, Read(n))
    ensures Feasible(s, events)
    ensures After(s, events).wire == s.wire + BlockFrame(s.input[..n]) && After(s, events).blocks == s.blocks + [s.input[..n]]
  {
    var turn := TurnPutsFrame(Next(s, Read(n)), Forwarder);
    events := [Read(n)] + turn;
    EventFirst(s, Read(n), turn);
  }

  /** ... and a pinging thread at rest can put an empty one there. */
  lemma SendsPing(s: Bridge) returns (events: seq<Event>)
    requires s.blockSize < 0x1_0000 && s.open && s.lock == None && s.pinger.Idle?
    ensures Feasible(s, events)
    ensures After(s, events).wire == s.wire + [0, 0] && After(s, events).blocks == s.blocks + [[]]
  {
    var turn := TurnPutsFrame(Next(s, PingDue), Pinger);
    events := [PingDue] + turn;
    EventFirst(s, PingDue, turn);
    assert BlockFrame([]) == [0, 0];
  }

  lemma StepWhenClosed(s: Bridge, e: Event)
    requires s.blockSize < 0x1_0000 && Possible(s, e)
    ensures !s.open ==> !Next(s, e).open && Next(s, e).wire == s.wire
    ensures e.Shutdown? || e.PutFails? ==> !Next(s, e).open && Next(s, e).wire == s.wire
    ensures Next(s, e).blockSize == s.blockSize
  {
  }

  /** After a failed write or a shutdown nothing more goes on the wire. */
  lemma {:induction false} NothingAfterShutdown(s: Bridge, events: seq<Event>)
    requires s.blockSize < 0x1_0000 && Feasible(s, events)
    requires !s.open || (events != [] && (events[0].Shutdown? || events[0].PutFails?))
    ensures After(s, events).wire == s.wire
    decreases |events|
  {
    if events != [] {
      StepWhenClosed(s, events[0]);
      NothingAfterShutdown(Next(s, events[0]), events[1..]);
    }
  }

  /** However the threads, their partial writes and failures interleave: whatever part of the wire the far
      side has read, it has written out a prefix of the near side's input, pings adding nothing. What it has
      not is exactly what the forwarding thread still holds or has not read, and both are as long as the reads and
      partial writes of the run make them; and no block on the wire is larger than the block size. */
  lemma RunDelivers(begin: Bridge, source: seq<byte>, events: seq<Event>, arrived: seq<byte>)
    requires begin == Start(begin.blockSize, source) && begin.blockSize < 0x1_0000 && Feasible(begin, events)
    requires arrived <= After(begin, events).wire
    ensures Inv(After(begin, events), source)
    ensures var end := After(begin, events);
      && Delivered(arrived) <= source
      && Delivered(end.wire) + (Held(end.forwarder) + end.input) == source
      && |end.input| == |source| - TakenIn(events) && |end.wire| == WrittenIn(events)
  {
    RunMoves(begin, events);
    StartInv(begin.blockSize, source);
    RunInv(begin, source, events);
    PartDelivers(After(begin, events), source, arrived);
  }
}
