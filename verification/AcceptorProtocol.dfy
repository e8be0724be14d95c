/** The multi-threaded acceptor: what its mutex protects, one step for every stretch of code that runs with the
    mutex held, and what every run of those steps keeps. */
module AcceptorProtocol {
  import opened Bytes

  const U32_MAX: nat := 0xFFFF_FFFF

  /** A client thread object; `id` is its identity. */
  datatype Client = Client(id: nat, ip: string)

  type Usage = map<string, nat>

  /** `peak...` are the highest limits there have been, `arrived` all clients accepted so far, `pending` those
      whose admission is still being decided and `deleted` those whose object is gone. */
  datatype Acceptor = Acceptor(maxClients: nat, maxPerIP: nat, finalized: bool, threads: seq<Client>, perIP: Usage,
                               peakClients: nat, peakPerIP: nat, arrived: set<Client>, pending: set<Client>,
                               deleted: set<Client>, thrown: bool)

  // ---- Counting by address -----------------------------------------------------------------------

  function Count(threads: seq<Client>, ip: string): (n: nat)
    ensures n <= |threads|
  {
    if threads == [] then 0 else Count(threads[..|threads| - 1], ip) + (if threads[|threads| - 1].ip == ip then 1 else 0)
  }

  /** An entry for every address with a thread, and it says how many there are. */
  ghost predicate Counted(perIP: Usage, threads: seq<Client>) {
    forall ip: string :: if ip in perIP then perIP[ip] == Count(threads, ip) > 0 else Count(threads, ip) == 0
  }

  /** The counter sticks at the top of its 32 bits. */
  function Increment(perIP: Usage, ip: string): (r: Usage)
    ensures ip in r
  {
    if ip !in perIP then perIP[ip := 1]
    else if perIP[ip] != U32_MAX then perIP[ip := perIP[ip] + 1]
    else perIP
  }

  /** Nothing when the program would throw. */
  function Decrement(perIP: Usage, ip: string): Option<Usage> {
    if ip !in perIP then None
    else if perIP[ip] == 1 then Some(perIP - {ip})
    else Some(perIP[ip := if perIP[ip] == 0 then U32_MAX else perIP[ip] - 1])
  }

  function Remove(threads: seq<Client>, c: Client): (r: seq<Client>)
    ensures forall t :: t in r <==> t in threads && t != c
  {
    if threads == [] then []
    else
      var last := threads[|threads| - 1];
      assert threads == threads[..|threads| - 1] + [last];
      Remove(threads[..|threads| - 1], c) + (if last == c then [] else [last])
  }

  ghost predicate Distinct(threads: seq<Client>) {
    forall i, j | 0 <= i < j < |threads| :: threads[i] != threads[j]
  }

  lemma {:induction false} RemoveNone(threads: seq<Client>, c: Client)
    requires c !in threads
    ensures Remove(threads, c) == threads
  {
    if threads != [] {
      RemoveNone(threads[..|threads| - 1], c);
      assert threads == threads[..|threads| - 1] + [threads[|threads| - 1]];
    }
  }

  /** Removing from a list with one more at the end. */
  lemma RemoveFromSnoc(init: seq<Client>, last: Client, c: Client)
    requires Distinct(init + [last])
    ensures Distinct(init) && last !in init
    ensures Remove(init + [last], c) == if last == c then init else Remove(init, c) + [last]
  {
    var threads := init + [last];
    assert threads[..|init|] == init && threads[|init|] == last;
    forall i | 0 <= i < |init| ensures init[i] != last {
      assert threads[i] != threads[|init|];
    }
    forall i, j | 0 <= i < j < |init| ensures init[i] != init[j] {
      assert threads[i] != threads[j];
    }
    if last == c {
      RemoveNone(init, c);
      assert init + [] == init;
    }
  }

  lemma {:induction false} RemoveCounts(threads: seq<Client>, c: Client, ip: string)
    requires Distinct(threads) && c in threads
    ensures Count(Remove(threads, c), ip) == Count(threads, ip) - (if ip == c.ip then 1 else 0)
  {
    var init, last := threads[..|threads| - 1], threads[|threads| - 1];
    assert threads == init + [last];
    RemoveFromSnoc(init, last, c);
    CountAdd(init, last, ip);
    if last != c {
      RemoveCounts(init, c, ip);
      CountAdd(Remove(init, c), last, ip);
    }
  }

  lemma {:induction false} RemoveOne(threads: seq<Client>, c: Client)
    requires Distinct(threads) && c in threads
    ensures |Remove(threads, c)| == |threads| - 1 && Distinct(Remove(threads, c))
  {
    var init, last := threads[..|threads| - 1], threads[|threads| - 1];
    assert threads == init + [last];
    RemoveFromSnoc(init, last, c);
    if last != c {
      RemoveOne(init, c);
      assert last !in Remove(init, c);
    }
  }

  lemma CountAdd(threads: seq<Client>, c: Client, ip: string)
    ensures Count(threads + [c], ip) == Count(threads, ip) + (if ip == c.ip then 1 else 0)
  {
    assert (threads + [c])[..|threads|] == threads;
  }

  // ---- Steps -------------------------------------------------------------------------------------

  datatype Event =
    | Arrive(c: Client)
    /** Waiting for a free place took too long. */
    | TimeOut(c: Client)
    /** A place is free, or the acceptor is being destroyed: the admission is decided. */
    | Decide(c: Client)
    /** A client thread has ended. */
    | Leave(c: Client)
    | SetMaxClients(n: nat)
    | SetMaxPerIP(n: nat)
    | Finalize

  predicate MayDecide(s: Acceptor) {
    s.finalized || |s.threads| < s.maxClients
  }

  predicate Possible(s: Acceptor, e: Event) {
    match e
    case Arrive(c) => c !in s.arrived
    case TimeOut(c) => c in s.pending
    case Decide(c) => c in s.pending && MayDecide(s)
    case Leave(c) => c in s.threads
    case SetMaxClients(n) => n <= U32_MAX
    case SetMaxPerIP(n) => n <= U32_MAX
    case Finalize => true
  }

  function Drop(s: Acceptor, c: Client): Acceptor {
    s.(pending := s.pending - {c}, deleted := s.deleted + {c})
  }

  function Decrease(s: Acceptor, ip: string): Acceptor {
    match Decrement(s.perIP, ip)
    case None => s.(thrown := true)
    case Some(m) => s.(perIP := m)
  }

  function Decided(s: Acceptor, c: Client): Acceptor {
    if s.finalized then Drop(s, c)
    else
      var t := s.(perIP := Increment(s.perIP, c.ip));
      if t.perIP[c.ip] > s.maxPerIP then Drop(Decrease(t, c.ip), c)
      else t.(threads := s.threads + [c], pending := s.pending - {c})
  }

  function Left(s: Acceptor, c: Client): Acceptor {
    Decrease(s.(threads := Remove(s.threads, c), deleted := s.deleted + {c}), c.ip)
  }

  function Next(s: Acceptor, e: Event): Acceptor {
    match e
    case Arrive(c) => s.(arrived := s.arrived + {c}, pending := s.pending + {c})
    case TimeOut(c) => Drop(s, c)
    case Decide(c) => Decided(s, c)
    case Leave(c) => Left(s, c)
    case SetMaxClients(n) => s.(maxClients := n, peakClients := if n > s.peakClients then n else s.peakClients)
    case SetMaxPerIP(n) => s.(maxPerIP := n, peakPerIP := if n > s.peakPerIP then n else s.peakPerIP)
    case Finalize => s.(finalized := true)
  }

  // ---- The invariant --------------------------------------------------------------------------------

  /** The counters are exact and nothing was ever thrown. */
  ghost predicate Exact(s: Acceptor) {
    Counted(s.perIP, s.threads) && !s.thrown
  }

  /** No limit that was ever set is exceeded by more than it was set to. */
  ghost predicate WithinLimits(s: Acceptor) {
    && s.maxClients <= s.peakClients <= U32_MAX && s.maxPerIP <= s.peakPerIP <= U32_MAX
    && |s.threads| <= s.peakClients
    && forall ip: string :: Count(s.threads, ip) <= s.peakPerIP
  }

  /** Every client accepted is being decided, has a thread or is deleted, and only one of these: none is
      leaked, and none is deleted twice or while it is in the list. */
  ghost predicate Accounted(s: Acceptor) {
    && Distinct(s.threads)
    && (forall c: Client :: c in s.arrived <==> c in s.pending || c in s.threads || c in s.deleted)
    && (forall c | c in s.threads :: c !in s.pending && c !in s.deleted)
    && s.pending !! s.deleted
  }

  ghost predicate Inv(s: Acceptor) {
    Exact(s) && WithinLimits(s) && Accounted(s)
  }

  function Start(maxClients: nat, maxPerIP: nat): Acceptor {
    Acceptor(maxClients, maxPerIP, false, [], map[], maxClients, maxPerIP, {}, {}, {}, false)
  }

  /** An increment that would stick cannot happen while there is room for another thread. */
  lemma IncrementCounts(s: Acceptor, c: Client)
    requires Counted(s.perIP, s.threads) && |s.threads| < U32_MAX
    ensures Increment(s.perIP, c.ip)[c.ip] == Count(s.threads, c.ip) + 1
    ensures Counted(Increment(s.perIP, c.ip), s.threads + [c])
  {
    forall ip: string | true ensures Count(s.threads + [c], ip) == Count(s.threads, ip) + (if ip == c.ip then 1 else 0) {
      CountAdd(s.threads, c, ip);
    }
  }

  /** Taking back an increment restores the counters. */
  lemma DecrementUndoes(perIP: Usage, threads: seq<Client>, ip: string)
    requires Counted(perIP, threads) && |threads| < U32_MAX
    ensures Decrement(Increment(perIP, ip), ip) == Some(perIP)
  {
    var up := Increment(perIP, ip);
    if ip in perIP {
      assert up[ip := perIP[ip]] == perIP;
    } else {
      assert up - {ip} == perIP;
    }
  }

  /** A thread that leaves has a counter to give back. */
  lemma DecrementCounts(perIP: Usage, threads: seq<Client>, c: Client)
    requires Counted(perIP, threads) && Distinct(threads) && c in threads
    ensures Decrement(perIP, c.ip).Some? && Counted(Decrement(perIP, c.ip).value, Remove(threads, c))
  {
    forall ip: string | true ensures Count(Remove(threads, c), ip) == Count(threads, ip) - (if ip == c.ip then 1 else 0) {
      RemoveCounts(threads, c, ip);
    }
  }

  lemma DecideInv(s: Acceptor, c: Client)
    requires Inv(s) && Possible(s, Decide(c))
    ensures Inv(Decided(s, c))
  {
    if !s.finalized {
      IncrementCounts(s, c);
      if Count(s.threads, c.ip) + 1 > s.maxPerIP {
        DecrementUndoes(s.perIP, s.threads, c.ip);
      } else {
        forall ip: string | true ensures Count(s.threads + [c], ip) <= s.peakPerIP {
          CountAdd(s.threads, c, ip);
        }
      }
    }
  }

  /** A client gets its thread exactly when the acceptor is not being destroyed and its address is below the
      limit; refused, it is deleted and leaves the list and the counters as they were. */
  ghost predicate AdmittedRightly(s: Acceptor, t: Acceptor, c: Client) {
    && c !in t.pending
    && if !s.finalized && Count(s.threads, c.ip) < s.maxPerIP then t.threads == s.threads + [c]
       else t.threads == s.threads && t.perIP == s.perIP && c in t.deleted
  }

  lemma AdmittedIff(s: Acceptor, c: Client)
    requires Inv(s) && Possible(s, Decide(c))
    ensures AdmittedRightly(s, Decided(s, c), c)
  {
    if !s.finalized {
      IncrementCounts(s, c);
      DecrementUndoes(s.perIP, s.threads, c.ip);
    }
  }

  lemma LeaveInv(s: Acceptor, c: Client)
    requires Inv(s) && Possible(s, Leave(c))
    ensures Inv(Left(s, c))
  {
    DecrementCounts(s.perIP, s.threads, c);
    forall ip: string | true ensures Count(Remove(s.threads, c), ip) <= s.peakPerIP {
      RemoveCounts(s.threads, c, ip);
    }
    RemoveOne(s.threads, c);
  }

  /** The thread is out of the list and deleted, the others are as they were, and its address has exactly one place
      more. */
  ghost predicate GivenBack(s: Acceptor, t: Acceptor, c: Client) {
    && c !in t.threads && c in t.deleted && !t.thrown
    && (forall other | other in s.threads && other != c :: other in t.threads)
    && |t.threads| == |s.threads| - 1 && Counted(t.perIP, t.threads)
    && forall ip: string :: Count(t.threads, ip) == Count(s.threads, ip) - (if ip == c.ip then 1 else 0)
  }

  lemma LeaveGivesBack(s: Acceptor, c: Client)
    requires Inv(s) && c in s.threads
    ensures GivenBack(s, Next(s, Leave(c)), c)
  {
    DecrementCounts(s.perIP, s.threads, c);
    RemoveOne(s.threads, c);
    forall ip: string | true ensures Count(Remove(s.threads, c), ip) == Count(s.threads, ip) - (if ip == c.ip then 1 else 0) {
      RemoveCounts(s.threads, c, ip);
    }
  }

  lemma StepInv(s: Acceptor, e: Event)
    requires Inv(s) && Possible(s, e)
    ensures Inv(Next(s, e))
  {
    match e
    case Decide(c) => DecideInv(s, c);
    case Leave(c) => LeaveInv(s, c);
    case _ =>
  }

  // ---- Runs ---------------------------------------------------------------------------------------

  predicate Feasible(s: Acceptor, events: seq<Event>)
    decreases |events|
  {
    events != [] ==> Possible(s, events[0]) && Feasible(Next(s, events[0]), events[1..])
  }

  function After(s: Acceptor, events: seq<Event>): Acceptor
    decreases |events|
  {
    if events == [] then s else After(Next(s, events[0]), events[1..])
  }

  /** Every run keeps the counters exact, so an address is never given back that was not counted; keeps the
      limits; and disposes of every client once. */
  lemma {:induction false} RunInv(s: Acceptor, events: seq<Event>)
    requires Inv(s) && Feasible(s, events)
    ensures Inv(After(s, events))
    decreases |events|
  {
    if events != [] {
      StepInv(s, events[0]);
      RunInv(Next(s, events[0]), events[1..]);
    }
  }

  /** What lasts: a client is never forgotten or brought back, a decision is not taken back, nor is destruction. */
  lemma StepKeeps(s: Acceptor, e: Event, c: Client)
    requires Inv(s) && Possible(s, e)
    ensures var t := Next(s, e);
      && (c in s.arrived ==> c in t.arrived) && (c in s.deleted ==> c in t.deleted) && (s.finalized ==> t.finalized)
      && (c in s.arrived && c !in s.pending ==> c !in t.pending)
  {
  }

  lemma {:induction false} RunKeeps(s: Acceptor, events: seq<Event>, c: Client)
    requires Inv(s) && Feasible(s, events)
    ensures var t := After(s, events);
      && (c in s.arrived ==> c in t.arrived) && (c in s.deleted ==> c in t.deleted) && (s.finalized ==> t.finalized)
      && (c in s.arrived && c !in s.pending ==> c !in t.pending)
    decreases |events|
  {
    if events != [] {
      StepKeeps(s, events[0], c);
      StepInv(s, events[0]);
      RunKeeps(Next(s, events[0]), events[1..], c);
    }
  }

  /** What an event of a run has brought about by its end: a client that arrived is known, one that was decided waits
      no longer, one that timed out or whose thread ended is deleted and neither waits nor is listed. */
  ghost predicate Settled(end: Acceptor, e: Event) {
    match e
    case Arrive(c) => c in end.arrived
    case Decide(c) => c in end.arrived && c !in end.pending
    case TimeOut(c) => c in end.deleted && c !in end.pending && c !in end.threads
    case Leave(c) => c in end.deleted && c !in end.pending && c !in end.threads
    case Finalize => end.finalized
    case _ => true
  }

  lemma StepSettles(s: Acceptor, e: Event)
    requires Inv(s) && Possible(s, e)
    ensures Settled(Next(s, e), e)
  {
    StepInv(s, e);
    if e.Leave? {
      LeaveGivesBack(s, e.c);
    }
  }

  lemma {:induction false} RunSettles(s: Acceptor, events: seq<Event>, i: nat)
    requires Inv(s) && Feasible(s, events) && i < |events|
    ensures Settled(After(s, events), events[i])
    decreases |events|
  {
    var e, next := events[0], Next(s, events[0]);
    StepInv(s, e);
    if i > 0 {
      RunSettles(next, events[1..], i - 1);
    } else {
      StepSettles(s, e);
      RunInv(next, events[1..]);
      RunKeeps(next, events[1..], if e.Arrive? || e.TimeOut? || e.Decide? || e.Leave? then e.c else Client(0, ""));
    }
  }

  ghost predicate FixedLimits(events: seq<Event>) {
    forall e | e in events :: !e.SetMaxClients? && !e.SetMaxPerIP?
  }

  lemma {:induction false} PeaksStay(s: Acceptor, events: seq<Event>)
    requires FixedLimits(events)
    ensures After(s, events).peakClients == s.peakClients && After(s, events).peakPerIP == s.peakPerIP
    decreases |events|
  {
    if events != [] {
      assert events[0] in events && forall e | e in events[1..] :: e in events;
      PeaksStay(Next(s, events[0]), events[1..]);
    }
  }

  /** From the start, with the limits left alone, neither is ever exceeded. */
  lemma FixedLimitsHold(begin: Acceptor, events: seq<Event>, ip: string)
    requires begin == Start(begin.maxClients, begin.maxPerIP) && begin.maxClients <= U32_MAX && begin.maxPerIP <= U32_MAX
    requires Feasible(begin, events) && FixedLimits(events)
    ensures Inv(After(begin, events))
    ensures |After(begin, events).threads| <= begin.maxClients
    ensures Count(After(begin, events).threads, ip) <= begin.maxPerIP
  {
    RunInv(begin, events);
    PeaksStay(begin, events);
  }

  /** Once the acceptor is being destroyed no thread is ever added, so the list it waits on only gets shorter
      and, once empty, stays empty. */
  lemma {:induction false} ShutdownDrains(s: Acceptor, events: seq<Event>)
    requires Inv(s) && s.finalized && Feasible(s, events)
    ensures After(s, events).finalized && |After(s, events).threads| <= |s.threads|
    ensures forall c | c in After(s, events).threads :: c in s.threads
    decreases |events|
  {
    if events != [] {
      var t := Next(s, events[0]);
      if events[0].Leave? {
        RemoveOne(s.threads, events[0].c);
      }
      StepInv(s, events[0]);
      ShutdownDrains(t, events[1..]);
    }
  }
}
