/** The multi-threaded acceptor's code. Each method is what runs with the mutex held; waiting gives the mutex up,
    and what the other threads do meanwhile is a parameter. */
module MultiThreadedAcceptor {
  import opened Bytes
  import opened AcceptorProtocol

  /** Other threads' steps during each wait of an admission: none of them decides it. */
  predicate OthersRun(s: Acceptor, c: Client, others: seq<seq<Event>>)
    decreases |others|
  {
    others != [] ==>
      Feasible(s, others[0]) && c in After(s, others[0]).pending && OthersRun(After(s, others[0]), c, others[1..])
  }

  class MultiThreaded {
    var maxConcurrentClients: nat
    var maxConnectionsPerIP: nat
    var finalized: bool
    var threadList: seq<Client>
    var connectionsPerIP: Usage

    // For the record
    var peakClients: nat
    var peakPerIP: nat
    var arrived: set<Client>
    var pending: set<Client>
    var deleted: set<Client>
    var thrown: bool

    function View(): Acceptor
      reads this
    {
      Acceptor(maxConcurrentClients, maxConnectionsPerIP, finalized, threadList, connectionsPerIP, peakClients, peakPerIP,
               arrived, pending, deleted, thrown)
    }

    constructor ()
      ensures View() == Start(4096, 16) && Inv(View())
    {
      maxConcurrentClients, maxConnectionsPerIP, finalized := 4096, 16, false;
      threadList, connectionsPerIP := [], map[];
      peakClients, peakPerIP, arrived, pending, deleted, thrown := 4096, 16, {}, {}, {}, false;
    }

    method SetMaxConnectionsPerIP(value: nat)
      requires Inv(View()) && value <= U32_MAX
      modifies this
      ensures View() == Next(old(View()), SetMaxPerIP(value)) && Inv(View()) && maxConnectionsPerIP == value
    {
      StepInv(View(), SetMaxPerIP(value));
      maxConnectionsPerIP := value;
      if value > peakPerIP {
        peakPerIP := value;
      }
    }

    method SetMaxConcurrentClients(value: nat)
      requires Inv(View()) && value <= U32_MAX
      modifies this
      ensures View() == Next(old(View()), SetMaxClients(value)) && Inv(View()) && maxConcurrentClients == value
    {
      StepInv(View(), SetMaxClients(value));
      maxConcurrentClients := value;
      if value > peakClients {
        peakClients := value;
      }
    }

    method IncrementIPUsage(ipAddr: string) returns (n: nat)
      modifies this`connectionsPerIP
      ensures connectionsPerIP == Increment(old(connectionsPerIP), ipAddr) && n == connectionsPerIP[ipAddr]
    {
      if ipAddr !in connectionsPerIP {
        connectionsPerIP := connectionsPerIP[ipAddr := 1];
      } else if connectionsPerIP[ipAddr] != U32_MAX {
        connectionsPerIP := connectionsPerIP[ipAddr := connectionsPerIP[ipAddr] + 1];
      }
      return connectionsPerIP[ipAddr];
    }

    method DecrementIPUsage(ipAddr: string)
      modifies this`connectionsPerIP, this`thrown
      ensures if Decrement(old(connectionsPerIP), ipAddr).Some?
              then connectionsPerIP == Decrement(old(connectionsPerIP), ipAddr).value && thrown == old(thrown)
              else connectionsPerIP == old(connectionsPerIP) && thrown
    {
      if ipAddr !in connectionsPerIP {
        thrown := true;
      } else if connectionsPerIP[ipAddr] == 1 {
        connectionsPerIP := connectionsPerIP - {ipAddr};
      } else {
        connectionsPerIP := connectionsPerIP[ipAddr := if connectionsPerIP[ipAddr] == 0 then U32_MAX else connectionsPerIP[ipAddr] - 1];
      }
    }

    method Delete(c: Client)
      modifies this`pending, this`deleted
      ensures pending == old(pending) - {c} && deleted == old(deleted) + {c}
    {
      pending, deleted := pending - {c}, deleted + {c};
    }

    /** The mutex is free while this thread waits. */
    method Wait(events: seq<Event>)
      requires Feasible(View(), events)
      modifies this
      ensures View() == After(old(View()), events)
    {
      var t := After(View(), events);
      maxConcurrentClients, maxConnectionsPerIP, finalized := t.maxClients, t.maxPerIP, t.finalized;
      threadList, connectionsPerIP := t.threads, t.perIP;
      peakClients, peakPerIP, arrived, pending, deleted, thrown := t.peakClients, t.peakPerIP, t.arrived, t.pending, t.deleted, t.thrown;
    }

    /** The part after the wait: counts the client in, and out again if its address has too many. */
    method Admit(c: Client) returns (more: bool)
      requires Inv(View()) && Possible(View(), Decide(c))
      modifies this
      ensures View() == Decided(old(View()), c) && Inv(View()) && more == !old(finalized)
      ensures AdmittedRightly(old(View()), View(), c)
    {
      DecideInv(View(), c);
      AdmittedIff(View(), c);
      if finalized {
        Delete(c);
        return false;
      }
      var n := IncrementIPUsage(c.ip);
      if n > maxConnectionsPerIP {
        DecrementIPUsage(c.ip);
        Delete(c);
      } else {
        threadList := threadList + [c];
        pending := pending - {c};
      }
      return true;
    }

    /** Waits for a free place, at most as often as there are entries in `others` before the wait times out,
        and then decides; `at` is the state in which it did. False only for an acceptor being destroyed. */
    method ProcessClient(c: Client, others: seq<seq<Event>>) returns (more: bool, ghost at: Acceptor, ghost timedOut: bool)
      requires Inv(View()) && c in pending && OthersRun(View(), c, others)
      modifies this
      ensures Inv(at) && Inv(View()) && c in at.pending
      ensures timedOut ==> View() == Next(at, TimeOut(c)) && more && c in deleted && threadList == at.threads
      ensures !timedOut ==> AdmittedRightly(at, View(), c)
      ensures !timedOut ==> MayDecide(at) && View() == Next(at, Decide(c)) && more == !at.finalized
      ensures MayDecide(old(View())) ==> at == old(View()) && !timedOut
    {
      var waits := others;
      timedOut := false;
      while |threadList| >= maxConcurrentClients && !finalized
        invariant Inv(View()) && c in pending && OthersRun(View(), c, waits)
        invariant MayDecide(old(View())) ==> View() == old(View())
        decreases |waits|
      {
        if waits == [] {
          at := View();
          StepInv(at, TimeOut(c));
          Delete(c);
          return true, at, true;
        }
        RunInv(View(), waits[0]);
        Wait(waits[0]);
        waits := waits[1..];
      }
      at := View();
      more := Admit(c);
      timedOut := false;
    }

    /** Takes an ended thread out of the list and gives its address's count back, once. */
    method FinalizeThreadElement(x: Client) returns (found: bool)
      requires Inv(View())
      modifies this
      ensures found == (x in old(threadList)) && Inv(View())
      ensures View() == if found then Next(old(View()), Leave(x)) else old(View())
      ensures found ==> GivenBack(old(View()), View(), x)
    {
      if x in threadList {
        StepInv(View(), Leave(x));
        LeaveGivesBack(View(), x);
        DecrementCounts(connectionsPerIP, threadList, x);
        TakeOut(x);
        return true;
      }
      return false;
    }

    method TakeOut(x: Client)
      requires Decrement(connectionsPerIP, x.ip).Some?
      modifies this
      ensures View() == Next(old(View()), Leave(x))
    {
      threadList := Remove(threadList, x);
      DecrementIPUsage(x.ip);
      deleted := deleted + {x};
    }

    /** The destructor's first step. */
    method MarkFinalized()
      requires Inv(View())
      modifies this`finalized
      ensures View() == Next(old(View()), Finalize) && Inv(View()) && finalized
    {
      StepInv(View(), Finalize);
      finalized := true;
    }
  }
}
