/** Accounts, their last superuser and the lockout after bad passwords. A step is one call into the account tables,
    which runs under the manager's lock; a login makes two, and others may run in between. */
module Accounts {
  import opened Bytes

  datatype Attribs = Attribs(enabled: bool, confirmed: bool, superuser: bool)

  /** The password of an account at one index. */
  datatype Slot = Slot(name: string, index: nat)

  /** The tables: accounts, bad attempts at each password, and how many logins are on record for each. */
  datatype Directory = Directory(accounts: map<string, Attribs>, badAttempts: map<Slot, nat>, logins: map<Slot, nat>, maxTries: nat)

  ghost predicate IsEnabledSuperuser(d: Directory, name: string) {
    name in d.accounts && d.accounts[name].superuser && d.accounts[name].enabled
  }

  ghost predicate HasSuperuser(d: Directory) {
    exists name: string :: IsEnabledSuperuser(d, name)
  }

  /** The query the guards make. */
  predicate IsThereAnotherSuperUser(d: Directory, name: string) {
    exists other | other in d.accounts :: other != name && d.accounts[other].superuser && d.accounts[other].enabled
  }

  // ---- Calls into the tables -------------------------------------------------------------------------

  datatype Event =
    | Add(name: string, attribs: Attribs)
    | Remove(name: string)
    | Disable(name: string, disabled: bool)
    | ChangeAttribs(name: string, attribs: Attribs)
    | Confirm(name: string)
    | ChangeSecret(slot: Slot)
    | IncrementBadAttempts(slot: Slot)
    | UpdateLastLogin(slot: Slot)
    | ResetBadAttempts(slot: Slot)

  function Update(d: Directory, name: string, a: Attribs): Directory {
    if name in d.accounts then d.(accounts := d.accounts[name := a]) else d
  }

  function SetAttempts(d: Directory, slot: Slot, n: nat): Directory {
    if slot in d.badAttempts then d.(badAttempts := d.badAttempts[slot := n]) else d
  }

  function Times(logins: map<Slot, nat>, slot: Slot): nat {
    if slot in logins then logins[slot] else 0
  }

  /** What stays of a table keyed by passwords when an account is removed. */
  function Without(table: map<Slot, nat>, name: string): map<Slot, nat> {
    map s | s in table && s.name != name :: table[s]
  }

  predicate Refused(d: Directory, e: Event) {
    match e
    case Add(name, _) => name in d.accounts
    case Remove(name) => !IsThereAnotherSuperUser(d, name)
    case Disable(name, disabled) => disabled && !IsThereAnotherSuperUser(d, name)
    case ChangeAttribs(name, a) => (!a.confirmed || !a.enabled || !a.superuser) && !IsThereAnotherSuperUser(d, name)
    case _ => false
  }

  function Next(d: Directory, e: Event): Directory {
    if Refused(d, e) then d
    else match e
      case Add(name, a) => d.(accounts := d.accounts[name := a], badAttempts := d.badAttempts[Slot(name, 0) := 0])
      case Remove(name) =>
        d.(accounts := d.accounts - {name}, badAttempts := Without(d.badAttempts, name), logins := Without(d.logins, name))
      case Disable(name, disabled) =>
        if name in d.accounts then Update(d, name, d.accounts[name].(enabled := !disabled)) else d
      case ChangeAttribs(name, a) => Update(d, name, a)
      case Confirm(name) => if name in d.accounts then Update(d, name, d.accounts[name].(confirmed := true)) else d
      case ChangeSecret(slot) => if slot.name in d.accounts then d.(badAttempts := d.badAttempts[slot := 0]) else d
      case IncrementBadAttempts(slot) => if slot in d.badAttempts then SetAttempts(d, slot, d.badAttempts[slot] + 1) else d
      case UpdateLastLogin(slot) =>
        if slot.name in d.accounts then d.(logins := d.logins[slot := Times(d.logins, slot) + 1]) else d
      case ResetBadAttempts(slot) => SetAttempts(d, slot, 0)
  }

  function After(d: Directory, events: seq<Event>): Directory
    decreases |events|
  {
    if events == [] then d else After(Next(d, events[0]), events[1..])
  }

  lemma SuperuserStays(d: Directory, e: Event)
    requires HasSuperuser(d)
    ensures HasSuperuser(Next(d, e))
  {
    var name: string :| IsEnabledSuperuser(d, name);
    var t := Next(d, e);
    if !IsEnabledSuperuser(t, name) && (e.Remove? || e.Disable? || e.ChangeAttribs?) {
      var other :| other in d.accounts && other != e.name && d.accounts[other].superuser && d.accounts[other].enabled;
      assert IsEnabledSuperuser(t, other);
    } else {
      assert IsEnabledSuperuser(t, name);
    }
  }

  /** Once there is an enabled superuser, there always is one: over every run of account changes and of the
      changes logins make, interleaved in any way. */
  lemma {:induction false} RunKeepsSuperuser(d: Directory, events: seq<Event>)
    requires HasSuperuser(d)
    ensures HasSuperuser(After(d, events))
    decreases |events|
  {
    if events != [] {
      SuperuserStays(d, events[0]);
      RunKeepsSuperuser(Next(d, events[0]), events[1..]);
    }
  }

  /** The account an event is about. */
  function NameOf(e: Event): string {
    if e.ChangeSecret? || e.IncrementBadAttempts? || e.UpdateLastLogin? || e.ResetBadAttempts? then e.slot.name else e.name
  }

  predicate SameAccount(d: Directory, t: Directory, name: string) {
    && (name in t.accounts <==> name in d.accounts) && (name in d.accounts ==> t.accounts[name] == d.accounts[name])
  }

  predicate SameSlot(d: Directory, t: Directory, slot: Slot) {
    && (slot in t.badAttempts <==> slot in d.badAttempts)
    && (slot in d.badAttempts ==> t.badAttempts[slot] == d.badAttempts[slot])
    && Times(t.logins, slot) == Times(d.logins, slot)
  }

  /** A call changes nothing of any other account. */
  lemma OnlyTheNamed(d: Directory, e: Event, slot: Slot)
    requires slot.name != NameOf(e)
    ensures SameAccount(d, Next(d, e), slot.name) && SameSlot(d, Next(d, e), slot)
  {
  }

  const ADMIN: string := "admin"

  /** The first account makes it so, whatever else there is. */
  lemma InitAccountsSuffices(d: Directory)
    requires ADMIN !in d.accounts
    ensures HasSuperuser(Next(d, Add(ADMIN, Attribs(true, true, true))))
  {
    assert IsEnabledSuperuser(Next(d, Add(ADMIN, Attribs(true, true, true))), ADMIN);
  }

  // ---- Logins ------------------------------------------------------------------------------------------

  /** What checking the password gives: a good one may have expired; `Broken` is an error that ends the login
      without a record. */
  datatype Verdict = Accepted | Expired | Rejected | Broken

  /** `admitted`: the application knows the account; `current`: neither expired nor abandoned. */
  datatype Login = Login(slot: Slot, admitted: bool, current: bool, verdict: Verdict)

  datatype Check = Ends | Passed | Failed(badAttempts: nat)

  /** The first half of a login, read under the lock. */
  function Checked(d: Directory, l: Login): Check {
    if !l.admitted then Ends
    else if l.slot.name !in d.accounts || l.slot !in d.badAttempts then Failed(0)
    else
      var a := d.accounts[l.slot.name];
      if !a.confirmed || !a.enabled || !l.current then Ends
      else match l.verdict
        case Accepted => Passed
        case Expired => Passed
        case Rejected => Failed(d.badAttempts[l.slot])
        case Broken => Ends
  }

  /** The second half: what the outcome adds to the tables. */
  function Recorded(d: Directory, slot: Slot, c: Check): Directory {
    match c
    case Ends => d
    case Passed => Next(Next(d, UpdateLastLogin(slot)), ResetBadAttempts(slot))
    case Failed(n) =>
      if n + 1 >= d.maxTries then Next(d, Disable(slot.name, true)) else Next(d, IncrementBadAttempts(slot))
  }

  ghost predicate CanLogIn(d: Directory, l: Login) {
    && l.admitted && l.current && l.slot.name in d.accounts && l.slot in d.badAttempts
    && d.accounts[l.slot.name].confirmed && d.accounts[l.slot.name].enabled
  }

  /** A login gets in exactly with a good password, expired or not, for an account that is known to the application,
      confirmed, enabled, and neither expired nor abandoned. */
  lemma PassedIff(d: Directory, l: Login)
    ensures Checked(d, l).Passed? <==> CanLogIn(d, l) && (l.verdict.Accepted? || l.verdict.Expired?)
  {
  }

  /** A login refused for the state of its account leaves no trace. */
  lemma RefusedLeavesNoTrace(d: Directory, l: Login)
    requires l.admitted && l.slot in d.badAttempts && l.slot.name in d.accounts
    requires !d.accounts[l.slot.name].confirmed || !d.accounts[l.slot.name].enabled || !l.current
    ensures LoggedIn(d, l) == d
  {
  }

  /** A new account that is confirmed and enabled can log in with its password ... */
  lemma NewAccountLogsIn(d: Directory, name: string, a: Attribs, l: Login)
    requires name !in d.accounts && a.confirmed && a.enabled
    requires l.admitted && l.current && l.slot == Slot(name, 0) && l.verdict.Accepted?
    ensures Checked(Next(d, Add(name, a)), l).Passed?
  {
  }

  /** ... and one that was removed cannot, with any password it had. */
  lemma RemovedCannotLogIn(d: Directory, l: Login)
    requires IsThereAnotherSuperUser(d, l.slot.name)
    ensures var t := Next(d, Remove(l.slot.name));
      !Checked(t, l).Passed? && l.slot !in t.badAttempts && Times(t.logins, l.slot) == 0
  {
  }

  /** A login with nothing in between. */
  function LoggedIn(d: Directory, l: Login): Directory {
    Recorded(d, l.slot, Checked(d, l))
  }

  /** Every password belongs to an account (the tables' foreign key), and no counter has reached the limit. */
  ghost predicate AttemptsBounded(d: Directory) {
    && (forall slot | slot in d.badAttempts :: slot.name in d.accounts)
    && (forall slot | slot in d.badAttempts :: d.badAttempts[slot] == 0 || d.badAttempts[slot] < d.maxTries)
  }

  datatype Action = Change(e: Event) | Attempt(l: Login)

  function Did(d: Directory, a: Action): Directory {
    match a
    case Change(e) => Next(d, e)
    case Attempt(l) => LoggedIn(d, l)
  }

  function AfterAll(d: Directory, actions: seq<Action>): Directory
    decreases |actions|
  {
    if actions == [] then d else AfterAll(Did(d, actions[0]), actions[1..])
  }

  ghost predicate OnlyLoginsCount(actions: seq<Action>) {
    forall a | a in actions :: a.Change? ==> !a.e.IncrementBadAttempts?
  }

  lemma ChangeBounded(d: Directory, e: Event)
    requires AttemptsBounded(d)
    requires e.IncrementBadAttempts? && e.slot in d.badAttempts ==> d.badAttempts[e.slot] + 1 < d.maxTries
    ensures AttemptsBounded(Next(d, e)) && Next(d, e).maxTries == d.maxTries
  {
  }

  lemma LoginBounded(d: Directory, l: Login)
    requires AttemptsBounded(d)
    ensures AttemptsBounded(LoggedIn(d, l)) && LoggedIn(d, l).maxTries == d.maxTries
  {
    match Checked(d, l)
    case Ends =>
    case Passed =>
      ChangeBounded(d, UpdateLastLogin(l.slot));
      ChangeBounded(Next(d, UpdateLastLogin(l.slot)), ResetBadAttempts(l.slot));
    case Failed(n) =>
      ChangeBounded(d, if n + 1 >= d.maxTries then Disable(l.slot.name, true) else IncrementBadAttempts(l.slot));
  }

  lemma StepBounded(d: Directory, a: Action)
    requires AttemptsBounded(d) && (a.Change? ==> !a.e.IncrementBadAttempts?)
    ensures AttemptsBounded(Did(d, a)) && Did(d, a).maxTries == d.maxTries
  {
    match a
    case Change(e) => ChangeBounded(d, e);
    case Attempt(l) => LoginBounded(d, l);
  }

  /** With logins that do not overlap, a counter stays below the limit. */
  lemma {:induction false} AttemptsStayBounded(d: Directory, actions: seq<Action>)
    requires AttemptsBounded(d) && OnlyLoginsCount(actions)
    ensures AttemptsBounded(AfterAll(d, actions)) && AfterAll(d, actions).maxTries == d.maxTries
    decreases |actions|
  {
    if actions != [] {
      assert actions[0] in actions && forall a | a in actions[1..] :: a in actions;
      StepBounded(d, actions[0]);
      AttemptsStayBounded(Did(d, actions[0]), actions[1..]);
    }
  }

  /** `k` rejected passwords in a row for one index. */
  function AfterBad(d: Directory, l: Login, k: nat): Directory {
    if k == 0 then d else LoggedIn(AfterBad(d, l, k - 1), l)
  }

  /** What a run of rejected passwords leaves alone. */
  ghost predicate SameOthers(d: Directory, t: Directory, slot: Slot) {
    && t.maxTries == d.maxTries && t.logins == d.logins && t.accounts.Keys == d.accounts.Keys && t.badAttempts.Keys == d.badAttempts.Keys
    && (forall n | n in d.accounts && n != slot.name :: t.accounts[n] == d.accounts[n])
    && (forall s | s in d.badAttempts && s != slot :: t.badAttempts[s] == d.badAttempts[s])
  }

  lemma SameGuard(d: Directory, t: Directory, slot: Slot)
    requires SameOthers(d, t, slot)
    ensures IsThereAnotherSuperUser(t, slot.name) == IsThereAnotherSuperUser(d, slot.name)
  {
    assert forall n: string :: n in t.accounts <==> n in d.accounts;
  }

  /** The account is disabled exactly when the bad passwords reach the limit and it is not the last enabled
      superuser; until then each is counted, and the counter stops one short of the limit. */
  lemma {:induction false} LockoutExactly(d: Directory, l: Login, k: nat)
    requires CanLogIn(d, l) && l.verdict.Rejected? && d.maxTries >= 1 && d.badAttempts[l.slot] < d.maxTries
    ensures var t := AfterBad(d, l, k);
      && SameOthers(d, t, l.slot) && t.accounts[l.slot.name].confirmed
      && t.badAttempts[l.slot] == Min(d.badAttempts[l.slot] + k, d.maxTries - 1)
      && t.accounts[l.slot.name].enabled
         == !(IsThereAnotherSuperUser(d, l.slot.name) && d.badAttempts[l.slot] + k >= d.maxTries)
  {
    if k > 0 {
      LockoutExactly(d, l, k - 1);
      SameGuard(d, AfterBad(d, l, k - 1), l.slot);
    }
  }

  // ---- What the lockout protects -------------------------------------------------------------------------

  predicate LockedOut(d: Directory, name: string) {
    name in d.accounts ==> !d.accounts[name].enabled
  }

  /** The only calls that can let an account in again. */
  predicate Readmits(e: Event, name: string) {
    match e
    case Add(n, a) => n == name && a.enabled
    case Disable(n, disabled) => n == name && !disabled
    case ChangeAttribs(n, a) => n == name && a.enabled
    case _ => false
  }

  ghost predicate NobodyReadmits(actions: seq<Action>, name: string) {
    forall a | a in actions :: a.Change? ==> !Readmits(a.e, name)
  }

  lemma StepStaysLocked(d: Directory, a: Action, name: string)
    requires LockedOut(d, name) && (a.Change? ==> !Readmits(a.e, name))
    ensures LockedOut(Did(d, a), name)
  {
  }

  /** A disabled account stays so over any run in which nobody readmits it, and no login to it gets in, with any
      password. */
  lemma {:induction false} StaysLockedOut(d: Directory, actions: seq<Action>, l: Login)
    requires LockedOut(d, l.slot.name) && NobodyReadmits(actions, l.slot.name)
    ensures var t := AfterAll(d, actions); LockedOut(t, l.slot.name) && !Checked(t, l).Passed?
    decreases |actions|
  {
    if actions != [] {
      assert actions[0] in actions && forall a | a in actions[1..] :: a in actions;
      StepStaysLocked(d, actions[0], l.slot.name);
      StaysLockedOut(Did(d, actions[0]), actions[1..], l);
    }
  }

  /** Once bad passwords have reached the limit, unless it is the last enabled superuser, the account lets nobody in
      until it is readmitted. */
  lemma LockoutHolds(d: Directory, l: Login, k: nat, actions: seq<Action>, other: Login)
    requires CanLogIn(d, l) && l.verdict.Rejected? && d.maxTries >= 1 && d.badAttempts[l.slot] < d.maxTries
    requires IsThereAnotherSuperUser(d, l.slot.name) && d.badAttempts[l.slot] + k >= d.maxTries
    requires other.slot.name == l.slot.name && NobodyReadmits(actions, l.slot.name)
    ensures !Checked(AfterAll(AfterBad(d, l, k), actions), other).Passed?
  {
    LockoutExactly(d, l, k);
    StaysLockedOut(AfterBad(d, l, k), actions, other);
  }

  /** A good password in time, expired or not, starts the count again and is put on record. */
  lemma GoodPasswordResets(d: Directory, l: Login)
    requires CanLogIn(d, l) && (l.verdict.Accepted? || l.verdict.Expired?)
    ensures var t := LoggedIn(d, l);
      && t.badAttempts == d.badAttempts[l.slot := 0] && t.accounts == d.accounts
      && t.logins == d.logins[l.slot := Times(d.logins, l.slot) + 1]
  {
  }

  /** Logins that overlap are all judged by the counter they read: each of them counts, past the limit. */
  function AfterOverlap(d: Directory, slot: Slot, c: Check, k: nat): Directory {
    if k == 0 then d else Recorded(AfterOverlap(d, slot, c, k - 1), slot, c)
  }

  lemma {:induction false} OverlapExceedsLimit(d: Directory, l: Login, k: nat)
    requires CanLogIn(d, l) && l.verdict.Rejected? && d.badAttempts[l.slot] + 1 < d.maxTries
    ensures var t := AfterOverlap(d, l.slot, Checked(d, l), k);
      && t.accounts == d.accounts && t.maxTries == d.maxTries && l.slot in t.badAttempts
      && t.badAttempts[l.slot] == d.badAttempts[l.slot] + k
  {
    if k > 0 {
      OverlapExceedsLimit(d, l, k - 1);
    }
  }

  // ---- The code -----------------------------------------------------------------------------------------

  datatype Reason = AUTHENTICATED | EXPIRED_PASSWORD | BAD_PASSWORD | BAD_ACCOUNT | PASSWORD_INDEX_NOTFOUND | UNCONFIRMED_ACCOUNT
                  | DISABLED_ACCOUNT | EXPIRED_ACCOUNT | INTERNAL_ERROR

  /** Which answer a login gets, by the tables as it read them. */
  ghost predicate RightReason(d: Directory, l: Login, r: Reason) {
    && (r.BAD_ACCOUNT? <==> !l.admitted || l.slot.name !in d.accounts)
    && (r.PASSWORD_INDEX_NOTFOUND? <==> l.admitted && l.slot.name in d.accounts && l.slot !in d.badAttempts)
    && (l.admitted && l.slot.name in d.accounts && l.slot in d.badAttempts ==>
          var a := d.accounts[l.slot.name];
          && (r.UNCONFIRMED_ACCOUNT? <==> !a.confirmed)
          && (r.DISABLED_ACCOUNT? <==> a.confirmed && !a.enabled)
          && (r.EXPIRED_ACCOUNT? <==> a.confirmed && a.enabled && !l.current)
          && (a.confirmed && a.enabled && l.current ==>
                && (r.AUTHENTICATED? <==> l.verdict.Accepted?) && (r.EXPIRED_PASSWORD? <==> l.verdict.Expired?)
                && (r.BAD_PASSWORD? <==> l.verdict.Rejected?) && (r.INTERNAL_ERROR? <==> l.verdict.Broken?)))
  }

  predicate IsPasswordAuthenticated(r: Reason) {
    r.AUTHENTICATED? || r.EXPIRED_PASSWORD?
  }

  class Manager {
    var accounts: map<string, Attribs>
    var badAttempts: map<Slot, nat>
    var logins: map<Slot, nat>
    var maxTries: nat

    function View(): Directory
      reads this
    {
      Directory(accounts, badAttempts, logins, maxTries)
    }

    constructor ()
      ensures View() == Directory(map[], map[], map[], 4)
    {
      accounts, badAttempts, logins, maxTries := map[], map[], map[], 4;
    }

    method AccountAdd(name: string, a: Attribs) returns (ok: bool)
      modifies this
      ensures View() == Next(old(View()), Add(name, a)) && ok == !Refused(old(View()), Add(name, a))
      ensures ok == (name !in old(accounts)) && (!ok ==> View() == old(View()))
      ensures ok ==> accounts == old(accounts)[name := a] && badAttempts == old(badAttempts)[Slot(name, 0) := 0]
    {
      if name in accounts {
        return false;
      }
      accounts := accounts[name := a];
      badAttempts := badAttempts[Slot(name, 0) := 0];
      return true;
    }

    method InitAccounts() returns (ok: bool)
      modifies this
      ensures ok == (ADMIN !in old(accounts)) && (ok ==> HasSuperuser(View()))
      ensures !ok ==> View() == old(View())
    {
      if ADMIN !in accounts {
        InitAccountsSuffices(View());
      }
      ok := AccountAdd(ADMIN, Attribs(true, true, true));
    }

    method AccountRemove(name: string) returns (ok: bool)
      modifies this
      ensures View() == Next(old(View()), Remove(name)) && ok == !Refused(old(View()), Remove(name))
      ensures ok == IsThereAnotherSuperUser(old(View()), name) && (!ok ==> View() == old(View()))
      ensures ok ==> name !in accounts && forall other | other != name :: SameAccount(old(View()), View(), other)
      ensures ok ==> forall slot: Slot :: if slot.name == name then slot !in badAttempts && Times(logins, slot) == 0
                                          else SameSlot(old(View()), View(), slot)
    {
      if IsThereAnotherSuperUser(View(), name) {
        accounts := accounts - {name};
        badAttempts, logins := Without(badAttempts, name), Without(logins, name);
        return true;
      }
      return false;
    }

    method AccountDisable(name: string, disabled: bool) returns (ok: bool)
      modifies this`accounts
      ensures View() == Next(old(View()), Disable(name, disabled)) && ok == !Refused(old(View()), Disable(name, disabled))
      ensures ok == (!disabled || IsThereAnotherSuperUser(old(View()), name))
      ensures accounts == if ok && name in old(accounts) then old(accounts)[name := old(accounts)[name].(enabled := !disabled)]
                          else old(accounts)
    {
      if disabled && !IsThereAnotherSuperUser(View(), name) {
        return false;
      }
      if name in accounts {
        accounts := accounts[name := accounts[name].(enabled := !disabled)];
      }
      return true;
    }

    method AccountChangeAttribs(name: string, a: Attribs) returns (ok: bool)
      modifies this`accounts
      ensures View() == Next(old(View()), ChangeAttribs(name, a)) && ok == !Refused(old(View()), ChangeAttribs(name, a))
      ensures ok == (a == Attribs(true, true, true) || IsThereAnotherSuperUser(old(View()), name))
      ensures accounts == if ok && name in old(accounts) then old(accounts)[name := a] else old(accounts)
    {
      if (!a.confirmed || !a.enabled || !a.superuser) && !IsThereAnotherSuperUser(View(), name) {
        return false;
      }
      if name in accounts {
        accounts := accounts[name := a];
      }
      return true;
    }

    method UpdateLogin(slot: Slot)
      modifies this`logins
      ensures View() == Next(old(View()), UpdateLastLogin(slot))
    {
      if slot.name in accounts {
        logins := logins[slot := Times(logins, slot) + 1];
      }
    }

    /** The manager's lock is free between the two halves of a login. */
    method Elsewhere(events: seq<Event>)
      modifies this
      ensures View() == After(old(View()), events)
    {
      var t := After(View(), events);
      accounts, badAttempts, logins, maxTries := t.accounts, t.badAttempts, t.logins, t.maxTries;
    }

    /** `others` are the calls that run between check and record. */
    method Authenticate(l: Login, others: seq<Event>) returns (r: Reason)
      modifies this
      ensures View() == Recorded(After(old(View()), others), l.slot, Checked(old(View()), l))
      ensures RightReason(old(View()), l, r)
      ensures IsPasswordAuthenticated(r) <==> CanLogIn(old(View()), l) && (l.verdict.Accepted? || l.verdict.Expired?)
      ensures !l.admitted || r.UNCONFIRMED_ACCOUNT? || r.DISABLED_ACCOUNT? || r.EXPIRED_ACCOUNT? || r.INTERNAL_ERROR? ==>
        View() == After(old(View()), others)
      ensures HasSuperuser(old(View())) ==> HasSuperuser(View())
    {
      ghost var before := View();
      if HasSuperuser(before) {
        RunKeepsSuperuser(before, others);
        RecordKeepsSuperuser(After(before, others), l.slot, Checked(before, l));
      }
      var stored: nat := 0;
      r := BAD_ACCOUNT;
      if !l.admitted {
        Elsewhere(others);
        return;
      }
      if l.slot.name in accounts && l.slot !in badAttempts {
        r := PASSWORD_INDEX_NOTFOUND;
      } else if l.slot.name in accounts {
        stored := badAttempts[l.slot];
        var a := accounts[l.slot.name];
        r := if !a.confirmed then UNCONFIRMED_ACCOUNT else if !a.enabled then DISABLED_ACCOUNT
             else if !l.current then EXPIRED_ACCOUNT else if l.verdict.Accepted? then AUTHENTICATED
             else if l.verdict.Expired? then EXPIRED_PASSWORD
             else if l.verdict.Rejected? then BAD_PASSWORD else INTERNAL_ERROR;
        if r.UNCONFIRMED_ACCOUNT? || r.DISABLED_ACCOUNT? || r.EXPIRED_ACCOUNT? || r.INTERNAL_ERROR? {
          Elsewhere(others);
          return;
        }
      }
      var tries := maxTries;
      Elsewhere(others);
      MaxTriesStay(before, others);
      if !IsPasswordAuthenticated(r) {
        if stored + 1 >= tries {
          var _ := AccountDisable(l.slot.name, true);
        } else if l.slot in badAttempts {
          badAttempts := badAttempts[l.slot := badAttempts[l.slot] + 1];
        }
      } else {
        UpdateLogin(l.slot);
        if l.slot in badAttempts {
          badAttempts := badAttempts[l.slot := 0];
        }
      }
    }
  }

  lemma {:induction false} MaxTriesStay(d: Directory, events: seq<Event>)
    ensures After(d, events).maxTries == d.maxTries
    decreases |events|
  {
    if events != [] {
      MaxTriesStay(Next(d, events[0]), events[1..]);
    }
  }

  lemma RecordKeepsSuperuser(d: Directory, slot: Slot, c: Check)
    requires HasSuperuser(d)
    ensures HasSuperuser(Recorded(d, slot, c))
  {
    SuperuserStays(d, Disable(slot.name, true));
    SuperuserStays(d, IncrementBadAttempts(slot));
    SuperuserStays(d, UpdateLastLogin(slot));
    SuperuserStays(Next(d, UpdateLastLogin(slot)), ResetBadAttempts(slot));
  }
}
