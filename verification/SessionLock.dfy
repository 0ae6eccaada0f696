/** A session that keeps its lock (lib/cwmp.ts, `processRequest`, `writeResponse`, `endSession`): one
    connection, with other workers and the database acting in between. */
module SessionLocks {
  import opened Options
  import Locks

  const LOCK_REFRESH_INTERVAL := 10000
  const REQUEST_TIMEOUT := 10000

  /** A request that is being handled since `handling`; a renewal that is under way for the request that
      arrived at `renewing.value.0` and was answered at `renewing.value.1`. `leaseRead` is the clock reading
      of the last acquisition. */
  datatype Session = Session(handling: Option<int>, renewing: Option<(int, int)>, lastActivity: int, extendLock: int,
      leaseRead: int)

  /** The clock of the session's worker is `offset` ahead of the database's. */
  datatype System = System(lock: Locks.Lock, offset: int, timeout: nat, token: string, session: Option<Session>)

  function Local(s: System): int { s.lock.now + s.offset }

  function Ttl(s: System): int { s.timeout + LOCK_REFRESH_INTERVAL + REQUEST_TIMEOUT }

  /** `Other` is an event of the lock that is not the session's. `Start`: a request that arrived at `arrived`
      begins a session stamped `stamp`. */
  datatype Event =
    | Other(event: Locks.Event)
    | Start(stamp: int, arrived: int, read: int)
    | Arrive
    | Respond
    | Renew(read: int)
    | End

  /** Nothing that a handler does comes later than REQUEST_TIMEOUT after its request. */
  predicate InTime(s: System, d: nat) {
    s.session.Some? ==>
      && (s.session.value.handling.Some? ==> Local(s) + d < s.session.value.handling.value + REQUEST_TIMEOUT)
      && (s.session.value.renewing.Some? ==> Local(s) + d < s.session.value.renewing.value.0 + REQUEST_TIMEOUT)
  }

  predicate Enabled(s: System, e: Event) {
    match e
    case Other(event) =>
      && Locks.Enabled(s.lock, event)
      && (event.TryAcquire? ==> event.token != s.token) && (event.TryRelease? ==> event.token != s.token)
      && (event.Tick? ==> InTime(s, event.d))
    case Start(stamp, arrived, read) => s.session.None?
      && stamp <= read && arrived <= read <= Local(s) < arrived + REQUEST_TIMEOUT
    case Arrive => s.session.Some? && s.session.value.handling.None?
      && Local(s) <= s.session.value.lastActivity + s.timeout
    case Respond => s.session.Some? && s.session.value.handling.Some?
    case Renew(read) => s.session.Some? && s.session.value.renewing.Some?
      && s.session.value.renewing.value.1 <= read <= Local(s)
    case End => s.session.Some?
  }

  ghost function Step(s: System, e: Event): System
    requires Enabled(s, e)
  {
    match e
    case Other(event) => System(Locks.Step(s.lock, event), s.offset, s.timeout, s.token, s.session)
    case Start(stamp, arrived, read) =>
      System(Locks.Acquire(s.lock, s.token, read, Ttl(s)), s.offset, s.timeout, s.token,
             if Locks.AcquireOutcome(s.lock, s.token, read) == Locks.Acquired
             then Some(Session(Some(arrived), None, stamp, stamp + LOCK_REFRESH_INTERVAL, read)) else None)
    case Arrive =>
      var x := s.session.value;
      System(s.lock, s.offset, s.timeout, s.token,
        Some(Session(Some(Local(s)), x.renewing, x.lastActivity, x.extendLock, x.leaseRead)))
    case Respond =>
      var x, now := s.session.value, Local(s);
      System(s.lock, s.offset, s.timeout, s.token,
             if now >= x.extendLock
             then Some(Session(None, Some((x.handling.value, now)), now, now + LOCK_REFRESH_INTERVAL, x.leaseRead))
             else Some(Session(None, x.renewing, now, x.extendLock, x.leaseRead)))
    case Renew(read) =>
      var x := s.session.value;
      System(Locks.Acquire(s.lock, s.token, read, Ttl(s)), s.offset, s.timeout, s.token,
             if Locks.AcquireOutcome(s.lock, s.token, read) == Locks.Acquired
             then Some(Session(x.handling, None, x.lastActivity, x.extendLock, read)) else None)
    case End => System(Locks.Release(s.lock, s.token), s.offset, s.timeout, s.token, None)
  }

  ghost predicate Runs(s: System, es: seq<Event>)
    decreases |es|
  {
    es == [] || (Enabled(s, es[0]) && Runs(Step(s, es[0]), es[1..]))
  }

  ghost function Run(s: System, es: seq<Event>): System
    requires Runs(s, es)
    decreases |es|
  {
    if es == [] then s else Run(Step(s, es[0]), es[1..])
  }

  /** The lease covers the session until its next renewal. */
  ghost predicate Covered(s: System) {
    s.session.Some? ==>
      var x := s.session.value;
      && s.token in s.lock.leases && s.lock.leases[s.token].ttl == Ttl(s)
      && x.leaseRead <= s.lock.leases[s.token].at + s.offset
      && InTime(s, 0)
      && (x.handling.Some? ==> x.handling.value <= Local(s))
      && match x.renewing
         case None =>
           && x.extendLock <= x.leaseRead + LOCK_REFRESH_INTERVAL
           && (if x.handling.Some? then x.handling.value < x.leaseRead + s.timeout + LOCK_REFRESH_INTERVAL
                else x.lastActivity < x.extendLock)
         case Some((arrived, answered)) =>
           && arrived < x.leaseRead + s.timeout + LOCK_REFRESH_INTERVAL && arrived <= answered <= Local(s)
           && x.extendLock == answered + LOCK_REFRESH_INTERVAL && x.lastActivity < x.extendLock
           && (x.handling.Some? ==> x.handling.value < answered + s.timeout + LOCK_REFRESH_INTERVAL)
  }

  /** While a request is handled, or a renewal under way, the session holds the lock. */
  lemma BusySessionHolds(s: System)
    requires Covered(s) && s.session.Some? && (s.session.value.handling.Some? || s.session.value.renewing.Some?)
    ensures Locks.Holds(s.lock, s.token)
  {}

  lemma StepIsCovered(s: System, e: Event)
    requires Locks.Safe(s.lock) && Covered(s) && Enabled(s, e)
    ensures Locks.Safe(Step(s, e).lock) && Covered(Step(s, e))
  {
    StepIsSafe(s, e);
    hide Locks.Safe, Covered;
    match e {
      case Other(_) => OtherIsCovered(s, e);
      case Start(_, _, _) => StartIsCovered(s, e);
      case Arrive => RequestIsCovered(s, e);
      case Respond => RequestIsCovered(s, e);
      case Renew(_) => RenewalIsCovered(s, e);
      case End => RequestIsCovered(s, e);
    }
  }

  lemma StepIsSafe(s: System, e: Event)
    requires Locks.Safe(s.lock) && Enabled(s, e)
    ensures Locks.Safe(Step(s, e).lock)
  {
    hide Locks.Safe;
    match e {
      case Other(event) => Locks.StepIsSafe(s.lock, event);
      case Start(_, _, read) => Locks.StepIsSafe(s.lock, Locks.TryAcquire(s.token, read, Ttl(s)));
      case Arrive =>
      case Respond =>
      case Renew(read) => Locks.StepIsSafe(s.lock, Locks.TryAcquire(s.token, read, Ttl(s)));
      case End => Locks.StepIsSafe(s.lock, Locks.TryRelease(s.token));
    }
  }

  lemma OtherIsCovered(s: System, e: Event)
    requires Locks.Safe(s.lock) && Covered(s) && Enabled(s, e) && e.Other?
    ensures Covered(Step(s, e))
  {}

  lemma StartIsCovered(s: System, e: Event)
    requires Locks.Safe(s.lock) && Covered(s) && Enabled(s, e) && e.Start?
    ensures Covered(Step(s, e))
  {
    hide Locks.Safe;
  }

  lemma RequestIsCovered(s: System, e: Event)
    requires Covered(s) && Enabled(s, e) && (e.Arrive? || e.Respond? || e.End?)
    ensures Covered(Step(s, e))
  {}

  lemma RenewalIsCovered(s: System, e: Event)
    requires Locks.Safe(s.lock) && Covered(s) && Enabled(s, e) && e.Renew?
    ensures Covered(Step(s, e))
  {}

  lemma {:induction false} RunIsCovered(s: System, es: seq<Event>)
    requires Locks.Safe(s.lock) && Covered(s) && Runs(s, es)
    ensures Locks.Safe(Run(s, es).lock) && Covered(Run(s, es))
    decreases |es|
  {
    if es != [] {
      StepIsCovered(s, es[0]);
      RunIsCovered(Step(s, es[0]), es[1..]);
    }
  }

  ghost function Fresh(start: int, offset: int, timeout: nat, token: string): System {
    System(Locks.Lock(start, None, map[]), offset, timeout, token, None)
  }

  /** However other workers and the database interleave with it, a session whose handlers finish in time
      owns the lock document at every response, and at every renewal, which therefore never finds the lock
      taken. */
  lemma SessionOwnsLockAtEveryResponse(start: int, offset: int, timeout: nat, token: string, es: seq<Event>, e: Event)
    requires Runs(Fresh(start, offset, timeout, token), es)
    requires Enabled(Run(Fresh(start, offset, timeout, token), es), e) && (e.Respond? || e.Renew?)
    ensures var s := Run(Fresh(start, offset, timeout, token), es);
      Locks.Owns(s.lock, token) && (e.Renew? ==> Locks.AcquireOutcome(s.lock, token, e.read) != Locks.Busy)
  {
    RunIsCovered(Fresh(start, offset, timeout, token), es);
    RunKeepsToken(Fresh(start, offset, timeout, token), es);
    BusySessionHolds(Run(Fresh(start, offset, timeout, token), es));
  }

  /** A session starts exactly if no other worker has the device's lock and the clocks agree. */
  lemma SessionStartsExactly(s: System, stamp: int, arrived: int, read: int)
    requires Enabled(s, Start(stamp, arrived, read))
    ensures var t := Step(s, Start(stamp, arrived, read));
      && (t.session.Some? <==> !Locks.TakenByAnother(s.lock, s.token) && -30000 <= s.lock.now - read <= 30000)
      && (t.session.Some? ==> Locks.Owns(t.lock, s.token) && Locks.Holds(t.lock, s.token))
  {
    Locks.AttemptExactly(s.lock, s.token, read, Ttl(s));
  }

  /** And it goes on exactly as long as the clocks agree: its renewals never find the lock taken. */
  lemma SessionGoesOn(start: int, offset: int, timeout: nat, token: string, es: seq<Event>, e: Event)
    requires Runs(Fresh(start, offset, timeout, token), es)
    requires Enabled(Run(Fresh(start, offset, timeout, token), es), e) && e.Renew?
    ensures var s := Run(Fresh(start, offset, timeout, token), es);
      Step(s, e).session.Some? <==> -30000 <= s.lock.now - e.read <= 30000
  {
    var s := Run(Fresh(start, offset, timeout, token), es);
    SessionOwnsLockAtEveryResponse(start, offset, timeout, token, es, e);
    RunKeepsToken(Fresh(start, offset, timeout, token), es);
    Locks.AttemptExactly(s.lock, s.token, e.read, Ttl(s));
  }

  lemma {:induction false} RunKeepsToken(s: System, es: seq<Event>)
    requires Runs(s, es)
    ensures Run(s, es).token == s.token
    decreases |es|
  {
    if es != [] { RunKeepsToken(Step(s, es[0]), es[1..]); }
  }

  /** The fields of a session that its handlers update, beside the collection of locks. */
  class LockedSession {
    const locks: Locks.LockCollection
    const lockName: string
    const token: string
    const timeout: nat
    ghost const offset: int
    var active: bool
    var handling: Option<int>
    var renewing: Option<(int, int)>
    var lastActivity: int
    var extendLock: int
    ghost var leaseRead: int

    ghost function Model(): System
      reads this, locks
    {
      System(locks.Model(lockName), offset, timeout, token,
             if active then Some(Session(handling, renewing, lastActivity, extendLock, leaseRead)) else None)
    }

    constructor (locks: Locks.LockCollection, lockName: string, token: string, timeout: nat, ghost offset: int)
      ensures this.locks == locks && Model() == System(locks.Model(lockName), offset, timeout, token, None)
    {
      this.locks, this.lockName, this.token, this.timeout, this.offset := locks, lockName, token, timeout, offset;
      active, handling, renewing, lastActivity, extendLock := false, None, None, 0, 0;
    }

    /** The first request of a session takes the lock, or the device is in another session. */
    method Start(stamp: int, arrived: int, read: int) returns (outcome: Locks.Outcome)
      requires Enabled(Model(), Event.Start(stamp, arrived, read))
      modifies this, locks
      ensures Model() == Step(old(Model()), Event.Start(stamp, arrived, read))
      ensures active == (outcome == Locks.Acquired) && outcome == Locks.AcquireOutcome(old(Model()).lock, token, read)
    {
      extendLock := stamp + LOCK_REFRESH_INTERVAL;
      outcome := locks.AcquireLock(lockName, timeout + LOCK_REFRESH_INTERVAL + REQUEST_TIMEOUT, token, read);
      if outcome != Locks.Acquired { return; }
      active, handling, renewing, lastActivity := true, Some(arrived), None, stamp;
      leaseRead := read;
    }

    method BeginRequest(now: int)
      requires Enabled(Model(), Arrive) && now == Local(Model())
      modifies this`handling
      ensures Model() == Step(old(Model()), Arrive)
    {
      handling := Some(now);
    }

    /** `writeResponse` up to the renewal, which is due if `extend`. */
    method WriteResponse(now: int) returns (extend: bool)
      requires Enabled(Model(), Respond) && now == Local(Model())
      modifies this`handling, this`renewing, this`lastActivity, this`extendLock
      ensures Model() == Step(old(Model()), Respond) && extend == (now >= old(extendLock))
    {
      lastActivity := now;
      extend := now >= extendLock;
      if extend {
        extendLock := now + LOCK_REFRESH_INTERVAL;
        renewing := Some((handling.value, now));
      }
      handling := None;
    }

    /** The renewal; a session that fails to extend its lock is over. */
    method ExtendLock(read: int) returns (ok: bool)
      requires Enabled(Model(), Renew(read))
      modifies this, locks
      ensures Model() == Step(old(Model()), Renew(read)) && active == ok
    {
      var outcome := locks.AcquireLock(lockName, timeout + LOCK_REFRESH_INTERVAL + REQUEST_TIMEOUT, token, read);
      ok := outcome == Locks.Acquired;
      renewing := None;
      active := ok;
      leaseRead := read;
    }

    /** The end of `endSession`; fails exactly if the lock was lost. */
    method EndSession() returns (ok: bool)
      requires Enabled(Model(), End)
      modifies this, locks
      ensures Model() == Step(old(Model()), End) && ok == Locks.Owns(old(Model()).lock, token)
    {
      ok := locks.ReleaseLock(lockName, token);
      active := false;
    }
  }
}
