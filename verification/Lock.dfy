/** The lock document of a device (lib/lock.ts): many workers, the TTL removal of the database, and clocks
    that may be off. Times are in milliseconds; `now` is the clock of the database. */
module Locks {
  import opened Options

  const CLOCK_SKEW_TOLERANCE := 30000

  datatype Document = Document(value: string, expire: int)

  /** What an acquisition gives its caller: for `ttl` from the instant `at` on, the lock. */
  datatype Lease = Lease(at: int, ttl: int)

  datatype Lock = Lock(now: int, document: Option<Document>, leases: map<string, Lease>)

  datatype Outcome = Acquired | Busy | SkewTooGreat

  /** The one atomic update: it takes a free lock, or renews one with the same token. */
  predicate Matches(l: Lock, token: string) { l.document.None? || l.document.value.value == token }

  predicate SkewOk(l: Lock, read: int) { -CLOCK_SKEW_TOLERANCE <= l.now - read <= CLOCK_SKEW_TOLERANCE }

  function AcquireOutcome(l: Lock, token: string, read: int): Outcome {
    if !Matches(l, token) then Busy else if SkewOk(l, read) then Acquired else SkewTooGreat
  }

  /** `acquireLock` by a caller whose clock showed `read`. The document is written before the skew is
      checked; a caller that gets an error has no lease. */
  function Acquire(l: Lock, token: string, read: int, ttl: int): Lock {
    match AcquireOutcome(l, token, read)
    case Busy => l
    case Acquired => Lock(l.now, Some(Document(token, read + ttl + CLOCK_SKEW_TOLERANCE)),
      l.leases[token := Lease(l.now, ttl)])
    case SkewTooGreat => Lock(l.now, Some(Document(token, read + ttl + CLOCK_SKEW_TOLERANCE)), l.leases - {token})
  }

  function Release(l: Lock, token: string): Lock {
    Lock(l.now, if l.document.Some? && l.document.value.value == token then None else l.document, l.leases - {token})
  }

  /** The TTL index of the database drops the document some time after it has expired. */
  predicate CanExpire(l: Lock) { l.document.Some? && l.document.value.expire <= l.now }

  datatype Event = Tick(d: nat) | Expire | TryAcquire(token: string, read: int, ttl: int) | TryRelease(token: string)

  predicate Enabled(l: Lock, e: Event) { e.Expire? ==> CanExpire(l) }

  function Step(l: Lock, e: Event): Lock
    requires Enabled(l, e)
  {
    match e
    case Tick(d) => Lock(l.now + d, l.document, l.leases)
    case Expire => Lock(l.now, None, l.leases)
    case TryAcquire(token, read, ttl) => Acquire(l, token, read, ttl)
    case TryRelease(token) => Release(l, token)
  }

  ghost predicate Runs(l: Lock, es: seq<Event>)
    decreases |es|
  {
    es == [] || (Enabled(l, es[0]) && Runs(Step(l, es[0]), es[1..]))
  }

  ghost function Run(l: Lock, es: seq<Event>): Lock
    requires Runs(l, es)
    decreases |es|
  {
    if es == [] then l else Run(Step(l, es[0]), es[1..])
  }

  /** The holder acquired less than its ttl ago, and has neither released nor failed to renew. */
  predicate Holds(l: Lock, token: string) { token in l.leases && l.now < l.leases[token].at + l.leases[token].ttl }

  predicate Owns(l: Lock, token: string) { l.document.Some? && l.document.value.value == token }

  ghost predicate Safe(l: Lock) {
    forall t <- l.leases :: l.leases[t].at <= l.now &&
      (Holds(l, t) ==> Owns(l, t) && l.leases[t].at + l.leases[t].ttl <= l.document.value.expire)
  }

  lemma StepIsSafe(l: Lock, e: Event)
    requires Safe(l) && Enabled(l, e)
    ensures Safe(Step(l, e))
  {
    var m := Step(l, e);
    forall t <- m.leases ensures m.leases[t].at <= m.now &&
      (Holds(m, t) ==> Owns(m, t) && m.leases[t].at + m.leases[t].ttl <= m.document.value.expire)
    {
      assert t in l.leases && m.leases[t] == l.leases[t] && Holds(m, t) ==> Holds(l, t);
    }
  }

  lemma {:induction false} RunIsSafe(l: Lock, es: seq<Event>)
    requires Safe(l) && Runs(l, es)
    ensures Safe(Run(l, es))
    decreases |es|
  {
    if es != [] {
      StepIsSafe(l, es[0]);
      RunIsSafe(Step(l, es[0]), es[1..]);
    }
  }

  /** Whatever the workers do and however their clocks are set: a holder owns the document, and so there
      are never two of them. */
  lemma HoldersOwnAndAreAlone(start: int, es: seq<Event>, t: string, u: string)
    requires Runs(Lock(start, None, map[]), es)
    ensures var l := Run(Lock(start, None, map[]), es);
      (Holds(l, t) ==> Owns(l, t)) && (Holds(l, t) && Holds(l, u) ==> t == u)
  {
    RunIsSafe(Lock(start, None, map[]), es);
  }

  /** Without the allowance for skew in `expire`, a holder could lose the document: it is needed as soon
      as the caller's clock is behind. */
  lemma SkewAllowanceIsNeeded(l: Lock, token: string, read: int, ttl: int)
    requires AcquireOutcome(l, token, read) == Acquired && 0 < ttl
    ensures var m := Acquire(l, token, read, ttl);
      (exists d: nat :: Holds(Step(m, Tick(d)), token) && read + ttl <= m.now + d) <==> read < l.now
  {
    var m := Acquire(l, token, read, ttl);
    if read < l.now {
      var d: nat := ttl - 1;
      assert Holds(Step(m, Tick(d)), token) && read + ttl <= m.now + d;
    }
  }

  // ---- When an attempt succeeds ----

  /** Somebody else's document is there. */
  predicate TakenByAnother(l: Lock, token: string) { l.document.Some? && l.document.value.value != token }

  /** What comes of an attempt, for every state of the document and of the clocks: it finds the lock busy,
      and leaves everything as it is, exactly if another token's document is there; else it writes its own
      document, and succeeds exactly if the clocks agree within the tolerance. */
  lemma AttemptExactly(l: Lock, token: string, read: int, ttl: int)
    ensures var m, outcome := Acquire(l, token, read, ttl), AcquireOutcome(l, token, read);
      && (outcome == Busy <==> TakenByAnother(l, token))
      && (outcome == Acquired <==> !TakenByAnother(l, token) && -30000 <= l.now - read <= 30000)
      && (outcome == Busy ==> m == l)
      && (outcome != Busy ==> m.document == Some(Document(token, read + ttl + 30000)))
      && m.now == l.now
      && forall t | t != token :: (t in m.leases <==> t in l.leases) && (t in m.leases ==> m.leases[t] == l.leases[t])
  {}

  /** Whoever succeeds owns the lock and holds it for exactly its ttl, if nothing but time goes by. */
  lemma WhoSucceedsHolds(l: Lock, token: string, read: int, ttl: int, d: nat)
    requires !TakenByAnother(l, token) && -30000 <= l.now - read <= 30000
    ensures var m := Step(Acquire(l, token, read, ttl), Tick(d));
      Owns(m, token) && (Holds(m, token) <==> d < ttl)
  {}

  /** A lock can be taken at the start, after it was dropped, and after its owner has released it; and not
      after anyone else has tried to release it. */
  lemma FreeAgain(l: Lock, start: int, owner: string, token: string)
    ensures !TakenByAnother(Lock(start, None, map[]), token)
    ensures CanExpire(l) ==> !TakenByAnother(Step(l, Expire), token)
    ensures Owns(l, owner) ==> !TakenByAnother(Step(l, TryRelease(owner)), token)
    ensures !Owns(l, owner) ==> (TakenByAnother(Step(l, TryRelease(owner)), token) <==> TakenByAnother(l, token))
    ensures !Holds(Step(l, TryRelease(owner)), owner)
  {}

  /** The document can be dropped from its expiry on, and not before. */
  lemma DroppedExactlyWhenExpired(l: Lock, token: string, read: int, ttl: int, d: nat)
    requires !TakenByAnother(l, token)
    ensures Enabled(Step(Acquire(l, token, read, ttl), Tick(d)), Expire) <==> read + ttl + 30000 <= l.now + d
  {}

  // ---- A call that fails for clock skew ----

  lemma {:induction false} TimeGoesOn(l: Lock, es: seq<Event>)
    requires Runs(l, es)
    ensures l.now <= Run(l, es).now
    decreases |es|
  {
    if es != [] { TimeGoesOn(Step(l, es[0]), es[1..]); }
  }

  lemma {:induction false} OwnedUntilReleased(l: Lock, token: string, es: seq<Event>)
    requires Runs(l, es) && Owns(l, token) && TryRelease(token) !in es && Expire !in es
    ensures Owns(Run(l, es), token)
    decreases |es|
  {
    if es != [] { OwnedUntilReleased(Step(l, es[0]), token, es[1..]); }
  }

  predicate IsOf(e: Event, token: string) { (e.TryAcquire? || e.TryRelease?) && e.token == token }

  /** An event of other callers or of the database, at a time when the document cannot have been dropped. */
  lemma {:induction false} DocumentStays(l: Lock, document: Document, es: seq<Event>)
    requires Runs(l, es) && l.document == Some(document) && document.value !in l.leases
    requires Expire !in es || Run(l, es).now < document.expire
    requires forall e <- es :: !IsOf(e, document.value)
    ensures Run(l, es).document == Some(document) && document.value !in Run(l, es).leases
    decreases |es|
  {
    if es != [] {
      assert es[0] in es;
      TimeGoesOn(Step(l, es[0]), es[1..]);
      assert forall e <- es[1..] :: e in es;
      DocumentStays(Step(l, es[0]), document, es[1..]);
    }
  }

  /** Every attempt but one with the token finds the lock busy, whatever its clock shows. */
  ghost predicate BusyForOthers(l: Lock, token: string) {
    forall other, read :: AcquireOutcome(l, other, read) == Busy <==> other != token
  }

  /** A call that may write the document but fails for clock skew takes the lock for nobody. Whatever
      happens after it, every attempt of another finds the lock busy until it is released with the token
      or dropped. The caller was not given the token; unless it is used again nobody holds the lock, and
      the database can drop it exactly from the expiry on that the failed call wrote. */
  lemma SkewErrorLeavesLock(l: Lock, token: string, read: int, ttl: int, es: seq<Event>)
    requires Safe(l) && Matches(l, token) && !SkewOk(l, read)
    requires Runs(Acquire(l, token, read, ttl), es)
    ensures var m, expire := Run(Acquire(l, token, read, ttl), es), read + ttl + CLOCK_SKEW_TOLERANCE;
      && (TryRelease(token) !in es && Expire !in es ==> BusyForOthers(m, token))
      && ((forall e <- es :: !IsOf(e, token)) && (Expire !in es || m.now < expire) ==>
           BusyForOthers(m, token) && (forall t :: !Holds(m, t)) && (Enabled(m, Expire) <==> expire <= m.now))
  {
    var taken := Acquire(l, token, read, ttl);
    var m := Run(taken, es);
    if TryRelease(token) !in es && Expire !in es { OwnedUntilReleased(taken, token, es); }
    if (forall e <- es :: !IsOf(e, token)) && (Expire !in es || m.now < taken.document.value.expire) {
      DocumentStays(taken, taken.document.value, es);
      StepIsSafe(l, TryAcquire(token, read, ttl));
      RunIsSafe(taken, es);
      forall t ensures !Holds(m, t) { assert Holds(m, t) ==> t in m.leases; }
    }
  }

  /** The collection of lock documents, one for each name. */
  class LockCollection {
    var now: int
    var documents: map<string, Document>
    ghost var leases: map<string, map<string, Lease>>

    ghost function Model(name: string): Lock
      reads this
    {
      Lock(now, if name in documents then Some(documents[name]) else None,
           if name in leases then leases[name] else map[])
    }

    constructor (now: int)
      ensures forall name :: Model(name) == Lock(now, None, map[])
    {
      this.now := now;
      documents := map[];
      leases := map[];
    }

    /** One attempt: `findOneAndUpdate` with `upsert`, which fails on the unique key if another token is
        there, and the check of the time stamp that the database has set. */
    method AcquireLock(lockName: string, ttl: int, token: string, read: int) returns (outcome: Outcome)
      modifies this`documents, this`leases
      ensures outcome == AcquireOutcome(old(Model(lockName)), token, read)
      ensures Model(lockName) == Acquire(old(Model(lockName)), token, read, ttl)
      ensures forall other :: other != lockName ==> Model(other) == old(Model(other))
    {
      if lockName in documents && documents[lockName].value != token { return Busy; }
      documents := documents[lockName := Document(token, read + ttl + CLOCK_SKEW_TOLERANCE)];
      ghost var mine := if lockName in leases then leases[lockName] else map[];
      var timestamp := now;
      if (if timestamp >= read then timestamp - read else read - timestamp) > CLOCK_SKEW_TOLERANCE {
        leases := leases[lockName := mine - {token}];
        return SkewTooGreat;
      }
      leases := leases[lockName := mine[token := Lease(timestamp, ttl)]];
      return Acquired;
    }

    /** Fails exactly if the caller no longer owns the lock. */
    method ReleaseLock(lockName: string, token: string) returns (ok: bool)
      modifies this`documents, this`leases
      ensures ok == Owns(old(Model(lockName)), token)
      ensures Model(lockName) == Release(old(Model(lockName)), token)
      ensures forall other :: other != lockName ==> Model(other) == old(Model(other))
    {
      ok := lockName in documents && documents[lockName].value == token;
      if ok { documents := documents - {lockName}; }
      leases := leases[lockName := (if lockName in leases then leases[lockName] else map[]) - {token}];
    }
  }
}
