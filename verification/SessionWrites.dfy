/** The store refuses a write below the newest revision of its key, and the session does not look at the
    answer (lib/session.ts, lib/device.ts). No write of a session is ever refused. */
module SessionWrites {
  import opened Options
  import opened VersionedMaps
  import opened Sessions

  /** The store knows of no revision above the one that the newest level writes at. */
  ghost predicate Fits<K, V, D, P>(s: Session<K, V, D, P>) { |s.device.sizeDiff| <= Top(s.revisions) + 2 }

  /** Nothing in the store is newer than its revision. */
  ghost predicate AtNewest<K, V>(s: Store<K, V>) { s.Valid() && |s.sizeDiff| == s.revision + 1 }

  /** What a key holds after the writes, if it held `before`. */
  ghost function Given<K, V>(ws: seq<Write<K, V>>, k: K, before: Option<V>): Option<V>
    decreases |ws|
  {
    if ws == [] then before else Given(ws[1..], k, if ws[0].key == k then ws[0].value else before)
  }

  /** At the newest revision every write is read back, the last one for each key. */
  lemma {:induction false} WritesAreRead<K, V>(s: Store<K, V>, ws: seq<Write<K, V>>, k: K)
    requires AtNewest(s)
    ensures AtNewest(WriteAll(s, ws))
    ensures At(WriteAll(s, ws), k, s.revision) == Given(ws, k, At(s, k, s.revision))
    decreases |ws|
  {
    if ws != [] {
      var w := ws[0];
      if w.value.Some? {
        PutReads(s, w.key, w.value.value, s.revision, k, s.revision);
        WritesAreRead(Put(s, w.key, w.value.value, s.revision), ws[1..], k);
      } else {
        RemoveReads(s, w.key, s.revision, k, s.revision);
        WritesAreRead(Remove(s, w.key, s.revision), ws[1..], k);
      }
    }
  }

  lemma {:induction false} WritesKeepRevisions<K, V>(s: Store<K, V>, ws: seq<Write<K, V>>)
    requires s.Valid()
    ensures |WriteAll(s, ws).sizeDiff| == |s.sizeDiff|
    decreases |ws|
  {
    if ws != [] {
      var w := ws[0];
      WritesKeepRevisions(
        if w.value.Some? then Put(s, w.key, w.value.value, s.revision) else Remove(s, w.key, s.revision), ws[1..]);
    }
  }

  lemma CommitFits<K, V>(s: Store<K, V>, rev: nat)
    requires s.Bounded()
    ensures AtNewest(CommittedTo(s, rev))
  {}

  lemma FinishKeepsFit<K, V, D, P(!new)>(s: Session<K, V, D, P>, o: Oracle<K, V, D, P>)
    requires Active(s) && HasRun(s) && s.sync == Some(|s.declarations|) && !s.rpcPending && Fits(s)
    ensures Fits(FinishLevel(s, o).0)
  {
    hide CommittedTo;
    var level := |s.declarations| - 1;
    if s.returned[level] {
      var rev := Top(s.revisions[..level]);
      CommitFits(s.device, rev);
      WritesKeepRevisions(CommittedTo(s.device, rev), o.returnWrites);
    }
  }

  lemma PassKeepsFit<K, V, D, P(!new)>(s: Session<K, V, D, P>, o: Oracle<K, V, D, P>, limit: nat)
    requires Active(s) && Fits(s)
    ensures Fits(RpcRequest(s, o, limit).0)
  {
    hide WriteAll, FinishLevel, Exceeded, Sorted;
    if !HasRun(s) {
      AdvanceIsValid(s.device, Top(s.revisions) + 1);
      WritesKeepRevisions(Advance(s.device, Top(s.revisions) + 1), o.writes);
    } else {
      WritesKeepRevisions(s.device, o.writes);
      if s.sync == Some(|s.declarations|) && !s.rpcPending {
        FinishKeepsFit(s.(device := WriteAll(s.device, o.writes)), o);
      }
    }
  }

  lemma StepKeepsFit<K, V, D, P(!new)>(s: Session<K, V, D, P>, e: Event<K, V, D, P>, limit: nat)
    requires Sessions.Enabled(s, e) && Fits(s)
    ensures Fits(Step(s, e, limit))
  {
    match e {
      case Pass(o) => PassKeepsFit(s, o, limit);
      case Response(_, ws) =>
        AdvanceIsValid(s.device, Top(s.revisions) + 1);
        WritesKeepRevisions(Advance(s.device, Top(s.revisions) + 1), ws);
      case CpeFault(_, ws) =>
        AdvanceIsValid(s.device, Top(s.revisions) + 1);
        WritesKeepRevisions(Advance(s.device, Top(s.revisions) + 1), ws);
      case Clear =>
      case Add(_, _) =>
    }
  }

  lemma {:induction false} RunKeepsFit<K, V, D, P(!new)>(s: Session<K, V, D, P>, tally: Tally,
      es: seq<Event<K, V, D, P>>, limit: nat)
    requires Fits(s) && Possible(s, es, limit)
    ensures Fits(Outcomes(s, tally, es, limit).0)
    decreases |es|
  {
    if es != [] {
      StepKeepsFit(s, es[0], limit);
      RunKeepsFit(Step(s, es[0], limit), Count(tally, s, es[0], limit), es[1..], limit);
    }
  }

  /** Writes at the revision above the stack are read back. */
  ghost predicate Accepts<K, V>(device: Store<K, V>, ws: seq<Write<K, V>>, k: K)
    requires device.Valid()
  {
    At(WriteAll(device, ws), k, device.revision) == Given(ws, k, At(device, k, device.revision))
  }

  lemma AboveStack<K, V, D, P>(s: Session<K, V, D, P>, ws: seq<Write<K, V>>, k: K)
    requires s.device.Bounded() && Fits(s)
    ensures var device := Advance(s.device, Top(s.revisions) + 1); device.Valid() && Accepts(device, ws, k)
  {
    AdvanceIsValid(s.device, Top(s.revisions) + 1);
    WritesAreRead(Advance(s.device, Top(s.revisions) + 1), ws, k);
  }

  lemma AfterCommit<K, V>(s: Store<K, V>, rev: nat, ws: seq<Write<K, V>>, k: K)
    requires s.Bounded()
    ensures Accepts(CommittedTo(s, rev), ws, k)
  {
    hide CommittedTo;
    CommitFits(s, rev);
    WritesAreRead(CommittedTo(s, rev), ws, k);
  }

  /** After every run of a session: whatever is written at the revision above its stack is accepted, and
      is what can be read there. This holds for the newest level, and for the level below when the newest
      is committed. */
  lemma NoWriteIsRefused<K, V, D, P(!new)>(es: seq<Event<K, V, D, P>>, limit: nat, ws: seq<Write<K, V>>, k: K)
    requires Possible(Init<K, V, D, P>(), es, limit)
    ensures var t := Outcomes(Init<K, V, D, P>(), Tally(0, []), es, limit).0;
      && t.device.Bounded()
      && (var device := Advance(t.device, Top(t.revisions) + 1); device.Valid() && Accepts(device, ws, k))
      && (forall rev: nat :: Accepts(CommittedTo(t.device, rev), ws, k))
  {
    hide CommittedTo, Accepts, Counts, Tallied, Possible, Outcomes, Sorted;
    StartCounts<K, V, D, P>(limit);
    var t := Outcomes(Init<K, V, D, P>(), Tally(0, []), es, limit).0;
    RunKeepsFit(Init<K, V, D, P>(), Tally(0, []), es, limit);
    RunKeepsCounts(Init<K, V, D, P>(), Tally(0, []), es, limit);
    AboveStack(t, ws, k);
    forall rev: nat ensures Accepts(CommittedTo(t.device, rev), ws, k) { AfterCommit(t.device, rev, ws, k); }
  }
}
