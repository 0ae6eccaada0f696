/** What an observer of the session's events has seen, against the state that the engine keeps (lib/session.ts,
    `rpcRequest`): which scripts finished, what they declared, and what was processed. */
module SessionHistory {
  import opened Options
  import opened VersionedMaps
  import opened Sessions
  import opened SessionWrites
  import Scripts
  import Provisions
  import ProvisionResults
  import Sequences

  /** The last run of a level's scripts. */
  datatype Report<D> = Report(finished: bool, declared: seq<D>)

  /** The reports by level, the levels whose declarations were processed since they ran last, and how often
      that was the newest level and how many RPCs were answered in this cycle. */
  datatype History<D> = History(reports: map<nat, Report<D>>, processed: set<nat>, syncs: nat, answers: nat)

  /** What the next pass does, by what is there to be done. */
  datatype Work = Wait | Rest | RunLevel | Declare | GiveUp | Process(level: nat) | Commit

  function WorkOf<K, V, D, P>(s: Session<K, V, D, P>, o: Oracle<K, V, D, P>, limit: nat): Work {
    var levels := |s.virtualParameters| + 1;
    if s.rpcPending then Wait
    else if levels == 1 && s.declarations == [] && s.plan.list == [] && o.extra == [] then Rest
    else if |s.declarations| < levels then RunLevel
    else if o.extra != [] then Declare
    else if s.rpcCount >= 255 || levels >= 8 || s.cycle >= 255 || s.iteration >= 2 * limit * (s.cycle + 1) then GiveUp
    else if s.sync.None? || s.sync.value < levels then Process(s.sync.GetOr(0))
    else Commit
  }

  function ObservePass<K, V, D, P>(h: History<D>, s: Session<K, V, D, P>, o: Oracle<K, V, D, P>,
      limit: nat): History<D> {
    var newest := |s.virtualParameters|;
    match WorkOf(s, o, limit)
    case RunLevel =>
      if o.scriptFault then h
      else h.(reports := h.reports[newest := Report(o.finished, o.declared)], processed := h.processed - {newest})
    case Declare =>
      var before := if 0 in h.reports then h.reports[0] else Report(false, []);
      h.(reports := h.reports[0 := before.(declared := before.declared + o.extra)], processed := {})
    case Process(level) =>
      h.(processed := h.processed + {level}, syncs := if level == newest then h.syncs + 1 else h.syncs)
    case Commit => if o.next.Prerequisite? then h.(processed := {}) else h
    case _ => h
  }

  /** A new cycle begins unless nothing was processed in this one. */
  function Restarted<D>(h: History<D>): History<D> {
    History(map[], {}, 0, if h.syncs == 0 then h.answers else 0)
  }

  function Observe<K, V, D, P>(h: History<D>, s: Session<K, V, D, P>, e: Event<K, V, D, P>, limit: nat): History<D> {
    match e
    case Pass(o) => ObservePass(h, s, o, limit)
    case Response(_, _) => h.(answers := h.answers + 1)
    case CpeFault(_, _) => h.(answers := h.answers + 1, processed := {})
    case Clear => Restarted(h)
    case Add(_, _) => Restarted(h)
  }

  /** The session is as the observer has it. */
  ghost predicate Accords<K, V, D, P>(s: Session<K, V, D, P>, h: History<D>, limit: nat) {
    && |s.returned| == |s.declarations|
    && (forall i :: 0 <= i < |s.declarations| ==>
         i in h.reports && s.declarations[i] == h.reports[i].declared && s.returned[i] == h.reports[i].finished)
    && (s.sync.Some? ==> forall i :: 0 <= i < s.sync.value ==> i in h.processed)
    && s.iteration == 2 * limit * s.cycle + 2 * h.syncs
    && s.rpcCount == h.answers
  }

  /** The work decides the pass. */
  lemma PassDoes<K, V, D, P(!new)>(s: Session<K, V, D, P>, o: Oracle<K, V, D, P>, limit: nat)
    requires Active(s)
    ensures var (t, outcome) := RpcRequest(s, o, limit);
      match WorkOf(s, o, limit)
      case Wait => t == s && outcome == Request
      case Rest => t == s && outcome == Idle
      case RunLevel => (t, outcome) == RunScripts(s, o)
      case Declare =>
        (t, outcome) == (s.(sync := None, declarations := s.declarations[0 := s.declarations[0] + o.extra]), Again)
      case GiveUp =>
        t == s && outcome == Fault(
          if s.rpcCount >= 255 then "too_many_rpcs"
          else if |s.virtualParameters| >= 7 then "deeply_nested_vparams"
          else if s.cycle >= 255 then "too_many_cycles"
          else "too_many_commits")
      case Process(_) => (t, outcome) == (RunDeclarations(s, o), Again)
      case Commit => (t, outcome) == Synchronize(s, o)
  {
    CycleStartIsProduct(s.cycle + 1, limit);
    hide RunScripts, RunDeclarations, Synchronize, CycleStart;
  }

  lemma PassAccords<K, V, D, P(!new)>(s: Session<K, V, D, P>, h: History<D>, o: Oracle<K, V, D, P>, limit: nat)
    requires Active(s) && Accords(s, h, limit)
    ensures Accords(RpcRequest(s, o, limit).0, ObservePass(h, s, o, limit), limit)
  {
    WorkIsThere(s, o, limit);
    PassDoes(s, o, limit);
    hide RpcRequest, RunScripts, RunDeclarations, Synchronize, WorkOf, Active, Accords;
    match WorkOf(s, o, limit) {
      case RunLevel => RunAccords(s, h, o, limit);
      case Declare => DeclareAccords(s, h, o, limit);
      case Process(_) => ProcessAccords(s, h, o, limit);
      case Commit => CommitAccords(s, h, o, limit);
      case _ =>
    }
  }

  lemma WorkIsThere<K, V, D, P>(s: Session<K, V, D, P>, o: Oracle<K, V, D, P>, limit: nat)
    requires Active(s)
    ensures match WorkOf(s, o, limit)
      case RunLevel => !HasRun(s)
      case Declare => HasRun(s)
      case Process(level) => HasRun(s) && level == s.sync.GetOr(0)
      case Commit => HasRun(s) && s.sync == Some(|s.declarations|) && !s.rpcPending
      case _ => true
  {}

  lemma RunAccords<K, V, D, P>(s: Session<K, V, D, P>, h: History<D>, o: Oracle<K, V, D, P>, limit: nat)
    requires Active(s) && !HasRun(s) && Accords(s, h, limit)
    ensures var newest := |s.virtualParameters|;
      Accords(RunScripts(s, o).0,
        if o.scriptFault then h
        else h.(reports := h.reports[newest := Report(o.finished, o.declared)], processed := h.processed - {newest}),
          limit)
  {
    hide WriteAll, Advance, Sorted;
    AdvanceIsValid(s.device, Top(s.revisions) + 1);
  }

  lemma DeclareAccords<K, V, D, P>(s: Session<K, V, D, P>, h: History<D>, o: Oracle<K, V, D, P>, limit: nat)
    requires Active(s) && HasRun(s) && Accords(s, h, limit)
    ensures var before := if 0 in h.reports then h.reports[0] else Report(false, []);
      Accords(s.(sync := None, declarations := s.declarations[0 := s.declarations[0] + o.extra]),
        h.(reports := h.reports[0 := before.(declared := before.declared + o.extra)], processed := {}), limit)
  {
    hide Sorted;
  }

  lemma ProcessAccords<K, V, D, P>(s: Session<K, V, D, P>, h: History<D>, o: Oracle<K, V, D, P>, limit: nat)
    requires Active(s) && HasRun(s) && Accords(s, h, limit)
    ensures var level := s.sync.GetOr(0);
      Accords(RunDeclarations(s, o), h.(processed := h.processed + {level},
        syncs := if level == |s.virtualParameters| then h.syncs + 1 else h.syncs), limit)
  {
    hide Sorted, WriteAll;
  }

  lemma CommitAccords<K, V, D, P(!new)>(s: Session<K, V, D, P>, h: History<D>, o: Oracle<K, V, D, P>, limit: nat)
    requires Active(s) && HasRun(s) && s.sync == Some(|s.declarations|) && !s.rpcPending && Accords(s, h, limit)
    ensures Accords(Synchronize(s, o).0, if o.next.Prerequisite? then h.(processed := {}) else h, limit)
  {
    hide WriteAll, CommittedTo, Sorted;
  }

  lemma StepAccords<K, V, D, P(!new)>(s: Session<K, V, D, P>, h: History<D>, e: Event<K, V, D, P>, limit: nat)
    requires Sessions.Enabled(s, e) && Accords(s, h, limit)
    ensures Accords(Step(s, e, limit), Observe(h, s, e, limit), limit)
  {
    hide Sorted, WriteAll, Advance, Collapse, RpcRequest, ObservePass, CycleStart;
    match e {
      case Pass(o) => PassAccords(s, h, o, limit);
      case Response(_, _) =>
      case CpeFault(_, _) =>
      case Clear => RestartAccords(s, h, Step(s, e, limit), limit);
      case Add(_, _) => RestartAccords(s, h, Step(s, e, limit), limit);
    }
  }

  lemma RestartAccords<K, V, D, P>(s: Session<K, V, D, P>, h: History<D>, t: Session<K, V, D, P>, limit: nat)
    requires Accords(s, h, limit) && t.declarations == [] && t.returned == [] && t.sync.None?
    requires Counters(t.cycle, t.rpcCount, t.iteration) == NewCycle(Counters(s.cycle, s.rpcCount, s.iteration), limit)
    ensures Accords(t, Restarted(h), limit)
  {
    hide CycleStart;
    CycleStartIsProduct(s.cycle, limit);
    CycleStartIsProduct(s.cycle + 1, limit);
  }

  ghost function HistoryAfter<K, V, D, P(!new)>(s: Session<K, V, D, P>, h: History<D>, es: seq<Event<K, V, D, P>>,
      limit: nat): History<D>
    requires Possible(s, es, limit)
    decreases |es|
  {
    if es == [] then h else HistoryAfter(Step(s, es[0], limit), Observe(h, s, es[0], limit), es[1..], limit)
  }

  lemma {:induction false} RunAccordsAll<K, V, D, P(!new)>(s: Session<K, V, D, P>, h: History<D>, tally: Tally,
      es: seq<Event<K, V, D, P>>, limit: nat)
    requires Possible(s, es, limit) && Accords(s, h, limit)
    ensures Accords(Outcomes(s, tally, es, limit).0, HistoryAfter(s, h, es, limit), limit)
    decreases |es|
  {
    if es != [] {
      hide Accords;
      StepAccords(s, h, es[0], limit);
      RunAccordsAll(Step(s, es[0], limit), Observe(h, s, es[0], limit), Count(tally, s, es[0], limit), es[1..], limit);
    }
  }

  // ---- When levels come and go ----

  /** The newest level's scripts have come to their end in their last run. */
  predicate NewestFinished<K, V, D, P>(s: Session<K, V, D, P>, h: History<D>) {
    |s.virtualParameters| in h.reports && h.reports[|s.virtualParameters|].finished
  }

  /** All declarations of all levels were processed after the scripts that made them ran last. */
  ghost predicate AllProcessed<K, V, D, P>(s: Session<K, V, D, P>, h: History<D>) {
    forall i :: 0 <= i <= |s.virtualParameters| ==> i in h.processed
  }

  /** What one pass does to the stack, for what the observer has seen. */
  ghost predicate StackFollows<K, V, D, P(!new)>(s: Session<K, V, D, P>, h: History<D>, o: Oracle<K, V, D, P>,
      limit: nat)
    requires Active(s)
  {
    var (t, outcome) := RpcRequest(s, o, limit);
    var newest, work := |s.virtualParameters|, WorkOf(s, o, limit);
    && (work.Commit? ==> AllProcessed(s, h))
    // A level comes when its scripts are asked for, and only then.
    && (|t.revisions| > |s.revisions| <==> work.Commit? && o.next.NestedScripts?)
    && (work.Commit? && o.next.NestedScripts? ==>
         && t.virtualParameters == s.virtualParameters + [o.next.provisions]
         && t.revisions == s.revisions + [s.revisions[newest]] && !HasRun(t))
    // A level goes when nothing is left to do and its scripts have finished, and only then.
    && (|t.revisions| < |s.revisions| <==> work.Commit? && o.next.Nothing? && NewestFinished(s, h))
    && (|t.revisions| < |s.revisions| ==>
         && t.revisions == s.revisions[..newest] && t.declarations == s.declarations[..newest]
         && t.virtualParameters == if newest == 0 then [] else s.virtualParameters[..newest - 1])
    // If they have not, it stays and its scripts run again, one revision later.
    && (work.Commit? && o.next.Nothing? && !NewestFinished(s, h) ==>
         && t.revisions == s.revisions[newest := s.revisions[newest] + 1] && t.virtualParameters == s.virtualParameters
         && t.declarations == s.declarations[..newest] && !HasRun(t) && outcome == Again)
    // In all other passes the stack stays as it is.
    && (!(work.Commit? && (o.next.NestedScripts? || o.next.Nothing?)) ==>
         t.revisions == s.revisions && t.virtualParameters == s.virtualParameters)
    && (outcome == Idle <==> work.Rest? || (|t.revisions| < |s.revisions| && newest == 0))
    && (outcome == Request <==> t.rpcPending)
  }

  lemma PassFollows<K, V, D, P(!new)>(s: Session<K, V, D, P>, h: History<D>, o: Oracle<K, V, D, P>, limit: nat)
    requires Active(s) && Accords(s, h, limit)
    ensures StackFollows(s, h, o, limit)
  {
    WorkIsThere(s, o, limit);
    PassDoes(s, o, limit);
    if WorkOf(s, o, limit).Commit? {
      hide RpcRequest, WorkOf, Active, Accords, Synchronize;
      CommitFollows(s, h, o, limit);
    } else {
      hide RpcRequest, WriteAll, Advance, Synchronize, Sorted, WorkOf;
      OtherWork(s, o, limit);
    }
  }

  lemma OtherWork<K, V, D, P(!new)>(s: Session<K, V, D, P>, o: Oracle<K, V, D, P>, limit: nat)
    requires Active(s) && !WorkOf(s, o, limit).Commit?
    ensures var (t, outcome) := RpcRequest(s, o, limit);
      && t.revisions == s.revisions && t.virtualParameters == s.virtualParameters
      && (outcome == Idle <==> WorkOf(s, o, limit).Rest?) && (outcome == Request <==> t.rpcPending)
  {
    WorkIsThere(s, o, limit);
    PassDoes(s, o, limit);
    hide RpcRequest, WriteAll, Advance, Synchronize, Sorted;
  }

  lemma CommitFollows<K, V, D, P(!new)>(s: Session<K, V, D, P>, h: History<D>, o: Oracle<K, V, D, P>, limit: nat)
    requires Active(s) && HasRun(s) && s.sync == Some(|s.declarations|) && !s.rpcPending && Accords(s, h, limit)
    ensures AllProcessed(s, h)
    ensures var (t, outcome) := Synchronize(s, o);
      var newest := |s.virtualParameters|;
      && |s.revisions| == newest + 1
      && (o.next.NestedScripts? ==>
           && t.virtualParameters == s.virtualParameters + [o.next.provisions]
           && t.revisions == s.revisions + [s.revisions[newest]] && !HasRun(t) && outcome == Again)
      && (o.next.Nothing? && NewestFinished(s, h) ==>
           && t.revisions == s.revisions[..newest] && t.declarations == s.declarations[..newest]
           && t.virtualParameters == (if newest == 0 then [] else s.virtualParameters[..newest - 1])
           && outcome == if newest == 0 then Idle else Again)
      && (o.next.Nothing? && !NewestFinished(s, h) ==>
           && t.revisions == s.revisions[newest := s.revisions[newest] + 1]
                && t.virtualParameters == s.virtualParameters
           && t.declarations == s.declarations[..newest] && !HasRun(t) && outcome == Again)
      && (!o.next.NestedScripts? && !o.next.Nothing? ==>
           && t.revisions == s.revisions && t.virtualParameters == s.virtualParameters
           && outcome == if o.next.Rpc? then Request else Again)
      && (outcome == Request <==> t.rpcPending)
  {
    hide WriteAll, CommittedTo, Sorted;
  }

  /** Over every run of a session: a level leaves the stack only when its scripts have finished in their last
      run and everything was processed; until then they run again; and the session rests only when there is
      nothing to do or its root has finished. */
  lemma LevelsLeaveWhenFinished<K, V, D, P(!new)>(es: seq<Event<K, V, D, P>>, o: Oracle<K, V, D, P>, limit: nat)
    requires Possible(Init<K, V, D, P>(), es, limit)
    requires Active(Outcomes(Init<K, V, D, P>(), Tally(0, []), es, limit).0)
    ensures var start := Init<K, V, D, P>();
      StackFollows(Outcomes(start, Tally(0, []), es, limit).0, HistoryAfter(start, NoHistory(), es, limit), o, limit)
  {
    hide StackFollows, Active, Accords, Outcomes;
    var start := Init<K, V, D, P>();
    StartAccords<K, V, D, P>(limit);
    RunAccordsAll(start, NoHistory<D>(), Tally(0, []), es, limit);
    PassFollows(Outcomes(start, Tally(0, []), es, limit).0, HistoryAfter(start, NoHistory(), es, limit), o, limit);
  }

  function NoHistory<D>(): History<D> { History(map[], {}, 0, 0) }

  lemma StartAccords<K, V, D, P(!new)>(limit: nat)
    ensures Accords(Init<K, V, D, P>(), NoHistory<D>(), limit)
  {}

  /** A level whose scripts have not run runs them in its next pass, unless it is a root without provisions
      that is not asked for anything. */
  lemma ScriptsRunNext<K, V, D, P(!new)>(s: Session<K, V, D, P>, o: Oracle<K, V, D, P>, limit: nat)
    requires Active(s) && !HasRun(s)
    requires s.virtualParameters != [] || s.plan.list != [] || o.extra != []
    ensures var (t, outcome) := RpcRequest(s, o, limit);
      && t.device.revision == Top(s.revisions) + 1
      && if o.scriptFault then outcome == Fault("script") && t.declarations == s.declarations
         else outcome == Again && t.declarations == s.declarations + [o.declared]
  {
    AdvanceIsValid(s.device, Top(s.revisions) + 1);
    hide WriteAll, Advance;
  }

  /** A script that is suspended by its commit runs again up to the revision at which it stopped: that is the
      level's revision after a commit of the level. */
  lemma SuspendedGoesOn<K, V, D, P(!new), Q, R>(s: Session<K, V, D, P>, h: History<D>, o: Oracle<K, V, D, P>,
      limit: nat, script: Scripts.Script<Q, R>, eval: (map<K, V>, Q) -> R, n: nat)
    requires Active(s) && Accords(s, h, limit) && WorkOf(s, o, limit).Commit? && o.next.Nothing?
    requires !NewestFinished(s, h)
    ensures var level, t := |s.virtualParameters|, RpcRequest(s, o, limit).0;
      var x := Scripts.RunScript(script, WorldOf(s, eval), StartOf(s, level), s.revisions[level], n);
      && level < |t.revisions| && StartOf(t, level) == StartOf(s, level)
      && (x.status.Suspended? ==> t.revisions[level] == x.revision)
      && (!x.status.Suspended? ==> x.revision < t.revisions[level])
  {
    PassFollows(s, h, o, limit);
    hide RpcRequest, WorkOf, Accords, HasRun;
    var level := |s.virtualParameters|;
    Scripts.RunStopsAbove(script, WorldOf(s, eval), StartOf(s, level), s.revisions[level], n);
  }

  // ---- What is written and what is forgotten ----

  /** What an event is told to write, where it writes at all. */
  ghost function WritesOf<K, V, D, P>(s: Session<K, V, D, P>, h: History<D>, e: Event<K, V, D, P>,
      limit: nat): seq<Write<K, V>> {
    match e
    case Pass(o) => (
      match WorkOf(s, o, limit)
      case RunLevel => if o.scriptFault then [] else o.writes
      case Process(_) => o.writes
      case Commit =>
        if o.next.Nothing? && NewestFinished(s, h) && s.virtualParameters != [] then o.writes + o.returnWrites
        else o.writes
      case _ => [])
    case Response(_, ws) => ws
    case CpeFault(recoverable, ws) => if recoverable then ws else []
    case Clear => []
    case Add(_, _) => []
  }

  lemma {:induction false} GivenConcat<K, V>(a: seq<Write<K, V>>, b: seq<Write<K, V>>, k: K, before: Option<V>)
    ensures Given(a + b, k, before) == Given(b, k, Given(a, k, before))
    decreases |a|
  {
    if a == [] {
      assert a + b == b;
    } else {
      assert (a + b)[1..] == a[1..] + b;
      GivenConcat(a[1..], b, k, if a[0].key == k then a[0].value else before);
    }
  }

  lemma WritesHere<K, V>(s: Store<K, V>, ws: seq<Write<K, V>>, k: K)
    requires AtNewest(s)
    ensures Latest(WriteAll(s, ws), k) == Given(ws, k, Latest(s, k)) && AtNewest(WriteAll(s, ws))
  {
    hide WriteAll;
    WritesAreRead(s, ws, k);
    NewestIsLatest(s, k);
    NewestIsLatest(WriteAll(s, ws), k);
  }

  lemma NewestIsLatest<K, V>(s: Store<K, V>, k: K)
    requires AtNewest(s)
    ensures At(s, k, s.revision) == Latest(s, k)
  {}

  lemma WritesAbove<K, V, D, P>(s: Session<K, V, D, P>, ws: seq<Write<K, V>>, k: K)
    requires s.device.Bounded() && Fits(s)
    ensures var device := Advance(s.device, Top(s.revisions) + 1);
      device.Valid() && Latest(WriteAll(device, ws), k) == Given(ws, k, Latest(s.device, k))
  {
    AdvanceIsValid(s.device, Top(s.revisions) + 1);
    WritesHere(Advance(s.device, Top(s.revisions) + 1), ws, k);
  }

  lemma CommitKeepsLatest<K, V>(s: Store<K, V>, rev: nat, k: K)
    requires s.Bounded()
    ensures Latest(CommittedTo(s, rev), k) == Latest(s, k) && AtNewest(CommittedTo(s, rev))
  {
    CollapseReads(s, rev + 1, k, 0);
    CommitFits(s, rev);
  }

  lemma CommitWrites<K, V, D, P(!new)>(s: Session<K, V, D, P>, h: History<D>, o: Oracle<K, V, D, P>, limit: nat, k: K)
    requires Active(s) && HasRun(s) && s.sync == Some(|s.declarations|) && !s.rpcPending && Fits(s)
    requires Accords(s, h, limit)
    ensures Latest(Synchronize(s, o).0.device, k) ==
      Given(if o.next.Nothing? && NewestFinished(s, h) && s.virtualParameters != [] then o.writes + o.returnWrites
            else o.writes, k, Latest(s.device, k))
  {
    hide WriteAll, CommittedTo, Sorted, Given;
    WritesHere(s.device, o.writes, k);
    var written := WriteAll(s.device, o.writes);
    if o.next.Nothing? && NewestFinished(s, h) {
      var level := |s.declarations| - 1;
      var rev := Top(s.revisions[..level]);
      CommitKeepsLatest(written, rev, k);
      WritesHere(CommittedTo(written, rev), o.returnWrites, k);
      GivenConcat(o.writes, o.returnWrites, k, Latest(s.device, k));
    }
  }

  lemma PassWrites<K, V, D, P(!new)>(s: Session<K, V, D, P>, h: History<D>, o: Oracle<K, V, D, P>, limit: nat, k: K)
    requires Active(s) && Fits(s) && Accords(s, h, limit)
    ensures Latest(RpcRequest(s, o, limit).0.device, k) ==
      Given(WritesOf(s, h, Pass(o), limit), k, Latest(s.device, k))
  {
    WorkIsThere(s, o, limit);
    PassDoes(s, o, limit);
    hide RpcRequest, Synchronize, WorkOf, Accords, WriteAll, NewestFinished, Sorted;
    match WorkOf(s, o, limit) {
      case RunLevel =>
        WritesAbove(s, o.writes, k);
      case Process(_) => WritesHere(s.device, o.writes, k);
      case Commit => CommitWrites(s, h, o, limit, k);
      case _ =>
    }
  }

  lemma StepWrites<K, V, D, P(!new)>(s: Session<K, V, D, P>, h: History<D>, e: Event<K, V, D, P>, limit: nat, k: K)
    requires Sessions.Enabled(s, e) && (Active(s) || Finished(s)) && Fits(s) && Accords(s, h, limit)
    ensures Latest(Step(s, e, limit).device, k) == Given(WritesOf(s, h, e, limit), k, Latest(s.device, k))
  {
    match e {
      case Pass(o) => PassWrites(s, h, o, limit, k);
      case Response(_, ws) => WritesAbove(s, ws, k);
      case CpeFault(_, ws) => WritesAbove(s, ws, k);
      case Clear => CollapseReads(s.device, 1, k, 0);
      case Add(_, _) => CollapseReads(s.device, 1, k, 0);
    }
  }

  /** All that is written in a run. */
  ghost function AllWrites<K, V, D, P(!new)>(s: Session<K, V, D, P>, h: History<D>, es: seq<Event<K, V, D, P>>,
      limit: nat): seq<Write<K, V>>
    requires Possible(s, es, limit)
    decreases |es|
  {
    if es == [] then []
    else WritesOf(s, h, es[0], limit) + AllWrites(Step(s, es[0], limit), Observe(h, s, es[0], limit), es[1..], limit)
  }

  lemma {:induction false} RunWrites<K, V, D, P(!new)>(s: Session<K, V, D, P>, h: History<D>, tally: Tally,
      es: seq<Event<K, V, D, P>>, limit: nat, k: K)
    requires Possible(s, es, limit) && (Active(s) || Finished(s)) && Fits(s) && Accords(s, h, limit)
    ensures Latest(Outcomes(s, tally, es, limit).0.device, k) ==
      Given(AllWrites(s, h, es, limit), k, Latest(s.device, k))
    decreases |es|
  {
    if es != [] {
      hide Step, Observe, Accords, Fits, Active, Finished, WritesOf, Given, Latest, Count, Sessions.Enabled;
      var t, g := Step(s, es[0], limit), Observe(h, s, es[0], limit);
      StepKeepsShape(s, es[0], limit);
      StepKeepsFit(s, es[0], limit);
      StepAccords(s, h, es[0], limit);
      StepWrites(s, h, es[0], limit, k);
      RunWrites(t, g, Count(tally, s, es[0], limit), es[1..], limit, k);
      GivenConcat(WritesOf(s, h, es[0], limit), AllWrites(t, g, es[1..], limit), k, Latest(s.device, k));
    } else {
      assert Given([], k, Latest(s.device, k)) == Latest(s.device, k);
    }
  }

  /** Nothing that is written gets lost, and nothing else appears: after every run of a session the newest value
      of every key is the last one written, over all commits and clears. */
  lemma NothingWrittenIsLost<K, V, D, P(!new)>(es: seq<Event<K, V, D, P>>, limit: nat, k: K)
    requires Possible(Init<K, V, D, P>(), es, limit)
    ensures var start := Init<K, V, D, P>();
      Latest(Outcomes(start, Tally(0, []), es, limit).0.device, k) ==
        Given(AllWrites(start, NoHistory(), es, limit), k, None)
  {
    hide Outcomes, AllWrites, Given;
    StartAccords<K, V, D, P>(limit);
    RunWrites(Init<K, V, D, P>(), NoHistory<D>(), Tally(0, []), es, limit, k);
  }

  /** A request waits from the pass that makes it until its last answer, or a fault: then it is not made again. */
  lemma WaitsExactly<K, V, D, P(!new)>(s: Session<K, V, D, P>, e: Event<K, V, D, P>, o: Oracle<K, V, D, P>, limit: nat)
    requires Sessions.Enabled(s, e)
    ensures WorkOf(Step(s, e, limit), o, limit).Wait? <==>
      match e
      case Pass(oracle) => RpcRequest(s, oracle, limit).1 == Request
      case Response(hasNext, _) => hasNext
      case _ => false
  {
    if e.Pass? { RequestIsPending(s, e.oracle, limit); }
    hide RpcRequest, WriteAll, Advance, CommittedTo, Sorted;
  }

  lemma RequestIsPending<K, V, D, P(!new)>(s: Session<K, V, D, P>, o: Oracle<K, V, D, P>, limit: nat)
    requires Active(s)
    ensures RpcRequest(s, o, limit).1 == Request <==> RpcRequest(s, o, limit).0.rpcPending
  {
    hide WriteAll, CommittedTo, Sorted;
  }

  /** A clear, and added provisions, start the root over from revision 0: what was read there reads the same, all
      later revisions have become one, and with them the answers of extensions are forgotten. */
  lemma StartsOver<K, V, D, P(!new)>(s: Session<K, V, D, P>, e: Event<K, V, D, P>, limit: nat, k: K, r: nat)
    requires Sessions.Enabled(s, e) && (e.Clear? || e.Add?)
    ensures var t := Step(s, e, limit);
      && t.declarations == [] && t.virtualParameters == [] && t.sync.None? && !t.rpcPending
      && t.revisions == (if e.Clear? || s.revisions != [] then [0] else [])
      && At(t.device, k, r) ==
           (if r == 0 || Top(s.revisions) == 0 then At(s.device, k, r) else Latest(s.device, k))
      && t.extensions == (if e.Add? && Top(s.revisions) == 0 then s.extensions else map[])
  {
    hide At, Latest, Collapse, Sorted;
    CollapseReads(s.device, 1, k, r);
  }

  /** Answers of extensions are kept, the first for each question, until the level that asked is committed:
      then exactly those stay that were given up to the revision below. */
  lemma AnswersStay<K, V, D, P(!new)>(s: Session<K, V, D, P>, h: History<D>, o: Oracle<K, V, D, P>, limit: nat,
      key: (nat, string))
    requires Active(s) && Accords(s, h, limit)
    ensures var (t, work) := (RpcRequest(s, o, limit).0, WorkOf(s, o, limit));
      var gone := |t.revisions| < |s.revisions| && key.0 > Top(t.revisions);
      && (key in t.extensions <==> (key in s.extensions && !gone) || (work.RunLevel? && key in o.answers))
      && (key in t.extensions ==> t.extensions[key] == if key in s.extensions then s.extensions[key]
           else o.answers[key])
  {
    PassFollows(s, h, o, limit);
    WorkIsThere(s, o, limit);
    PassDoes(s, o, limit);
    hide RpcRequest, WorkOf, WriteAll, Advance, CommittedTo, Sorted;
  }

  /** A cleared session has nothing to do, and what is added to it is all that it runs, for no other channel. */
  lemma ClearedRunsOnlyAdded<K, V, D, P(!new)>(s: Session<K, V, D, P>, channel: string, ps: seq<P>, limit: nat,
      o: Oracle<K, V, D, P>)
    requires s.device.Bounded() && |Sequences.Elements(ps)| <= 31
    ensures var t := Step(s, Clear, limit);
      && WorkOf(t, o, limit) == (if o.extra == [] then Rest else RunLevel)
      && var u := Step(t, Add(channel, ps), limit);
         && u.plan.list == Sequences.LastOccurrences(ps)
         && forall c, x :: Provisions.Has(u.plan, c, x) <==> c == channel && x in ps
  {
    CollapsedIsBounded(s.device, 1);
    hide Collapse, Provisions.Added, Provisions.Has;
    var empty: Provisions.Plan<P> := Provisions.Plan([], map[]);
    NoneThere<P>(ps);
    ProvisionResults.AddedKeepsOrder(empty, channel, ps);
    forall c, x ensures Provisions.Has(Provisions.Added(empty, channel, ps), c, x) <==> c == channel && x in ps {
      ProvisionResults.AddedKeepsChannels(empty, channel, ps, c, x);
      NobodyHas<P>(c, x);
    }
  }

  lemma NoneThere<P(!new)>(ps: seq<P>)
    requires |Sequences.Elements(ps)| <= 31
    ensures Provisions.Room(Provisions.Plan([], map[]), ps)
    ensures Sequences.Minus([], Sequences.Elements(ps)) + Sequences.LastOccurrences(ps) == Sequences.LastOccurrences(ps)
  {
    assert Sequences.Elements<P>([]) + Sequences.Elements(ps) == Sequences.Elements(ps);
  }

  lemma NobodyHas<P(!new)>(c: string, x: P)
    ensures var empty: Provisions.Plan<P> := Provisions.Plan([], map[]); !Provisions.Has(empty, c, x)
  {}
}
