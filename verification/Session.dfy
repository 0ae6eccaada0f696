/** The session engine (lib/session.ts): the stack of scripts that `rpcRequest` runs, the revisions it
    runs them at, and the counters that bound it. */
module Sessions {
  import opened Options
  import opened VersionedMaps
  import opened Scripts
  import Provisions

  /** A write at the current revision: a value, or a deletion. */
  datatype Write<K, V> = Write(key: K, value: Option<V>)

  /** The fields of the session context that the engine moves. `D` is a declaration and `P` a provision.
      `returned[i]` is whether the scripts of level `i` have come to their end, and `sync` holds the
      number of levels whose declarations are processed, if there is a sync state. */
  datatype Session<K, V, D, P> = Session(
    device: Store<K, V>,
    plan: Provisions.Plan<P>,
    virtualParameters: seq<seq<P>>,
    revisions: seq<nat>,
    declarations: seq<seq<D>>,
    returned: seq<bool>,
    sync: Option<nat>,
    rpcPending: bool,
    rpcCount: nat,
    iteration: nat,
    cycle: nat,
    extensions: map<(nat, string), string>)

  /** What one pass of `rpcRequest` is told by the code it calls: what the scripts and the
      declarations produce, what is written to the device, what comes out of the sync state, and what is written for the
      virtual parameters that a finished level returns. */
  datatype Oracle<K, V, D, P> = Oracle(
    extra: seq<D>,
    scriptFault: bool,
    declared: seq<D>,
    finished: bool,
    answers: map<(nat, string), string>,
    writes: seq<Write<K, V>>,
    next: Next<P>,
    returnWrites: seq<Write<K, V>>)

  /** Virtual parameters to run, an RPC to send, a prerequisite that changed, data that was cleared, or nothing more. */
  datatype Next<P> = NestedScripts(provisions: seq<P>) | Rpc | Prerequisite | Cleared | Nothing

  datatype Outcome = Again | Idle | Request | Fault(code: string)

  datatype Event<K, V, D, P> =
    | Pass(oracle: Oracle<K, V, D, P>)
    | Response(hasNext: bool, responseWrites: seq<Write<K, V>>)
    | CpeFault(recoverable: bool, faultWrites: seq<Write<K, V>>)
    | Clear
    | Add(channel: string, provisions: seq<P>)

  /** The newest revision on the stack, read as 0 when there is none. */
  function Top(revisions: seq<nat>): nat { if revisions == [] then 0 else revisions[|revisions| - 1] }

  ghost function WriteAll<K, V>(s: Store<K, V>, ws: seq<Write<K, V>>): (t: Store<K, V>)
    requires s.Valid()
    ensures t.Valid() && t.revision == s.revision
    decreases ws
  {
    if ws == [] then s
    else if ws[0].value.Some? then WriteAll(Put(s, ws[0].key, ws[0].value.value, s.revision), ws[1..])
    else WriteAll(Remove(s, ws[0].key, s.revision), ws[1..])
  }

  // ---- The shape of the stack ----

  ghost predicate Sorted(s: seq<nat>) { forall i, j :: 0 <= i <= j < |s| ==> s[i] <= s[j] }

  /** Between a cleared session and the end of its root script: one revision for each level, declarations
      for every level or for all but the newest, and once the newest level has run, the device stands
      one revision above it. */
  ghost predicate Active<K, V, D, P>(s: Session<K, V, D, P>) {
    && |s.revisions| == |s.virtualParameters| + 1
    && |s.virtualParameters| <= |s.declarations| <= |s.virtualParameters| + 1
    && |s.returned| == |s.declarations|
    && Sorted(s.revisions)
    && s.device.Bounded()
    && (s.rpcPending ==> HasRun(s))
    && (HasRun(s) ==> s.device.Valid() && s.device.revision == Top(s.revisions) + 1)
    && (s.sync.Some? ==> s.sync.value <= |s.declarations|)
  }

  predicate HasRun<K, V, D, P>(s: Session<K, V, D, P>) { |s.declarations| == |s.virtualParameters| + 1 }

  /** The root script has come to its end. */
  ghost predicate Finished<K, V, D, P>(s: Session<K, V, D, P>) {
    && s.revisions == [] && s.virtualParameters == [] && s.declarations == [] && s.returned == []
    && s.device.Bounded() && !s.rpcPending
    && (s.sync.Some? ==> s.sync.value == 0)
  }

  // ---- The steps ----

  /** The iteration at which a cycle starts. Every commit iteration counts twice, for its read and its update phase. */
  function CycleStart(cycle: nat, limit: nat): nat {
    if cycle == 0 then 0 else CycleStart(cycle - 1, limit) + 2 * limit
  }

  lemma {:induction false} CycleStartIsProduct(cycle: nat, limit: nat)
    ensures CycleStart(cycle, limit) == 2 * limit * cycle
  {
    if cycle > 0 { CycleStartIsProduct(cycle - 1, limit); }
  }

  /** The limits that a pass checks, in the order it checks them. */
  function Exceeded<K, V, D, P>(s: Session<K, V, D, P>, limit: nat): Option<string> {
    if s.rpcCount >= 255 then Some("too_many_rpcs")
    else if |s.revisions| >= 8 then Some("deeply_nested_vparams")
    else if s.cycle >= 255 then Some("too_many_cycles")
    else if s.iteration >= CycleStart(s.cycle + 1, limit) then Some("too_many_commits")
    else None
  }

  /** One pass of `rpcRequest`, up to the next time it calls itself. */
  ghost function RpcRequest<K, V, D, P>(s: Session<K, V, D, P>, o: Oracle<K, V, D, P>,
      limit: nat): (Session<K, V, D, P>, Outcome)
    requires Active(s)
  {
    if s.rpcPending then (s, Request)
    else if s.virtualParameters == [] && s.declarations == [] && o.extra == [] && s.plan.list == [] then (s, Idle)
    else if |s.declarations| <= |s.virtualParameters| then RunScripts(s, o)
    else if o.extra != [] then
      (s.(sync := None, declarations := s.declarations[0 := s.declarations[0] + o.extra]), Again)
    else if Exceeded(s, limit).Some? then (s, Fault(Exceeded(s, limit).value))
    else if s.sync.None? || s.sync.value < |s.declarations| then (RunDeclarations(s, o), Again)
    else Synchronize(s, o)
  }

  /** The scripts of the newest level run, from the revision below it. */
  ghost function RunScripts<K, V, D, P>(s: Session<K, V, D, P>, o: Oracle<K, V, D, P>): (Session<K, V, D, P>, Outcome)
    requires Active(s) && !HasRun(s)
  {
    var device := Advance(s.device, Top(s.revisions) + 1);
    AdvanceIsValid(s.device, Top(s.revisions) + 1);
    if o.scriptFault then (s.(device := device, extensions := o.answers + s.extensions), Fault("script"))
    else
      (s.(device := WriteAll(device, o.writes), declarations := s.declarations + [o.declared],
        returned := s.returned + [o.finished],
          extensions := o.answers + s.extensions), Again)
  }

  lemma AdvanceIsValid<K, V>(s: Store<K, V>, rev: nat)
    requires s.Bounded()
    ensures Advance(s, rev).Valid() && Advance(s, rev).revision == rev
  {}

  /** The declarations of one more level are processed; only the newest level counts as an iteration. */
  ghost function RunDeclarations<K, V, D, P>(s: Session<K, V, D, P>, o: Oracle<K, V, D, P>): Session<K, V, D, P>
    requires Active(s) && HasRun(s)
  {
    s.(iteration := if s.sync.GetOr(0) == |s.declarations| - 1 then s.iteration + 2 else s.iteration,
       device := WriteAll(s.device, o.writes), sync := Some(s.sync.GetOr(0) + 1))
  }

  /** Every level is processed: run nested scripts, send an RPC, start over, or finish the newest level. */
  ghost function Synchronize<K, V, D, P>(s: Session<K, V, D, P>, o: Oracle<K, V, D, P>): (Session<K, V, D, P>, Outcome)
    requires Active(s) && HasRun(s) && s.sync == Some(|s.declarations|) && !s.rpcPending
  {
    var t := s.(device := WriteAll(s.device, o.writes));
    match o.next
    case NestedScripts(provisions) =>
      (t.(virtualParameters := s.virtualParameters + [provisions], revisions := s.revisions + [Top(s.revisions)]),
        Again)
    case Rpc => (t.(rpcPending := true), Request)
    case Prerequisite => (t.(sync := None), Again)
    case Cleared => (t, Again)
    case Nothing => FinishLevel(t, o)
  }

  /** The newest level commits. If its scripts are not at their end they run again one revision later;
      otherwise its revisions become one revision of the level below. */
  ghost function FinishLevel<K, V, D, P>(s: Session<K, V, D, P>, o: Oracle<K, V, D, P>): (Session<K, V, D, P>, Outcome)
    requires Active(s) && HasRun(s) && s.sync == Some(|s.declarations|) && !s.rpcPending
  {
    var level := |s.declarations| - 1;
    if !s.returned[level] then
      (Session(s.device, s.plan, s.virtualParameters, s.revisions[level := s.revisions[level] + 1],
               s.declarations[..level], s.returned[..level], Some(level), false,
               s.rpcCount, s.iteration, s.cycle, s.extensions), Again)
    else
      var revisions := s.revisions[..level];
      var device := CommittedTo(s.device, Top(revisions));
      (Session(if level == 0 then device else WriteAll(device, o.returnWrites), s.plan,
               if level == 0 then [] else s.virtualParameters[..level - 1], revisions,
               s.declarations[..level], s.returned[..level], Some(level), false,
               s.rpcCount, s.iteration, s.cycle, ExtensionsUpTo(s.extensions, Top(revisions))),
       if level == 0 then Idle else Again)
  }

  /** Everything above a revision becomes the one revision after it. */
  ghost function CommittedTo<K, V>(s: Store<K, V>, rev: nat): (t: Store<K, V>)
    requires s.Bounded()
    ensures t.Valid() && t.revision == rev + 1
  {
    CollapsedIsBounded(s, rev + 1);
    AdvanceIsValid(Collapse(s, rev + 1), rev + 1);
    Advance(Collapse(s, rev + 1), rev + 1)
  }

  function ExtensionsUpTo(extensions: map<(nat, string), string>, rev: nat): map<(nat, string), string> {
    map key <- extensions | key.0 <= rev :: extensions[key]
  }

  lemma CollapsedIsBounded<K, V>(s: Store<K, V>, rev: nat)
    requires s.Bounded()
    ensures Collapse(s, rev).Bounded()
  {}

  /** `rpcResponse` for the pending request; `hasNext` when the request has a follow-up. */
  ghost function RpcResponse<K, V, D, P>(s: Session<K, V, D, P>, hasNext: bool,
      ws: seq<Write<K, V>>): Session<K, V, D, P>
    requires Active(s) && s.rpcPending
  {
    s.(rpcCount := s.rpcCount + 1, rpcPending := hasNext,
      device := WriteAll(Advance(s.device, Top(s.revisions) + 1), ws))
  }

  /** `rpcFault` for the pending request; only an unknown parameter name is recovered from, by clearing it. */
  ghost function RpcFault<K, V, D, P>(s: Session<K, V, D, P>, recoverable: bool,
      ws: seq<Write<K, V>>): Session<K, V, D, P>
    requires Active(s) && s.rpcPending
  {
    s.(sync := None, rpcPending := false, rpcCount := s.rpcCount + 1,
       device := if recoverable then WriteAll(Advance(s.device, Top(s.revisions) + 1), ws) else s.device)
  }

  /** The cycle, its count of RPCs and the iteration. */
  datatype Counters = Counters(cycle: nat, rpcCount: nat, iteration: nat)

  /** The start of a new cycle, unless the session has done nothing in this one. */
  function NewCycle(c: Counters, limit: nat): Counters {
    if c.iteration == CycleStart(c.cycle, limit) then c
    else Counters(c.cycle + 1, 0, CycleStart(c.cycle + 1, limit))
  }

  ghost function ClearProvisions<K, V, D, P>(s: Session<K, V, D, P>, limit: nat): Session<K, V, D, P>
    requires s.device.Bounded()
  {
    var c := NewCycle(Counters(s.cycle, s.rpcCount, s.iteration), limit);
    Session(if Top(s.revisions) > 0 then Collapse(s.device, 1) else s.device, Provisions.Plan([], map[]),
            [], [0], [], [], None, false, c.rpcCount, c.iteration, c.cycle, map[])
  }

  /** What `addProvisions` does to the rest of the session before it adds the provisions. */
  ghost function Restart<K, V, D, P>(s: Session<K, V, D, P>, limit: nat): Session<K, V, D, P>
    requires s.device.Bounded()
  {
    var c := NewCycle(Counters(s.cycle, s.rpcCount, s.iteration), limit);
    Session(if Top(s.revisions) > 0 then Collapse(s.device, 1) else s.device, s.plan,
            s.virtualParameters, if Top(s.revisions) > 0 then [0] else s.revisions, [], [], None, false,
            c.rpcCount, c.iteration, c.cycle, if Top(s.revisions) > 0 then map[] else s.extensions)
  }

  /** `addProvisions` on a session without nested scripts. */
  ghost function AddProvisions<K, V, D, P(!new)>(s: Session<K, V, D, P>, channel: string, ps: seq<P>,
      limit: nat): Session<K, V, D, P>
    requires s.device.Bounded()
  {
    Restart(s, limit).(plan := Provisions.Added(s.plan, channel, ps))
  }

  /** When a step can be taken. A finished session is cleared before it goes on, and provisions are
      added to a session that has no nested scripts. */
  ghost predicate Enabled<K, V, D, P>(s: Session<K, V, D, P>, e: Event<K, V, D, P>) {
    match e
    case Pass(_) => Active(s)
    case Response(_, _) => Active(s) && s.rpcPending
    case CpeFault(_, _) => Active(s) && s.rpcPending
    case Clear => s.device.Bounded()
    case Add(_, _) => (Active(s) || Finished(s)) && s.virtualParameters == []
  }

  ghost function Step<K, V, D, P(!new)>(s: Session<K, V, D, P>, e: Event<K, V, D, P>, limit: nat): Session<K, V, D, P>
    requires Enabled(s, e)
  {
    match e
    case Pass(oracle) => RpcRequest(s, oracle, limit).0
    case Response(hasNext, ws) => RpcResponse(s, hasNext, ws)
    case CpeFault(recoverable, ws) => RpcFault(s, recoverable, ws)
    case Clear => ClearProvisions(s, limit)
    case Add(channel, ps) => AddProvisions(s, channel, ps, limit)
  }

  // ---- Every step keeps the shape ----

  lemma StepKeepsShape<K, V, D, P(!new)>(s: Session<K, V, D, P>, e: Event<K, V, D, P>, limit: nat)
    requires Enabled(s, e)
    ensures Active(Step(s, e, limit)) || Finished(Step(s, e, limit))
    ensures e.Clear? ==> Active(Step(s, e, limit))
  {
    match e {
      case Pass(o) => PassKeepsShape(s, o, limit);
      case Response(_, _) => AdvanceIsValid(s.device, Top(s.revisions) + 1);
      case CpeFault(_, _) => AdvanceIsValid(s.device, Top(s.revisions) + 1);
      case Clear => CollapsedIsBounded(s.device, 1);
      case Add(_, _) => CollapsedIsBounded(s.device, 1);
    }
  }

  lemma PassKeepsShape<K, V, D, P(!new)>(s: Session<K, V, D, P>, o: Oracle<K, V, D, P>, limit: nat)
    requires Active(s)
    ensures Active(RpcRequest(s, o, limit).0) || Finished(RpcRequest(s, o, limit).0)
  {
    if HasRun(s) {
      if s.sync == Some(|s.declarations|) && !s.rpcPending {
        SynchronizeKeepsShape(s, o);
      }
    } else {
      AdvanceIsValid(s.device, Top(s.revisions) + 1);
    }
  }

  lemma SynchronizeKeepsShape<K, V, D, P(!new)>(s: Session<K, V, D, P>, o: Oracle<K, V, D, P>)
    requires Active(s) && HasRun(s) && s.sync == Some(|s.declarations|) && !s.rpcPending
    ensures Active(Synchronize(s, o).0) || Finished(Synchronize(s, o).0)
  {
    hide Active, Finished, FinishLevel, WriteAll;
    DeviceIsReady(s);
    StillActive(s, WriteAll(s.device, o.writes), s.sync, o.next.Rpc?);
    match o.next
    case Nothing => FinishKeepsShape(s.(device := WriteAll(s.device, o.writes)), o);
    case NestedScripts(provisions) => NestingKeepsShape(s.(device := WriteAll(s.device, o.writes)), provisions);
    case Prerequisite => StillActive(s, WriteAll(s.device, o.writes), None, false);
    case _ =>
  }

  lemma DeviceIsReady<K, V, D, P>(s: Session<K, V, D, P>)
    requires Active(s) && HasRun(s)
    ensures s.device.Valid() && s.device.revision == Top(s.revisions) + 1
  {}

  lemma StillActive<K, V, D, P>(s: Session<K, V, D, P>, device: Store<K, V>, sync: Option<nat>, pending: bool)
    requires Active(s) && HasRun(s) && device.Valid() && device.revision == s.device.revision
    requires sync.None? || sync == s.sync
    ensures Active(s.(device := device, sync := sync, rpcPending := pending))
  {}

  lemma NestingKeepsShape<K, V, D, P>(s: Session<K, V, D, P>, provisions: seq<P>)
    requires Active(s) && HasRun(s) && !s.rpcPending
    ensures Active(s.(virtualParameters := s.virtualParameters + [provisions],
                      revisions := s.revisions + [Top(s.revisions)]))
  {}

  lemma FinishKeepsShape<K, V, D, P(!new)>(s: Session<K, V, D, P>, o: Oracle<K, V, D, P>)
    requires Active(s) && HasRun(s) && s.sync == Some(|s.declarations|) && !s.rpcPending
    ensures Active(FinishLevel(s, o).0) || Finished(FinishLevel(s, o).0)
  {}

  // ---- What a script has read stays as it was ----

  /** While a level is on the stack: the levels below it are as they were, it has not gone back, and
      everything at or below the revision it had is still answered the same. */
  ghost predicate Kept<K, V, D, P>(s: Session<K, V, D, P>, t: Session<K, V, D, P>, level: nat) {
    && level < |s.revisions| && level < |t.revisions|
    && s.revisions[..level] == t.revisions[..level]
    && s.revisions[level] <= t.revisions[level]
    && SameUpTo(s.device, t.device, s.revisions[level])
    && forall key <- s.extensions :: key.0 <= s.revisions[level] ==>
         key in t.extensions && t.extensions[key] == s.extensions[key]
  }

  lemma SameView<K, V>(a: Store<K, V>, b: Store<K, V>, r: nat)
    requires forall k <- a.entries.Keys + b.entries.Keys :: At(a, k, r) == At(b, k, r)
    ensures View(a, r) == View(b, r)
  {
    forall k
      ensures k in View(a, r) <==> k in View(b, r)
      ensures k in View(a, r) ==> View(a, r)[k] == View(b, r)[k]
    {}
  }

  lemma {:induction false} WritesKeepView<K, V>(s: Store<K, V>, ws: seq<Write<K, V>>, r: nat)
    requires s.Valid() && r < s.revision
    ensures View(WriteAll(s, ws), r) == View(s, r)
    decreases ws
  {
    if ws != [] {
      var w := ws[0];
      var t := if w.value.Some? then Put(s, w.key, w.value.value, s.revision) else Remove(s, w.key, s.revision);
      forall k ensures At(t, k, r) == At(s, k, r) {
        if w.value.Some? {
          PutReads(s, w.key, w.value.value, s.revision, k, r);
        } else {
          RemoveReads(s, w.key, s.revision, k, r);
        }
      }
      SameView(t, s, r);
      WritesKeepView(t, ws[1..], r);
    }
  }

  lemma AdvanceKeepsView<K, V>(s: Store<K, V>, rev: nat, r: nat)
    requires s.Bounded()
    ensures View(Advance(s, rev), r) == View(s, r)
  {
    forall k ensures At(Advance(s, rev), k, r) == At(s, k, r) { AdvanceReads(s, rev, k, r); }
    SameView(Advance(s, rev), s, r);
  }

  lemma CollapseKeepsView<K, V>(s: Store<K, V>, rev: nat, r: nat)
    requires s.Bounded() && r < rev
    ensures View(Collapse(s, rev), r) == View(s, r)
  {
    forall k ensures At(Collapse(s, rev), k, r) == At(s, k, r) { CollapseReads(s, rev, k, r); }
    SameView(Collapse(s, rev), s, r);
  }

  /** Setting a revision above `r` and writing there leaves the view at `r` alone. */
  lemma AdvanceAndWriteKeepView<K, V>(s: Store<K, V>, rev: nat, ws: seq<Write<K, V>>, r: nat)
    requires s.Bounded() && r < rev && Advance(s, rev).Valid()
    ensures View(WriteAll(Advance(s, rev), ws), r) == View(s, r)
  {
    AdvanceKeepsView(s, rev, r);
    WritesKeepView(Advance(s, rev), ws, r);
  }

  ghost predicate WithinScript<K, V, D, P>(e: Event<K, V, D, P>) { e.Pass? || e.Response? || e.CpeFault? }

  lemma FinishKeepsLevel<K, V, D, P(!new)>(s: Session<K, V, D, P>, o: Oracle<K, V, D, P>, level: nat)
    requires Active(s) && HasRun(s) && s.sync == Some(|s.declarations|) && !s.rpcPending
    requires level < |s.revisions| && level < |FinishLevel(s, o).0.revisions|
    ensures Kept(s, FinishLevel(s, o).0, level)
  {
    var t := FinishLevel(s, o).0;
    var top := |s.declarations| - 1;
    if s.returned[top] {
      var rev := Top(s.revisions[..top]) + 1;
      CollapsedIsBounded(s.device, rev);
      AdvanceIsValid(Collapse(s.device, rev), rev);
      assert level < top;
      forall r: nat | r <= s.revisions[level] ensures View(s.device, r) == View(t.device, r) {
        CollapseKeepsView(s.device, rev, r);
        AdvanceKeepsView(Collapse(s.device, rev), rev, r);
        AdvanceAndWriteKeepView(Collapse(s.device, rev), rev, o.returnWrites, r);
      }
    }
  }

  /** A step that only writes above `Top` and does not take the level back. */
  lemma WritingKeepsLevel<K, V, D, P>(s: Session<K, V, D, P>, t: Session<K, V, D, P>, ws: seq<Write<K, V>>, level: nat)
    requires Active(s) && level < |s.revisions| && s.revisions <= t.revisions && t.extensions == s.extensions
    requires HasRun(s) && t.device == WriteAll(s.device, ws)
    ensures Kept(s, t, level)
  {
    assert s.revisions[..level] == t.revisions[..level];
    forall r: nat | r <= s.revisions[level] ensures View(s.device, r) == View(t.device, r) {
      WritesKeepView(s.device, ws, r);
    }
  }

  lemma SynchronizeKeepsLevel<K, V, D, P(!new)>(s: Session<K, V, D, P>, o: Oracle<K, V, D, P>, level: nat)
    requires Active(s) && HasRun(s) && s.sync == Some(|s.declarations|) && !s.rpcPending
    requires level < |s.revisions| && level < |Synchronize(s, o).0.revisions|
    ensures Kept(s, Synchronize(s, o).0, level)
  {
    var written := s.(device := WriteAll(s.device, o.writes));
    WritingKeepsLevel(s, written, o.writes, level);
    if o.next.Nothing? {
      FinishKeepsLevel(written, o, level);
      KeptTransitive(s, written, Synchronize(s, o).0, level);
    } else {
      WritingKeepsLevel(s, Synchronize(s, o).0, o.writes, level);
    }
  }

  lemma KeptTransitive<K, V, D, P>(s: Session<K, V, D, P>, t: Session<K, V, D, P>, u: Session<K, V, D, P>, level: nat)
    requires Kept(s, t, level) && Kept(t, u, level)
    ensures Kept(s, u, level)
  {
    forall r: nat | r <= s.revisions[level] ensures View(s.device, r) == View(u.device, r) {
      assert View(s.device, r) == View(t.device, r);
    }
  }

  lemma RunScriptsKeepLevel<K, V, D, P(!new)>(s: Session<K, V, D, P>, o: Oracle<K, V, D, P>, level: nat)
    requires Active(s) && !HasRun(s) && level < |s.revisions|
    ensures Kept(s, RunScripts(s, o).0, level)
  {
    AdvanceIsValid(s.device, Top(s.revisions) + 1);
    forall r: nat | r <= s.revisions[level] ensures View(s.device, r) == View(RunScripts(s, o).0.device, r) {
      AdvanceKeepsView(s.device, Top(s.revisions) + 1, r);
      AdvanceAndWriteKeepView(s.device, Top(s.revisions) + 1, o.writes, r);
    }
  }

  lemma PassKeepsLevel<K, V, D, P(!new)>(s: Session<K, V, D, P>, o: Oracle<K, V, D, P>, limit: nat, level: nat)
    requires Active(s) && level < |s.revisions| && level < |RpcRequest(s, o, limit).0.revisions|
    ensures Kept(s, RpcRequest(s, o, limit).0, level)
  {
    if !HasRun(s) {
      RunScriptsKeepLevel(s, o, level);
    } else {
      WritingKeepsLevel(s, s, [], level);
      if !s.rpcPending && o.extra == [] && Exceeded(s, limit).None? {
        if s.sync == Some(|s.declarations|) {
          SynchronizeKeepsLevel(s, o, level);
        } else {
          WritingKeepsLevel(s, RunDeclarations(s, o), o.writes, level);
        }
      }
    }
  }

  lemma StepKeepsLevel<K, V, D, P(!new)>(s: Session<K, V, D, P>, e: Event<K, V, D, P>, limit: nat, level: nat)
    requires Active(s) && Enabled(s, e) && WithinScript(e)
    requires level < |s.revisions| && level < |Step(s, e, limit).revisions|
    ensures Kept(s, Step(s, e, limit), level)
  {
    if e.Pass? {
      PassKeepsLevel(s, e.oracle, limit, level);
    } else {
      var ws := if e.Response? then e.responseWrites else e.faultWrites;
      AdvanceIsValid(s.device, Top(s.revisions) + 1);
      forall r: nat | r <= s.revisions[level] ensures View(s.device, r) == View(Step(s, e, limit).device, r) {
        AdvanceAndWriteKeepView(s.device, Top(s.revisions) + 1, ws, r);
      }
    }
  }

  /** A run of steps during which `level` stays on the stack. */
  ghost predicate Stays<K, V, D, P(!new)>(s: Session<K, V, D, P>, es: seq<Event<K, V, D, P>>, limit: nat, level: nat)
    decreases es
  {
    && Active(s) && level < |s.revisions|
    && (es != [] ==> Enabled(s, es[0]) && WithinScript(es[0]) && Stays(Step(s, es[0], limit), es[1..], limit, level))
  }

  ghost function After<K, V, D, P(!new)>(s: Session<K, V, D, P>, es: seq<Event<K, V, D, P>>, limit: nat,
      level: nat): Session<K, V, D, P>
    requires Stays(s, es, limit, level)
    decreases es
  {
    if es == [] then s else After(Step(s, es[0], limit), es[1..], limit, level)
  }

  lemma {:induction false} RunKeepsLevel<K, V, D, P(!new)>(s: Session<K, V, D, P>, es: seq<Event<K, V, D, P>>,
      limit: nat, level: nat)
    requires Stays(s, es, limit, level)
    ensures Kept(s, After(s, es, limit, level), level)
    decreases es
  {
    if es != [] {
      StepKeepsLevel(s, es[0], limit, level);
      RunKeepsLevel(Step(s, es[0], limit), es[1..], limit, level);
      KeptTransitive(s, Step(s, es[0], limit), After(s, es, limit, level), level);
    }
  }

  ghost function WorldOf<K, V, D, P, Q, R>(s: Session<K, V, D, P>, eval: (map<K, V>, Q) -> R): World<K, V, Q, R> {
    World(s.device, s.extensions, eval)
  }

  /** The revision below a level, at which its scripts start. */
  ghost function StartOf<K, V, D, P>(s: Session<K, V, D, P>, level: nat): nat
    requires level < |s.revisions|
  {
    if level == 0 then 0 else s.revisions[level - 1]
  }

  /** Whatever happens while a level is on the stack (nested scripts, their commits and collapses, RPCs
      and faults), a script of that level that runs again goes through everything that it went
      through before, with the same answers. */
  lemma ReplayIsStable<K, V, D, P(!new), Q, R>(s: Session<K, V, D, P>, es: seq<Event<K, V, D, P>>, limit: nat,
      level: nat, script: Script<Q, R>, eval: (map<K, V>, Q) -> R, n: nat)
    requires Stays(s, es, limit, level)
    ensures var t := After(s, es, limit, level);
      level < |t.revisions| && StartOf(s, level) == StartOf(t, level)
    ensures var t := After(s, es, limit, level);
      var x := RunScript(script, WorldOf(s, eval), StartOf(s, level), s.revisions[level], n);
      var y := RunScript(script, WorldOf(t, eval), StartOf(t, level), t.revisions[level], n);
      x.replies <= y.replies && (x.status.Running? || x.status.Returned? ==> x == y)
  {
    RunKeepsLevel(s, es, limit, level);
    var t := After(s, es, limit, level);
    assert level > 0 ==> s.revisions[..level][level - 1] == t.revisions[..level][level - 1];
    RunRepeats(script, WorldOf(s, eval), WorldOf(t, eval), StartOf(s, level), s.revisions[level], t.revisions[level],
      n);
  }

  // ---- The counters ----

  /** The bounds on the counters of a session with a fixed limit of commit iterations. */
  ghost predicate Counts<K, V, D, P>(s: Session<K, V, D, P>, limit: nat) {
    && CycleStart(s.cycle, limit) <= s.iteration <= CycleStart(s.cycle + 1, limit)
    && s.cycle <= 255 && s.iteration % 2 == 0
    && (s.cycle == 255 ==> s.iteration == CycleStart(255, limit))
    && (s.rpcPending ==> s.iteration > CycleStart(s.cycle, limit))
    && (s.sync.Some? && s.sync.value >= |s.declarations| ==> s.iteration > CycleStart(s.cycle, limit))
  }

  /** What an observer of the session has counted: the passes over the newest level's declarations,
      and the (cycle, rpcCount) of every request that was made. */
  datatype Tally = Tally(passes: nat, requests: seq<(nat, nat)>)

  ghost predicate Before(a: (nat, nat), b: (nat, nat)) { a.0 < b.0 || (a.0 == b.0 && a.1 < b.1) }

  ghost predicate Increasing(requests: seq<(nat, nat)>) {
    forall i, j :: 0 <= i < j < |requests| ==> Before(requests[i], requests[j])
  }

  /** A request is made when one becomes pending, or when a follow-up takes the place of the answered one. */
  ghost function Count<K, V, D, P(!new)>(tally: Tally, s: Session<K, V, D, P>, e: Event<K, V, D, P>, limit: nat): Tally
    requires Enabled(s, e)
  {
    var t := Step(s, e, limit);
    Tally(if e.Pass? && t.iteration != s.iteration then tally.passes + 1 else tally.passes,
          if t.rpcPending && (!s.rpcPending || e.Response?) then tally.requests + [(t.cycle, t.rpcCount)]
          else tally.requests)
  }

  ghost predicate Tallied<K, V, D, P>(s: Session<K, V, D, P>, tally: Tally) {
    && 2 * tally.passes <= s.iteration
    && Increasing(tally.requests)
    && (s.rpcPending ==> tally.requests != [] && tally.requests[|tally.requests| - 1] == (s.cycle, s.rpcCount))
    && (!s.rpcPending ==> forall r <- tally.requests :: Before(r, (s.cycle, s.rpcCount)))
  }

  lemma CycleStartIsEven(cycle: nat, limit: nat)
    ensures CycleStart(cycle, limit) % 2 == 0
  {}

  /** One step keeps the bounds and never takes the iteration back. */
  lemma StepKeepsCounts<K, V, D, P(!new)>(s: Session<K, V, D, P>, e: Event<K, V, D, P>, limit: nat)
    requires Enabled(s, e) && Counts(s, limit) && (Active(s) || Finished(s))
    ensures Counts(Step(s, e, limit), limit)
    ensures s.iteration <= Step(s, e, limit).iteration
  {
    hide WriteAll, Advance, Collapse, CycleStart, Counts;
    match e {
      case Pass(o) => PassKeepsCounts(s, o, limit);
      case Response(hasNext, ws) => ReplyKeepsCounts(s, RpcResponse(s, hasNext, ws), limit);
      case CpeFault(recoverable, ws) => ReplyKeepsCounts(s, RpcFault(s, recoverable, ws), limit);
      case Clear => NewCycleCounts(s, Step(s, e, limit), limit);
      case Add(_, _) => NewCycleCounts(s, Step(s, e, limit), limit);
    }
  }

  lemma ReplyKeepsCounts<K, V, D, P>(s: Session<K, V, D, P>, t: Session<K, V, D, P>, limit: nat)
    requires Counts(s, limit) && s.rpcPending && t.iteration == s.iteration && t.cycle == s.cycle
    requires t.declarations == s.declarations && (t.sync.None? || t.sync == s.sync)
    ensures Counts(t, limit)
  {
    hide CycleStart;
  }

  lemma NewCycleCounts<K, V, D, P>(s: Session<K, V, D, P>, t: Session<K, V, D, P>, limit: nat)
    requires Counts(s, limit) && !t.rpcPending && t.sync.None?
    requires Counters(t.cycle, t.rpcCount, t.iteration) ==
      NewCycle(Counters(s.cycle, s.rpcCount, s.iteration), limit)
    ensures Counts(t, limit) && s.iteration <= t.iteration
  {
    hide CycleStart;
    CycleStartIsEven(t.cycle, limit);
    CycleStartGrows(t.cycle, limit);
  }

  lemma CycleStartGrows(cycle: nat, limit: nat)
    ensures CycleStart(cycle, limit) <= CycleStart(cycle + 1, limit)
  {}

  lemma PassKeepsCounts<K, V, D, P(!new)>(s: Session<K, V, D, P>, o: Oracle<K, V, D, P>, limit: nat)
    requires Active(s) && Counts(s, limit)
    ensures Counts(RpcRequest(s, o, limit).0, limit)
    ensures s.iteration <= RpcRequest(s, o, limit).0.iteration
  {
    hide WriteAll, Advance, CommittedTo, CycleStart;
    CycleStartIsEven(s.cycle + 1, limit);
  }

  lemma StepKeepsTally<K, V, D, P(!new)>(s: Session<K, V, D, P>, e: Event<K, V, D, P>, limit: nat, tally: Tally)
    requires Enabled(s, e) && Counts(s, limit) && (Active(s) || Finished(s)) && Tallied(s, tally)
    ensures Tallied(Step(s, e, limit), Count(tally, s, e, limit))
  {
    StepKeepsCounts(s, e, limit);
    var t := Step(s, e, limit);
    assert e.Pass? ==> t.iteration == s.iteration || t.iteration == s.iteration + 2;
    AllUpToNow(s, tally);
    if (t.cycle, t.rpcCount) != (s.cycle, s.rpcCount) {
      forall r <- tally.requests ensures Before(r, (t.cycle, t.rpcCount)) {}
    }
  }

  lemma AllUpToNow<K, V, D, P>(s: Session<K, V, D, P>, tally: Tally)
    requires Tallied(s, tally)
    ensures forall r <- tally.requests ::
      Before(r, (s.cycle, s.rpcCount)) || (s.rpcPending && r == (s.cycle, s.rpcCount))
  {
    if s.rpcPending {
      forall i | 0 <= i < |tally.requests| - 1 ensures Before(tally.requests[i], (s.cycle, s.rpcCount)) {}
    }
  }

  ghost predicate Possible<K, V, D, P(!new)>(s: Session<K, V, D, P>, es: seq<Event<K, V, D, P>>, limit: nat)
    decreases es
  {
    es != [] ==> Enabled(s, es[0]) && Possible(Step(s, es[0], limit), es[1..], limit)
  }

  ghost function Outcomes<K, V, D, P(!new)>(s: Session<K, V, D, P>, tally: Tally, es: seq<Event<K, V, D, P>>,
      limit: nat): (Session<K, V, D, P>, Tally)
    requires Possible(s, es, limit)
    decreases es
  {
    if es == [] then (s, tally) else Outcomes(Step(s, es[0], limit), Count(tally, s, es[0], limit), es[1..], limit)
  }

  lemma {:induction false} RunKeepsCounts<K, V, D, P(!new)>(s: Session<K, V, D, P>, tally: Tally,
      es: seq<Event<K, V, D, P>>, limit: nat)
    requires (Active(s) || Finished(s)) && Counts(s, limit) && Tallied(s, tally) && Possible(s, es, limit)
    ensures var (t, seen) := Outcomes(s, tally, es, limit);
      (Active(t) || Finished(t)) && Counts(t, limit) && Tallied(t, seen) && s.iteration <= t.iteration
    decreases es
  {
    if es != [] {
      StepKeepsShape(s, es[0], limit);
      StepKeepsCounts(s, es[0], limit);
      StepKeepsTally(s, es[0], limit, tally);
      RunKeepsCounts(Step(s, es[0], limit), Count(tally, s, es[0], limit), es[1..], limit);
    }
  }

  /** The session that `init` makes. */
  function Init<K, V, D, P>(): Session<K, V, D, P> {
    Session(Empty(), Provisions.Plan([], map[]), [], [0], [], [], None, false, 0, 0, 0, map[])
  }

  /** Over every run of a session: at most 255 cycles, the requests to the device have increasing
      (cycle, rpcCount) pairs and are therefore distinct, and the newest level's declarations are
      processed at most 255 * limit times. */
  lemma SessionIsBounded<K, V, D, P(!new)>(es: seq<Event<K, V, D, P>>, limit: nat)
    requires Possible(Init<K, V, D, P>(), es, limit)
    ensures var (t, seen) := Outcomes(Init<K, V, D, P>(), Tally(0, []), es, limit);
      && t.cycle <= 255 && 2 * limit * t.cycle <= t.iteration <= 2 * limit * (t.cycle + 1)
      && (t.rpcPending ==> t.iteration > 2 * limit * t.cycle)
      && Increasing(seen.requests)
      && seen.passes <= 255 * limit
  {
    hide CycleStart, Active, Finished, Possible, Outcomes;
    var s := Init<K, V, D, P>();
    StartCounts<K, V, D, P>(limit);
    RunKeepsCounts(s, Tally(0, []), es, limit);
    var (t, seen) := Outcomes(s, Tally(0, []), es, limit);
    BoundedByProduct(t.cycle, t.iteration, limit);
  }

  lemma StartCounts<K, V, D, P(!new)>(limit: nat)
    ensures var s := Init<K, V, D, P>(); Active(s) && Counts(s, limit) && Tallied(s, Tally(0, []))
  {}

  lemma BoundedByProduct(cycle: nat, iteration: nat, limit: nat)
    requires CycleStart(cycle, limit) <= iteration <= CycleStart(cycle + 1, limit) && cycle <= 255
    requires cycle == 255 ==> iteration == CycleStart(255, limit)
    ensures CycleStart(cycle, limit) == 2 * limit * cycle <= iteration <= 2 * limit * (cycle + 1)
    ensures iteration <= 2 * limit * 255
  {
    CycleStartIsProduct(cycle, limit);
    CycleStartIsProduct(cycle + 1, limit);
    if cycle < 255 { MultiplyMonotone(cycle + 1, 255, 2 * limit); }
  }

  lemma MultiplyMonotone(a: nat, b: nat, m: nat)
    requires a <= b
    ensures m * a <= m * b
  {}
}
