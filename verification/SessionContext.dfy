/** The session context as the object that the engine's functions update (lib/session.ts), proved
    against the steps of module `Sessions`. */
module SessionContexts {
  import opened Word32
  import opened Options
  import opened VersionedMaps
  import opened Sequences
  import S = Sessions
  import ProvisionLoops
  import Provisions

  class SessionContext<K(==), V(==), D, P(==, !new)> {
    const device: VersionedMap<K, V>
    const limit: nat
    var provisions: seq<P>
    var channels: map<string, Word>
    var virtualParameters: seq<seq<P>>
    var revisions: seq<nat>
    var declarations: seq<seq<D>>
    var returned: seq<bool>
    var sync: Option<nat>
    var rpcPending: bool
    var rpcCount: nat
    var iteration: nat
    var cycle: nat
    var extensions: map<(nat, string), string>

    ghost function Model(): S.Session<K, V, D, P>
      reads this, device
    {
      S.Session(device.Model(), Provisions.Plan(provisions, channels), virtualParameters, revisions, declarations,
                returned, sync, rpcPending, rpcCount, iteration, cycle, extensions)
    }

    constructor (limit: nat)
      ensures Model() == S.Init() && fresh(device) && this.limit == limit
    {
      device := new VersionedMap();
      this.limit := limit;
      provisions, channels := [], map[];
      virtualParameters, revisions, declarations, returned := [], [0], [], [];
      sync, rpcPending, rpcCount, iteration, cycle, extensions := None, false, 0, 0, 0, map[];
    }

    method WriteAll(ws: seq<S.Write<K, V>>)
      requires device.Model().Valid()
      modifies device
      ensures device.Model() == S.WriteAll(old(device.Model()), ws)
    {
      var rest := ws;
      while rest != []
        invariant device.Model().Valid() && S.WriteAll(device.Model(), rest) == S.WriteAll(old(device.Model()), ws)
        decreases |rest|
      {
        var w := rest[0];
        if w.value.Some? {
          var _ := device.Set(w.key, w.value.value, device.revision);
        } else {
          var _ := device.Delete(w.key, device.revision);
        }
        rest := rest[1..];
      }
    }

    method NewCycle()
      modifies this`cycle, this`rpcCount, this`iteration
      ensures S.Counters(cycle, rpcCount, iteration) ==
        S.NewCycle(old(S.Counters(cycle, rpcCount, iteration)), limit)
    {
      S.CycleStartIsProduct(cycle, limit);
      S.CycleStartIsProduct(cycle + 1, limit);
      if iteration != cycle * (2 * limit) {
        cycle := cycle + 1;
        rpcCount := 0;
        iteration := cycle * (2 * limit);
      }
    }

    method ClearProvisions()
      requires device.Model().Bounded()
      modifies this, device
      ensures Model() == S.ClearProvisions(old(Model()), limit)
    {
      hide S.NewCycle, S.Top, Collapse;
      ForgetRevisions();
      NewCycle();
      sync, rpcPending := None, false;
      provisions, virtualParameters, channels, declarations, returned := [], [], map[], [], [];
      revisions, extensions := [0], map[];
    }

    /** What both `addProvisions` and `clearProvisions` do with revisions that were committed. */
    method ForgetRevisions()
      requires device.Model().Bounded()
      modifies this`revisions, this`extensions, device
      ensures device.Model() == if S.Top(old(revisions)) > 0 then Collapse(old(device.Model()), 1)
        else old(device.Model())
      ensures revisions == if S.Top(old(revisions)) > 0 then [0] else old(revisions)
      ensures extensions == if S.Top(old(revisions)) > 0 then map[] else old(extensions)
    {
      if revisions != [] && revisions[|revisions| - 1] > 0 {
        device.CollapseFrom(1);
        revisions, extensions := [0], map[];
      }
    }

    method AddProvisions(channel: string, ps: seq<P>)
      requires device.Model().Bounded() && NoDuplicates(provisions)
      modifies this, device
      ensures Model() == S.AddProvisions(old(Model()), channel, ps, limit)
    {
      Restart();
      MergeProvisions(channel, ps);
    }

    /** Everything that `addProvisions` does before it looks at the provisions. */
    method Restart()
      requires device.Model().Bounded()
      modifies this`sync, this`rpcPending, this`declarations, this`returned, this`revisions, this`extensions,
               this`cycle, this`rpcCount, this`iteration, device
      ensures Model() == S.Restart(old(Model()), limit)
    {
      hide S.NewCycle, S.Top, Collapse;
      sync, rpcPending, declarations, returned := None, false, [], [];
      ForgetRevisions();
      NewCycle();
    }

    method MergeProvisions(channel: string, ps: seq<P>)
      requires NoDuplicates(provisions)
      modifies this`provisions, this`channels
      ensures Provisions.Plan(provisions, channels) ==
        Provisions.Added(Provisions.Plan(old(provisions), old(channels)), channel, ps)
    {
      var plan := ProvisionLoops.AddProvisions(Provisions.Plan(provisions, channels), channel, ps);
      provisions, channels := plan.list, plan.channels;
    }

    method RpcResponse(hasNext: bool, ws: seq<S.Write<K, V>>)
      requires S.Active(Model()) && rpcPending
      modifies this`rpcCount, this`rpcPending, device
      ensures Model() == S.RpcResponse(old(Model()), hasNext, ws)
    {
      rpcCount := rpcCount + 1;
      rpcPending := hasNext;
      device.SetRevision(S.Top(revisions) + 1);
      WriteAll(ws);
    }

    method RpcFault(recoverable: bool, ws: seq<S.Write<K, V>>)
      requires S.Active(Model()) && rpcPending
      modifies this`sync, this`rpcCount, this`rpcPending, device
      ensures Model() == S.RpcFault(old(Model()), recoverable, ws)
    {
      sync, rpcPending := None, false;
      rpcCount := rpcCount + 1;
      if recoverable {
        device.SetRevision(S.Top(revisions) + 1);
        WriteAll(ws);
      }
    }

    method RunScripts(o: S.Oracle<K, V, D, P>) returns (outcome: S.Outcome)
      requires S.Active(Model()) && !S.HasRun(Model())
      modifies this`declarations, this`returned, this`extensions, device
      ensures (Model(), outcome) == S.RunScripts(old(Model()), o)
    {
      device.SetRevision(S.Top(revisions) + 1);
      extensions := o.answers + extensions;
      if o.scriptFault { return S.Fault("script"); }
      declarations := declarations + [o.declared];
      returned := returned + [o.finished];
      WriteAll(o.writes);
      return S.Again;
    }

    method RunDeclarations(o: S.Oracle<K, V, D, P>)
      requires S.Active(Model()) && S.HasRun(Model())
      modifies this`iteration, this`sync, device
      ensures Model() == S.RunDeclarations(old(Model()), o)
    {
      var inception := if sync.Some? then sync.value else 0;
      if inception == |declarations| - 1 { iteration := iteration + 2; }
      WriteAll(o.writes);
      sync := Some(inception + 1);
    }

    method FinishLevel(o: S.Oracle<K, V, D, P>) returns (outcome: S.Outcome)
      requires S.Active(Model()) && S.HasRun(Model()) && sync == Some(|declarations|) && !rpcPending
      modifies this`declarations, this`returned, this`sync, this`revisions, this`extensions, this`virtualParameters,
        device
      ensures (Model(), outcome) == S.FinishLevel(old(Model()), o)
    {
      hide S.WriteAll, S.ExtensionsUpTo, S.CommittedTo, S.Sorted;
      ghost var inception := |declarations| - 1;
      var ret := PopDeclarations();
      if !ret { return S.Again; }

      revisions := revisions[..|revisions| - 1];
      assert revisions == old(revisions)[..inception];
      Commit(S.Top(revisions));
      if virtualParameters == [] { return S.Idle; }
      virtualParameters := virtualParameters[..|virtualParameters| - 1];
      WriteAll(o.returnWrites);
      return S.Again;
    }

    /** The newest level's declarations are popped and its revision goes up by one. */
    method PopDeclarations() returns (ret: bool)
      requires 0 < |declarations| <= |revisions| && |returned| == |declarations| && sync == Some(|declarations|)
      modifies this`declarations, this`returned, this`sync, this`revisions
      ensures var level := |old(declarations)| - 1;
        && ret == old(returned)[level] && sync == Some(level)
        && declarations == old(declarations)[..level] && returned == old(returned)[..level]
        && revisions == old(revisions)[level := old(revisions)[level] + 1]
    {
      var inception := |declarations| - 1;
      revisions := revisions[inception := revisions[inception] + 1];
      declarations := declarations[..inception];
      sync := Some(sync.value - 1);
      ret := returned[inception];
      returned := returned[..inception];
    }

    /** The revisions above `rev` become one, and the answers of extensions asked there are forgotten. */
    method Commit(rev: nat)
      requires device.Model().Bounded()
      modifies this`extensions, device
      ensures device.Model() == S.CommittedTo(old(device.Model()), rev)
      ensures extensions == S.ExtensionsUpTo(old(extensions), rev)
    {
      device.CollapseFrom(rev + 1);
      S.CollapsedIsBounded(old(device.Model()), rev + 1);
      device.SetRevision(rev + 1);
      extensions := map key <- extensions | key.0 <= rev :: extensions[key];
    }

    method Synchronize(o: S.Oracle<K, V, D, P>) returns (outcome: S.Outcome)
      requires S.Active(Model()) && S.HasRun(Model()) && sync == Some(|declarations|) && !rpcPending
      modifies this, device
      ensures (Model(), outcome) == S.Synchronize(old(Model()), o)
    {
      WriteAll(o.writes);
      match o.next {
        case Nothing =>
          outcome := FinishLevel(o);
        case NestedScripts(provisions) =>
          virtualParameters := virtualParameters + [provisions];
          revisions := revisions + [revisions[|declarations| - 1]];
          return S.Again;
        case Rpc =>
          rpcPending := true;
          return S.Request;
        case Prerequisite =>
          sync := None;
          return S.Again;
        case Cleared => return S.Again;
      }
    }

    /** One pass of `rpcRequest`. */
    method RpcRequest(o: S.Oracle<K, V, D, P>) returns (outcome: S.Outcome)
      requires S.Active(Model())
      modifies this, device
      ensures (Model(), outcome) == S.RpcRequest(old(Model()), o, limit)
    {
      if rpcPending { return S.Request; }
      if |virtualParameters| == 0 && |declarations| == 0 && |o.extra| == 0 && |provisions| == 0 { return S.Idle; }
      if |declarations| <= |virtualParameters| {
        outcome := RunScripts(o);
        return;
      }
      if |o.extra| > 0 {
        sync := None;
        declarations := declarations[0 := declarations[0] + o.extra];
        return S.Again;
      }
      if rpcCount >= 255 { return S.Fault("too_many_rpcs"); }
      if |revisions| >= 8 { return S.Fault("deeply_nested_vparams"); }
      if cycle >= 255 { return S.Fault("too_many_cycles"); }
      S.CycleStartIsProduct(cycle + 1, limit);
      if iteration >= 2 * limit * (cycle + 1) { return S.Fault("too_many_commits"); }
      if !(sync.Some? && sync.value >= |declarations|) {
        RunDeclarations(o);
        return S.Again;
      }
      outcome := Synchronize(o);
    }
  }
}
