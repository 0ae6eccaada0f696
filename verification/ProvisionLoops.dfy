/** The loops of `addProvisions` (lib/session.ts), against the plans of module `Provisions`. */
module ProvisionLoops {
  import opened Sequences
  import opened Word32
  import opened Provisions

  /** The loop over the channels after the provision at `j` is spliced out. */
  method ShiftMasks(channels: map<string, Word>, j: nat) returns (shifted: map<string, Word>, had: set<string>)
    ensures shifted == map c <- channels :: WithoutBit(channels[c], j)
    ensures had == set c <- channels | Test(channels[c], j)
  {
    shifted, had := channels, {};
    var todo := channels.Keys;
    while todo != {}
      invariant todo <= channels.Keys && shifted.Keys == channels.Keys
      invariant forall c <- channels :: shifted[c] == if c in todo then channels[c] else WithoutBit(channels[c], j)
      invariant forall c :: c in had <==> c in channels && c !in todo && Test(channels[c], j)
    {
      var c :| c in todo;
      if Test(shifted[c], j) { had := had + {c}; }
      var a := Sar(shifted[c], j + 1);
      var m := And(shifted[c], LowMask(j));
      m := Or(m, Shl(a, j));
      shifted := shifted[c := m];
      todo := todo - {c};
    }
  }

  /** The loop that looks for an earlier copy of `p` while it splices the list it walks over. */
  method TakeOut<P(==, !new)>(plan: Plan<P>, channel: string, p: P) returns (out: Plan<P>, receivers: set<string>)
    requires NoDuplicates(plan.list)
    ensures out == TakenOut(plan, p) && receivers == Receivers(plan, channel, p)
  {
    out, receivers := plan, {channel};
    ghost var found := false;
    var j := 0;
    while j < |out.list|
      invariant 0 <= j
      invariant !found ==> out == plan && receivers == {channel} && j <= |plan.list| && p !in plan.list[..j]
      invariant found ==> p in plan.list && out == TakenOut(plan, p) && receivers == Receivers(plan, channel, p)
      decreases |out.list| - j
    {
      if out.list[j] == p {
        if found {
          WithoutNoDuplicates(plan.list, IndexOf(plan.list, p));
          assert false;
        }
        IndexIsUnique(plan.list, j);
        var channels, had := ShiftMasks(out.channels, j);
        out := Plan(out.list[..j] + out.list[j + 1..], channels);
        receivers := receivers + had;
        assert had == set c <- plan.channels | Has(plan, c, p);
        found := true;
      }
      j := j + 1;
    }
  }

  /** The loop over the receiving channels, and the push. */
  method GiveTo<P(!new)>(plan: Plan<P>, receivers: set<string>, p: P) returns (put: Plan<P>)
    requires receivers <= plan.channels.Keys
    ensures put == PutBack(plan, receivers, p)
  {
    var channels := plan.channels;
    var todo := receivers;
    while todo != {}
      invariant todo <= receivers && channels.Keys == plan.channels.Keys
      invariant forall c <- channels :: channels[c] == if c in receivers - todo then
        Or(plan.channels[c], Bit(|plan.list|)) else plan.channels[c]
    {
      var c :| c in todo;
      channels := channels[c := Or(channels[c], Bit(|plan.list|))];
      todo := todo - {c};
    }
    put := Plan(plan.list + [p], channels);
    assert channels == PutBack(plan, receivers, p).channels;
  }

  method AddProvision<P(==, !new)>(plan: Plan<P>, channel: string, p: P) returns (added: Plan<P>)
    requires NoDuplicates(plan.list) && channel in plan.channels
    ensures added == Add(plan, channel, p)
  {
    var out, receivers := TakeOut(plan, channel, p);
    added := GiveTo(out, receivers, p);
  }

  lemma AddKeepsDistinct<P(!new)>(plan: Plan<P>, channel: string, p: P)
    requires NoDuplicates(plan.list) && channel in plan.channels
    ensures NoDuplicates(Add(plan, channel, p).list) && Add(plan, channel, p).channels.Keys == plan.channels.Keys
  {
    var j := IndexOf(plan.list, p);
    if p in plan.list { WithoutNoDuplicates(plan.list, j); }
  }

  /** For any number of provisions, also where the masks are too short for them. */
  method AddProvisions<P(==, !new)>(plan: Plan<P>, channel: string, provisions: seq<P>) returns (added: Plan<P>)
    requires NoDuplicates(plan.list)
    ensures added == Added(plan, channel, provisions)
  {
    added := if channel in plan.channels then plan else Plan(plan.list, plan.channels[channel := ZERO]);
    var rest := provisions;
    while rest != []
      invariant NoDuplicates(added.list) && channel in added.channels
      invariant AddAll(added, channel, rest) == Added(plan, channel, provisions)
      decreases |rest|
    {
      AddKeepsDistinct(added, channel, rest[0]);
      added := AddProvision(added, channel, rest[0]);
      rest := rest[1..];
    }
  }
}
