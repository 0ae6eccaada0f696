/** `recordFault` of lib/cwmp.ts: every channel of a faulted run keeps its provisions for the next try. */
module FaultRecords {
  import opened Options
  import opened Sequences
  import opened Word32
  import opened Faults

  datatype SessionFault<P> = SessionFault(provisions: seq<P>, timestamp: nat, code: string, retryNow: bool,
      precondition: bool)

  /** The first `n` provisions that a mask selects. */
  function Selected<P(!new)>(ps: seq<P>, mask: Word, n: nat): seq<P>
    requires n <= |ps|
  {
    if n == 0 then [] else Selected(ps, mask, n - 1) + if Test(mask, n - 1) then [ps[n - 1]] else []
  }

  lemma {:induction false} SelectedElements<P(!new)>(ps: seq<P>, mask: Word, n: nat)
    requires n <= |ps|
    ensures Elements(Selected(ps, mask, n)) == set i | 0 <= i < n && Test(mask, i) :: ps[i]
  {
    if n > 0 {
      SelectedElements(ps, mask, n - 1);
      var before, after := Selected(ps, mask, n - 1), Selected(ps, mask, n);
      forall x ensures x in after <==> x in before || (x == ps[n - 1] && Test(mask, n - 1)) {}
      assert forall x :: x in Elements(before) <==> x in before;
      assert forall x :: x in Elements(after) <==> x in after;
    }
  }

  function Earlier<P(!new)>(faults: map<string, SessionFault<P>>, c: string): seq<P> {
    if c in faults then faults[c].provisions else []
  }

  /** The fault of a channel after its run has faulted. */
  ghost function Recorded<P(!new)>(faults: map<string, SessionFault<P>>, retries: map<string, nat>, c: string,
      channels: map<string, Word>, provisions: seq<P>, code: string, timestamp: nat): SessionFault<P>
    requires c in channels
  {
    SessionFault(Appended([], Earlier(faults, c) + Selected(provisions, channels[c], |provisions|)), timestamp, code,
                 c !in retries && |channels| != 1, channels[c] == ZERO)
  }

  /** Provisions survive faults: those of an earlier fault and those that the mask selects, each once. */
  lemma ProvisionsSurvive<P(!new)>(faults: map<string, SessionFault<P>>, retries: map<string, nat>, c: string,
      channels: map<string, Word>, provisions: seq<P>, code: string, timestamp: nat)
    requires c in channels
    ensures var kept := Recorded(faults, retries, c, channels, provisions, code, timestamp).provisions;
      && NoDuplicates(kept)
      && Elements(kept) == Elements(Earlier(faults, c)) + set i | 0 <= i < |provisions| && Test(channels[c], i) ::
           provisions[i]
  {
    var earlier, selected := Earlier(faults, c), Selected(provisions, channels[c], |provisions|);
    AppendedIsUnion([], earlier + selected);
    SelectedElements(provisions, channels[c], |provisions|);
    assert Elements(earlier + selected) == Elements(earlier) + Elements(selected);
    assert Elements<P>([]) == {};
  }

  /** What else a recorded fault says: it is to be run again at once if it is the first of its channel and
      others ran with it, and it concerns the precondition if no provision is the channel's. */
  lemma FaultIsMarked<P(!new)>(faults: map<string, SessionFault<P>>, retries: map<string, nat>, c: string,
      channels: map<string, Word>, provisions: seq<P>, code: string, timestamp: nat)
    requires c in channels
    ensures var f := Recorded(faults, retries, c, channels, provisions, code, timestamp);
      && f.code == code && f.timestamp == timestamp
      && (f.retryNow <==> c !in retries && exists other <- channels :: other != c)
      && (f.precondition <==> forall i :: 0 <= i < 32 ==> !channels[c][i])
  {
    hide Appended, Selected;
    NotAlone(channels.Keys, c);
    NonZeroHasBit(channels[c]);
    assert |channels| == |channels.Keys|;
  }

  lemma NotAlone(keys: set<string>, c: string)
    requires c in keys
    ensures |keys| != 1 <==> exists other <- keys :: other != c
  {
    var rest := keys - {c};
    if rest != {} {
      var other :| other in rest;
    } else {
      assert keys == {c};
    }
    assert |rest| == |keys| - 1;
  }

  /** The faults that a channel takes part in. */
  function Taking(c: string, runs: seq<map<string, Word>>): nat {
    if runs == [] then 0 else (if c in runs[0] then 1 else 0) + Taking(c, runs[1..])
  }

  ghost function RetriedOver(retries: map<string, nat>, runs: seq<map<string, Word>>): map<string, nat>
    decreases |runs|
  {
    if runs == [] then retries else RetriedOver(AllRetried(retries, runs[0]), runs[1..])
  }

  /** Over any number of faults, a channel's retries are the faults after its first. */
  lemma {:induction false} RetriesAreCounted(retries: map<string, nat>, runs: seq<map<string, Word>>, c: string)
    ensures var after, n := RetriedOver(retries, runs), Taking(c, runs);
      && (c in after <==> c in retries || n > 0)
      && (c in after ==> after[c] == if c in retries then retries[c] + n else n - 1)
    decreases |runs|
  {
    if runs != [] { RetriesAreCounted(AllRetried(retries, runs[0]), runs[1..], c); }
  }

  /** Channels that took no part keep their faults. */
  lemma OthersKeepFaults<P(!new)>(faults: map<string, SessionFault<P>>, retries: map<string, nat>,
      channels: map<string, Word>, provisions: seq<P>, code: string, timestamp: nat, c: string)
    ensures var after := AllRecorded(faults, retries, channels, provisions, code, timestamp);
      && (c in after <==> c in faults || c in channels)
      && (c in faults && c !in channels ==> after[c] == faults[c])
      && (c in channels ==> after[c] == Recorded(faults, retries, c, channels, provisions, code, timestamp))
  {
    hide Recorded;
  }

  /** If the channel had no fault before and its provisions are distinct, they also stay in their order. */
  lemma FirstFaultKeepsOrder<P(!new)>(faults: map<string, SessionFault<P>>, retries: map<string, nat>, c: string,
      channels: map<string, Word>, provisions: seq<P>, code: string, timestamp: nat)
    requires c in channels && Earlier(faults, c) == [] && NoDuplicates(provisions)
    ensures Recorded(faults, retries, c, channels, provisions, code, timestamp).provisions
      == Selected(provisions, channels[c], |provisions|)
  {
    var selected := Selected(provisions, channels[c], |provisions|);
    SelectedIsDistinct(provisions, channels[c], |provisions|);
    AppendedEndUpLast([], selected);
    assert [] + selected == selected;
  }

  lemma {:induction false} SelectedIsDistinct<P(!new)>(ps: seq<P>, mask: Word, n: nat)
    requires n <= |ps| && NoDuplicates(ps)
    ensures NoDuplicates(Selected(ps, mask, n)) && forall x <- Selected(ps, mask, n) :: x in ps[..n]
  {
    if n > 0 {
      SelectedIsDistinct(ps, mask, n - 1);
      assert ps[..n] == ps[..n - 1] + [ps[n - 1]];
      assert ps[n - 1] !in ps[..n - 1];
    }
  }

  /** The fault after the first loop. */
  function Marked<P(!new)>(faults: map<string, SessionFault<P>>, retries: map<string, nat>, c: string,
      channels: map<string, Word>, code: string, timestamp: nat): SessionFault<P>
    requires c in channels
  {
    SessionFault(Earlier(faults, c), timestamp, code, c !in retries && |channels| != 1, channels[c] == ZERO)
  }

  function Retried(retries: map<string, nat>, c: string): nat { if c in retries then retries[c] + 1 else 0 }

  ghost function PartlyMarked<P(!new)>(faults: map<string, SessionFault<P>>, retries: map<string, nat>,
      channels: map<string, Word>, done: set<string>, code: string, timestamp: nat): map<string, SessionFault<P>>
    requires done <= channels.Keys
  {
    map c <- faults.Keys + done :: if c in done then Marked(faults, retries, c, channels, code, timestamp)
      else faults[c]
  }

  function PartlyRetried(retries: map<string, nat>, done: set<string>): map<string, nat> {
    map c <- retries.Keys + done :: if c in done then Retried(retries, c) else retries[c]
  }

  lemma NoneMarked<P(!new)>(faults: map<string, SessionFault<P>>, retries: map<string, nat>,
      channels: map<string, Word>, code: string, timestamp: nat)
    ensures PartlyMarked(faults, retries, channels, {}, code, timestamp) == faults
      && PartlyRetried(retries, {}) == retries
  {}

  lemma AllMarked<P(!new)>(faults: map<string, SessionFault<P>>, retries: map<string, nat>,
      channels: map<string, Word>, code: string, timestamp: nat)
    ensures PartlyMarked(faults, retries, channels, channels.Keys, code, timestamp) ==
      map c <- faults.Keys + channels.Keys ::
      if c in channels then Marked(faults, retries, c, channels, code, timestamp) else faults[c]
    ensures PartlyRetried(retries, channels.Keys) == AllRetried(retries, channels)
  {}

  lemma OneMoreMarked<P(!new)>(faults: map<string, SessionFault<P>>, retries: map<string, nat>,
      channels: map<string, Word>, done: set<string>, c: string, code: string, timestamp: nat)
    requires done <= channels.Keys && c in channels && c !in done
    ensures var f, r := PartlyMarked(faults, retries, channels, done, code, timestamp), PartlyRetried(retries, done);
      && PartlyMarked(faults, retries, channels, done + {c}, code, timestamp) ==
           f[c := Marked(f, r, c, channels, code, timestamp)]
      && PartlyRetried(retries, done + {c}) == r[c := Retried(r, c)]
  {}

  /** `f` with more provisions. */
  function With<P(!new)>(f: SessionFault<P>, more: seq<P>): SessionFault<P> { f.(provisions := f.provisions + more) }

  /** `f` with the last mention of each provision. */
  ghost function Deduplicated<P(!new)>(f: SessionFault<P>): SessionFault<P> {
    f.(provisions := Appended([], f.provisions))
  }

  /** The fault of a channel after the three loops. */
  ghost function AfterLoops<P(!new)>(faults: map<string, SessionFault<P>>, retries: map<string, nat>, c: string,
      channels: map<string, Word>, provisions: seq<P>, code: string, timestamp: nat): SessionFault<P>
    requires c in channels
  {
    Deduplicated(With(Marked(faults, retries, c, channels, code, timestamp),
                      Selected(provisions, channels[c], |provisions|)))
  }

  lemma IsRecorded<P(!new)>(faults: map<string, SessionFault<P>>, retries: map<string, nat>, c: string,
      channels: map<string, Word>, provisions: seq<P>, code: string, timestamp: nat)
    requires c in channels
    ensures AfterLoops(faults, retries, c, channels, provisions, code, timestamp) ==
      Recorded(faults, retries, c, channels, provisions, code, timestamp)
  {
    hide Appended, Selected;
  }

  /** What the three loops leave is what is to be recorded. */
  lemma AllAreRecorded<P(!new)>(faults: map<string, SessionFault<P>>, retries: map<string, nat>,
      channels: map<string, Word>, provisions: seq<P>, code: string, timestamp: nat)
    ensures AllRecorded(faults, retries, channels, provisions, code, timestamp) ==
      map c <- faults.Keys + channels.Keys ::
      if c in channels then AfterLoops(faults, retries, c, channels, provisions, code, timestamp) else faults[c]
  {
    hide Recorded, AfterLoops;
    forall c <- channels
      ensures AfterLoops(faults, retries, c, channels, provisions, code, timestamp) ==
        Recorded(faults, retries, c, channels, provisions, code, timestamp)
    {
      IsRecorded(faults, retries, c, channels, provisions, code, timestamp);
    }
  }

  lemma WithOneMore<P(!new)>(f: SessionFault<P>, ps: seq<P>, mask: Word, i: nat)
    requires i < |ps|
    ensures With(f, Selected(ps, mask, i + 1)) ==
      if Test(mask, i) then With(With(f, Selected(ps, mask, i)), [ps[i]]) else With(f, Selected(ps, mask, i))
  {
    assert f.provisions + (Selected(ps, mask, i) + [ps[i]]) == f.provisions + Selected(ps, mask, i) + [ps[i]];
    assert Selected(ps, mask, i) + [] == Selected(ps, mask, i);
  }

  lemma WithNothing<P(!new)>(f: SessionFault<P>)
    ensures With(f, []) == f
  {
    assert f.provisions + [] == f.provisions;
  }

  ghost function AllRecorded<P(!new)>(faults: map<string, SessionFault<P>>, retries: map<string, nat>,
      channels: map<string, Word>, provisions: seq<P>, code: string, timestamp: nat): map<string, SessionFault<P>> {
    map c <- faults.Keys + channels.Keys ::
      if c in channels then Recorded(faults, retries, c, channels, provisions, code, timestamp) else faults[c]
  }

  function AllRetried(retries: map<string, nat>, channels: map<string, Word>): map<string, nat> {
    map c <- retries.Keys + channels.Keys :: if c in channels then Retried(retries, c) else retries[c]
  }

  class FaultLog<P(==, !new)> {
    const timestamp: nat
    var provisions: seq<P>
    var channels: map<string, Word>
    var faults: map<string, SessionFault<P>>
    var retries: map<string, nat>
    var faultsTouched: set<string>

    constructor (timestamp: nat)
      ensures this.timestamp == timestamp && provisions == [] && channels == map[] && faults == map[]
        && retries == map[] && faultsTouched == {}
    {
      this.timestamp := timestamp;
      provisions, channels, faults, retries, faultsTouched := [], map[], map[], map[], {};
    }

    /** Throws, and changes nothing, if no channel is given. */
    method RecordFault(code: string, given: Option<(seq<P>, map<string, Word>)>) returns (ok: bool)
      modifies this
      ensures var cs := if given.Some? then given.value.1 else old(channels);
        && ok == (cs != map[])
        && (ok ==> faultsTouched == old(faultsTouched) + cs.Keys && provisions == [] && channels == map[])
      ensures !ok ==> faults == old(faults) && retries == old(retries) && faultsTouched == old(faultsTouched)
      ensures !ok ==> provisions == old(provisions) && channels == old(channels)
      ensures var (ps, cs) := if given.Some? then given.value else (old(provisions), old(channels));
        ok ==>
          && faults == AllRecorded(old(faults), old(retries), cs, ps, code, timestamp)
          && retries == AllRetried(old(retries), cs)
    {
      var (ps, cs) := if given.Some? then given.value else (provisions, channels);
      if cs == map[] { return false; }
      hide AllRecorded, AllRetried;
      Record(code, ps, cs);
      provisions, channels := [], map[];
      return true;
    }

    method Record(code: string, ps: seq<P>, cs: map<string, Word>)
      modifies this`faults, this`retries, this`faultsTouched
      ensures faultsTouched == old(faultsTouched) + cs.Keys && retries == AllRetried(old(retries), cs)
      ensures faults == AllRecorded(old(faults), old(retries), cs, ps, code, timestamp)
    {
      hide AllRecorded, Marked, With, Deduplicated;
      AllAreRecorded(faults, retries, cs, ps, code, timestamp);
      MarkFaults(code, cs);
      CollectProvisions(ps, cs);
      RemoveDuplicates(cs);
    }

    /** The first loop: a new fault with the earlier provisions, and one more retry. */
    method MarkFaults(code: string, cs: map<string, Word>)
      modifies this`faults, this`retries, this`faultsTouched
      ensures faultsTouched == old(faultsTouched) + cs.Keys
      ensures faults == map c <- old(faults).Keys + cs.Keys ::
        if c in cs then Marked(old(faults), old(retries), c, cs, code, timestamp) else old(faults)[c]
      ensures retries == AllRetried(old(retries), cs)
    {
      hide PartlyMarked, PartlyRetried;
      ghost var faults0, retries0 := faults, retries;
      var todo := cs.Keys;
      NoneMarked(faults0, retries0, cs, code, timestamp);
      assert cs.Keys - todo == {};
      while todo != {}
        invariant todo <= cs.Keys && faultsTouched == old(faultsTouched) + (cs.Keys - todo)
        invariant faults == PartlyMarked(faults0, retries0, cs, cs.Keys - todo, code, timestamp)
        invariant retries == PartlyRetried(retries0, cs.Keys - todo)
      {
        var c :| c in todo;
        OneMoreMarked(faults0, retries0, cs, cs.Keys - todo, c, code, timestamp);
        assert cs.Keys - (todo - {c}) == cs.Keys - todo + {c};
        MarkFault(code, c, cs);
        todo := todo - {c};
      }
      assert cs.Keys - {} == cs.Keys;
      AllMarked(faults0, retries0, cs, code, timestamp);
    }

    method MarkFault(code: string, c: string, cs: map<string, Word>)
      requires c in cs
      modifies this`faults, this`retries, this`faultsTouched
      ensures faults == old(faults)[c := Marked(old(faults), old(retries), c, cs, code, timestamp)]
      ensures retries == old(retries)[c := Retried(old(retries), c)] && faultsTouched == old(faultsTouched) + {c}
    {
      var provs := if c in faults then faults[c].provisions else [];
      var retryNow := false;
      if c in retries {
        retries := retries[c := retries[c] + 1];
      } else {
        retries := retries[c := 0];
        if |cs| != 1 { retryNow := true; }
      }
      faults := faults[c := SessionFault(provs, timestamp, code, retryNow, cs[c] == ZERO)];
      faultsTouched := faultsTouched + {c};
    }

    /** The second loop: each provision goes to the channels whose mask has its bit. */
    method CollectProvisions(ps: seq<P>, cs: map<string, Word>)
      requires cs.Keys <= faults.Keys
      modifies this`faults
      ensures faults == map c <- old(faults) :: if c in cs then With(old(faults)[c], Selected(ps, cs[c], |ps|))
        else old(faults)[c]
    {
      hide With;
      ghost var faults0 := faults;
      forall c <- faults ensures With(faults[c], []) == faults[c] { WithNothing(faults[c]); }
      var i := 0;
      while i < |ps|
        invariant i <= |ps| && faults.Keys == faults0.Keys
        invariant forall c <- faults0 ::
          faults[c] == (if c in cs then With(faults0[c], Selected(ps, cs[c], i)) else faults0[c])
      {
        ghost var before := faults;
        forall c <- cs { WithOneMore(faults0[c], ps, cs[c], i); }
        Distribute(ps[i], i, cs);
        i := i + 1;
      }
    }

    /** One provision to the channels whose mask has its bit. */
    method Distribute(p: P, i: nat, cs: map<string, Word>)
      requires cs.Keys <= faults.Keys
      modifies this`faults
      ensures faults.Keys == old(faults).Keys
      ensures forall c <- faults ::
        faults[c] == (if c in cs && Test(cs[c], i) then With(old(faults)[c], [p]) else old(faults)[c])
    {
      var todo := cs.Keys;
      while todo != {}
        invariant todo <= cs.Keys && faults.Keys == old(faults).Keys
        invariant forall c <- faults ::
          faults[c] == (if c in cs && c !in todo && Test(cs[c], i) then With(old(faults)[c], [p]) else old(faults)[c])
      {
        var c :| c in todo;
        if Test(cs[c], i) { faults := faults[c := faults[c].(provisions := faults[c].provisions + [p])]; }
        todo := todo - {c};
      }
    }

    /** The third loop. */
    method RemoveDuplicates(cs: map<string, Word>)
      requires cs.Keys <= faults.Keys
      modifies this`faults
      ensures faults == map c <- old(faults) :: if c in cs then Deduplicated(old(faults)[c]) else old(faults)[c]
    {
      hide Appended;
      ghost var faults0 := faults;
      var todo := cs.Keys;
      while todo != {}
        invariant todo <= cs.Keys && cs.Keys <= faults.Keys
        invariant faults == map c <- faults0 ::
          if c in cs && c !in todo then Deduplicated(faults0[c]) else faults0[c]
      {
        var c :| c in todo;
        var kept, _ := AppendProvisions([], faults[c].provisions);
        faults := faults[c := faults[c].(provisions := kept)];
        todo := todo - {c};
      }
    }
  }
}
