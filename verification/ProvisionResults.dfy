/** What `addProvisions` means for the list and for every channel, and where the masks become too short. */
module ProvisionResults {
  import opened Sequences
  import opened Word32
  import opened Provisions

  /** `addProvisions`: the added provisions end up last, in the order of their last mention, and every
      mask still stays within the list, which has no duplicates. */
  lemma AddedKeepsOrder<P(!new)>(plan: Plan<P>, channel: string, ps: seq<P>)
    requires Room(plan, ps)
    ensures Good(Added(plan, channel, ps)) && Added(plan, channel, ps).channels.Keys == plan.channels.Keys + {channel}
    ensures Added(plan, channel, ps).list == Minus(plan.list, Elements(ps)) + LastOccurrences(ps)
  {
    AddAllIsGood(WithChannel(plan, channel), channel, ps);
  }

  /** `addProvisions`: the channel has what it had and the added provisions; every other channel has
      exactly what it had, although its mask is moved around. */
  lemma AddedKeepsChannels<P(!new)>(plan: Plan<P>, channel: string, ps: seq<P>, c: string, x: P)
    requires Room(plan, ps)
    ensures Has(Added(plan, channel, ps), c, x) <==> Has(plan, c, x) || (c == channel && x in ps)
  {
    AddAllHas(WithChannel(plan, channel), channel, ps, c, x);
  }

  // ---- Where the masks become too short ----

  /** Bits beyond the end of the list are clear; a list of 32 and more has no such bits. */
  ghost predicate WithinList<P(!new)>(plan: Plan<P>) {
    NoDuplicates(plan.list) && forall c <- plan.channels, i :: |plan.list| <= i < 32 ==> !plan.channels[c][i]
  }

  /** What adding `p` for `channel` is for: that channel gains `p`, and nothing else changes. */
  ghost predicate AddsOnly<P(!new)>(plan: Plan<P>, channel: string, p: P)
    requires channel in plan.channels
  {
    forall c <- plan.channels :: AddsOnlyTo(plan, channel, p, c)
  }

  ghost predicate AddsOnlyTo<P(!new)>(plan: Plan<P>, channel: string, p: P, c: string)
    requires channel in plan.channels
  {
    forall x :: Has(Add(plan, channel, p), c, x) <==> Has(plan, c, x) || (c == channel && x == p)
  }

  /** Bit `b` of a mask after the provision at `j` of `n` has moved to the end: the bits above move down,
      the sign stays, a shift by 32 does not move at all, and a receiver gets the last place. */
  predicate BitAfter(m: Word, j: nat, n: nat, receives: bool, b: nat)
    requires b < 32
  {
    (receives && b == (n - 1) % 32) || m[MovedFrom(j, b)]
  }

  function MovedFrom(j: nat, b: nat): nat {
    if b < j % 32 then b else if j % 32 == 31 then 0 else if b < 31 then b + 1 else 31
  }

  /** The place of provision `i` of `n` after the one at `j` has moved to the end. */
  function PlaceAfter(j: nat, n: nat, i: nat): nat
    requires j < n
  {
    if i < j then i else if i == j then n - 1 else i - 1
  }

  /** Every place of the list reads after the move as it did before, and the last as it should. */
  ghost predicate ReadsAlike(m: Word, j: nat, n: nat, receives: bool)
    requires j < n
  {
    forall i :: 0 <= i < n ==>
      BitAfter(m, j, n, receives, PlaceAfter(j, n, i) % 32) == if i == j then receives else Test(m, i)
  }

  /** The bit that is left in the last place when one of 32 provisions is taken out: the sign, or the first
      bit if it is the last provision, where the shift is by 32. */
  function Residue(j: nat): nat { if j < 31 then 31 else 0 }

  ghost predicate Receives<P(!new)>(plan: Plan<P>, channel: string, p: P, c: string) {
    c == channel || Has(plan, c, p)
  }

  /** The mask of one channel leaves room for `p`. Up to 31 provisions it always does. A further new one
      shares its bit with the one 32 places before, which exactly its channel must have. When one of 32 is
      moved to the end, a channel without it must not have the residue set. In a longer list, all places
      must happen to read alike. */
  ghost predicate MaskSuffices<P(!new)>(plan: Plan<P>, channel: string, p: P, c: string)
    requires c in plan.channels
  {
    var m, n, j := plan.channels[c], |plan.list|, IndexOf(plan.list, p);
    if n <= 31 then true
    else if p !in plan.list then Test(m, n) <==> c == channel
    else if n == 32 then Receives(plan, channel, p, c) || !m[Residue(j)]
    else ReadsAlike(m, j, n, Receives(plan, channel, p, c))
  }

  /** One provision added does what it should if and only if all masks leave room for it. */
  lemma AddsOnlyExactly<P(!new)>(plan: Plan<P>, channel: string, p: P)
    requires WithinList(plan) && channel in plan.channels
    ensures AddsOnly(plan, channel, p) <==> forall c <- plan.channels :: MaskSuffices(plan, channel, p, c)
  {
    hide AddsOnlyTo, MaskSuffices;
    forall c <- plan.channels ensures AddsOnlyTo(plan, channel, p, c) <==> MaskSuffices(plan, channel, p, c) {
      if p in plan.list { MovingExactly(plan, channel, p, c); } else { AppendingExactly(plan, channel, p, c); }
    }
  }

  /** So the bound of 31 is exact: for every longer list there are masks with which adding goes wrong. */
  lemma ThirtyOneIsTheBound<P(!new)>(list: seq<P>, channel: string, p: P)
    requires NoDuplicates(list)
    ensures |list| <= 31 <==>
      forall channels: map<string, Word> | channel in channels && WithinList(Plan(list, channels)) ::
        AddsOnly(Plan(list, channels), channel, p)
  {
    hide AddsOnly;
    if |list| <= 31 {
      forall channels: map<string, Word> | channel in channels && WithinList(Plan(list, channels))
        ensures AddsOnly(Plan(list, channels), channel, p)
      {
        AddsOnlyExactly(Plan(list, channels), channel, p);
      }
    } else {
      var plan := TooLong(list, channel, p);
      AddsOnlyExactly(plan, channel, p);
    }
  }

  lemma TooLong<P(!new)>(list: seq<P>, channel: string, p: P) returns (plan: Plan<P>)
    requires NoDuplicates(list) && 32 <= |list|
    ensures plan.list == list && WithinList(plan) && channel in plan.channels
    ensures exists c <- plan.channels :: !MaskSuffices(plan, channel, p, c)
  {
    var n, j, other := |list|, IndexOf(list, p), channel + "'";
    plan := Plan(list, map[channel := ZERO, other := if n == 32 then Bit(Residue(j)) else ZERO]);
    if p in list && n == 32 {
      assert !MaskSuffices(plan, channel, p, other);
    } else {
      if p in list { LongListNeedsBit(j, n); }
      assert !MaskSuffices(plan, channel, p, channel);
    }
  }

  lemma LongListNeedsBit(j: nat, n: nat)
    requires j < n && 32 < n
    ensures !ReadsAlike(ZERO, j, n, true)
  {
    var i := if n - 33 < j then n - 33 else n - 32;
    assert PlaceAfter(j, n, i) == n - 33 && (n - 33) % 32 == (n - 1) % 32;
    assert BitAfter(ZERO, j, n, true, PlaceAfter(j, n, i) % 32) && !Test(ZERO, i);
  }

  // ---- A provision that is there already ----

  lemma IndexAfterMove<P(!new)>(list: seq<P>, p: P, i: nat)
    requires NoDuplicates(list) && p in list && i < |list|
    ensures var moved := Without(list, IndexOf(list, p)) + [p];
      list[i] in moved && IndexOf(moved, list[i]) == PlaceAfter(IndexOf(list, p), |list|, i)
  {
    var j := IndexOf(list, p);
    var moved := Without(list, j) + [p];
    WithoutNoDuplicates(list, j);
    var k := PlaceAfter(j, |list|, i);
    assert moved[k] == list[i];
    assert NoDuplicates(moved) by {
      forall a, b | 0 <= a < b < |moved| ensures moved[a] != moved[b] {
        assert moved[a] == Without(list, j)[a];
        if b < |list| - 1 { assert moved[b] == Without(list, j)[b]; }
      }
    }
    IndexIsUnique(moved, k);
  }

  lemma WithoutBitAt(m: Word, j: nat, b: nat)
    requires b < 32
    ensures WithoutBit(m, j)[b] == m[MovedFrom(j, b)]
  {
    var k := j % 32;
    assert (j + 1) % 32 == if k == 31 then 0 else k + 1;
  }

  lemma MaskAfterMove<P(!new)>(plan: Plan<P>, channel: string, p: P, c: string, b: nat)
    requires channel in plan.channels && p in plan.list && c in plan.channels && b < 32
    ensures Add(plan, channel, p).channels[c][b] ==
      BitAfter(plan.channels[c], IndexOf(plan.list, p), |plan.list|, Receives(plan, channel, p, c), b)
  {
    hide Has, WithoutBit, MovedFrom;
    WithoutBitAt(plan.channels[c], IndexOf(plan.list, p), b);
  }

  lemma HasAfterMove<P(!new)>(plan: Plan<P>, channel: string, p: P, c: string, i: nat)
    requires WithinList(plan) && channel in plan.channels && p in plan.list && c in plan.channels
    requires i < |plan.list|
    ensures var j, n := IndexOf(plan.list, p), |plan.list|;
      Has(Add(plan, channel, p), c, plan.list[i]) <==>
      BitAfter(plan.channels[c], j, n, Receives(plan, channel, p, c), PlaceAfter(j, n, i) % 32)
  {
    hide NoDuplicates, WithoutBit, BitAfter, PlaceAfter, Receives, Receivers;
    IndexAfterMove(plan.list, p, i);
    MaskAfterMove(plan, channel, p, c, PlaceAfter(IndexOf(plan.list, p), |plan.list|, i) % 32);
  }

  lemma MovingExactly<P(!new)>(plan: Plan<P>, channel: string, p: P, c: string)
    requires WithinList(plan) && channel in plan.channels && p in plan.list && c in plan.channels
    ensures AddsOnlyTo(plan, channel, p, c) <==> MaskSuffices(plan, channel, p, c)
  {
    hide AddsOnlyTo, ReadsAlike, Add, Residue;
    var j, n := IndexOf(plan.list, p), |plan.list|;
    MovingReads(plan, channel, p, c);
    IndexIsUnique(plan.list, j);
    if n <= 32 { ShortListReadsAlike(plan.channels[c], j, n, Receives(plan, channel, p, c)); }
  }

  lemma MovingReads<P(!new)>(plan: Plan<P>, channel: string, p: P, c: string)
    requires WithinList(plan) && channel in plan.channels && p in plan.list && c in plan.channels
    ensures AddsOnlyTo(plan, channel, p, c) <==>
      ReadsAlike(plan.channels[c], IndexOf(plan.list, p), |plan.list|, Receives(plan, channel, p, c))
  {
    hide BitAfter, PlaceAfter, Add, Has, WithinList;
    var j, n, m, receives := IndexOf(plan.list, p), |plan.list|, plan.channels[c], Receives(plan, channel, p, c);
    forall i | 0 <= i < n
      ensures Has(Add(plan, channel, p), c, plan.list[i]) <==> BitAfter(m, j, n, receives, PlaceAfter(j, n, i) % 32)
      ensures (Has(plan, c, plan.list[i]) || (c == channel && i == j)) <==> if i == j then receives else Test(m, i)
      ensures i == j <==> plan.list[i] == p
    {
      HasAfterMove(plan, channel, p, c, i);
      HasAt(plan, c, i);
    }
    forall x | x !in plan.list ensures !Has(Add(plan, channel, p), c, x) && !Has(plan, c, x) && x != p {
      NothingOutside(plan, channel, p, c, x);
    }
  }

  lemma NothingOutside<P(!new)>(plan: Plan<P>, channel: string, p: P, c: string, x: P)
    requires channel in plan.channels && x !in plan.list && x != p
    ensures !Has(Add(plan, channel, p), c, x) && !Has(plan, c, x)
  {
    assert x !in Add(plan, channel, p).list;
  }

  lemma HasAt<P(!new)>(plan: Plan<P>, c: string, i: nat)
    requires WithinList(plan) && c in plan.channels && i < |plan.list|
    ensures Has(plan, c, plan.list[i]) <==> Test(plan.channels[c], i)
    ensures IndexOf(plan.list, plan.list[i]) == i
  {
    IndexIsUnique(plan.list, i);
  }

  /** With bits beyond the list clear, only the residue in the last of 32 places can be wrong. */
  lemma ShortListReadsAlike(m: Word, j: nat, n: nat, receives: bool)
    requires j < n <= 32 && (m[j] ==> receives) && forall i :: n <= i < 32 ==> !m[i]
    ensures ReadsAlike(m, j, n, receives) <==> n <= 31 || receives || !m[Residue(j)]
  {
    forall i | 0 <= i < n && i != j ensures BitAfter(m, j, n, receives, PlaceAfter(j, n, i) % 32) == Test(m, i) {
      SmallRemainder(i);
      SmallRemainder(PlaceAfter(j, n, i));
    }
    SmallRemainder(n - 1);
    SmallRemainder(j);
    assert BitAfter(m, j, n, receives, PlaceAfter(j, n, j) % 32) <==> receives || m[MovedFrom(j, n - 1)];
  }

  lemma SmallRemainder(i: nat)
    requires i < 32
    ensures i % 32 == i
  {}

  // ---- A new provision ----

  lemma HasAfterAppending<P(!new)>(plan: Plan<P>, channel: string, p: P, c: string, i: nat)
    requires WithinList(plan) && channel in plan.channels && p !in plan.list && c in plan.channels
    requires i <= |plan.list|
    ensures Has(Add(plan, channel, p), c, (plan.list + [p])[i]) <==>
      Test(plan.channels[c], i) || (c == channel && i % 32 == |plan.list| % 32)
  {
    var after := Add(plan, channel, p);
    assert after.list == plan.list + [p] && NoDuplicates(after.list);
    IndexIsUnique(after.list, i);
    hide NoDuplicates, IndexOf;
  }

  lemma AppendingExactly<P(!new)>(plan: Plan<P>, channel: string, p: P, c: string)
    requires WithinList(plan) && channel in plan.channels && p !in plan.list && c in plan.channels
    ensures AddsOnlyTo(plan, channel, p, c) <==> MaskSuffices(plan, channel, p, c)
  {
    hide Add, NoDuplicates, Residue, ReadsAlike;
    var n, m, after := |plan.list|, plan.channels[c], plan.list + [p];
    HasAfterAppending(plan, channel, p, c, n);
    forall i | 0 <= i < n
      ensures Has(Add(plan, channel, p), c, plan.list[i]) <==> Test(m, i) || (c == channel && i % 32 == n % 32)
      ensures Has(plan, c, plan.list[i]) <==> Test(m, i)
    {
      HasAfterAppending(plan, channel, p, c, i);
      HasAt(plan, c, i);
    }
    forall x | x !in plan.list && x != p ensures !Has(Add(plan, channel, p), c, x) && !Has(plan, c, x) {
      NothingOutside(plan, channel, p, c, x);
    }
    assert !Has(plan, c, p);
    hide Has;
    if n >= 32 {
      assert (n - 32) % 32 == n % 32;
      var q := plan.list[n - 32];
      assert Has(Add(plan, channel, p), c, q) <==> Test(m, n) || c == channel;
      assert Has(Add(plan, channel, p), c, p) <==> Test(m, n) || c == channel;
    } else {
      assert n % 32 == n && forall i :: 0 <= i < n ==> i % 32 == i;
    }
  }
}
