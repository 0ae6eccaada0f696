/** Which provisions a session runs, and on behalf of which channels (lib/session.ts, `addProvisions`).

    The provisions are a list and each channel has a 32-bit mask over it. A provision is identified
    by its JSON text, which is all that the code compares. */
module Provisions {
  import opened Sequences
  import opened Word32

  datatype Plan<P> = Plan(list: seq<P>, channels: map<string, Word>)

  /** Channel `c` has provision `x`: the mask's bit for its place in the list is set. A channel without
      a mask has nothing, and the bit of the 33rd provision is that of the first. */
  ghost predicate Has<P(!new)>(plan: Plan<P>, c: string, x: P) {
    c in plan.channels && x in plan.list && Test(plan.channels[c], IndexOf(plan.list, x))
  }

  /** Every bit set in a mask stands for a provision of the list, which has no duplicates. */
  ghost predicate Good<P(!new)>(plan: Plan<P>) {
    && NoDuplicates(plan.list) && |plan.list| <= 31
    && forall c <- plan.channels, i :: |plan.list| <= i < 32 ==> !plan.channels[c][i]
  }

  /** There is room for the provisions: at most 31 distinct ones with those already there. */
  ghost predicate Room<P(!new)>(plan: Plan<P>, ps: seq<P>) {
    Good(plan) && |Elements(plan.list) + Elements(ps)| <= 31
  }

  /** A mask after the provision at `j` is taken out of the list: the bits above `j` move down one. */
  function WithoutBit(m: Word, j: nat): Word { Or(And(m, LowMask(j)), Shl(Sar(m, j + 1), j)) }

  lemma WithoutBitMoves(m: Word, j: nat, i: nat)
    requires j < 31 && i < 32 && !m[31]
    ensures WithoutBit(m, j)[i] == if i < j then m[i] else if i < 31 then m[i + 1] else false
  {}

  /** The list and the masks after `p` is taken out, wherever it was. */
  ghost function TakenOut<P(!new)>(plan: Plan<P>, p: P): Plan<P> {
    if p !in plan.list then plan
    else Plan(Without(plan.list, IndexOf(plan.list, p)),
              map c <- plan.channels :: WithoutBit(plan.channels[c], IndexOf(plan.list, p)))
  }

  /** The channels that get `p`: the one it is added for, and those that had it. */
  ghost function Receivers<P(!new)>(plan: Plan<P>, channel: string, p: P): set<string> {
    {channel} + set c <- plan.channels | Has(plan, c, p)
  }

  function PutBack<P(!new)>(plan: Plan<P>, receivers: set<string>, p: P): Plan<P>
    requires receivers <= plan.channels.Keys
  {
    Plan(plan.list + [p],
         map c <- plan.channels :: if c in receivers then Or(plan.channels[c], Bit(|plan.list|)) else plan.channels[c])
  }

  /** One provision added for a channel that has a mask. */
  ghost function Add<P(!new)>(plan: Plan<P>, channel: string, p: P): Plan<P>
    requires channel in plan.channels
  {
    PutBack(TakenOut(plan, p), Receivers(plan, channel, p), p)
  }

  ghost function AddAll<P(!new)>(plan: Plan<P>, channel: string, ps: seq<P>): Plan<P>
    requires channel in plan.channels
    decreases |ps|
  {
    if ps == [] then plan else AddAll(Add(plan, channel, ps[0]), channel, ps[1..])
  }

  /** `channels[channel] |= 0` and then the provisions in turn. */
  ghost function Added<P(!new)>(plan: Plan<P>, channel: string, ps: seq<P>): Plan<P> {
    AddAll(WithChannel(plan, channel), channel, ps)
  }

  function WithChannel<P(!new)>(plan: Plan<P>, channel: string): Plan<P> {
    if channel in plan.channels then plan else Plan(plan.list, plan.channels[channel := ZERO])
  }

  // ---- What adding means ----

  lemma OtherStays<P(!new)>(plan: Plan<P>, p: P, c: string, x: P)
    requires Good(plan) && c in plan.channels && p in plan.list && x in plan.list && x != p
    ensures Has(TakenOut(plan, p), c, x) <==> Has(plan, c, x)
  {
    hide NoDuplicates, Without, WithoutBit;
    var j, i := IndexOf(plan.list, p), IndexOf(plan.list, x);
    WithoutIndex(plan.list, j, x);
    WithoutBitMoves(plan.channels[c], j, if i < j then i else i - 1);
  }

  /** Taking a provision out keeps what every mask stands for, except that provision. */
  lemma TakenOutHas<P(!new)>(plan: Plan<P>, p: P, c: string, x: P)
    requires Good(plan)
    ensures Has(TakenOut(plan, p), c, x) <==> Has(plan, c, x) && x != p
  {
    if p in plan.list && c in plan.channels {
      WithoutNoDuplicates(plan.list, IndexOf(plan.list, p));
      if x in plan.list && x != p {
        OtherStays(plan, p, c, x);
      } else {
        assert x !in TakenOut(plan, p).list;
      }
    }
  }

  lemma TakenOutIsGood<P(!new)>(plan: Plan<P>, p: P)
    requires Good(plan)
    ensures Good(TakenOut(plan, p)) && p !in TakenOut(plan, p).list
    ensures p in plan.list ==> |TakenOut(plan, p).list| < 31
  {
    if p in plan.list {
      var j := IndexOf(plan.list, p);
      WithoutNoDuplicates(plan.list, j);
      forall c, i | c in plan.channels && |plan.list| - 1 <= i < 32 ensures !WithoutBit(plan.channels[c], j)[i] {
        WithoutBitMoves(plan.channels[c], j, i);
      }
    }
  }

  lemma PutBackHas<P(!new)>(plan: Plan<P>, receivers: set<string>, p: P, c: string, x: P)
    requires Good(plan) && |plan.list| < 31 && p !in plan.list && receivers <= plan.channels.Keys
    ensures Has(PutBack(plan, receivers, p), c, x) <==> Has(plan, c, x) || (c in receivers && x == p)
  {
    var list := plan.list + [p];
    if x in plan.list {
      var i := IndexOf(plan.list, x);
      assert list[i] == x;
      IndexIsUnique(list, i);
    } else if x == p {
      assert list[|plan.list|] == p;
      IndexIsUnique(list, |plan.list|);
    }
  }

  lemma PutBackIsGood<P(!new)>(plan: Plan<P>, receivers: set<string>, p: P)
    requires Good(plan) && |plan.list| < 31 && p !in plan.list && receivers <= plan.channels.Keys
    ensures Good(PutBack(plan, receivers, p))
  {}

  /** One provision: its channel gains it, and no other channel changes. */
  lemma AddHas<P(!new)>(plan: Plan<P>, channel: string, p: P, c: string, x: P)
    requires Good(plan) && channel in plan.channels && (p in plan.list || |plan.list| < 31)
    ensures Has(Add(plan, channel, p), c, x) <==> Has(plan, c, x) || (c == channel && x == p)
  {
    TakenOutIsGood(plan, p);
    TakenOutHas(plan, p, c, x);
    PutBackHas(TakenOut(plan, p), Receivers(plan, channel, p), p, c, x);
  }

  /** One provision: it moves to the end, and the masks stay within the list. */
  lemma AddIsGood<P(!new)>(plan: Plan<P>, channel: string, p: P)
    requires Good(plan) && channel in plan.channels && (p in plan.list || |plan.list| < 31)
    ensures Good(Add(plan, channel, p)) && Add(plan, channel, p).channels.Keys == plan.channels.Keys
    ensures Add(plan, channel, p).list == Minus(plan.list, {p}) + [p]
  {
    TakenOutIsGood(plan, p);
    PutBackIsGood(TakenOut(plan, p), Receivers(plan, channel, p), p);
    MinusOne(plan.list, p);
  }

  /** The list after a list of provisions is added, with at most 31 distinct ones in all. */
  lemma {:induction false} AddAllIsGood<P(!new)>(plan: Plan<P>, channel: string, ps: seq<P>)
    requires Room(plan, ps) && channel in plan.channels
    ensures Good(AddAll(plan, channel, ps)) && AddAll(plan, channel, ps).channels.Keys == plan.channels.Keys
    ensures AddAll(plan, channel, ps).list == Minus(plan.list, Elements(ps)) + LastOccurrences(ps)
    decreases |ps|
  {
    if ps == [] {
      MinusNothing(plan.list, Elements(ps));
    } else {
      var p, rest := ps[0], ps[1..];
      RoomForNext(plan, ps);
      AddIsGood(plan, channel, p);
      var added := Add(plan, channel, p);
      AddAllIsGood(added, channel, rest);
      MinusMoved(plan.list, ps);
    }
  }

  lemma RoomForNext<P(!new)>(plan: Plan<P>, ps: seq<P>)
    requires Room(plan, ps) && ps != []
    ensures ps[0] in plan.list || |plan.list| < 31
    ensures Elements(Minus(plan.list, {ps[0]}) + [ps[0]]) + Elements(ps[1..]) == Elements(plan.list) + Elements(ps)
  {
    hide Elements, Minus, NoDuplicates;
    var p := ps[0];
    FirstElement(ps);
    if p !in plan.list {
      DistinctCount(plan.list);
      ElementsAre(plan.list, p);
      SubsetCount(Elements(plan.list) + {p}, Elements(plan.list) + Elements(ps));
    }
    MinusElements(plan.list, {p});
    LastElement(Minus(plan.list, {p}), p);
  }

  lemma {:induction false} AddAllHas<P(!new)>(plan: Plan<P>, channel: string, ps: seq<P>, c: string, x: P)
    requires Room(plan, ps) && channel in plan.channels
    ensures Has(AddAll(plan, channel, ps), c, x) <==> Has(plan, c, x) || (c == channel && x in ps)
    decreases |ps|
  {
    if ps != [] {
      RoomForNext(plan, ps);
      AddIsGood(plan, channel, ps[0]);
      AddHas(plan, channel, ps[0], c, x);
      AddAllHas(Add(plan, channel, ps[0]), channel, ps[1..], c, x);
    }
  }
}
