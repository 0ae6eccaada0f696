/** `getDcSet` of lib/db/synth.ts as it runs: minterms are pushed as lists of numbers, two for each clause. */
module Synthesis {
  import opened DcSets

  /** A clause's number, doubled, plus one if the clause is to be true. */
  function Code(variables: map<Clause, nat>, l: Literal): nat
    requires l.clause in variables
  {
    2 * variables[l.clause] + if l.positive then 1 else 0
  }

  predicate Known(variables: map<Clause, nat>, m: Minterm) { forall l <- m :: l.clause in variables }

  predicate AllKnown(variables: map<Clause, nat>, ms: seq<Minterm>) { forall m <- ms :: Known(variables, m) }

  function Coded(variables: map<Clause, nat>, m: Minterm): seq<nat>
    requires Known(variables, m)
  {
    seq(|m|, i requires 0 <= i < |m| => Code(variables, m[i]))
  }

  /** The number lists that stand for minterms. */
  predicate Stands(variables: map<Clause, nat>, codes: seq<seq<nat>>, ms: seq<Minterm>) {
    AllKnown(variables, ms) && |codes| == |ms| && forall i :: 0 <= i < |ms| ==> codes[i] == Coded(variables, ms[i])
  }

  predicate Extends(larger: map<Clause, nat>, smaller: map<Clause, nat>) {
    forall c :: c in smaller ==> c in larger && larger[c] == smaller[c]
  }

  /** The codes are those of the first `n` literals. */
  predicate EncodedTo(variables: map<Clause, nat>, m: Minterm, codes: seq<nat>, n: nat) {
    n == |codes| <= |m| && forall j :: 0 <= j < n ==> m[j].clause in variables && codes[j] == Code(variables, m[j])
  }

  lemma EncodedStays(smaller: map<Clause, nat>, larger: map<Clause, nat>, m: Minterm, codes: seq<nat>, n: nat)
    requires Extends(larger, smaller) && EncodedTo(smaller, m, codes, n)
    ensures EncodedTo(larger, m, codes, n)
  {}

  lemma StandsLonger(smaller: map<Clause, nat>, larger: map<Clause, nat>, codes: seq<seq<nat>>, ms: seq<Minterm>)
    requires Extends(larger, smaller) && Stands(smaller, codes, ms)
    ensures Stands(larger, codes, ms)
  {
    forall i | 0 <= i < |ms| ensures Known(larger, ms[i]) && codes[i] == Coded(larger, ms[i]) {
      assert Known(smaller, ms[i]);
    }
  }

  lemma StandsConcat(variables: map<Clause, nat>, codes: seq<seq<nat>>, ms: seq<Minterm>, codes': seq<seq<nat>>,
      ms': seq<Minterm>)
    requires Stands(variables, codes, ms) && Stands(variables, codes', ms')
    ensures Stands(variables, codes + codes', ms + ms')
  {}

  /** A truth value for every number avoids the lists exactly if the assignment that it makes avoids the
      minterms. */
  lemma NumberedAlike(variables: map<Clause, nat>, codes: seq<seq<nat>>, ms: seq<Minterm>, b: nat -> bool,
      a: Assignment)
    requires Stands(variables, codes, ms) && forall c <- variables :: a(c) == b(variables[c])
    ensures Avoids(a, ms) <==> forall k <- codes :: exists l <- k :: b(l / 2) != (l % 2 == 1)
  {
    forall i | 0 <= i < |ms| ensures Meets(a, ms[i]) <==> !exists l <- codes[i] :: b(l / 2) != (l % 2 == 1) {
      var m, k := ms[i], codes[i];
      assert Known(variables, m);
      forall j | 0 <= j < |m| ensures Holds(a, m[j]) <==> b(k[j] / 2) == (k[j] % 2 == 1) {
        assert m[j].clause in variables;
      }
      if Meets(a, m) {
        forall l <- k ensures b(l / 2) == (l % 2 == 1) { var j :| 0 <= j < |k| && k[j] == l; assert Holds(a, m[j]); }
      } else {
        var l :| l in m && !Holds(a, l);
        var j :| 0 <= j < |m| && m[j] == l;
        assert k[j] in k && b(k[j] / 2) != (k[j] % 2 == 1);
      }
    }
    if Avoids(a, ms) {
      forall k <- codes ensures exists l <- k :: b(l / 2) != (l % 2 == 1)
      {
        var i :| 0 <= i < |codes| && codes[i] == k;
        assert ms[i] in ms;
      }
    } else {
      var m :| m in ms && Meets(a, m);
      var i :| 0 <= i < |ms| && ms[i] == m;
      assert codes[i] in codes;
    }
  }

  /** No two clauses have the same number, and the next number is free. */
  ghost predicate Numbered(variables: map<Clause, nat>) {
    && (forall c <- variables :: variables[c] < |variables|)
    && forall c, d :: c in variables && d in variables && variables[c] == variables[d] ==> c == d
  }

  class SynthContext {
    var variables: map<Clause, nat>

    ghost predicate Valid()
      reads this
    {
      Numbered(variables)
    }

    constructor ()
      ensures Valid() && variables == map[]
    {
      variables := map[];
    }

    /** A new clause gets the next number, so that no two clauses share one. */
    method GetVar(c: Clause) returns (idx: nat)
      requires Valid()
      modifies this
      ensures Valid() && Extends(variables, old(variables)) && c in variables && idx == variables[c]
    {
      if c in variables { return variables[c]; }
      idx := |variables|;
      variables := variables[c := idx];
    }

    /** The numbers of a list's clauses, new ones where they have none. */
    method Encode(m: Minterm) returns (codes: seq<nat>)
      requires Valid()
      modifies this
      ensures Valid() && Extends(variables, old(variables))
      ensures Known(variables, m) && codes == Coded(variables, m)
    {
      hide Extends, Numbered;
      codes := [];
      ExtendsItself(variables);
      var i := 0;
      while i < |m|
        invariant Valid() && Extends(variables, old(variables)) && EncodedTo(variables, m, codes, i)
      {
        ghost var before := variables;
        var idx := GetVar(m[i].clause);
        ExtendsTwice(old(variables), before, variables);
        EncodedStays(before, variables, m, codes, i);
        codes := codes + [2 * idx + if m[i].positive then 1 else 0];
        i := i + 1;
      }
    }

    /** One list pushed on the set. */
    method Push(dcSet: seq<seq<nat>>, ghost ms: seq<Minterm>, m: Minterm) returns (r: seq<seq<nat>>)
      requires Valid() && Stands(variables, dcSet, ms)
      modifies this
      ensures Valid() && Extends(variables, old(variables)) && Stands(variables, r, ms + [m])
    {
      var codes := Encode(m);
      hide Extends, Numbered;
      StandsLonger(old(variables), variables, dcSet, ms);
      StandsConcat(variables, dcSet, ms, [codes], [m]);
      r := dcSet + [codes];
    }

    method PushAll(dcSet: seq<seq<nat>>, ghost ms: seq<Minterm>, more: seq<Minterm>) returns (r: seq<seq<nat>>)
      requires Valid() && Stands(variables, dcSet, ms)
      modifies this
      ensures Valid() && Extends(variables, old(variables)) && Stands(variables, r, ms + more)
    {
      r := dcSet;
      var i := 0;
      assert ms + more[..0] == ms;
      while i < |more|
        invariant i <= |more| && Valid() && Extends(variables, old(variables)) && Stands(variables, r, ms + more[..i])
      {
        assert ms + more[..i + 1] == ms + more[..i] + [more[i]];
        r := Push(r, ms + more[..i], more[i]);
        i := i + 1;
      }
      assert more[..i] == more;
    }

    /** The loop over the values of one type. */
    method PushComparisons(dcSet: seq<seq<nat>>, ghost ms: seq<Minterm>, p: string, t: Type, vs: seq<Value>)
        returns (r: seq<seq<nat>>)
      requires Valid() && Stands(variables, dcSet, ms)
      modifies this
      ensures Valid() && Extends(variables, old(variables))
        && Stands(variables, r, ms + CompareMinterms(p, t, vs, |vs|))
    {
      hide CompareMinterms, EndMinterms, LocalMinterms, ChainMinterms, LastMinterms, Stands, Extends, Numbered;
      r := dcSet;
      var i := 0;
      NoComparisons(ms, p, t, vs);
      ghost var start := variables;
      ExtendsItself(start);
      while i < |vs|
        invariant i <= |vs| && Valid() && Extends(variables, start)
          && Stands(variables, r, ms + CompareMinterms(p, t, vs, i))
      {
        MoreComparisons(ms, p, t, vs, i);
        ghost var before := variables;
        r := PushValue(r, ms + CompareMinterms(p, t, vs, i), p, t, vs, i);
        ExtendsTwice(start, before, variables);
        i := i + 1;
      }
    }

    /** One turn of the loop over the values. */
    method PushValue(dcSet: seq<seq<nat>>, ghost ms: seq<Minterm>, p: string, t: Type, vs: seq<Value>, i: nat)
        returns (r: seq<seq<nat>>)
      requires Valid() && Stands(variables, dcSet, ms) && i < |vs|
      modifies this
      ensures Valid() && Extends(variables, old(variables))
      ensures Stands(variables, r,
        ms + EndMinterms(p, t, vs[i]) + LocalMinterms(p, t, vs[i]) + ChainMinterms(p, t, vs, i)
        + LastMinterms(p, t, vs, i))
    {
      hide EndMinterms, LocalMinterms, ChainMinterms, LastMinterms, Stands, Extends, Numbered;
      r := PushAll(dcSet, ms, EndMinterms(p, t, vs[i]));
      ghost var first := variables;
      r := PushAll(r, ms + EndMinterms(p, t, vs[i]), LocalMinterms(p, t, vs[i]));
      ghost var second := variables;
      r := PushAll(r, ms + EndMinterms(p, t, vs[i]) + LocalMinterms(p, t, vs[i]), ChainMinterms(p, t, vs, i));
      ghost var third := variables;
      r := PushAll(r, ms + EndMinterms(p, t, vs[i]) + LocalMinterms(p, t, vs[i]) + ChainMinterms(p, t, vs, i),
        LastMinterms(p, t, vs, i));
      ExtendsTwice(old(variables), first, second);
      ExtendsTwice(old(variables), second, third);
      ExtendsTwice(old(variables), third, variables);
    }

    /** The loops over the types of a parameter. */
    method PushTypes(dcSet: seq<seq<nat>>, ghost ms: seq<Minterm>, p: string, types: seq<Type>)
        returns (r: seq<seq<nat>>)
      requires Valid() && Stands(variables, dcSet, ms)
      modifies this
      ensures Valid() && Extends(variables, old(variables)) && Stands(variables, r, ms + NullMinterms(p, types))
    {
      hide NoneOf, TypeMinterms, TypesMinterms, NullMinterms, Stands, Extends, Numbered;
      r := Push(dcSet, ms, NoneOf(p, types));
      var i := 0;
      TypesUnfold(ms, p, types);
      ghost var start := old(variables);
      while i < |types|
        invariant i <= |types| && Valid() && Extends(variables, start)
          && Stands(variables, r, ms + TypesMinterms(p, types, i))
      {
        MoreTypes(ms, p, types, i);
        ghost var before := variables;
        r := PushAll(r, ms + TypesMinterms(p, types, i), TypeMinterms(p, types, i));
        ExtendsTwice(start, before, variables);
        i := i + 1;
      }
      if p == "_id" {
        ghost var before := variables;
        r := Push(r, ms + TypesMinterms(p, types, i), [Yes(IsNull(p))]);
        ExtendsTwice(start, before, variables);
      }
    }

    /** The whole set, for clauses that are grouped by parameter and type with their values ascending. */
    method GetDcSet(ps: seq<Parameter>) returns (dcSet: seq<seq<nat>>)
      requires Valid()
      modifies this
      ensures Valid() && Extends(variables, old(variables)) && Stands(variables, dcSet, DcOf(ps, |ps|))
    {
      hide GroupMinterms, NullMinterms, CompareMinterms, DcOf, Stands, Extends, Numbered;
      dcSet := [];
      var i := 0;
      StandsNothing(variables, ps);
      ghost var start := variables;
      ExtendsItself(start);
      while i < |ps|
        invariant i <= |ps| && Valid() && Extends(variables, start) && Stands(variables, dcSet, DcOf(ps, i))
      {
        MoreParameters(ps, i);
        ghost var before := variables;
        dcSet := PushParameter(dcSet, DcOf(ps, i), ps[i]);
        ExtendsTwice(start, before, variables);
        i := i + 1;
      }
    }

    method PushParameter(dcSet: seq<seq<nat>>, ghost ms: seq<Minterm>, p: Parameter) returns (r: seq<seq<nat>>)
      requires Valid() && Stands(variables, dcSet, ms)
      modifies this
      ensures Valid() && Extends(variables, old(variables))
      ensures Stands(variables, r, ms + GroupMinterms(p.name, p.groups, |p.groups|) + NullMinterms(p.name, p.types))
    {
      hide GroupMinterms, NullMinterms, Stands, Extends, Numbered;
      r := PushGroups(dcSet, ms, p.name, p.groups);
      ghost var before := variables;
      r := PushTypes(r, ms + GroupMinterms(p.name, p.groups, |p.groups|), p.name, p.types);
      ExtendsTwice(old(variables), before, variables);
    }

    method PushGroups(dcSet: seq<seq<nat>>, ghost ms: seq<Minterm>, p: string, gs: seq<Group>)
        returns (r: seq<seq<nat>>)
      requires Valid() && Stands(variables, dcSet, ms)
      modifies this
      ensures Valid() && Extends(variables, old(variables)) && Stands(variables, r, ms + GroupMinterms(p, gs, |gs|))
    {
      hide CompareMinterms, GroupMinterms, Stands, Extends, Numbered;
      r := dcSet;
      var i := 0;
      NoGroups(ms, p, gs);
      ghost var start := variables;
      ExtendsItself(start);
      while i < |gs|
        invariant i <= |gs| && Valid() && Extends(variables, start)
          && Stands(variables, r, ms + GroupMinterms(p, gs, i))
      {
        MoreGroups(ms, p, gs, i);
        ghost var before := variables;
        r := PushComparisons(r, ms + GroupMinterms(p, gs, i), p, gs[i].kind, gs[i].values);
        ExtendsTwice(start, before, variables);
        i := i + 1;
      }
    }
  }

  lemma ExtendsTwice(smallest: map<Clause, nat>, smaller: map<Clause, nat>, larger: map<Clause, nat>)
    requires Extends(smaller, smallest) && Extends(larger, smaller)
    ensures Extends(larger, smallest)
  {}

  lemma ExtendsItself(variables: map<Clause, nat>)
    ensures Extends(variables, variables)
  {}

  lemma StandsNothing(variables: map<Clause, nat>, ps: seq<Parameter>)
    ensures Stands(variables, [], DcOf(ps, 0))
  {}

  lemma MoreParameters(ps: seq<Parameter>, i: nat)
    requires i < |ps|
    ensures DcOf(ps, i + 1) == DcOf(ps, i) + GroupMinterms(ps[i].name, ps[i].groups, |ps[i].groups|)
      + NullMinterms(ps[i].name, ps[i].types)
  {
    hide GroupMinterms, NullMinterms;
    Regroup(DcOf(ps, i), GroupMinterms(ps[i].name, ps[i].groups, |ps[i].groups|),
      NullMinterms(ps[i].name, ps[i].types));
  }

  lemma TypesUnfold(ms: seq<Minterm>, p: string, types: seq<Type>)
    ensures ms + [NoneOf(p, types)] == ms + TypesMinterms(p, types, 0)
    ensures ms + NullMinterms(p, types) ==
      if p == "_id" then ms + TypesMinterms(p, types, |types|) + [[Yes(IsNull(p))]]
      else ms + TypesMinterms(p, types, |types|)
  {
    hide NoneOf, TypeMinterms;
  }

  lemma MoreTypes(ms: seq<Minterm>, p: string, types: seq<Type>, i: nat)
    requires i < |types|
    ensures ms + TypesMinterms(p, types, i + 1) == ms + TypesMinterms(p, types, i) + TypeMinterms(p, types, i)
  {
    hide NoneOf, TypeMinterms;
    Regroup(ms, TypesMinterms(p, types, i), TypeMinterms(p, types, i));
  }

  lemma Regroup(a: seq<Minterm>, b: seq<Minterm>, c: seq<Minterm>)
    ensures a + b + c == a + (b + c)
  {}

  lemma NoGroups(ms: seq<Minterm>, p: string, gs: seq<Group>)
    ensures ms + GroupMinterms(p, gs, 0) == ms
  {}

  lemma MoreGroups(ms: seq<Minterm>, p: string, gs: seq<Group>, i: nat)
    requires i < |gs|
    ensures ms + GroupMinterms(p, gs, i + 1) == ms + GroupMinterms(p, gs, i)
      + CompareMinterms(p, gs[i].kind, gs[i].values, |gs[i].values|)
  {
    hide CompareMinterms;
    Regroup(ms, GroupMinterms(p, gs, i), CompareMinterms(p, gs[i].kind, gs[i].values, |gs[i].values|));
  }

  lemma NoComparisons(ms: seq<Minterm>, p: string, t: Type, vs: seq<Value>)
    ensures ms + CompareMinterms(p, t, vs, 0) == ms
  {}

  lemma MoreComparisons(ms: seq<Minterm>, p: string, t: Type, vs: seq<Value>, i: nat)
    requires i < |vs|
    ensures ms + CompareMinterms(p, t, vs, i + 1) == ms + CompareMinterms(p, t, vs, i)
      + EndMinterms(p, t, vs[i]) + LocalMinterms(p, t, vs[i]) + ChainMinterms(p, t, vs, i) + LastMinterms(p, t, vs, i)
  {
    hide EndMinterms, LocalMinterms, ChainMinterms, LastMinterms;
  }
}
