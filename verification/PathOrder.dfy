/** The pairs of an alias are sorted (lib/common/path.ts), so that however they are written the path prints
    alike. */
module PathOrder {
  import opened JsonText
  import opened Paths
  import PathInjectivity
  import PathRoundTrips

  lemma {:induction false} InsertKeeps(p: Pair, ps: seq<Pair>)
    ensures multiset(InsertPair(p, ps)) == multiset{p} + multiset(ps)
  {
    hide After;
    if ps != [] && After(p, ps[0]) {
      InsertKeeps(p, ps[1..]);
      assert ps == [ps[0]] + ps[1..];
    }
  }

  lemma {:induction false} SortKeeps(ps: seq<Pair>)
    ensures multiset(SortPairs(ps)) == multiset(ps)
  {
    if ps != [] {
      SortKeeps(ps[1..]);
      InsertKeeps(ps[0], SortPairs(ps[1..]));
      assert ps == [ps[0]] + ps[1..];
    }
  }

  /** `a` comes before `b`: by the printed path, and by the value where these are the same. */
  predicate Precedes(a: Pair, b: Pair) {
    Less(Print(a.path), Print(b.path)) || (Print(a.path) == Print(b.path) && Less(a.value, b.value))
  }

  lemma AfterExactly(a: Pair, b: Pair)
    ensures After(a, b) <==> Precedes(b, a)
  {
    LessIsTotal(Print(a.path), Print(b.path));
    if Less(Print(b.path), Print(a.path)) { LessIsAsymmetric(Print(b.path), Print(a.path)); }
  }

  lemma OnlyOneOrder(a: Pair, b: Pair)
    requires WellFormed(a.path) && WellFormed(b.path)
    ensures Precedes(a, b) || a == b || Precedes(b, a)
    ensures Precedes(a, b) ==> !Precedes(b, a)
  {
    hide Less, WellFormed;
    var x, y := Print(a.path), Print(b.path);
    LessIsTotal(x, y);
    LessIsTotal(a.value, b.value);
    if x == y { PathInjectivity.PrintIsInjective(a.path, b.path); }
    if Less(x, y) { LessIsAsymmetric(x, y); }
    if Less(a.value, b.value) { LessIsAsymmetric(a.value, b.value); }
  }

  lemma PrecedesOn(a: Pair, b: Pair, c: Pair)
    requires Precedes(a, b) && Precedes(b, c)
    ensures Precedes(a, c)
  {
    hide Less;
    var x, y, z := Print(a.path), Print(b.path), Print(c.path);
    if Less(x, y) && Less(y, z) { LessIsTransitive(x, y, z); }
    if Less(a.value, b.value) && Less(b.value, c.value) { LessIsTransitive(a.value, b.value, c.value); }
  }

  ghost predicate AllWellFormed(ps: seq<Pair>) { forall p <- ps :: p.path.segments != [] && WellFormed(p.path) }

  /** The first of a sorted list comes before all others that differ from it. */
  lemma {:induction false} FirstPrecedes(ps: seq<Pair>, p: Pair)
    requires Sorted(ps) && AllWellFormed(ps) && p in ps && p != ps[0]
    ensures Precedes(ps[0], p)
  {
    hide After, Precedes, WellFormed;
    var first, second := ps[0], ps[1];
    AfterExactly(first, second);
    OnlyOneOrder(first, second);
    if p != second {
      FirstPrecedes(ps[1..], p);
      if first != second { PrecedesOn(first, second, p); }
    }
  }

  lemma FirstOf(ps: seq<Pair>)
    requires ps != []
    ensures multiset(ps) == multiset{ps[0]} + multiset(ps[1..])
  {
    assert ps == [ps[0]] + ps[1..];
  }

  lemma Cancels(p: Pair, a: multiset<Pair>, b: multiset<Pair>)
    requires multiset{p} + a == multiset{p} + b
    ensures a == b
  {
    forall q ensures a[q] == b[q] { assert (multiset{p} + a)[q] == (multiset{p} + b)[q]; }
  }

  lemma SameMembers(ps: seq<Pair>, qs: seq<Pair>)
    requires multiset(ps) == multiset(qs)
    ensures forall p :: p in ps <==> p in qs
    ensures AllWellFormed(ps) ==> AllWellFormed(qs)
  {
    hide WellFormed;
    forall p ensures p in ps <==> p in qs {
      assert p in ps <==> p in multiset(ps);
      assert p in qs <==> p in multiset(qs);
    }
  }

  lemma FirstsAgree(ps: seq<Pair>, qs: seq<Pair>)
    requires Sorted(ps) && Sorted(qs) && AllWellFormed(ps) && AllWellFormed(qs)
    requires ps != [] && qs != [] && ps[0] in qs && qs[0] in ps
    ensures ps[0] == qs[0]
  {
    hide After, Precedes, WellFormed, Sorted;
    if ps[0] != qs[0] {
      FirstPrecedes(ps, qs[0]);
      FirstPrecedes(qs, ps[0]);
      OnlyOneOrder(ps[0], qs[0]);
      assert false;
    }
  }

  /** What is sorted is told by its members and how often they are there. */
  lemma {:induction false} SortedIsUnique(ps: seq<Pair>, qs: seq<Pair>)
    requires Sorted(ps) && Sorted(qs) && AllWellFormed(ps) && multiset(ps) == multiset(qs)
    ensures ps == qs
    decreases |ps|
  {
    hide After, Precedes, WellFormed;
    SameMembers(ps, qs);
    if ps == [] {
      if qs != [] { FirstOf(qs); }
    } else {
      assert ps[0] in qs;
      FirstsAgree(ps, qs);
      FirstOf(ps);
      FirstOf(qs);
      Cancels(ps[0], multiset(ps[1..]), multiset(qs[1..]));
      SortedIsUnique(ps[1..], qs[1..]);
      assert ps == [ps[0]] + ps[1..] && qs == [qs[0]] + qs[1..];
    }
  }

  lemma {:induction false} MembersAreWellFormed(ps: seq<Pair>)
    requires WellFormedPairs(ps)
    ensures AllWellFormed(ps)
  {
    hide WellFormed;
    if ps != [] {
      MembersAreWellFormed(ps[1..]);
      assert ps == [ps[0]] + ps[1..];
    }
  }

  lemma {:induction false} WellFormedByMembers(ps: seq<Pair>)
    requires AllWellFormed(ps)
    ensures WellFormedPairs(ps)
  {
    hide WellFormed;
    if ps != [] { WellFormedByMembers(ps[1..]); }
  }

  /** In whatever order the pairs of an alias are written, they are read alike. */
  lemma AliasOrderIsCanonical(ps: seq<Pair>, qs: seq<Pair>)
    requires WellFormedPairs(ps) && multiset(ps) == multiset(qs)
    ensures SortPairs(ps) == SortPairs(qs)
  {
    hide Sorted, WellFormed, After, WellFormedPairs, SortPairs, AllWellFormed;
    MembersAreWellFormed(ps);
    SortKeeps(ps);
    SortKeeps(qs);
    SameMembers(ps, SortPairs(ps));
    SameMembers(ps, qs);
    WellFormedByMembers(qs);
    PathRoundTrips.SortSorts(ps);
    PathRoundTrips.SortSorts(qs);
    SortedIsUnique(SortPairs(ps), SortPairs(qs));
  }
}
