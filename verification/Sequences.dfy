/** Lists without duplicates, and lists with some elements taken out. */
module Sequences {
  ghost predicate NoDuplicates<T(!new)>(s: seq<T>) { forall i, j :: 0 <= i < j < |s| ==> s[i] != s[j] }

  ghost function Elements<T(!new)>(s: seq<T>): set<T> { set x | x in s }

  function Without<T(!new)>(s: seq<T>, j: nat): seq<T>
    requires j < |s|
  {
    s[..j] + s[j + 1..]
  }

  /** The place of `x` in a list; in a list without duplicates there is only one. */
  ghost function IndexOf<T(!new)>(s: seq<T>, x: T): (j: nat)
    ensures x in s ==> j < |s| && s[j] == x
    ensures x !in s ==> j == |s|
  {
    if x in s then var j: nat :| j < |s| && s[j] == x; j else |s|
  }

  /** The elements of `s` that are not in `xs`, in order. */
  ghost function Minus<T(!new)>(s: seq<T>, xs: set<T>): seq<T> {
    if s == [] then [] else if s[0] in xs then Minus(s[1..], xs) else [s[0]] + Minus(s[1..], xs)
  }

  /** `s` without repetitions: each element at the place of its last occurrence. */
  ghost function LastOccurrences<T(!new)>(s: seq<T>): seq<T> {
    if s == [] then [] else if s[0] in s[1..] then LastOccurrences(s[1..]) else [s[0]] + LastOccurrences(s[1..])
  }

  lemma IndexIsUnique<T(!new)>(s: seq<T>, i: nat)
    requires NoDuplicates(s) && i < |s|
    ensures IndexOf(s, s[i]) == i
  {
    var j := IndexOf(s, s[i]);
    assert s[i] in s;
  }

  lemma WithoutNoDuplicates<T(!new)>(s: seq<T>, j: nat)
    requires NoDuplicates(s) && j < |s|
    ensures NoDuplicates(Without(s, j)) && s[j] !in Without(s, j)
  {
    var w := Without(s, j);
    forall a, b | 0 <= a < b < |w| ensures w[a] != w[b] {
      assert w[a] == s[if a < j then a else a + 1] && w[b] == s[if b < j then b else b + 1];
    }
    forall a | 0 <= a < |w| ensures w[a] != s[j] {
      assert w[a] == s[if a < j then a else a + 1];
    }
  }

  lemma WithoutIndex<T(!new)>(s: seq<T>, j: nat, x: T)
    requires NoDuplicates(s) && j < |s| && x in s && x != s[j]
    ensures x in Without(s, j)
    ensures IndexOf(Without(s, j), x) == if IndexOf(s, x) < j then IndexOf(s, x) else IndexOf(s, x) - 1
  {
    WithoutNoDuplicates(s, j);
    var i := IndexOf(s, x);
    var k := if i < j then i else i - 1;
    assert Without(s, j)[k] == x;
    IndexIsUnique(Without(s, j), k);
  }

  lemma ElementsAre<T(!new)>(s: seq<T>, x: T)
    ensures x in Elements(s) <==> x in s
  {}

  lemma FirstElement<T(!new)>(s: seq<T>)
    requires s != []
    ensures Elements(s) == Elements(s[1..]) + {s[0]}
  {}

  lemma LastElement<T(!new)>(s: seq<T>, x: T)
    ensures Elements(s + [x]) == Elements(s) + {x}
  {}

  lemma {:induction false} MinusNothing<T(!new)>(s: seq<T>, xs: set<T>)
    requires forall x :: x in s ==> x !in xs
    ensures Minus(s, xs) == s
  {
    if s != [] { MinusNothing(s[1..], xs); }
  }

  lemma {:induction false} MinusElements<T(!new)>(s: seq<T>, xs: set<T>)
    ensures Elements(Minus(s, xs)) == Elements(s) - xs
  {
    if s != [] {
      MinusElements(s[1..], xs);
      assert Elements(s) == {s[0]} + Elements(s[1..]);
      if s[0] !in xs { assert Elements([s[0]] + Minus(s[1..], xs)) == {s[0]} + Elements(Minus(s[1..], xs)); }
    }
  }

  lemma {:induction false} MinusConcat<T(!new)>(s: seq<T>, t: seq<T>, xs: set<T>)
    ensures Minus(s + t, xs) == Minus(s, xs) + Minus(t, xs)
  {
    if s == [] {
      assert s + t == t;
    } else {
      assert (s + t)[1..] == s[1..] + t;
      MinusConcat(s[1..], t, xs);
    }
  }

  lemma {:induction false} MinusTwice<T(!new)>(s: seq<T>, xs: set<T>, ys: set<T>)
    ensures Minus(Minus(s, xs), ys) == Minus(s, xs + ys)
  {
    if s != [] {
      MinusTwice(s[1..], xs, ys);
      if s[0] !in xs { assert Minus(s, xs)[1..] == Minus(s[1..], xs); }
    }
  }

  lemma MinusOne<T(!new)>(s: seq<T>, x: T)
    requires NoDuplicates(s)
    ensures Minus(s, {x}) == if x in s then Without(s, IndexOf(s, x)) else s
  {
    if x in s {
      var j := IndexOf(s, x);
      hide Minus, IndexOf;
      assert s == s[..j] + [x] + s[j + 1..];
      MinusNothing(s[..j], {x});
      MinusNothing(s[j + 1..], {x});
      MinusMiddle(s[..j], x, s[j + 1..]);
    } else {
      MinusNothing(s, {x});
    }
  }

  lemma MinusMiddle<T(!new)>(before: seq<T>, x: T, after: seq<T>)
    ensures Minus(before + [x] + after, {x}) == Minus(before, {x}) + Minus(after, {x})
  {
    MinusConcat(before + [x], after, {x});
    MinusConcat(before, [x], {x});
    assert [x][1..] == [] && Minus([x], {x}) == [];
  }

  lemma {:induction false} DistinctCount<T(!new)>(s: seq<T>)
    requires NoDuplicates(s)
    ensures |Elements(s)| == |s|
  {
    if s != [] {
      DistinctCount(s[1..]);
      assert Elements(s) == {s[0]} + Elements(s[1..]);
    }
  }

  lemma {:induction false} SubsetCount<T(!new)>(a: set<T>, b: set<T>)
    requires a <= b
    ensures |a| <= |b| && (|a| == |b| ==> a == b)
  {
    if a != {} {
      var x :| x in a;
      SubsetCount(a - {x}, b - {x});
    }
  }

  lemma Associative<T>(a: seq<T>, b: seq<T>, c: seq<T>)
    ensures (a + b) + c == a + (b + c)
  {}

  lemma MinusSingle<T(!new)>(p: T, rest: seq<T>)
    ensures Minus([p], Elements(rest)) == if p in rest then [] else [p]
  {
    assert [p][1..] == [];
  }

  /** A list after its first element is moved behind another list and the others are taken out of that. */
  lemma MinusMoved<T(!new)>(list: seq<T>, ps: seq<T>)
    requires ps != []
    ensures Minus(Minus(list, {ps[0]}) + [ps[0]], Elements(ps[1..])) + LastOccurrences(ps[1..])
      == Minus(list, Elements(ps)) + LastOccurrences(ps)
  {
    var p, rest := ps[0], ps[1..];
    var kept := if p in rest then [] else [p];
    calc {
      Minus(Minus(list, {p}) + [p], Elements(rest)) + LastOccurrences(rest);
      { MinusConcat(Minus(list, {p}), [p], Elements(rest)); MinusSingle(p, rest); }
      (Minus(Minus(list, {p}), Elements(rest)) + kept) + LastOccurrences(rest);
      { MinusTwice(list, {p}, Elements(rest)); assert {p} + Elements(rest) == Elements(ps); }
      (Minus(list, Elements(ps)) + kept) + LastOccurrences(rest);
      { Associative(Minus(list, Elements(ps)), kept, LastOccurrences(rest)); }
      Minus(list, Elements(ps)) + (kept + LastOccurrences(rest));
      { assert [] + LastOccurrences(rest) == LastOccurrences(rest); }
      Minus(list, Elements(ps)) + LastOccurrences(ps);
    }
  }
}
