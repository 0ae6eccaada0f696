/** How faults keep the provisions to run again (lib/cwmp.ts, `appendProvisions` and `recordFault`). A
    provision is identified by its JSON text. */
module Faults {
  import opened Options
  import opened Sequences

  // ---- appendProvisions ----

  /** Where `splice` inserts: a negative index counts from the end. */
  function SpliceIndex(i: int, length: nat): (at: nat)
    ensures at <= length
  {
    if i >= 0 then (if i <= length then i else length) else if length + i > 0 then length + i else 0
  }

  function InsertAt<P(!new)>(s: seq<P>, i: nat, p: P): seq<P>
    requires i <= |s|
  {
    s[..i] + [p] + s[i..]
  }

  /** Some copy of `p` is among the last `k`. */
  ghost predicate InTail<P(!new)>(s: seq<P>, p: P, k: nat) { exists j :: 0 <= j < |s| && j >= |s| - k && s[j] == p }

  /** One provision, the `k`-th from the end of those to append: the list stays if it has it among its last
      `k` already; otherwise all copies go, and it comes to the `k`-th place from the end. */
  ghost function Placed<P(!new)>(s: seq<P>, p: P, k: nat): seq<P> {
    if InTail(s, p, k) then s
    else
      var rest := Minus(s, {p});
      InsertAt(rest, SpliceIndex(|rest| - k + 1, |rest|), p)
  }

  /** In a list without duplicates there is one copy at most. */
  lemma PlacedOnce<P(!new)>(s: seq<P>, p: P, k: nat)
    requires NoDuplicates(s)
    ensures Placed(s, p, k) ==
      if p in s && IndexOf(s, p) >= |s| - k then s
      else
        var rest := if p in s then Without(s, IndexOf(s, p)) else s;
        InsertAt(rest, SpliceIndex(|rest| - k + 1, |rest|), p)
  {
    hide SpliceIndex, InsertAt, Minus;
    MinusOne(s, p);
    if p in s {
      forall j | 0 <= j < |s| && s[j] == p ensures j == IndexOf(s, p) { IndexIsUnique(s, j); }
    }
  }

  ghost function Appended<P(!new)>(original: seq<P>, toAppend: seq<P>): seq<P> {
    if toAppend == [] then original else Placed(Appended(original, toAppend[1..]), toAppend[0], |toAppend|)
  }

  lemma InsertElements<P(!new)>(s: seq<P>, i: nat, p: P)
    requires i <= |s|
    ensures Elements(InsertAt(s, i, p)) == Elements(s) + {p}
    ensures NoDuplicates(s) && p !in s ==> NoDuplicates(InsertAt(s, i, p))
  {
    var r := InsertAt(s, i, p);
    forall x ensures x in r <==> x in s || x == p {
      assert s == s[..i] + s[i..];
    }
    if NoDuplicates(s) && p !in s {
      forall a, b | 0 <= a < b < |r| ensures r[a] != r[b] {
        assert a != i ==> r[a] == s[if a < i then a else a - 1];
        assert b != i ==> r[b] == s[if b < i then b else b - 1];
      }
    }
  }

  lemma PlacedElements<P(!new)>(s: seq<P>, p: P, k: nat)
    ensures Elements(Placed(s, p, k)) == Elements(s) + {p}
    ensures NoDuplicates(s) ==> NoDuplicates(Placed(s, p, k))
  {
    hide NoDuplicates, InsertAt, Minus;
    ElementsAre(s, p);
    var rest := Minus(s, {p});
    MinusElements(s, {p});
    ElementsAre(rest, p);
    if NoDuplicates(s) { MinusKeepsDistinct(s, {p}); }
    InsertElements(rest, SpliceIndex(|rest| - k + 1, |rest|), p);
  }

  /** Whatever is appended to whatever list, nothing is lost, and nothing is doubled that was not. */
  lemma {:induction false} AppendedIsUnion<P(!new)>(original: seq<P>, toAppend: seq<P>)
    ensures Elements(Appended(original, toAppend)) == Elements(original) + Elements(toAppend)
    ensures NoDuplicates(original) ==> NoDuplicates(Appended(original, toAppend))
  {
    if toAppend != [] {
      AppendedIsUnion(original, toAppend[1..]);
      PlacedElements(Appended(original, toAppend[1..]), toAppend[0], |toAppend|);
      FirstElement(toAppend);
    }
  }

  lemma TailHasNoDuplicates<P(!new)>(s: seq<P>)
    requires NoDuplicates(s) && s != []
    ensures NoDuplicates(s[1..]) && s[0] !in s[1..]
  {}

  lemma HeadFirst<P>(before: seq<P>, s: seq<P>)
    requires s != []
    ensures before + [s[0]] + s[1..] == before + s
  {}

  /** Without repetitions, the appended provisions end up last, in their order, after the other ones. */
  lemma {:induction false} AppendedEndUpLast<P(!new)>(original: seq<P>, toAppend: seq<P>)
    requires NoDuplicates(original) && NoDuplicates(toAppend)
    ensures Appended(original, toAppend) == Minus(original, Elements(toAppend)) + toAppend
  {
    if toAppend == [] {
      MinusNothing(original, Elements(toAppend));
    } else {
      hide Placed, Minus, Without, NoDuplicates, Elements;
      var p, rest := toAppend[0], toAppend[1..];
      TailHasNoDuplicates(toAppend);
      AppendedEndUpLast(original, rest);
      AppendedIsUnion(original, rest);
      var others := Minus(original, Elements(rest));
      MinusKeepsDistinct(original, Elements(rest));
      PlacedBefore(others, rest, p);
      MinusOne(others, p);
      MinusTwice(original, Elements(rest), {p});
      FirstElement(toAppend);
      HeadFirst(Minus(others, {p}), toAppend);
    }
  }

  lemma {:induction false} MinusKeepsDistinct<P(!new)>(s: seq<P>, xs: set<P>)
    requires NoDuplicates(s)
    ensures NoDuplicates(Minus(s, xs))
  {
    if s != [] {
      TailHasNoDuplicates(s);
      MinusKeepsDistinct(s[1..], xs);
      MinusElements(s[1..], xs);
      if s[0] !in xs {
        assert s[0] !in Minus(s[1..], xs) by { assert s[0] !in Elements(Minus(s[1..], xs)); }
        ConsNoDuplicates(s[0], Minus(s[1..], xs));
      }
    }
  }

  lemma ConsNoDuplicates<P(!new)>(x: P, s: seq<P>)
    requires NoDuplicates(s) && x !in s
    ensures NoDuplicates([x] + s)
  {}

  lemma PlacedBefore<P(!new)>(others: seq<P>, last: seq<P>, p: P)
    requires NoDuplicates(others) && NoDuplicates(others + last) && p !in last
    ensures Placed(others + last, p, |last| + 1) ==
      (if p in others then Without(others, IndexOf(others, p)) else others) + [p] + last
  {
    hide NoDuplicates, IndexOf, Without, InsertAt, Placed;
    var s := others + last;
    PlacedOnce(s, p, |last| + 1);
    if p in others {
      var j := IndexOf(others, p);
      assert s[j] == p;
      IndexIsUnique(s, j);
      WithoutConcat(others, last, j);
      if j == |others| - 1 {
        WithoutLast(others, p);
      } else {
        InsertedBetween(Without(others, j), last, p);
      }
    } else {
      InsertedBetween(others, last, p);
    }
  }

  lemma WithoutConcat<P(!new)>(s: seq<P>, t: seq<P>, j: nat)
    requires j < |s|
    ensures Without(s + t, j) == Without(s, j) + t && |Without(s, j)| == |s| - 1
  {}

  lemma WithoutLast<P(!new)>(s: seq<P>, p: P)
    requires s != [] && s[|s| - 1] == p
    ensures Without(s, |s| - 1) + [p] == s
  {}

  lemma InsertedBetween<P(!new)>(before: seq<P>, after: seq<P>, p: P)
    ensures InsertAt(before + after, |before|, p) == before + [p] + after
  {
    assert (before + after)[..|before|] == before && (before + after)[|before|..] == after;
  }

  /** If appending changes nothing, appending fewer did not either. */
  lemma UnchangedBefore<P(!new)>(original: seq<P>, toAppend: seq<P>)
    requires NoDuplicates(original) && NoDuplicates(toAppend) && toAppend != []
    requires Appended(original, toAppend) == original
    ensures Appended(original, toAppend[1..]) == original
  {
    hide Appended, Minus, NoDuplicates;
    var p, rest := toAppend[0], toAppend[1..];
    TailHasNoDuplicates(toAppend);
    AppendedEndUpLast(original, toAppend);
    AppendedEndUpLast(original, rest);
    var others := Minus(original, Elements(toAppend));
    HeadFirst(others, toAppend);
    MinusConcat(others + [p], rest, Elements(rest));
    MinusElements(original, Elements(toAppend));
    assert forall x :: x in others ==> x in Elements(others);
    MinusNothing(others + [p], Elements(rest));
    MinusAll(rest, Elements(rest));
    assert others + [p] + [] == others + [p];
  }

  lemma {:induction false} MinusAll<P(!new)>(s: seq<P>, xs: set<P>)
    requires Elements(s) <= xs
    ensures Minus(s, xs) == []
  {
    if s != [] {
      assert s[0] in Elements(s);
      MinusAll(s[1..], xs);
    }
  }

  // ---- Order with repetitions ----

  /** Every first mention of a provision finds no repetitions after it, or at least as many of them as
      there are different provisions. */
  ghost predicate KeepsOrder<P(!new)>(s: seq<P>) {
    s == [] || (KeepsOrder(s[1..])
      && (s[0] in s[1..] || Repetitions(s[1..]) == 0 || Repetitions(s[1..]) >= |LastOccurrences(s[1..])|))
  }

  ghost function Repetitions<P(!new)>(s: seq<P>): int { |s| - |LastOccurrences(s)| }

  lemma {:induction false} LastOccurrencesElements<P(!new)>(s: seq<P>)
    ensures NoDuplicates(LastOccurrences(s)) && Elements(LastOccurrences(s)) == Elements(s)
    ensures |LastOccurrences(s)| <= |s|
  {
    if s != [] {
      LastOccurrencesElements(s[1..]);
      assert Elements(s) == {s[0]} + Elements(s[1..]);
      assert forall x :: x in LastOccurrences(s[1..]) ==> x in Elements(LastOccurrences(s[1..]));
    }
  }

  /** Where a step puts a provision into a list that was empty at first: at `Repetitions` before the start. */
  lemma PlacedInto<P(!new)>(rest: seq<P>, p: P)
    ensures var list := Appended([], rest);
      if p in rest then Appended([], [p] + rest) == list
      else
        && Appended([], [p] + rest) == InsertAt(list, SpliceIndex(|list| - |rest|, |list|), p)
        && p !in list && |list| == |LastOccurrences(rest)|
  {
    hide NoDuplicates, LastOccurrences, InsertAt, Without, IndexOf, SpliceIndex;
    var list := Appended([], rest);
    NothingTwice<P>();
    AppendedIsUnion([], rest);
    PlacedOnce(list, p, |rest| + 1);
    LastOccurrencesElements(rest);
    DistinctCount(list);
    DistinctCount(LastOccurrences(rest));
    assert Elements(list) == Elements(rest);
    assert p in list <==> p in Elements(list);
    assert p in rest <==> p in Elements(rest);
    assert ([p] + rest)[1..] == rest;
  }

  lemma NothingTwice<P(!new)>()
    ensures NoDuplicates<P>([])
  {}

  lemma InsertedRemoved<P(!new)>(s: seq<P>, i: nat, p: P)
    requires i <= |s| && p !in s
    ensures Minus(InsertAt(s, i, p), {p}) == s
  {
    hide Minus;
    var before, after := s[..i], s[i..];
    MinusConcat(before + [p], after, {p});
    MinusConcat(before, [p], {p});
    MinusNothing(before, {p});
    MinusNothing(after, {p});
    MinusAll([p], {p});
    assert before + [] == before && before + after == s;
  }

  /** What is appended to an empty list, as `recordFault` does, is in the order of its last mentions
      exactly if `KeepsOrder`. */
  lemma {:induction false} OrderIsKeptExactly<P(!new)>(s: seq<P>)
    ensures Appended([], s) == LastOccurrences(s) <==> KeepsOrder(s)
  {
    if s != [] {
      var p, rest := s[0], s[1..];
      var list, expected := Appended([], rest), LastOccurrences(rest);
      OrderIsKeptExactly(rest);
      PlacedInto(rest, p);
      LastOccurrencesElements(rest);
      assert s == [p] + rest;
      if p !in rest {
        var i := SpliceIndex(|list| - |rest|, |list|);
        var placed := InsertAt(list, i, p);
        assert p in expected <==> p in Elements(expected);
        InsertedRemoved(list, i, p);
        InsertedRemoved(expected, 0, p);
        assert InsertAt(expected, 0, p) == [p] + expected;
        if list == expected {
          assert placed == [p] + expected <==> i == 0 by {
            if i > 0 { assert placed[0] == list[0]; }
          }
        }
      }
    }
  }

  /** A provision mentioned once lands between others when there are too few repetitions after it. */
  lemma RepetitionsBreakOrder<P(!new)>(a: P, x: P, y: P, z: P)
    requires NoDuplicates([a, x, y, z])
    ensures Appended([], [a, x, x, y, z]) == [x, y, a, z]
  {
    hide Appended, NoDuplicates, LastOccurrences;
    Distinct(a, x, y, z);
    AppendedThree(x, y, z);
    PlacedInto([x, y, z], x);
    assert [x] + [x, y, z] == [x, x, y, z];
    PlacedInto([x, x, y, z], a);
    assert [a] + [x, x, y, z] == [a, x, x, y, z];
    assert InsertAt([x, y, z], 2, a) == [x, y, a, z];
  }

  lemma AppendedThree<P(!new)>(x: P, y: P, z: P)
    requires x != y && x != z && y != z
    ensures Appended([], [x, y, z]) == [x, y, z]
  {
    var s := [x, y, z];
    assert NoDuplicates(s);
    AppendedEndUpLast([], s);
    assert [] + s == s;
  }

  lemma Distinct<P(!new)>(a: P, x: P, y: P, z: P)
    requires NoDuplicates([a, x, y, z])
    ensures a != x && a != y && a != z && x != y && x != z && y != z
  {
    var s := [a, x, y, z];
    assert s[0] != s[1] && s[0] != s[2] && s[0] != s[3] && s[1] != s[2] && s[1] != s[3] && s[2] != s[3];
  }

  lemma AppendedStep<P(!new)>(original: seq<P>, toAppend: seq<P>, i: nat)
    requires i < |toAppend|
    ensures Appended(original, toAppend[i..]) ==
      Placed(Appended(original, toAppend[i + 1..]), toAppend[i], |toAppend| - i)
    ensures NoDuplicates(original) && NoDuplicates(toAppend) && Appended(original, toAppend[i..]) == original ==>
      Appended(original, toAppend[i + 1..]) == original
  {
    hide NoDuplicates, Placed;
    assert toAppend[i..][1..] == toAppend[i + 1..];
    if NoDuplicates(original) && NoDuplicates(toAppend) && Appended(original, toAppend[i..]) == original {
      PartHasNoDuplicates(toAppend, i);
      UnchangedBefore(original, toAppend[i..]);
    }
  }

  lemma PartHasNoDuplicates<P(!new)>(s: seq<P>, i: nat)
    requires NoDuplicates(s) && i <= |s|
    ensures NoDuplicates(s[i..])
  {}

  /** The loop as it runs: from the last provision to append to the first. */
  method AppendProvisions<P(==, !new)>(initial: seq<P>, toAppend: seq<P>) returns (original: seq<P>, modified: bool)
    ensures original == Appended(initial, toAppend)
    ensures !modified ==> original == initial
    ensures NoDuplicates(initial) && NoDuplicates(toAppend) ==> (modified <==> original != initial)
  {
    hide NoDuplicates, Placed;
    original, modified := initial, false;
    var i := |toAppend|;
    assert toAppend[i..] == [] && toAppend[0..] == toAppend;
    while i > 0
      invariant 0 <= i <= |toAppend| && original == Appended(initial, toAppend[i..])
      invariant !modified ==> original == initial
      invariant NoDuplicates(initial) && NoDuplicates(toAppend) && modified ==> original != initial
    {
      hide Appended;
      i := i - 1;
      AppendedStep(initial, toAppend, i);
      var changed: bool;
      original, changed := Place(original, toAppend[i], |toAppend| - i);
      modified := modified || changed;
    }
  }

  /** What is placed is among the last `k` then. */
  lemma PlacedChanges<P(!new)>(s: seq<P>, x: P, k: nat)
    requires k > 0 && !InTail(s, x, k)
    ensures Placed(s, x, k) != s
  {
    hide Minus;
    var rest := Minus(s, {x});
    var at := SpliceIndex(|rest| - k + 1, |rest|);
    assert Placed(s, x, k)[at] == x && at >= |rest| + 1 - k;
    assert InTail(Placed(s, x, k), x, k);
  }

  /** The list while the inner loop stands at `j` and has taken out all later copies. */
  ghost function TakenFrom<P(!new)>(s: seq<P>, x: P, j: nat): seq<P>
    requires j <= |s|
  {
    s[..j] + Minus(s[j..], {x})
  }

  lemma TakesNext<P(!new)>(s: seq<P>, x: P, j: nat)
    requires j < |s|
    ensures |TakenFrom(s, x, j + 1)| > j && TakenFrom(s, x, j + 1)[j] == s[j]
    ensures var t := TakenFrom(s, x, j + 1); TakenFrom(s, x, j) == if s[j] == x then t[..j] + t[j + 1..] else t
  {
    assert s[j..][1..] == s[j + 1..] && s[..j + 1] == s[..j] + [s[j]];
    var t, rest := TakenFrom(s, x, j + 1), Minus(s[j + 1..], {x});
    hide Minus;
    assert t == s[..j] + ([s[j]] + rest);
    assert t[j + 1..] == rest && t[..j] == s[..j];
  }

  /** The inner loop: looks for the provision from the end. */
  method Place<P(==, !new)>(s: seq<P>, x: P, k: nat) returns (original: seq<P>, modified: bool)
    requires k > 0
    ensures original == Placed(s, x, k) && (modified <==> original != s)
  {
    hide Minus, SpliceIndex, TakenFrom;
    original, modified := s, false;
    var p := Some(x);
    var j := |original|;
    NothingTaken(s, x);
    while j > 0
      invariant 0 <= j <= |s| && |original| <= |s|
      invariant p.None? ==> !modified && original == s && InTail(s, x, k)
      invariant p.Some? ==> original == TakenFrom(s, x, j) && forall i :: j <= i < |s| && s[i] == x ==> i < |s| - k
      invariant !modified ==> original == s
      invariant modified ==> p.Some? && j <= |original| - k
    {
      j := j - 1;
      TakesNext(s, x, j);
      if original[j] == x {
        if p.None? || j >= |original| - k {
          p := None;
        } else {
          original := original[..j] + original[j + 1..];
          modified := true;
        }
      }
    }
    if p.Some? {
      AllTaken(s, x);
      PlacedChanges(s, x, k);
      var at := SpliceIndex(|original| - k + 1, |original|);
      original := original[..at] + [x] + original[at..];
      modified := true;
    }
  }

  lemma NothingTaken<P(!new)>(s: seq<P>, x: P)
    ensures TakenFrom(s, x, |s|) == s
  {}

  lemma AllTaken<P(!new)>(s: seq<P>, x: P)
    ensures TakenFrom(s, x, 0) == Minus(s, {x})
  {
    assert s[0..] == s;
  }
}
