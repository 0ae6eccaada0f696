/** The impossible combinations of comparisons (lib/db/synth.ts, `getDcSet` without its LIKE part): which
    truth assignments they leave. */
module DcSets {
  import opened JsonText

  datatype Type = Bool | Numeric | Textual | Date | Oid | Other(name: string)
  datatype Value = Truth(b: bool) | Num(r: real) | Str(s: string)
  datatype Op = Eq | Gt | Lt | Gte | Lte
  datatype Clause = Compare(parameter: string, op: Op, value: Value, kind: Type) | IsNull(parameter: string)
      | HasType(parameter: string, kind: Type)

  /** A literal: a clause that is true, or one that is false. */
  datatype Literal = Literal(clause: Clause, positive: bool)
  type Minterm = seq<Literal>
  type Assignment = Clause -> bool

  function Yes(c: Clause): Literal { Literal(c, true) }
  function No(c: Clause): Literal { Literal(c, false) }

  predicate Holds(a: Assignment, l: Literal) { a(l.clause) == l.positive }

  predicate Meets(a: Assignment, m: Minterm) { forall l <- m :: Holds(a, l) }

  ghost predicate Avoids(a: Assignment, ms: seq<Minterm>) { forall m <- ms :: !Meets(a, m) }

  lemma AvoidsConcat(a: Assignment, x: seq<Minterm>, y: seq<Minterm>)
    ensures Avoids(a, x + y) <==> Avoids(a, x) && Avoids(a, y)
  {
    if Avoids(a, x + y) {
      assert forall m <- x :: m in x + y;
      assert forall m <- y :: m in x + y;
    }
  }

  lemma MeetsOne(a: Assignment, k: Literal)
    ensures Meets(a, [k]) <==> Holds(a, k)
  {
    assert k in [k];
  }

  lemma MeetsTwo(a: Assignment, k: Literal, l: Literal)
    ensures Meets(a, [k, l]) <==> Holds(a, k) && Holds(a, l)
  {
    assert k in [k, l] && l in [k, l];
  }

  lemma MeetsThree(a: Assignment, k: Literal, l: Literal, m: Literal)
    ensures Meets(a, [k, l, m]) <==> Holds(a, k) && Holds(a, l) && Holds(a, m)
  {
    assert k in [k, l, m] && l in [k, l, m] && m in [k, l, m];
  }

  // ---- The order of values ----

  predicate Before(a: Value, b: Value) {
    match (a, b)
    case (Truth(x), Truth(y)) => !x && y
    case (Num(x), Num(y)) => x < y
    case (Str(x), Str(y)) => Less(x, y)
    case _ => false
  }

  predicate SameSort(a: Value, b: Value) { (a.Truth? && b.Truth?) || (a.Num? && b.Num?) || (a.Str? && b.Str?) }

  lemma BeforeIsTotal(a: Value, b: Value)
    requires SameSort(a, b)
    ensures Before(a, b) || a == b || Before(b, a)
    ensures !(Before(a, b) && Before(b, a)) && !Before(a, a)
  {
    if a.Str? {
      LessIsTotal(a.s, b.s);
      if Less(a.s, b.s) { LessIsAsymmetric(a.s, b.s); }
      if Less(a.s, a.s) { LessIsAsymmetric(a.s, a.s); }
    }
  }

  lemma BeforeIsTransitive(a: Value, b: Value, c: Value)
    requires Before(a, b) && Before(b, c)
    ensures Before(a, c)
  {
    if a.Str? { LessIsTransitive(a.s, b.s, c.s); }
  }

  ghost predicate Ascending(vs: seq<Value>) {
    forall i :: 0 < i < |vs| ==> Before(vs[i - 1], vs[i])
  }

  // ---- The minterms ----

  /** The first and the last object id. */
  const ZEROS := AllDigits('0')
  const EFFS := AllDigits('f')

  function AllDigits(c: char): string { seq(24, i => c) }

  /** What no value of the type can be, at the ends of its domain. */
  function EndMinterms(p: string, t: Type, v: Value): seq<Minterm> {
    if t == Bool then
      if v == Truth(false) then [[Yes(Compare(p, Lt, v, t))]]
      else if v == Truth(true) then [[Yes(Compare(p, Gt, v, t))]]
      else []
    else if t == Textual then
      if v == Str("") then [[Yes(Compare(p, Lt, v, t))]] else []
    else if t == Oid && v.Str? then
      if Less(v.s, ZEROS) then [[Yes(Compare(p, Lte, v, t))]]
      else if v.s == ZEROS then [[Yes(Compare(p, Lt, v, t))]]
      else if Less(EFFS, v.s) then [[Yes(Compare(p, Gte, v, t))]]
      else if v.s == EFFS then [[Yes(Compare(p, Gt, v, t))]]
      else []
    else []
  }

  function LocalMinterms(p: string, t: Type, v: Value): seq<Minterm> {
    var eq, gt, lt, gte, lte :=
      Compare(p, Eq, v, t), Compare(p, Gt, v, t), Compare(p, Lt, v, t), Compare(p, Gte, v, t), Compare(p, Lte, v, t);
    [[Yes(lt), Yes(gte)],
     [Yes(gt), No(gte)],
     [No(eq), No(lt), Yes(lte)],
     [Yes(eq), No(gte)],
     [Yes(eq), Yes(gt)]]
  }

  /** How value `i` hangs together with the one before it, or with the type. */
  function ChainMinterms(p: string, t: Type, vs: seq<Value>, i: nat): seq<Minterm>
    requires i < |vs|
  {
    var lt, gte := Compare(p, Lt, vs[i], t), Compare(p, Gte, vs[i], t);
    if i == 0 then [[No(HasType(p, t)), Yes(gte)], [No(HasType(p, t)), Yes(lt)]]
    else
      var gt2, lte2 := Compare(p, Gt, vs[i - 1], t), Compare(p, Lte, vs[i - 1], t);
      [[No(gt2), Yes(gte)], [No(gt2), No(lte2), Yes(lt)]]
  }

  function LastMinterms(p: string, t: Type, vs: seq<Value>, i: nat): seq<Minterm>
    requires i < |vs|
  {
    if i == |vs| - 1 then [[Yes(HasType(p, t)), No(Compare(p, Gt, vs[i], t)), No(Compare(p, Lte, vs[i], t))]] else []
  }

  function ValueMinterms(p: string, t: Type, vs: seq<Value>, i: nat): seq<Minterm>
    requires i < |vs|
  {
    EndMinterms(p, t, vs[i]) + LocalMinterms(p, t, vs[i]) + ChainMinterms(p, t, vs, i) + LastMinterms(p, t, vs, i)
  }

  /** For the first `n` values. */
  function CompareMinterms(p: string, t: Type, vs: seq<Value>, n: nat): seq<Minterm>
    requires n <= |vs|
  {
    if n == 0 then [] else CompareMinterms(p, t, vs, n - 1) + ValueMinterms(p, t, vs, n - 1)
  }

  function NoneOf(p: string, types: seq<Type>): Minterm {
    [No(IsNull(p))] + seq(|types|, i requires 0 <= i < |types| => No(HasType(p, types[i])))
  }

  /** Type `i` excludes null and the types after it. */
  function TypeMinterms(p: string, types: seq<Type>, i: nat): seq<Minterm>
    requires i < |types|
  {
    [[Yes(HasType(p, types[i])), Yes(IsNull(p))]] +
    seq(|types| - i - 1, j requires 0 <= j < |types| - i - 1 =>
      [Yes(HasType(p, types[i])), Yes(HasType(p, types[i + 1 + j]))])
  }

  function TypesMinterms(p: string, types: seq<Type>, n: nat): seq<Minterm>
    requires n <= |types|
  {
    if n == 0 then [NoneOf(p, types)] else TypesMinterms(p, types, n - 1) + TypeMinterms(p, types, n - 1)
  }

  function NullMinterms(p: string, types: seq<Type>): seq<Minterm> {
    TypesMinterms(p, types, |types|) + if p == "_id" then [[Yes(IsNull(p))]] else []
  }

  // ---- What the comparisons leave ----

  predicate Allowed(a: Assignment, p: string, t: Type, v: Value) {
    forall m <- EndMinterms(p, t, v) :: !Meets(a, m)
  }

  predicate Locally(a: Assignment, p: string, t: Type, v: Value) {
    var eq, gt, lt, gte, lte :=
      a(Compare(p, Eq, v, t)), a(Compare(p, Gt, v, t)), a(Compare(p, Lt, v, t)), a(Compare(p, Gte, v, t)),
      a(Compare(p, Lte, v, t));
    !(lt && gte) && (gt ==> gte) && (lte ==> eq || lt) && (eq ==> gte) && !(eq && gt)
  }

  predicate Chained(a: Assignment, p: string, t: Type, vs: seq<Value>, i: nat)
    requires i < |vs|
  {
    var lt, gte := a(Compare(p, Lt, vs[i], t)), a(Compare(p, Gte, vs[i], t));
    && (if i == 0 then (gte ==> a(HasType(p, t))) && (lt ==> a(HasType(p, t)))
        else
          var gt2, lte2 := a(Compare(p, Gt, vs[i - 1], t)), a(Compare(p, Lte, vs[i - 1], t));
          (gte ==> gt2) && (lt ==> gt2 || lte2))
    && (i == |vs| - 1 && a(HasType(p, t)) ==> a(Compare(p, Gt, vs[i], t)) || a(Compare(p, Lte, vs[i], t)))
  }

  lemma LocalMeaning(a: Assignment, p: string, t: Type, v: Value)
    ensures Avoids(a, LocalMinterms(p, t, v)) <==> Locally(a, p, t, v)
  {
    var eq, gt, lt, gte, lte :=
      Compare(p, Eq, v, t), Compare(p, Gt, v, t), Compare(p, Lt, v, t), Compare(p, Gte, v, t), Compare(p, Lte, v, t);
    var ms := LocalMinterms(p, t, v);
    assert ms[0] in ms && ms[1] in ms && ms[2] in ms && ms[3] in ms && ms[4] in ms;
    MeetsTwo(a, Yes(lt), Yes(gte));
    MeetsTwo(a, Yes(gt), No(gte));
    MeetsThree(a, No(eq), No(lt), Yes(lte));
    MeetsTwo(a, Yes(eq), No(gte));
    MeetsTwo(a, Yes(eq), Yes(gt));
  }

  lemma ChainMeaning(a: Assignment, p: string, t: Type, vs: seq<Value>, i: nat)
    requires i < |vs|
    ensures Avoids(a, ChainMinterms(p, t, vs, i)) && Avoids(a, LastMinterms(p, t, vs, i)) <==> Chained(a, p, t, vs, i)
  {
    var lt, gte, isType := Compare(p, Lt, vs[i], t), Compare(p, Gte, vs[i], t), HasType(p, t);
    var ms, last := ChainMinterms(p, t, vs, i), LastMinterms(p, t, vs, i);
    assert ms[0] in ms && ms[1] in ms;
    if i == 0 {
      MeetsTwo(a, No(isType), Yes(gte));
      MeetsTwo(a, No(isType), Yes(lt));
    } else {
      MeetsTwo(a, No(Compare(p, Gt, vs[i - 1], t)), Yes(gte));
      MeetsThree(a, No(Compare(p, Gt, vs[i - 1], t)), No(Compare(p, Lte, vs[i - 1], t)), Yes(lt));
    }
    if i == |vs| - 1 {
      assert last[0] in last;
      MeetsThree(a, Yes(isType), No(Compare(p, Gt, vs[i], t)), No(Compare(p, Lte, vs[i], t)));
    }
  }

  ghost predicate Consistent(a: Assignment, p: string, t: Type, vs: seq<Value>, i: nat)
    requires i < |vs|
  {
    Allowed(a, p, t, vs[i]) && Locally(a, p, t, vs[i]) && Chained(a, p, t, vs, i)
  }

  lemma ValueMeaning(a: Assignment, p: string, t: Type, vs: seq<Value>, i: nat)
    requires i < |vs|
    ensures Avoids(a, ValueMinterms(p, t, vs, i)) <==> Consistent(a, p, t, vs, i)
  {
    var end, local, chain, last :=
      EndMinterms(p, t, vs[i]), LocalMinterms(p, t, vs[i]), ChainMinterms(p, t, vs, i), LastMinterms(p, t, vs, i);
    assert Avoids(a, end) <==> Allowed(a, p, t, vs[i]);
    hide LocalMinterms, ChainMinterms, LastMinterms, EndMinterms, Locally, Chained, Avoids, Allowed;
    AvoidsConcat(a, end + local + chain, last);
    AvoidsConcat(a, end + local, chain);
    AvoidsConcat(a, end, local);
    LocalMeaning(a, p, t, vs[i]);
    ChainMeaning(a, p, t, vs, i);
  }

  lemma {:induction false} CompareMeaning(a: Assignment, p: string, t: Type, vs: seq<Value>, n: nat)
    requires n <= |vs|
    ensures Avoids(a, CompareMinterms(p, t, vs, n)) <==> forall i :: 0 <= i < n ==> Consistent(a, p, t, vs, i)
  {
    hide Avoids, ValueMinterms, Consistent;
    if n == 0 {
      NothingToAvoid(a);
    } else {
      CompareMeaning(a, p, t, vs, n - 1);
      AvoidsConcat(a, CompareMinterms(p, t, vs, n - 1), ValueMinterms(p, t, vs, n - 1));
      ValueMeaning(a, p, t, vs, n - 1);
    }
  }

  // ---- Regions ----

  /** Region 2k is the gap before value k, region 2k + 1 the value itself, region 2n the gap after all. */
  predicate InRegion(a: Assignment, p: string, t: Type, vs: seq<Value>, r: nat) {
    a(HasType(p, t)) && forall k :: 0 <= k < |vs| ==> At(a, p, t, vs[k], r - (2 * k + 1))
  }

  /** The comparisons with a value from a place that is below, at or above it as the sign of `d` says. */
  predicate At(a: Assignment, p: string, t: Type, v: Value, d: int) {
    && a(Compare(p, Eq, v, t)) == (d == 0)
    && a(Compare(p, Lt, v, t)) == (d < 0)
    && a(Compare(p, Gt, v, t)) == (d > 0)
    && a(Compare(p, Lte, v, t)) == (d <= 0)
    && a(Compare(p, Gte, v, t)) == (d >= 0)
  }

  predicate AllFalse(a: Assignment, p: string, t: Type, vs: seq<Value>) {
    !a(HasType(p, t)) && forall k :: 0 <= k < |vs| ==> NoneAt(a, p, t, vs[k])
  }

  predicate NoneAt(a: Assignment, p: string, t: Type, v: Value) {
    !a(Compare(p, Eq, v, t)) && !a(Compare(p, Lt, v, t)) && !a(Compare(p, Gt, v, t)) && !a(Compare(p, Lte, v, t))
      && !a(Compare(p, Gte, v, t))
  }

  ghost predicate ConsistentAll(a: Assignment, p: string, t: Type, vs: seq<Value>) {
    forall i :: 0 <= i < |vs| ==> Consistent(a, p, t, vs, i)
  }

  lemma {:induction false} WithoutTypeNothing(a: Assignment, p: string, t: Type, vs: seq<Value>, k: nat)
    requires ConsistentAll(a, p, t, vs) && !a(HasType(p, t)) && k < |vs|
    ensures NoneAt(a, p, t, vs[k])
  {
    assert Consistent(a, p, t, vs, k);
    if k > 0 { WithoutTypeNothing(a, p, t, vs, k - 1); }
  }

  /** No value of the type falls between two neighbours. */
  lemma {:induction false} Alive(a: Assignment, p: string, t: Type, vs: seq<Value>, k: nat)
    requires ConsistentAll(a, p, t, vs) && a(HasType(p, t)) && k < |vs|
    ensures a(Compare(p, Gt, vs[k], t)) || a(Compare(p, Lte, vs[k], t))
    decreases |vs| - k
  {
    assert Consistent(a, p, t, vs, k);
    if k + 1 < |vs| {
      assert Consistent(a, p, t, vs, k + 1);
      Alive(a, p, t, vs, k + 1);
    }
  }

  /** At and after the first value that is not exceeded, everything is determined. */
  lemma {:induction false} Below(a: Assignment, p: string, t: Type, vs: seq<Value>, r: nat, k: nat, first: nat)
    requires ConsistentAll(a, p, t, vs) && a(HasType(p, t)) && first <= k < |vs|
    requires !a(Compare(p, Gt, vs[first], t))
      && r == (if a(Compare(p, Eq, vs[first], t)) then 2 * first + 1 else 2 * first)
    ensures At(a, p, t, vs[k], r - (2 * k + 1))
    decreases k
  {
    assert Consistent(a, p, t, vs, k);
    Alive(a, p, t, vs, k);
    if k > first { Below(a, p, t, vs, r, k - 1, first); }
  }

  lemma {:induction false} FirstNotExceeded(a: Assignment, p: string, t: Type, vs: seq<Value>, n: nat)
      returns (first: nat)
    requires n <= |vs|
    ensures first <= n && (first < n ==> !a(Compare(p, Gt, vs[first], t)))
    ensures forall k :: 0 <= k < first ==> a(Compare(p, Gt, vs[k], t))
  {
    if n == 0 { return 0; }
    first := FirstNotExceeded(a, p, t, vs, n - 1);
    if first == n - 1 && a(Compare(p, Gt, vs[n - 1], t)) { first := n; }
  }

  lemma HasRegion(a: Assignment, p: string, t: Type, vs: seq<Value>) returns (r: nat)
    requires ConsistentAll(a, p, t, vs) && a(HasType(p, t))
    ensures r <= 2 * |vs| && InRegion(a, p, t, vs, r)
  {
    var first := FirstNotExceeded(a, p, t, vs, |vs|);
    r := if first < |vs| && a(Compare(p, Eq, vs[first], t)) then 2 * first + 1 else 2 * first;
    forall k | 0 <= k < |vs| ensures At(a, p, t, vs[k], r - (2 * k + 1)) {
      assert Consistent(a, p, t, vs, k);
      if k >= first { Below(a, p, t, vs, r, k, first); }
    }
  }

  ghost predicate AllAllowed(a: Assignment, p: string, t: Type, vs: seq<Value>) {
    forall k :: 0 <= k < |vs| ==> Allowed(a, p, t, vs[k])
  }

  lemma NothingOrRegionIsConsistent(a: Assignment, p: string, t: Type, vs: seq<Value>)
    requires vs != []
    ensures AllAllowed(a, p, t, vs) && AllFalse(a, p, t, vs) ==> ConsistentAll(a, p, t, vs)
    ensures forall r :: 0 <= r <= 2 * |vs| && AllAllowed(a, p, t, vs) && InRegion(a, p, t, vs, r) ==>
      ConsistentAll(a, p, t, vs)
  {
    if AllFalse(a, p, t, vs) {
      forall i | 0 <= i < |vs| ensures Locally(a, p, t, vs[i]) && Chained(a, p, t, vs, i) {
        assert NoneAt(a, p, t, vs[i]) && NoneAt(a, p, t, vs[if i > 0 then i - 1 else 0]);
      }
    }
    forall r | 0 <= r <= 2 * |vs| && InRegion(a, p, t, vs, r)
      ensures forall i :: 0 <= i < |vs| ==> Locally(a, p, t, vs[i]) && Chained(a, p, t, vs, i)
    {
      forall i | 0 <= i < |vs| ensures Locally(a, p, t, vs[i]) && Chained(a, p, t, vs, i) {
        assert At(a, p, t, vs[i], r - (2 * i + 1));
        var j := if i > 0 then i - 1 else 0;
        assert At(a, p, t, vs[j], r - (2 * j + 1));
      }
    }
  }

  /** An assignment avoids every minterm for a parameter and a type exactly if the value is not of the type
      and all comparisons are false, or if it is in one of the 2n + 1 regions of the ordered values, unless
      that region lies beyond an end of the domain. */
  lemma RegionsExactly(a: Assignment, p: string, t: Type, vs: seq<Value>)
    requires vs != []
    ensures Avoids(a, CompareMinterms(p, t, vs, |vs|)) <==>
      AllAllowed(a, p, t, vs) && (AllFalse(a, p, t, vs) || exists r :: 0 <= r <= 2 * |vs| && InRegion(a, p, t, vs, r))
  {
    CompareMeaning(a, p, t, vs, |vs|);
    if ConsistentAll(a, p, t, vs) {
      if a(HasType(p, t)) {
        var r := HasRegion(a, p, t, vs);
      } else {
        forall k | 0 <= k < |vs| ensures NoneAt(a, p, t, vs[k]) { WithoutTypeNothing(a, p, t, vs, k); }
      }
      forall k | 0 <= k < |vs| ensures Allowed(a, p, t, vs[k]) { assert Consistent(a, p, t, vs, k); }
    } else {
      NothingOrRegionIsConsistent(a, p, t, vs);
    }
  }

  // ---- Null and types ----

  predicate ExactlyOne(a: Assignment, p: string, types: seq<Type>) {
    if a(IsNull(p)) then forall i :: 0 <= i < |types| ==> !a(HasType(p, types[i]))
    else exists i :: 0 <= i < |types| && a(HasType(p, types[i])) && forall j :: 0 <= j < |types| && j != i ==>
      !a(HasType(p, types[j]))
  }

  lemma NoneOfMeaning(a: Assignment, p: string, types: seq<Type>)
    ensures Meets(a, NoneOf(p, types)) <==> !a(IsNull(p)) && forall i :: 0 <= i < |types| ==> !a(HasType(p, types[i]))
  {
    var m := NoneOf(p, types);
    assert m[0] in m && forall i :: 0 <= i < |types| ==> m[i + 1] == No(HasType(p, types[i]));
    if Meets(a, m) {
      forall i | 0 <= i < |types| ensures !a(HasType(p, types[i])) { assert m[i + 1] in m && Holds(a, m[i + 1]); }
    }
  }

  predicate TypeAlone(a: Assignment, p: string, types: seq<Type>, i: nat)
    requires i < |types|
  {
    a(HasType(p, types[i])) ==> !a(IsNull(p)) && forall j :: i < j < |types| ==> !a(HasType(p, types[j]))
  }

  lemma TypeMeaning(a: Assignment, p: string, types: seq<Type>, i: nat)
    requires i < |types|
    ensures Avoids(a, TypeMinterms(p, types, i)) <==> TypeAlone(a, p, types, i)
  {
    var ms, t := TypeMinterms(p, types, i), HasType(p, types[i]);
    MeetsTwo(a, Yes(t), Yes(IsNull(p)));
    assert ms[0] in ms;
    forall j | i < j < |types| ensures ms[j - i] == [Yes(t), Yes(HasType(p, types[j]))] && ms[j - i] in ms
      && (Meets(a, ms[j - i]) <==> a(t) && a(HasType(p, types[j])))
    {
      MeetsTwo(a, Yes(t), Yes(HasType(p, types[j])));
    }
    if TypeAlone(a, p, types, i) {
      forall m <- ms ensures !Meets(a, m) {
        var k :| 0 <= k < |ms| && ms[k] == m;
        if k > 0 { assert ms[(i + k) - i] == [Yes(t), Yes(HasType(p, types[i + k]))]; }
      }
    }
  }

  lemma NoneOfAlone(a: Assignment, p: string, types: seq<Type>)
    ensures Avoids(a, [NoneOf(p, types)]) <==> !Meets(a, NoneOf(p, types))
  {
    assert NoneOf(p, types) in [NoneOf(p, types)];
  }

  lemma {:induction false} TypesMeaning(a: Assignment, p: string, types: seq<Type>, n: nat)
    requires n <= |types|
    ensures Avoids(a, TypesMinterms(p, types, n)) <==>
      !Meets(a, NoneOf(p, types)) && forall i :: 0 <= i < n ==> TypeAlone(a, p, types, i)
  {
    hide NoneOf, TypeMinterms, TypeAlone, Avoids, Meets;
    if n == 0 {
      NoneOfAlone(a, p, types);
    } else {
      TypesMeaning(a, p, types, n - 1);
      AvoidsConcat(a, TypesMinterms(p, types, n - 1), TypeMinterms(p, types, n - 1));
      TypeMeaning(a, p, types, n - 1);
    }
  }

  lemma OneFromAlone(a: Assignment, p: string, types: seq<Type>)
    requires !Meets(a, NoneOf(p, types)) && forall i :: 0 <= i < |types| ==> TypeAlone(a, p, types, i)
    ensures ExactlyOne(a, p, types)
  {
    NoneOfMeaning(a, p, types);
    hide NoneOf, Meets;
    if a(IsNull(p)) {
      forall i | 0 <= i < |types| ensures !a(HasType(p, types[i])) { assert TypeAlone(a, p, types, i); }
    } else {
      var i :| 0 <= i < |types| && a(HasType(p, types[i]));
      forall j | 0 <= j < |types| && j != i ensures !a(HasType(p, types[j])) {
        assert TypeAlone(a, p, types, i) && TypeAlone(a, p, types, j);
      }
    }
  }

  lemma AloneFromOne(a: Assignment, p: string, types: seq<Type>)
    requires ExactlyOne(a, p, types)
    ensures !Meets(a, NoneOf(p, types)) && forall i :: 0 <= i < |types| ==> TypeAlone(a, p, types, i)
  {
    NoneOfMeaning(a, p, types);
    hide NoneOf, Meets;
    forall i | 0 <= i < |types| ensures TypeAlone(a, p, types, i) {}
  }

  /** Exactly one of null and the listed types holds, and not null for the key. */
  lemma NullOrOneTypeExactly(a: Assignment, p: string, types: seq<Type>)
    ensures Avoids(a, NullMinterms(p, types)) <==> ExactlyOne(a, p, types) && !(p == "_id" && a(IsNull(p)))
  {
    var rest: seq<Minterm> := if p == "_id" then [[Yes(IsNull(p))]] else [];
    AvoidsConcat(a, TypesMinterms(p, types, |types|), rest);
    assert Avoids(a, rest) <==> !(p == "_id" && a(IsNull(p))) by {
      MeetsOne(a, Yes(IsNull(p)));
      if p == "_id" { assert rest[0] in rest; }
    }
    hide ExactlyOne, Avoids, Meets, NoneOf, TypeAlone, TypesMinterms;
    TypesMeaning(a, p, types, |types|);
    if ExactlyOne(a, p, types) { AloneFromOne(a, p, types); }
    if Avoids(a, TypesMinterms(p, types, |types|)) { OneFromAlone(a, p, types); }
  }

  // ---- The whole set ----

  /** The compared values of one type, and all that is known about one parameter. */
  datatype Group = Group(kind: Type, values: seq<Value>)
  datatype Parameter = Parameter(name: string, groups: seq<Group>, types: seq<Type>)

  function GroupMinterms(p: string, gs: seq<Group>, n: nat): seq<Minterm>
    requires n <= |gs|
  {
    if n == 0 then []
    else GroupMinterms(p, gs, n - 1) + CompareMinterms(p, gs[n - 1].kind, gs[n - 1].values, |gs[n - 1].values|)
  }

  function DcOf(ps: seq<Parameter>, n: nat): seq<Minterm>
    requires n <= |ps|
  {
    if n == 0 then []
    else
      var p := ps[n - 1];
      DcOf(ps, n - 1) + (GroupMinterms(p.name, p.groups, |p.groups|) + NullMinterms(p.name, p.types))
  }

  /** The comparisons with the values of one type fit together. */
  ghost predicate Possible(a: Assignment, p: string, g: Group) {
    && AllAllowed(a, p, g.kind, g.values)
    && (AllFalse(a, p, g.kind, g.values) || exists r :: 0 <= r <= 2 * |g.values| && InRegion(a, p, g.kind, g.values, r))
  }

  ghost predicate PossibleFor(a: Assignment, p: Parameter) {
    && (forall g <- p.groups :: Possible(a, p.name, g))
    && ExactlyOne(a, p.name, p.types) && !(p.name == "_id" && a(IsNull(p.name)))
  }

  lemma {:induction false} GroupsExactly(a: Assignment, p: string, gs: seq<Group>, n: nat)
    requires n <= |gs| && forall g <- gs :: g.values != []
    ensures Avoids(a, GroupMinterms(p, gs, n)) <==> forall g <- gs[..n] :: Possible(a, p, g)
  {
    hide Avoids, AllFalse, InRegion, AllAllowed, CompareMinterms;
    if n == 0 {
      NothingToAvoid(a);
    } else {
      GroupsExactly(a, p, gs, n - 1);
      var g := gs[n - 1];
      AvoidsConcat(a, GroupMinterms(p, gs, n - 1), CompareMinterms(p, g.kind, g.values, |g.values|));
      RegionsExactly(a, p, g.kind, g.values);
      assert Avoids(a, CompareMinterms(p, g.kind, g.values, |g.values|)) <==> Possible(a, p, g);
      hide Possible;
      OneMore(gs, n, h => Possible(a, p, h));
    }
  }

  lemma OneMore<T>(s: seq<T>, n: nat, f: T -> bool)
    requires 0 < n <= |s|
    ensures (forall x <- s[..n] :: f(x)) <==> (forall x <- s[..n - 1] :: f(x)) && f(s[n - 1])
  {
    assert s[..n] == s[..n - 1] + [s[n - 1]];
    assert forall x <- s[..n - 1] :: x in s[..n];
    assert s[n - 1] in s[..n];
  }

  lemma NothingToAvoid(a: Assignment)
    ensures Avoids(a, [])
  {}

  /** The don't-care set rules out exactly the assignments in which some parameter is impossible. */
  lemma {:induction false} DontCaresExactly(a: Assignment, ps: seq<Parameter>, n: nat)
    requires n <= |ps| && forall p <- ps, g <- p.groups :: g.values != []
    ensures Avoids(a, DcOf(ps, n)) <==> forall p <- ps[..n] :: PossibleFor(a, p)
  {
    hide Avoids, Possible, ExactlyOne, GroupMinterms, NullMinterms;
    if n == 0 {
      NothingToAvoid(a);
    } else {
      DontCaresExactly(a, ps, n - 1);
      var p := ps[n - 1];
      var comparisons, nulls := GroupMinterms(p.name, p.groups, |p.groups|), NullMinterms(p.name, p.types);
      AvoidsConcat(a, DcOf(ps, n - 1), comparisons + nulls);
      AvoidsConcat(a, comparisons, nulls);
      assert p in ps;
      GroupsExactly(a, p.name, p.groups, |p.groups|);
      NullOrOneTypeExactly(a, p.name, p.types);
      assert p.groups[..|p.groups|] == p.groups;
      assert Avoids(a, comparisons + nulls) <==> PossibleFor(a, p);
      hide PossibleFor;
      OneMore(ps, n, q => PossibleFor(a, q));
    }
  }
}
