/** Which of the truth assignments that the don't-care set leaves are those of actual values. */
module DcSetValues {
  import opened JsonText
  import opened DcSets

  // ---- What a field can hold ----

  predicate LowerHex(c: char) { '0' <= c <= '9' || 'a' <= c <= 'f' }

  predicate IsOid(s: string) { |s| == 24 && forall c <- s :: LowerHex(c) }

  /** What values of a type are compared with: times are numbers, and `roundOid` has made object ids of
      all texts. */
  predicate OfSort(t: Type, v: Value) {
    match t
    case Bool => v.Truth?
    case Numeric => v.Num?
    case Date => v.Num?
    case Textual => v.Str?
    case Oid => v.Str? && IsOid(v.s)
    case Other(_) => false
  }

  /** What a field of the type can hold. Times are whole milliseconds. */
  predicate InDomain(t: Type, x: Value) { OfSort(t, x) && (t == Date ==> x.r == x.r.Floor as real) }

  /** There is no value of the type before `v`, which is one. */
  predicate AtStart(t: Type, v: Value) {
    (t == Bool && v == Truth(false)) || (t == Textual && v == Str("")) || (t == Oid && v == Str(ZEROS))
  }

  /** There is no value of the type after `v`, which is one. */
  predicate AtEnd(t: Type, v: Value) {
    (t == Bool && v == Truth(true)) || (t == Oid && v == Str(EFFS))
  }

  const NUL := 0 as char

  /** There is no value of the type between `a` and `b`, which are two in order. */
  predicate Adjacent(t: Type, a: Value, b: Value)
    requires OfSort(t, a) && OfSort(t, b)
  {
    match t
    case Bool => true
    case Numeric => false
    case Date => b.r.Floor <= a.r.Floor + 1
    case Textual => b.s == a.s + [NUL]
    case Oid => Number(b.s) == Number(a.s) + 1
  }

  // ---- Object ids as numbers ----

  function Digit(c: char): (d: nat)
    requires LowerHex(c)
    ensures d < 16
  {
    if c <= '9' then (c - '0') as nat else (c - 'a') as nat + 10
  }

  function Power16(n: nat): (p: nat)
    ensures p > 0
  {
    if n == 0 then 1 else 16 * Power16(n - 1)
  }

  function Number(s: string): nat
    requires forall c <- s :: LowerHex(c)
  {
    if s == "" then 0 else Digit(s[0]) * Power16(|s| - 1) + Number(s[1..])
  }

  function Spelled(n: nat, digits: nat): (s: string)
    requires n < Power16(digits)
    ensures |s| == digits && forall c <- s :: LowerHex(c)
  {
    if digits == 0 then ""
    else
      var p := Power16(digits - 1);
      DivisionBounds(n, p);
      [Hex(n / p)] + Spelled(n % p, digits - 1)
  }

  lemma DivisionBounds(n: nat, p: nat)
    requires p > 0 && n < 16 * p
    ensures 0 <= n / p < 16 && n == (n / p) * p + n % p
  {}

  lemma {:induction false} NumberIsBounded(s: string)
    requires forall c <- s :: LowerHex(c)
    ensures Number(s) < Power16(|s|)
  {
    if s != "" {
      NumberIsBounded(s[1..]);
      Scale(Digit(s[0]), 15, Power16(|s| - 1));
    }
  }

  lemma Scale(a: nat, b: nat, p: nat)
    requires a <= b
    ensures a * p <= b * p
  {}

  lemma FirstDigitDecides(a: nat, b: nat, p: nat, rest: nat, other: nat)
    requires a < b && rest < p
    ensures a * p + rest < b * p + other
  {
    Scale(a + 1, b, p);
  }

  lemma {:induction false} NumbersInOrder(a: string, b: string)
    requires |a| == |b| && (forall c <- a :: LowerHex(c)) && (forall c <- b :: LowerHex(c))
    ensures Less(a, b) <==> Number(a) < Number(b)
  {
    if a != "" {
      var p := Power16(|a| - 1);
      NumbersInOrder(a[1..], b[1..]);
      NumberIsBounded(a[1..]);
      NumberIsBounded(b[1..]);
      if a[0] < b[0] {
        FirstDigitDecides(Digit(a[0]), Digit(b[0]), p, Number(a[1..]), Number(b[1..]));
      } else if b[0] < a[0] {
        FirstDigitDecides(Digit(b[0]), Digit(a[0]), p, Number(b[1..]), Number(a[1..]));
      }
    }
  }

  lemma NumberOfCons(c: char, rest: string)
    requires LowerHex(c) && forall d <- rest :: LowerHex(d)
    ensures (forall d <- [c] + rest :: LowerHex(d)) && Number([c] + rest) == Digit(c) * Power16(|rest|) + Number(rest)
  {
    assert ([c] + rest)[1..] == rest;
  }

  lemma {:induction false} SpelledIsNumber(n: nat, digits: nat)
    requires n < Power16(digits)
    ensures Number(Spelled(n, digits)) == n
  {
    if digits > 0 {
      hide Number;
      var p := Power16(digits - 1);
      DivisionBounds(n, p);
      SpelledIsNumber(n % p, digits - 1);
      assert Digit(Hex(n / p)) == n / p;
      NumberOfCons(Hex(n / p), Spelled(n % p, digits - 1));
    } else {
      assert Spelled(n, digits) == "";
    }
  }

  lemma {:induction false} NothingBeforeZeros(s: string, zeros: string)
    requires |s| == |zeros| && (forall c <- s :: LowerHex(c)) && forall i :: 0 <= i < |zeros| ==> zeros[i] == '0'
    ensures !Less(s, zeros)
  {
    if s != "" {
      assert s[0] in s;
      NothingBeforeZeros(s[1..], zeros[1..]);
    }
  }

  lemma {:induction false} NothingAfterEffs(s: string, effs: string)
    requires |s| == |effs| && (forall c <- s :: LowerHex(c)) && forall i :: 0 <= i < |effs| ==> effs[i] == 'f'
    ensures !Less(effs, s)
  {
    if s != "" {
      assert s[0] in s;
      NothingAfterEffs(s[1..], effs[1..]);
    }
  }

  lemma OidEnds(s: string)
    requires IsOid(s)
    ensures !Less(s, ZEROS) && !Less(EFFS, s) && IsOid(ZEROS) && IsOid(EFFS)
  {
    NothingBeforeZeros(s, ZEROS);
    NothingAfterEffs(s, EFFS);
  }

  // ---- The gaps ----

  lemma {:induction false} NothingShorterBetween(a: string, x: string)
    requires Less(a, x)
    ensures !Less(x, a + [NUL])
  {
    if a != "" {
      assert (a + [NUL])[1..] == a[1..] + [NUL];
      if x[0] == a[0] { NothingShorterBetween(a[1..], x[1..]); }
    }
  }

  lemma {:induction false} LessThanLonger(a: string, c: char)
    ensures Less(a, a + [c])
  {
    if a != "" {
      assert (a + [c])[1..] == a[1..] + [c];
      LessThanLonger(a[1..], c);
    }
  }

  lemma NoOidBetween(a: string, b: string, x: string)
    requires IsOid(a) && IsOid(b) && IsOid(x) && Number(b) == Number(a) + 1
    ensures !(Less(a, x) && Less(x, b))
  {
    hide Less, Number;
    NumbersInOrder(a, x);
    NumbersInOrder(x, b);
  }

  lemma NoTimeBetween(a: real, b: real, x: real)
    requires a == a.Floor as real && b == b.Floor as real && x == x.Floor as real && b.Floor <= a.Floor + 1
    ensures !(a < x < b)
  {
    var i, j, k := a.Floor, b.Floor, x.Floor;
    assert a < x ==> i < k;
    assert x < b ==> k < j;
  }

  lemma NothingBetween(t: Type, a: Value, b: Value, x: Value)
    requires InDomain(t, a) && InDomain(t, b) && InDomain(t, x) && Adjacent(t, a, b)
    ensures !(Before(a, x) && Before(x, b))
  {
    hide Less, Number, IsOid;
    match t
    case Textual => if Less(a.s, x.s) { NothingShorterBetween(a.s, x.s); }
    case Oid => NoOidBetween(a.s, b.s, x.s);
    case Date => NoTimeBetween(a.r, b.r, x.r);
    case _ =>
  }

  lemma OidBetween(a: string, b: string) returns (x: string)
    requires IsOid(a) && IsOid(b) && Less(a, b) && Number(b) != Number(a) + 1
    ensures IsOid(x) && Less(a, x) && Less(x, b)
  {
    hide Less, Number, Spelled, Power16;
    NumbersInOrder(a, b);
    NumberIsBounded(b);
    x := Spelled(Number(a) + 1, 24);
    SpelledIsNumber(Number(a) + 1, 24);
    NumbersInOrder(a, x);
    NumbersInOrder(x, b);
  }

  lemma TextBetween(a: string, b: string)
    requires Less(a, b) && b != a + [NUL]
    ensures Less(a, a + [NUL]) && Less(a + [NUL], b)
  {
    LessThanLonger(a, NUL);
    NothingShorterBetween(a, b);
    LessIsTotal(a + [NUL], b);
  }

  lemma SomethingBetween(t: Type, a: Value, b: Value) returns (x: Value)
    requires InDomain(t, a) && InDomain(t, b) && Before(a, b) && !Adjacent(t, a, b)
    ensures InDomain(t, x) && Before(a, x) && Before(x, b)
  {
    hide Less, Number, IsOid;
    match t
    case Numeric => x := Num((a.r + b.r) / 2.0);
    case Date => x := Num((a.r.Floor + 1) as real);
    case Textual =>
      x := Str(a.s + [NUL]);
      TextBetween(a.s, b.s);
    case Oid =>
      var s := OidBetween(a.s, b.s);
      x := Str(s);
  }

  lemma SomethingBefore(t: Type, v: Value) returns (x: Value)
    requires InDomain(t, v) && !AtStart(t, v)
    ensures InDomain(t, x) && Before(x, v)
  {
    match t
    case Bool => x := Truth(false);
    case Numeric => x := Num(v.r - 1.0);
    case Date => x := Num((v.r.Floor - 1) as real);
    case Textual => x := Str("");
    case Oid =>
      x := Str(ZEROS);
      OidEnds(v.s);
      LessIsTotal(ZEROS, v.s);
  }

  lemma SomethingAfter(t: Type, v: Value) returns (x: Value)
    requires InDomain(t, v) && !AtEnd(t, v)
    ensures InDomain(t, x) && Before(v, x)
  {
    match t
    case Bool => x := Truth(true);
    case Numeric => x := Num(v.r + 1.0);
    case Date => x := Num((v.r.Floor + 1) as real);
    case Textual =>
      x := Str(v.s + [NUL]);
      LessThanLonger(v.s, NUL);
    case Oid =>
      x := Str(EFFS);
      OidEnds(v.s);
      LessIsTotal(EFFS, v.s);
  }

  /** The minterms at the ends of a domain say that nothing lies beyond them. */
  lemma EndMeaning(a: Assignment, p: string, t: Type, v: Value)
    requires OfSort(t, v)
    ensures Allowed(a, p, t, v) <==>
      (AtStart(t, v) ==> !a(Compare(p, Lt, v, t))) && (AtEnd(t, v) ==> !a(Compare(p, Gt, v, t)))
  {
    if t == Oid { OidEnds(v.s); }
    var ms := EndMinterms(p, t, v);
    if ms != [] {
      MeetsOne(a, ms[0][0]);
      assert ms[0] in ms;
    }
  }

  // ---- Assignments of values ----

  /** The comparisons have the truth values that they have for `x`. */
  ghost predicate InducedBy(a: Assignment, p: string, t: Type, vs: seq<Value>, x: Value) {
    a(HasType(p, t)) && forall k :: 0 <= k < |vs| ==> ComparedWith(a, p, t, vs[k], x)
  }

  predicate ComparedWith(a: Assignment, p: string, t: Type, v: Value, x: Value) {
    && a(Compare(p, Eq, v, t)) == (x == v)
    && a(Compare(p, Lt, v, t)) == Before(x, v)
    && a(Compare(p, Gt, v, t)) == Before(v, x)
    && a(Compare(p, Lte, v, t)) == (x == v || Before(x, v))
    && a(Compare(p, Gte, v, t)) == (x == v || Before(v, x))
  }

  ghost predicate OfSorts(t: Type, vs: seq<Value>) { forall k :: 0 <= k < |vs| ==> OfSort(t, vs[k]) }

  lemma {:induction false} AscendingApart(vs: seq<Value>, i: nat, j: nat)
    requires Ascending(vs) && i < j < |vs|
    ensures Before(vs[i], vs[j])
    decreases j
  {
    if i < j - 1 {
      AscendingApart(vs, i, j - 1);
      BeforeIsTransitive(vs[i], vs[j - 1], vs[j]);
    }
  }

  /** `x` lies in region `r`: it is the value there, or between the values around it. */
  predicate LiesIn(vs: seq<Value>, r: nat, x: Value)
    requires r <= 2 * |vs|
  {
    if r % 2 == 1 then x == vs[r / 2]
    else (r > 0 ==> Before(vs[r / 2 - 1], x)) && (r / 2 < |vs| ==> Before(x, vs[r / 2]))
  }

  /** From its region, the order of `x` and every value follows. */
  lemma OrderFromRegion(vs: seq<Value>, r: nat, x: Value, k: nat)
    requires Ascending(vs) && r <= 2 * |vs| && LiesIn(vs, r, x) && k < |vs| && SameSort(x, vs[k])
    ensures (x == vs[k] <==> r == 2 * k + 1) && (Before(x, vs[k]) <==> r < 2 * k + 1)
      && (Before(vs[k], x) <==> r > 2 * k + 1)
  {
    BeforeIsTotal(x, vs[k]);
    if r < 2 * k + 1 {
      if r / 2 < k {
        AscendingApart(vs, r / 2, k);
        if r % 2 == 0 { BeforeIsTransitive(x, vs[r / 2], vs[k]); }
      }
    } else if r > 2 * k + 1 {
      var i := if r % 2 == 1 then r / 2 else r / 2 - 1;
      if k < i {
        AscendingApart(vs, k, i);
        if r % 2 == 0 { BeforeIsTransitive(vs[k], vs[i], x); }
      }
    }
  }

  /** An assignment that is in a region is that of every value there, and of no other. */
  lemma RegionOfValue(a: Assignment, p: string, t: Type, vs: seq<Value>, r: nat, x: Value)
    requires Ascending(vs) && OfSorts(t, vs) && InDomain(t, x) && r <= 2 * |vs| && InRegion(a, p, t, vs, r)
    ensures InducedBy(a, p, t, vs, x) <==> LiesIn(vs, r, x)
  {
    if LiesIn(vs, r, x) {
      forall k | 0 <= k < |vs| ensures ComparedWith(a, p, t, vs[k], x) {
        assert DcSets.At(a, p, t, vs[k], r - (2 * k + 1));
        OrderFromRegion(vs, r, x, k);
      }
    }
    if InducedBy(a, p, t, vs, x) {
      if r % 2 == 1 {
        assert DcSets.At(a, p, t, vs[r / 2], 0) && ComparedWith(a, p, t, vs[r / 2], x);
      } else {
        if r > 0 { assert DcSets.At(a, p, t, vs[r / 2 - 1], 1) && ComparedWith(a, p, t, vs[r / 2 - 1], x); }
        if r / 2 < |vs| { assert DcSets.At(a, p, t, vs[r / 2], -1) && ComparedWith(a, p, t, vs[r / 2], x); }
      }
    }
  }

  // ---- What is left is real ----

  lemma OidAllows(a: Assignment, p: string, v: Value, x: Value)
    requires x.Str? && IsOid(x.s) && v.Str? && ComparedWith(a, p, Oid, v, x)
    ensures Allowed(a, p, Oid, v)
  {
    OidEnds(x.s);
    BeforeIsTotal(x, v);
    if Less(v.s, ZEROS) && Less(x.s, v.s) { LessIsTransitive(x.s, v.s, ZEROS); }
    if Less(EFFS, v.s) && Less(v.s, x.s) { LessIsTransitive(EFFS, v.s, x.s); }
    hide Less, ZEROS, EFFS, IsOid;
    var ms := EndMinterms(p, Oid, v);
    if ms != [] { MeetsOne(a, ms[0][0]); }
  }

  lemma DomainAllows(a: Assignment, p: string, t: Type, v: Value, x: Value)
    requires InDomain(t, x) && SameSort(x, v) && ComparedWith(a, p, t, v, x)
    ensures Allowed(a, p, t, v)
  {
    if t == Oid {
      OidAllows(a, p, v, x);
    } else {
      var ms := EndMinterms(p, t, v);
      if ms != [] { MeetsOne(a, ms[0][0]); }
    }
  }

  /** What holds for some value of the type is never ruled out. */
  lemma RealValuesAreAllowed(a: Assignment, p: string, t: Type, vs: seq<Value>, x: Value)
    requires InDomain(t, x) && (forall v <- vs :: SameSort(x, v)) && Ascending(vs) && InducedBy(a, p, t, vs, x)
    ensures Avoids(a, CompareMinterms(p, t, vs, |vs|))
  {
    forall i | 0 <= i < |vs| ensures Consistent(a, p, t, vs, i) {
      assert ComparedWith(a, p, t, vs[i], x);
      DomainAllows(a, p, t, vs[i], x);
      BeforeIsTotal(x, vs[i]);
      if i > 0 {
        assert ComparedWith(a, p, t, vs[i - 1], x);
        BeforeIsTotal(x, vs[i - 1]);
        if Before(vs[i], x) { BeforeIsTransitive(vs[i - 1], vs[i], x); }
      }
    }
    CompareMeaning(a, p, t, vs, |vs|);
  }

  /** An id outside the range of object ids is left only with the comparisons that hold for every object id. */
  lemma OutsideIsDecided(a: Assignment, p: string, vs: seq<Value>, i: nat, x: string)
    requires a(HasType(p, Oid)) && Avoids(a, CompareMinterms(p, Oid, vs, |vs|))
    requires i < |vs| && vs[i].Str? && (Less(vs[i].s, ZEROS) || Less(EFFS, vs[i].s)) && IsOid(x)
    ensures ComparedWith(a, p, Oid, vs[i], Str(x))
  {
    var v := vs[i];
    OidEnds(x);
    LessIsTotal(x, ZEROS);
    LessIsTotal(x, EFFS);
    BeforeIsTotal(Str(x), v);
    if Less(v.s, ZEROS) && Less(ZEROS, x) { LessIsTransitive(v.s, ZEROS, x); }
    if Less(EFFS, v.s) && Less(x, EFFS) { LessIsTransitive(x, EFFS, v.s); }
    hide Less, ZEROS, EFFS, IsOid, CompareMinterms;
    RegionsExactly(a, p, Oid, vs);
    var r :| 0 <= r <= 2 * |vs| && InRegion(a, p, Oid, vs, r);
    assert DcSets.At(a, p, Oid, v, r - (2 * i + 1)) && Allowed(a, p, Oid, v);
    var ms := EndMinterms(p, Oid, v);
    MeetsOne(a, ms[0][0]);
    assert ms[0] in ms;
  }

  ghost predicate Realised(a: Assignment, p: string, t: Type, vs: seq<Value>) {
    exists x :: InDomain(t, x) && InducedBy(a, p, t, vs, x)
  }

  ghost predicate OnlyRealRemain(p: string, t: Type, vs: seq<Value>) {
    forall a: Assignment ::
      a(HasType(p, t)) && Avoids(a, CompareMinterms(p, t, vs, |vs|)) ==> Realised(a, p, t, vs)
  }

  /** Every compared value is one of the type, and no two are neighbours in it. */
  ghost predicate NoGaps(t: Type, vs: seq<Value>)
    requires OfSorts(t, vs)
  {
    && (forall k :: 0 <= k < |vs| ==> InDomain(t, vs[k]))
    && forall k :: 0 < k < |vs| ==> !Adjacent(t, vs[k - 1], vs[k])
  }

  /** The assignments that are left for a type are those of actual values if and only if no two compared
      values are neighbours and, for dates, all are whole milliseconds. So for numbers it always holds, and
      for truth values if only one is compared. */
  lemma OnlyRealRemainExactly(p: string, t: Type, vs: seq<Value>)
    requires vs != [] && Ascending(vs) && OfSorts(t, vs)
    ensures OnlyRealRemain(p, t, vs) <==> NoGaps(t, vs)
  {
    hide InRegion, Avoids, Realised, Ascending, AllFalse;
    if NoGaps(t, vs) {
      forall a: Assignment | a(HasType(p, t)) && Avoids(a, CompareMinterms(p, t, vs, |vs|))
        ensures Realised(a, p, t, vs)
      {
        RemainingIsReal(a, p, t, vs);
      }
    } else {
      var r := EmptyRegion(t, vs);
      EmptyRegionRemains(InRegionOnly(vs, r), p, t, vs, r);
    }
  }

  lemma RemainingIsReal(a: Assignment, p: string, t: Type, vs: seq<Value>)
    requires vs != [] && Ascending(vs) && OfSorts(t, vs) && NoGaps(t, vs)
    requires a(HasType(p, t)) && Avoids(a, CompareMinterms(p, t, vs, |vs|))
    ensures Realised(a, p, t, vs)
  {
    RegionsExactly(a, p, t, vs);
    var r :| 0 <= r <= 2 * |vs| && InRegion(a, p, t, vs, r);
    var x := ValueIn(a, p, t, vs, r);
    RegionOfValue(a, p, t, vs, r, x);
  }

  lemma ValueIn(a: Assignment, p: string, t: Type, vs: seq<Value>, r: nat) returns (x: Value)
    requires vs != [] && Ascending(vs) && OfSorts(t, vs) && NoGaps(t, vs)
    requires AllAllowed(a, p, t, vs) && r <= 2 * |vs| && InRegion(a, p, t, vs, r)
    ensures InDomain(t, x) && LiesIn(vs, r, x)
  {
    var k := r / 2;
    if r % 2 == 1 {
      x := vs[k];
    } else if k == 0 {
      EndMeaning(a, p, t, vs[0]);
      assert DcSets.At(a, p, t, vs[0], -1) && Allowed(a, p, t, vs[0]);
      x := SomethingBefore(t, vs[0]);
    } else if k == |vs| {
      EndMeaning(a, p, t, vs[k - 1]);
      assert DcSets.At(a, p, t, vs[k - 1], 1) && Allowed(a, p, t, vs[k - 1]);
      x := SomethingAfter(t, vs[k - 1]);
    } else {
      x := SomethingBetween(t, vs[k - 1], vs[k]);
    }
  }

  /** The region of a value that is none of the type, or between two neighbours. */
  lemma EmptyRegion(t: Type, vs: seq<Value>) returns (r: nat)
    requires OfSorts(t, vs) && !NoGaps(t, vs)
    ensures 0 < r < 2 * |vs| && forall x :: InDomain(t, x) ==> !LiesIn(vs, r, x)
  {
    if k: nat :| k < |vs| && !InDomain(t, vs[k]) {
      r := 2 * k + 1;
    } else {
      var k: nat :| 0 < k < |vs| && Adjacent(t, vs[k - 1], vs[k]);
      r := 2 * k;
      forall x | InDomain(t, x) ensures !LiesIn(vs, r, x) { NothingBetween(t, vs[k - 1], vs[k], x); }
    }
  }

  /** The assignment of one region. */
  function InRegionOnly(vs: seq<Value>, r: nat): Assignment {
    (c: Clause) =>
      c.HasType? || (c.Compare? && c.value in vs && Compares(c.op, r - (2 * PlaceOf(vs, c.value) + 1)))
  }

  function PlaceOf(vs: seq<Value>, v: Value): (k: nat)
    requires v in vs
    ensures k < |vs| && vs[k] == v
  {
    if vs[0] == v then 0 else 1 + PlaceOf(vs[1..], v)
  }

  predicate Compares(op: Op, d: int) {
    match op
    case Eq => d == 0
    case Lt => d < 0
    case Gt => d > 0
    case Lte => d <= 0
    case Gte => d >= 0
  }

  lemma InThatRegion(p: string, t: Type, vs: seq<Value>, r: nat)
    requires Ascending(vs)
    ensures InRegion(InRegionOnly(vs, r), p, t, vs, r)
  {
    forall k | 0 <= k < |vs| ensures DcSets.At(InRegionOnly(vs, r), p, t, vs[k], r - (2 * k + 1)) {
      var i := PlaceOf(vs, vs[k]);
      BeforeIsTotal(vs[k], vs[k]);
      if i < k { AscendingApart(vs, i, k); }
      if k < i { AscendingApart(vs, k, i); }
    }
  }

  /** Between the first and the last value, nothing is at an end of the domain. */
  lemma InnerRegionIsAllowed(a: Assignment, p: string, t: Type, vs: seq<Value>, r: nat)
    requires Ascending(vs) && OfSorts(t, vs) && 0 < r < 2 * |vs| && InRegion(a, p, t, vs, r)
    ensures AllAllowed(a, p, t, vs)
  {
    forall k | 0 <= k < |vs| ensures Allowed(a, p, t, vs[k]) {
      assert DcSets.At(a, p, t, vs[k], r - (2 * k + 1));
      EndMeaning(a, p, t, vs[k]);
      if k > 0 { NotAtStart(t, vs[k - 1], vs[k]); }
      if k < |vs| - 1 {
        assert Before(vs[k + 1 - 1], vs[k + 1]);
        NotAtStart(t, vs[k], vs[k + 1]);
      }
    }
  }

  lemma NotAtStart(t: Type, a: Value, b: Value)
    requires OfSort(t, a) && OfSort(t, b) && Before(a, b)
    ensures !AtStart(t, b) && !AtEnd(t, a)
  {
    if t == Oid {
      OidEnds(a.s);
      OidEnds(b.s);
    }
  }

  lemma EmptyRegionRemains(a: Assignment, p: string, t: Type, vs: seq<Value>, r: nat)
    requires a == InRegionOnly(vs, r) && vs != [] && Ascending(vs) && OfSorts(t, vs)
    requires 0 < r < 2 * |vs| && forall x :: InDomain(t, x) ==> !LiesIn(vs, r, x)
    ensures a(HasType(p, t)) && Avoids(a, CompareMinterms(p, t, vs, |vs|)) && !Realised(a, p, t, vs)
  {
    InThatRegion(p, t, vs, r);
    InnerRegionIsAllowed(a, p, t, vs, r);
    RegionsExactly(a, p, t, vs);
    forall x | InDomain(t, x) ensures !InducedBy(a, p, t, vs, x) { RegionOfValue(a, p, t, vs, r, x); }
  }
}
