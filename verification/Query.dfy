/** Query expansion (lib/query.ts, `expandValue`): an object of operators stands for all combinations of what
    its operands can mean, and a loop over a list of indices enumerates them. */
module Queries {
  datatype Value = Text(text: string) | Plain(token: string) | List(items: seq<Value>) | Object(entries: seq<Entry>)
      | Undefined
  datatype Entry = Entry(key: string, value: Value)

  const EXPAND_OPS := {"$eq", "$gt", "$gte", "$in", "$lt", "$lte", "$ne", "$nin"}

  // ---- Mixed radix ----

  function Total(r: seq<nat>): nat { if r == [] then 1 else r[0] * Total(r[1..]) }

  ghost predicate Radices(r: seq<nat>) { forall i :: 0 <= i < |r| ==> r[i] > 0 }

  function Quotient(n: nat, k: nat): nat
    requires k > 0
  {
    n / k
  }

  function Remainder(n: nat, k: nat): nat
    requires k > 0
  {
    n % k
  }

  lemma Division(n: nat, k: nat)
    requires k > 0
    ensures n == Remainder(n, k) + k * Quotient(n, k) && Remainder(n, k) < k
  {}

  /** The digits of `n`, the least significant first. */
  function Digits(n: nat, r: seq<nat>): (d: seq<nat>)
    requires forall i :: 0 <= i < |r| ==> r[i] > 0
    ensures |d| == |r|
    decreases |r|
  {
    if r == [] then [] else [Remainder(n, r[0])] + Digits(Quotient(n, r[0]), r[1..])
  }

  ghost predicate IsChoice(d: seq<nat>, r: seq<nat>) { |d| == |r| && forall i :: 0 <= i < |r| ==> d[i] < r[i] }

  ghost function Number(d: seq<nat>, r: seq<nat>): nat
    requires |d| == |r|
  {
    if r == [] then 0 else d[0] + r[0] * Number(d[1..], r[1..])
  }

  lemma {:induction false} TotalIsPositive(r: seq<nat>)
    requires Radices(r)
    ensures Total(r) > 0
  {
    if r != [] { TotalIsPositive(r[1..]); }
  }

  lemma {:induction false} NumberIsBelowTotal(d: seq<nat>, r: seq<nat>)
    requires IsChoice(d, r)
    ensures Number(d, r) < Total(r)
  {
    if r != [] {
      NumberIsBelowTotal(d[1..], r[1..]);
      Scaled(r[0], Number(d[1..], r[1..]), Total(r[1..]));
    }
  }

  lemma Scaled(k: nat, a: nat, b: nat)
    requires a < b
    ensures k * a + k <= k * b
  {
    assert k * (a + 1) <= k * b;
  }

  lemma DivisionIsUnique(d: nat, k: nat, a: nat)
    requires d < k
    ensures Remainder(d + k * a, k) == d && Quotient(d + k * a, k) == a
  {
    var n := d + k * a;
    Division(n, k);
    hide Remainder, Quotient;
    var q := Quotient(n, k);
    if q < a { Scaled(k, q, a); }
    if a < q { Scaled(k, a, q); }
  }

  lemma {:induction false} DigitsOfNumber(d: seq<nat>, r: seq<nat>)
    requires IsChoice(d, r)
    ensures Radices(r) && Digits(Number(d, r), r) == d
  {
    if r != [] {
      hide Remainder, Quotient;
      DigitsOfNumber(d[1..], r[1..]);
      DivisionIsUnique(d[0], r[0], Number(d[1..], r[1..]));
    }
  }

  lemma {:induction false} NumberOfDigits(n: nat, r: seq<nat>)
    requires Radices(r) && n < Total(r)
    ensures IsChoice(Digits(n, r), r) && Number(Digits(n, r), r) == n
    decreases |r|
  {
    if r != [] {
      hide Remainder, Quotient;
      var k, rest := r[0], Total(r[1..]);
      var q := Quotient(n, k);
      Division(n, k);
      if q >= rest { Scaled(k, rest, q + 1); }
      NumberOfDigits(q, r[1..]);
    }
  }

  /** Every choice of alternatives is the digits of exactly one number below the product. */
  lemma EveryChoiceOnce(d: seq<nat>, r: seq<nat>)
    requires Radices(r)
    ensures IsChoice(d, r) <==> exists n: nat :: n < Total(r) && Digits(n, r) == d
    ensures forall m: nat, n: nat :: m < Total(r) && n < Total(r) && Digits(m, r) == Digits(n, r) ==> m == n
  {
    if IsChoice(d, r) {
      NumberIsBelowTotal(d, r);
      DigitsOfNumber(d, r);
    }
    forall n: nat | n < Total(r) ensures IsChoice(Digits(n, r), r) && Number(Digits(n, r), r) == n
    {
      NumberOfDigits(n, r);
    }
  }

  // ---- Counting on ----

  function Zeros(n: nat): seq<nat> { seq(n, i => 0) }

  /** One step of the odometer; past the last choice it is back at zero. */
  function Next(d: seq<nat>, r: seq<nat>): (e: seq<nat>)
    requires |d| == |r|
    ensures |e| == |d|
  {
    if d == [] then [] else if d[0] + 1 < r[0] then [d[0] + 1] + d[1..] else [0] + Next(d[1..], r[1..])
  }

  predicate IsLast(d: seq<nat>, r: seq<nat>)
    requires |d| == |r|
  {
    d == [] || (d[0] + 1 >= r[0] && IsLast(d[1..], r[1..]))
  }

  lemma {:induction false} NextCounts(d: seq<nat>, r: seq<nat>)
    requires IsChoice(d, r)
    ensures IsChoice(Next(d, r), r)
    ensures IsLast(d, r) <==> Number(d, r) + 1 == Total(r)
    ensures !IsLast(d, r) ==> Number(Next(d, r), r) == Number(d, r) + 1
  {
    if d != [] {
      NextCounts(d[1..], r[1..]);
      NumberIsBelowTotal(d[1..], r[1..]);
      CountDigit(d[0], r[0], Number(d[1..], r[1..]), Total(r[1..]));
    }
  }

  /** The last number comes when the digit and all the others are at their ends. */
  lemma CountDigit(x: nat, k: nat, a: nat, b: nat)
    requires x < k && a < b
    ensures x + k * a + 1 == k * b <==> x + 1 == k && a + 1 == b
    ensures x + 1 == k ==> x + k * a + 1 == k * (a + 1)
  {
    assert k * (a + 1) == k * a + k;
    if a + 1 < b { Scaled(k, a + 1, b); }
  }

  lemma {:induction false} ZerosAreFirst(r: seq<nat>)
    requires Radices(r)
    ensures IsChoice(Zeros(|r|), r) && Number(Zeros(|r|), r) == 0
  {
    if r != [] {
      ZerosAreFirst(r[1..]);
      assert Zeros(|r|)[1..] == Zeros(|r[1..]|);
    }
  }

  // ---- What is enumerated ----

  /** An operand without alternatives counts as one that is undefined. */
  function Radix(alternatives: seq<Value>): nat { if alternatives == [] then 1 else |alternatives| }

  function RadicesOf(values: seq<seq<Value>>): (r: seq<nat>)
    ensures |r| == |values| && forall i :: 0 <= i < |r| ==> r[i] == Radix(values[i]) && r[i] > 0
  {
    seq(|values|, i requires 0 <= i < |values| => Radix(values[i]))
  }

  function Pick(alternatives: seq<Value>, i: nat): Value { if i < |alternatives| then alternatives[i] else Undefined }

  function Combination(keys: seq<string>, values: seq<seq<Value>>, d: seq<nat>): Value
    requires |keys| == |values| == |d|
  {
    Object(seq(|keys|, j requires 0 <= j < |keys| => Entry(keys[j], Pick(values[j], d[j]))))
  }

  /** The n-th object takes the alternatives that the digits of n say, the first key's changing fastest. */
  function Combinations(keys: seq<string>, values: seq<seq<Value>>): seq<Value>
    requires |keys| == |values|
  {
    if keys == [] then []
    else seq(Total(RadicesOf(values)), n requires 0 <= n => Combination(keys, values, Digits(n, RadicesOf(values))))
  }

  /** All the alternatives of a value, given those of a text. */
  function Expanded(v: Value, normalize: string -> seq<Value>): seq<Value>
    decreases v
  {
    match v
    case List(items) => [List(ExpandedItems(items, normalize))]
    case Object(entries) => Combinations(KeysOf(entries), Alternatives(entries, normalize))
    case Text(text) => normalize(text)
    case _ => [v]
  }

  function ExpandedItems(items: seq<Value>, normalize: string -> seq<Value>): seq<Value>
    decreases items
  {
    if items == [] then [] else Expanded(items[0], normalize) + ExpandedItems(items[1..], normalize)
  }

  function KeysOf(entries: seq<Entry>): (keys: seq<string>)
    ensures |keys| == |entries|
  {
    seq(|entries|, i requires 0 <= i < |entries| => entries[i].key)
  }

  function Alternatives(entries: seq<Entry>, normalize: string -> seq<Value>): (values: seq<seq<Value>>)
    ensures |values| == |entries|
    decreases entries
  {
    if entries == [] then []
    else
      var value := entries[0].value;
      [if entries[0].key in EXPAND_OPS then Expanded(value, normalize) else [value]]
      + Alternatives(entries[1..], normalize)
  }

  /** Each combination of alternatives, with `undefined` for an operand that has none, is there exactly
      once; an object without keys stands for nothing. */
  lemma EachCombinationOnce(keys: seq<string>, values: seq<seq<Value>>, d: seq<nat>)
    requires |keys| == |values| > 0 && IsChoice(d, RadicesOf(values))
    ensures var n := Number(d, RadicesOf(values));
      n < |Combinations(keys, values)| && Combinations(keys, values)[n] == Combination(keys, values, d)
    ensures forall m :: 0 <= m < |Combinations(keys, values)| && Digits(m, RadicesOf(values)) == d ==>
      m == Number(d, RadicesOf(values))
  {
    var r := RadicesOf(values);
    NumberIsBelowTotal(d, r);
    DigitsOfNumber(d, r);
    EveryChoiceOnce(d, r);
  }

  // ---- The loops ----

  /** The digits below `i` were at their ends and are back at zero; the others are as they were. */
  ghost predicate CarriedTo(d: seq<nat>, r: seq<nat>, next: seq<nat>, i: nat) {
    && i <= |next| == |d| == |r|
    && (forall k :: 0 <= k < i ==> d[k] + 1 >= r[k] && next[k] == 0)
    && forall k :: i <= k < |next| ==> next[k] == d[k]
  }

  lemma {:induction false} CarryStops(d: seq<nat>, r: seq<nat>, next: seq<nat>, i: nat)
    requires CarriedTo(d, r, next, i) && i < |d| && d[i] + 1 < r[i]
    ensures next[i := d[i] + 1] == Next(d, r) && !IsLast(d, r)
    decreases i
  {
    if i == 0 {
      assert next[0 := d[0] + 1] == [d[0] + 1] + d[1..];
    } else {
      CarryStops(d[1..], r[1..], next[1..], i - 1);
      assert next[i := d[i] + 1] == [0] + next[1..][i - 1 := d[i] + 1];
    }
  }

  lemma {:induction false} CarryRunsOff(d: seq<nat>, r: seq<nat>, next: seq<nat>)
    requires CarriedTo(d, r, next, |d|)
    ensures next == Next(d, r) && IsLast(d, r)
    decreases |d|
  {
    if d != [] {
      CarryRunsOff(d[1..], r[1..], next[1..]);
      assert next == [0] + next[1..];
    }
  }

  /** The inner loop: counts on, and tells at which index it stopped. */
  method CountOn(indices: seq<nat>, values: seq<seq<Value>>) returns (next: seq<nat>, i: nat)
    requires IsChoice(indices, RadicesOf(values))
    ensures next == Next(indices, RadicesOf(values)) && i <= |indices|
    ensures i < |indices| <==> !IsLast(indices, RadicesOf(values))
  {
    ghost var r := RadicesOf(values);
    hide Next, IsLast, RadicesOf;
    next, i := indices, 0;
    while i < |next|
      invariant CarriedTo(indices, r, next, i)
    {
      assert r[i] == Radix(values[i]);
      if r[i] > next[i] + 1 { CarryStops(indices, r, next, i); }
      next := next[i := next[i] + 1];
      if next[i] < |values[i]| { return; }
      next := next[i := 0];
      i := i + 1;
    }
    CarryRunsOff(indices, r, next);
  }

  /** The outer loop: terminates, and enumerates every combination once. */
  method Enumerate(keys: seq<string>, values: seq<seq<Value>>) returns (objs: seq<Value>)
    requires |keys| == |values|
    ensures objs == Combinations(keys, values)
  {
    objs := [];
    ghost var r := RadicesOf(values);
    var indices, i := Zeros(|keys|), 0;
    ZerosAreFirst(r);
    TotalIsPositive(r);
    hide Number, Total, IsLast, Next, Digits, Combination;
    while i < |indices|
      invariant IsChoice(indices, r) && |indices| == |keys| && i <= |indices|
      invariant i < |indices| ==> |objs| == Number(indices, r) && |objs| < Total(r)
      invariant i == |indices| && keys != [] ==> |objs| == Total(r)
      invariant keys == [] ==> objs == []
      invariant forall n :: 0 <= n < |objs| ==> objs[n] == Combination(keys, values, Digits(n, r))
      decreases Total(r) - |objs|, |indices| - i
    {
      var obj := BuildObject(keys, values, indices);
      DigitsOfNumber(indices, r);
      objs := objs + [obj];
      NextCounts(indices, r);
      NumberIsBelowTotal(Next(indices, r), r);
      indices, i := CountOn(indices, values);
    }
  }

  method BuildObject(keys: seq<string>, values: seq<seq<Value>>, indices: seq<nat>) returns (obj: Value)
    requires |keys| == |values| == |indices|
    ensures obj == Combination(keys, values, indices)
  {
    var entries := [];
    for j := 0 to |keys|
      invariant |entries| == j && forall k :: 0 <= k < j ==> entries[k] == Entry(keys[k], Pick(values[k], indices[k]))
    {
      entries := entries + [Entry(keys[j], Pick(values[j], indices[j]))];
    }
    obj := Object(entries);
    assert entries == Combination(keys, values, indices).entries;
  }

  method ExpandValue(value: Value, normalize: string -> seq<Value>) returns (r: seq<Value>)
    ensures r == Expanded(value, normalize)
    decreases value
  {
    match value
    case List(items) =>
      var a := ExpandItems(items, normalize);
      return [List(a)];
    case Object(entries) =>
      var keys, values := ExpandEntries(entries, normalize);
      r := Enumerate(keys, values);
    case Text(text) => return normalize(text);
    case Plain(_) => return [value];
    case Undefined => return [value];
  }

  /** The loop over a list. */
  method ExpandItems(items: seq<Value>, normalize: string -> seq<Value>) returns (a: seq<Value>)
    ensures a == ExpandedItems(items, normalize)
    decreases items
  {
    hide Expanded;
    a := [];
    var n := 0;
    assert items[0..] == items;
    while n < |items|
      invariant n <= |items| && a + ExpandedItems(items[n..], normalize) == ExpandedItems(items, normalize)
    {
      var e := ExpandValue(items[n], normalize);
      assert items[n..][1..] == items[n + 1..];
      a := a + e;
      n := n + 1;
    }
    assert items[n..] == [] && a + [] == a;
  }

  /** The alternatives of one more entry. */
  lemma AlternativesFrom(entries: seq<Entry>, n: nat, normalize: string -> seq<Value>, values: seq<seq<Value>>)
    requires n < |entries|
    ensures var e := if entries[n].key in EXPAND_OPS then Expanded(entries[n].value, normalize) else [entries[n].value];
      values + Alternatives(entries[n..], normalize) == values + [e] + Alternatives(entries[n + 1..], normalize)
  {
    hide Expanded;
    assert entries[n..][1..] == entries[n + 1..];
  }

  /** The loop over the entries of an object. */
  method ExpandEntries(entries: seq<Entry>, normalize: string -> seq<Value>)
      returns (keys: seq<string>, values: seq<seq<Value>>)
    ensures keys == KeysOf(entries) && values == Alternatives(entries, normalize)
    decreases entries
  {
    hide Expanded;
    keys, values := [], [];
    var n := 0;
    assert entries[0..] == entries;
    while n < |entries|
      invariant n <= |entries| && |keys| == n && (forall k :: 0 <= k < n ==> keys[k] == entries[k].key)
      invariant values + Alternatives(entries[n..], normalize) == Alternatives(entries, normalize)
    {
      AlternativesFrom(entries, n, normalize, values);
      hide Alternatives;
      keys := keys + [entries[n].key];
      if entries[n].key in EXPAND_OPS {
        var e := ExpandValue(entries[n].value, normalize);
        values := values + [e];
      } else {
        values := values + [[entries[n].value]];
      }
      n := n + 1;
    }
    assert entries[n..] == [] && values + [] == values;
  }
}
