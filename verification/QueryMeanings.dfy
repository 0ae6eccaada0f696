/** What `expandValue` of lib/query.ts gives, said of the value alone: one meaning for each way to understand
    its texts. */
module QueryMeanings {
  import opened Queries

  predicate Operator(key: string) {
    || key == "$eq" || key == "$ne" || key == "$gt" || key == "$gte" || key == "$lt" || key == "$lte"
    || key == "$in" || key == "$nin"
  }

  /** `w` is one meaning of `v`: a text means what it normalizes to; a list, the meanings of all its items in
      order; an object with keys, the same keys with one meaning for the operand of each operator, undefined
      if it has none, and with all other values as they are. An object without keys has no meaning. */
  ghost predicate Means(v: Value, w: Value, normalize: string -> seq<Value>)
    decreases v, 1
  {
    match v
    case Text(text) => w in normalize(text)
    case List(items) => w.List? && ListMeans(items, w.items, normalize)
    case Object(entries) => entries != [] && w.Object? && EntriesMean(entries, w.entries, normalize)
    case _ => w == v
  }

  ghost predicate ListMeans(items: seq<Value>, all: seq<Value>, normalize: string -> seq<Value>)
    decreases items, 0
  {
    if items == [] then all == []
    else
      var part := Expanded(items[0], normalize);
      part <= all && ListMeans(items[1..], all[|part|..], normalize)
  }

  ghost predicate EntriesMean(entries: seq<Entry>, ws: seq<Entry>, normalize: string -> seq<Value>)
    decreases entries, 0
  {
    if entries == [] then ws == []
    else ws != [] && EntryMeans(entries[0], ws[0], normalize) && EntriesMean(entries[1..], ws[1..], normalize)
  }

  ghost predicate EntryMeans(e: Entry, w: Entry, normalize: string -> seq<Value>)
    decreases e, 0
  {
    && e.key == w.key
    && (!Operator(e.key) ==> w.value == e.value)
    && (Operator(e.key) ==>
         Means(e.value, w.value, normalize) || (w.value == Undefined && forall x :: !Means(e.value, x, normalize)))
  }

  // ---- Combinations ----

  /** One of the alternatives, or undefined if there are none. */
  predicate Picked(alternatives: seq<Value>, w: Value) {
    if alternatives == [] then w == Undefined else w in alternatives
  }

  predicate IsCombination(keys: seq<string>, values: seq<seq<Value>>, ws: seq<Entry>)
    requires |keys| == |values|
  {
    |ws| == |keys| && forall j :: 0 <= j < |ws| ==> ws[j].key == keys[j] && Picked(values[j], ws[j].value)
  }

  lemma PickedByIndex(alternatives: seq<Value>, w: Value) returns (i: nat)
    requires Picked(alternatives, w)
    ensures i < Radix(alternatives) && Pick(alternatives, i) == w
  {
    i := 0;
    if alternatives != [] { i :| i < |alternatives| && alternatives[i] == w; }
  }

  lemma {:induction false} ChoiceOf(keys: seq<string>, values: seq<seq<Value>>, ws: seq<Entry>) returns (d: seq<nat>)
    requires |keys| == |values| && IsCombination(keys, values, ws)
    ensures |d| == |keys| && forall j :: 0 <= j < |d| ==>
      d[j] < Radix(values[j]) && Pick(values[j], d[j]) == ws[j].value
    decreases |keys|
  {
    d := [];
    if keys != [] {
      var n := |keys| - 1;
      d := ChoiceOf(keys[..n], values[..n], ws[..n]);
      var i := PickedByIndex(values[n], ws[n].value);
      d := d + [i];
    }
  }

  /** The combinations are the ways to pick one alternative for each key. */
  lemma CombinationsExactly(keys: seq<string>, values: seq<seq<Value>>, w: Value)
    requires |keys| == |values| > 0
    ensures w in Combinations(keys, values) <==> w.Object? && IsCombination(keys, values, w.entries)
  {
    var r := RadicesOf(values);
    hide Digits, Number, Total, Combinations;
    if w.Object? && IsCombination(keys, values, w.entries) {
      var d := ChoiceOf(keys, values, w.entries);
      assert Combination(keys, values, d).entries == w.entries;
      EachCombinationOnce(keys, values, d);
    }
    if w in Combinations(keys, values) {
      var n := IndexOfCombination(keys, values, w);
      var d := Digits(n, r);
      NumberOfDigits(n, r);
      forall j | 0 <= j < |keys| ensures Picked(values[j], Pick(values[j], d[j])) {}
    }
  }

  lemma IndexOfCombination(keys: seq<string>, values: seq<seq<Value>>, w: Value) returns (n: nat)
    requires |keys| == |values| > 0 && w in Combinations(keys, values)
    ensures n < Total(RadicesOf(values)) && w == Combination(keys, values, Digits(n, RadicesOf(values)))
  {
    n :| n < |Combinations(keys, values)| && Combinations(keys, values)[n] == w;
  }

  // ---- Values ----

  lemma {:induction false} EntriesMeanExactly(entries: seq<Entry>, ws: seq<Entry>, normalize: string -> seq<Value>)
    ensures EntriesMean(entries, ws, normalize) <==>
      IsCombination(KeysOf(entries), Alternatives(entries, normalize), ws)
    decreases entries, 0
  {
    hide Means, EntryMeans;
    if entries != [] && ws != [] {
      EntriesMeanExactly(entries[1..], ws[1..], normalize);
      EntryMeansExactly(entries[0], ws[0], normalize);
      FirstCombination(entries, ws, normalize);
    }
  }

  function AlternativesOf(e: Entry, normalize: string -> seq<Value>): seq<Value> {
    if e.key in EXPAND_OPS then Expanded(e.value, normalize) else [e.value]
  }

  lemma FirstCombination(entries: seq<Entry>, ws: seq<Entry>, normalize: string -> seq<Value>)
    requires entries != [] && ws != []
    ensures IsCombination(KeysOf(entries), Alternatives(entries, normalize), ws) <==>
      && ws[0].key == entries[0].key && Picked(AlternativesOf(entries[0], normalize), ws[0].value)
      && IsCombination(KeysOf(entries[1..]), Alternatives(entries[1..], normalize), ws[1..])
  {
    hide Expanded, Picked;
    var keys, values := KeysOf(entries), Alternatives(entries, normalize);
    assert keys == [entries[0].key] + KeysOf(entries[1..]);
    assert values == [AlternativesOf(entries[0], normalize)] + Alternatives(entries[1..], normalize);
    if IsCombination(keys[1..], values[1..], ws[1..]) && ws[0].key == keys[0] && Picked(values[0], ws[0].value) {
      forall j | 0 <= j < |ws| ensures ws[j].key == keys[j] && Picked(values[j], ws[j].value) {
        if j > 0 { assert ws[1..][j - 1] == ws[j]; }
      }
    }
  }

  lemma {:induction false} EntryMeansExactly(e: Entry, w: Entry, normalize: string -> seq<Value>)
    ensures EntryMeans(e, w, normalize) <==> w.key == e.key && Picked(AlternativesOf(e, normalize), w.value)
    decreases e, 0
  {
    hide Means, Expanded;
    assert Operator(e.key) <==> e.key in EXPAND_OPS;
    if Operator(e.key) {
      forall x ensures x in Expanded(e.value, normalize) <==> Means(e.value, x, normalize) {
        ExpandedExactly(e.value, x, normalize);
      }
      assert Expanded(e.value, normalize) != [] ==> Expanded(e.value, normalize)[0] in Expanded(e.value, normalize);
    }
  }

  lemma {:induction false} ListMeansExactly(items: seq<Value>, all: seq<Value>, normalize: string -> seq<Value>)
    ensures ListMeans(items, all, normalize) <==> all == ExpandedItems(items, normalize)
    decreases items
  {
    hide Expanded;
    if items != [] {
      var part, rest := Expanded(items[0], normalize), ExpandedItems(items[1..], normalize);
      assert (part + rest)[|part|..] == rest;
      if part <= all {
        ListMeansExactly(items[1..], all[|part|..], normalize);
        assert all == part + all[|part|..];
      }
    }
  }

  /** A value expands to exactly its meanings. */
  lemma {:induction false} ExpandedExactly(v: Value, w: Value, normalize: string -> seq<Value>)
    ensures w in Expanded(v, normalize) <==> Means(v, w, normalize)
    decreases v, 1
  {
    match v {
      case List(items) => if w.List? { ListMeansExactly(items, w.items, normalize); }
      case Object(entries) =>
        if entries != [] {
          CombinationsExactly(KeysOf(entries), Alternatives(entries, normalize), w);
          if w.Object? { EntriesMeanExactly(entries, w.entries, normalize); }
        }
      case _ =>
    }
  }
}
