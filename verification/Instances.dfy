/** Planning which instances to create and delete (lib/instance-set.ts and `processInstances` of
    lib/session.ts). */
module InstancePlans {
  import opened Options
  import opened Sequences

  type Keys = map<string, string>

  /** An object in the queue of instances to create; objects with equal keys are still different ones. */
  datatype Instance = Instance(id: nat, keys: Keys)

  /** `a` has all the keys of `b` with the same values. */
  predicate Covers(a: Keys, b: Keys) { forall k <- b :: k in a && a[k] == b[k] }

  ghost function Covering(q: set<Instance>, keys: Keys): set<Instance> { set i <- q | Covers(i.keys, keys) }

  ghost function Exact(q: set<Instance>, keys: Keys): set<Instance> { set i <- q | i.keys == keys }

  /** Instances with some of the keys, but not all. */
  ghost function Partial(q: set<Instance>, keys: Keys): set<Instance> {
    set i <- q | Covers(keys, i.keys) && i.keys != keys
  }

  lemma CoverBothWays(a: Keys, b: Keys)
    ensures Covers(a, b) && Covers(b, a) <==> a == b
  {}

  /** Partial instances have fewer keys than exact ones. */
  lemma FewerKeys(a: Keys, b: Keys)
    requires Covers(b, a)
    ensures |a.Keys| <= |b.Keys| && (a == b <==> |a.Keys| == |b.Keys|)
  {
    SubsetCount(a.Keys, b.Keys);
  }

  // ---- Sorting ----

  /** The comparison of the two sorts: by number of keys, and then by names and values as `tie` says. */
  predicate After(a: Instance, b: Instance, descending: bool, tie: (Keys, Keys) -> bool) {
    (if descending then |a.keys.Keys| < |b.keys.Keys| else |a.keys.Keys| > |b.keys.Keys|) ||
    (|a.keys.Keys| == |b.keys.Keys| && tie(a.keys, b.keys))
  }

  function Insert(x: Instance, s: seq<Instance>, descending: bool, tie: (Keys, Keys) -> bool): seq<Instance> {
    if s == [] || !After(x, s[0], descending, tie) then [x] + s else [s[0]] + Insert(x, s[1..], descending, tie)
  }

  function Sorted(s: seq<Instance>, descending: bool, tie: (Keys, Keys) -> bool): seq<Instance> {
    if s == [] then [] else Insert(s[0], Sorted(s[1..], descending, tie), descending, tie)
  }

  predicate Precedes(a: Instance, b: Instance, descending: bool) {
    if descending then |a.keys.Keys| >= |b.keys.Keys| else |a.keys.Keys| <= |b.keys.Keys|
  }

  ghost predicate Ordered(s: seq<Instance>, descending: bool) {
    forall i, j :: 0 <= i < j < |s| ==> Precedes(s[i], s[j], descending)
  }

  lemma ConsOrders(x: Instance, s: seq<Instance>, descending: bool)
    requires Ordered(s, descending) && NoDuplicates(s) && x !in s && forall y <- s :: Precedes(x, y, descending)
    ensures Ordered([x] + s, descending) && NoDuplicates([x] + s)
  {}

  lemma {:induction false} InsertOrders(x: Instance, s: seq<Instance>, descending: bool, tie: (Keys, Keys) -> bool)
    requires Ordered(s, descending) && NoDuplicates(s) && x !in s
    ensures Ordered(Insert(x, s, descending, tie), descending) && NoDuplicates(Insert(x, s, descending, tie))
    ensures forall y :: y in Insert(x, s, descending, tie) <==> y == x || y in s
  {
    if s == [] {
    } else if After(x, s[0], descending, tie) {
      HeadPrecedes(s, descending);
      hide Ordered, NoDuplicates;
      InsertOrders(x, s[1..], descending, tie);
      AfterPrecedes(x, s[0], descending, tie);
      ConsOrders(s[0], Insert(x, s[1..], descending, tie), descending);
    } else {
      HeadPrecedes(s, descending);
      hide Ordered, NoDuplicates;
      AfterPrecedes(x, s[0], descending, tie);
      ConsOrders(x, s, descending);
    }
  }

  lemma HeadPrecedes(s: seq<Instance>, descending: bool)
    requires s != [] && Ordered(s, descending) && NoDuplicates(s)
    ensures Ordered(s[1..], descending) && NoDuplicates(s[1..]) && s[0] !in s[1..]
    ensures forall y <- s[1..] :: Precedes(s[0], y, descending)
    ensures forall y :: y in s <==> y == s[0] || y in s[1..]
  {
    assert s == [s[0]] + s[1..];
  }

  lemma AfterPrecedes(a: Instance, b: Instance, descending: bool, tie: (Keys, Keys) -> bool)
    ensures After(a, b, descending, tie) ==> Precedes(b, a, descending)
    ensures !After(a, b, descending, tie) ==> Precedes(a, b, descending)
  {
  }

  lemma {:induction false} SortOrders(s: seq<Instance>, descending: bool, tie: (Keys, Keys) -> bool)
    requires NoDuplicates(s)
    ensures Ordered(Sorted(s, descending, tie), descending) && NoDuplicates(Sorted(s, descending, tie))
    ensures forall y :: y in Sorted(s, descending, tie) <==> y in s
  {
    if s != [] {
      SortOrders(s[1..], descending, tie);
      InsertOrders(s[0], Sorted(s[1..], descending, tie), descending, tie);
    }
  }

  // ---- The queue ----

  class InstanceSet {
    var instances: seq<Instance>
    var nextId: nat

    ghost predicate Valid()
      reads this
    {
      NoDuplicates(instances) && forall i <- instances :: i.id < nextId
    }

    ghost function Contents(): set<Instance>
      reads this
    {
      Elements(instances)
    }

    constructor ()
      ensures Valid() && Contents() == {}
    {
      instances, nextId := [], 0;
    }

    /** Adds a new object with the given keys. */
    method Add(keys: Keys)
      requires Valid()
      modifies this
      ensures Valid() && nextId == old(nextId) + 1
      ensures Instance(old(nextId), keys) !in old(Contents())
        && Contents() == old(Contents()) + {Instance(old(nextId), keys)}
    {
      instances := instances + [Instance(nextId, keys)];
      nextId := nextId + 1;
    }

    method Delete(instance: Instance)
      requires Valid()
      modifies this`instances
      ensures Valid() && Contents() == old(Contents()) - {instance}
    {
      var i := 0;
      while i < |instances| && instances[i] != instance
        invariant i <= |instances| && instances == old(instances) && forall j :: 0 <= j < i ==> instances[j] != instance
      {
        i := i + 1;
      }
      if i < |instances| {
        WithoutNoDuplicates(instances, i);
        forall x <- instances | x != instance ensures x in Without(instances, i) { WithoutIndex(instances, i, x); }
        instances := instances[..i] + instances[i + 1..];
      }
    }

    /** The instances that have at least the given keys, those with most keys first. */
    method Superset(keys: Keys, tie: (Keys, Keys) -> bool) returns (res: seq<Instance>)
      requires Valid()
      ensures NoDuplicates(res) && Elements(res) == Covering(Contents(), keys) && Ordered(res, true)
    {
      res := [];
      var n := 0;
      while n < |instances|
        invariant n <= |instances| && NoDuplicates(res)
        invariant forall i :: i in res <==> i in instances[..n] && Covers(i.keys, keys)
      {
        var inst := instances[n];
        assert instances[..n + 1] == instances[..n] + [inst] && inst !in instances[..n];
        var match_ := HasAll(inst.keys, keys);
        if match_ { res := res + [inst]; }
        n := n + 1;
      }
      assert instances[..n] == instances;
      SortOrders(res, true, tie);
      res := Sorted(res, true, tie);
    }

    /** The instances that have no other keys than the given ones, those with fewest keys first. */
    method Subset(keys: Keys, tie: (Keys, Keys) -> bool) returns (res: seq<Instance>)
      requires Valid()
      ensures NoDuplicates(res) && Elements(res) == (set i <- Contents() | Covers(keys, i.keys)) && Ordered(res, false)
    {
      res := [];
      var n := 0;
      while n < |instances|
        invariant n <= |instances| && NoDuplicates(res)
        invariant forall i :: i in res <==> i in instances[..n] && Covers(keys, i.keys)
      {
        var inst := instances[n];
        assert instances[..n + 1] == instances[..n] + [inst] && inst !in instances[..n];
        var match_ := HasAll(keys, inst.keys);
        if match_ { res := res + [inst]; }
        n := n + 1;
      }
      assert instances[..n] == instances;
      SortOrders(res, false, tie);
      res := Sorted(res, false, tie);
    }
  }

  /** The loop over the keys of `b`. */
  method HasAll(a: Keys, b: Keys) returns (match_: bool)
    ensures match_ == Covers(a, b)
  {
    match_ := true;
    var todo := b.Keys;
    while todo != {}
      invariant todo <= b.Keys && match_ && forall k <- b :: k !in todo ==> k in a && a[k] == b[k]
    {
      var k :| k in todo;
      if !(k in a && a[k] == b[k]) { return false; }
      todo := todo - {k};
    }
  }

  // ---- processInstances ----

  /** The existing parameters to delete: those past `max`, not those up to `min`, and as before in between. */
  ghost function ToDelete<P(!new)>(before: set<P>, parameters: seq<P>, n: nat, min: int, max: int): set<P>
    requires n <= |parameters|
  {
    if n == 0 then before
    else
      var rest := ToDelete(before, parameters, n - 1, min, max);
      if n > max then rest + {parameters[n - 1]} else if n <= min then rest - {parameters[n - 1]} else rest
  }

  /** The existing parameters that stay. */
  ghost function Staying<P(!new)>(parameters: seq<P>, toDelete: set<P>): set<P> { Elements(parameters) - toDelete }

  /** How many of the first `n` stay. */
  ghost function StayCount<P(!new)>(before: set<P>, parameters: seq<P>, n: nat, min: int, max: int): nat
    requires n <= |parameters|
  {
    |Staying(parameters[..n], ToDelete(before, parameters, n, min, max))|
  }

  /** At least the first `min` stay, and at most the first `max`. */
  lemma {:induction false} StayingBounds<P(!new)>(before: set<P>, parameters: seq<P>, n: nat, min: int, max: int)
    requires NoDuplicates(parameters) && n <= |parameters| && min <= max
    ensures Least(n, min) <= StayCount(before, parameters, n, min, max) <= Least(n, max)
  {
    hide StayCount, NoDuplicates;
    if n == 0 {
      NoneStays(before, parameters, min, max);
    } else {
      StayingBounds(before, parameters, n - 1, min, max);
      StayingStep(before, parameters, n, min, max);
    }
  }

  lemma NoneStays<P(!new)>(before: set<P>, parameters: seq<P>, min: int, max: int)
    ensures StayCount(before, parameters, 0, min, max) == 0
  {
    assert parameters[..0] == [];
  }

  lemma StayingStep<P(!new)>(before: set<P>, parameters: seq<P>, n: nat, min: int, max: int)
    requires NoDuplicates(parameters) && 0 < n <= |parameters| && min <= max
    ensures var was, now := StayCount(before, parameters, n - 1, min, max), StayCount(before, parameters, n, min, max);
      if n > max then now == was else if n <= min then now == was + 1 else was <= now <= was + 1
  {
    hide ToDelete, Elements, NoDuplicates;
    ToDeleteStep(before, parameters, n, min, max);
    OneMoreStays(Elements(parameters[..n - 1]), parameters[n - 1], ToDelete(before, parameters, n - 1, min, max));
  }

  lemma OneMoreStays<P(!new)>(e: set<P>, p: P, deleted: set<P>)
    requires p !in e
    ensures |(e + {p}) - (deleted + {p})| == |e - deleted|
    ensures |(e + {p}) - (deleted - {p})| == |e - deleted| + 1
    ensures |e - deleted| <= |(e + {p}) - deleted| <= |e - deleted| + 1
  {
    assert (e + {p}) - (deleted + {p}) == e - deleted;
    assert (e + {p}) - (deleted - {p}) == (e - deleted) + {p};
    assert (e + {p}) - deleted == if p in deleted then e - deleted else (e - deleted) + {p};
  }

  lemma ToDeleteStep<P(!new)>(before: set<P>, parameters: seq<P>, n: nat, min: int, max: int)
    requires NoDuplicates(parameters) && 0 < n <= |parameters| && min <= max
    ensures var p, rest, now :=
      parameters[n - 1], ToDelete(before, parameters, n - 1, min, max), ToDelete(before, parameters, n, min, max);
      && p !in Elements(parameters[..n - 1]) && Elements(parameters[..n]) == Elements(parameters[..n - 1]) + {p}
      && now == if n > max then rest + {p} else if n <= min then rest - {p} else rest
  {
    assert parameters[..n] == parameters[..n - 1] + [parameters[n - 1]];
    assert parameters[n - 1] !in parameters[..n - 1];
  }

  function Least(a: int, b: int): int { if b <= 0 then 0 else if a < b then a else b }

  method ProcessInstances<P(==, !new)>(toCreate: InstanceSet, deleteBefore: set<P>, parameters: seq<P>,
      given: Option<Keys>, min: int, max: int, defer: bool, tie: (Keys, Keys) -> bool) returns (toDelete: set<P>)
    requires toCreate.Valid()
    modifies toCreate
    ensures toCreate.Valid()
    ensures defer && old(toCreate.Contents()) == {} && deleteBefore == {} ==>
      toDelete == {} && toCreate.Contents() == {}
    ensures !(defer && old(toCreate.Contents()) == {} && deleteBefore == {}) ==>
      toDelete == ToDelete(deleteBefore, parameters, |parameters|, min, max)
    ensures given.None? ==> toCreate.Contents() == old(toCreate.Contents())
    ensures
      !(defer && old(toCreate.Contents()) == {} && deleteBefore == {}) && given.Some? && 0 <= max && min <= max ==>
      IsPlanned(old(toCreate.Contents()), toCreate.Contents(), given.value, |parameters|, min, max)
  {
    toDelete := deleteBefore;
    if defer && toCreate.instances == [] && toDelete == {} { return; }
    if toCreate.instances != [] { assert toCreate.instances[0] in toCreate.Contents(); }
    var counter := 0;
    while counter < |parameters|
      invariant counter <= |parameters| && toDelete == ToDelete(deleteBefore, parameters, counter, min, max)
    {
      var p := parameters[counter];
      counter := counter + 1;
      if counter > max { toDelete := toDelete + {p}; } else if counter <= min { toDelete := toDelete - {p}; }
    }
    if given.None? { return; }
    PlanCreation(toCreate, given.value, counter, min, max, tie);
  }

  /** How many instances with the keys are queued after a call that found `a` existing ones. */
  ghost predicate IsPlanned(before: set<Instance>, after: set<Instance>, keys: Keys, a: nat, min: int, max: int) {
    && |Covering(after, keys)| == (
      if a + |Covering(before, keys)| >= min
      then Room(|Covering(before, keys)|, a, max)
      else min - a - Shortfall(before, keys, a, min))
    && (forall i <- before :: !Covers(i.keys, keys) && !Covers(keys, i.keys) ==> i in after)
    && (forall i <- after :: i in before || i.keys == keys)
  }

  /** How many of `n` there is room for. */
  function Room(n: nat, existing: nat, max: int): int { if existing >= max then 0 else Lesser(n, max - existing) }

  function Lesser(a: int, b: int): int { if a < b then a else b }
  function Larger(a: int, b: int): int { if a < b then b else a }

  /** Queued instances with exactly the keys are counted as covering and again as partial. */
  ghost function Shortfall(before: set<Instance>, keys: Keys, a: nat, min: int): int {
    var needed := min - a - |Covering(before, keys)|;
    Larger(0, Lesser(|Exact(before, keys)|, needed - |Partial(before, keys)|))
  }

  /** Existing and queued instances together never exceed `max`, and there are at least `min` of them
      exactly if the queue had enough partial instances to complete, or none with exactly the keys. */
  lemma PlanMeetsLimits<P(!new)>(deleteBefore: set<P>, parameters: seq<P>, before: set<Instance>,
      after: set<Instance>, keys: Keys, min: int, max: int)
    requires NoDuplicates(parameters) && 0 <= max && min <= max
      && IsPlanned(before, after, keys, |parameters|, min, max)
    ensures var a, stay := |parameters|,
      Staying(parameters, ToDelete(deleteBefore, parameters, |parameters|, min, max));
      && |stay| + |Covering(after, keys)| <= max
      && (|stay| + |Covering(after, keys)| >= min <==>
        || Exact(before, keys) == {}
        || a + |Covering(before, keys)| >= min
        || |Partial(before, keys)| >= min - a - |Covering(before, keys)|)
  {
    StayingBounds(deleteBefore, parameters, |parameters|, min, max);
    assert parameters[..|parameters|] == parameters;
  }

  /** One queued instance with exactly the keys, two wanted: it is counted twice and no other is created. */
  lemma ExactIsCountedTwice(i: Instance, after: set<Instance>)
    requires IsPlanned({i}, after, i.keys, 0, 2, 2)
    ensures |Covering(after, i.keys)| == 1
  {
    assert Covering({i}, i.keys) == {i} && Exact({i}, i.keys) == {i} && Partial({i}, i.keys) == {};
  }

  method PlanCreation(toCreate: InstanceSet, keys: Keys, existing: nat, min: int, max: int, tie: (Keys, Keys) -> bool)
    requires toCreate.Valid()
    modifies toCreate
    ensures toCreate.Valid()
    ensures 0 <= max && min <= max ==>
      IsPlanned(old(toCreate.Contents()), toCreate.Contents(), keys, existing, min, max)
  {
    hide Covers, Room, Lesser, Shortfall, IsPlanned;
    ghost var before := toCreate.Contents();
    var counter := DropExcess(toCreate, keys, existing, max, tie);
    ghost var middle := toCreate.Contents();
    counter := CompletePartial(toCreate, keys, counter, min, tie);
    ghost var queued := toCreate.Contents();
    ghost var counted := counter;
    while counter < min
      invariant toCreate.Valid() && queued <= toCreate.Contents() && counted <= counter <= Larger(counted, min)
      invariant forall i <- toCreate.Contents() :: i in queued || i.keys == keys
      invariant |Covering(toCreate.Contents(), keys)| == |Covering(queued, keys)| + counter - counted
    {
      ghost var was, i := toCreate.Contents(), Instance(toCreate.nextId, keys);
      counter := counter + 1;
      toCreate.Add(keys);
      OneMoreCovering(was, i);
    }
    if 0 <= max && min <= max { Planned(before, middle, queued, toCreate.Contents(), keys, existing, min, max); }
  }

  lemma OneMoreCovering(q: set<Instance>, i: Instance)
    requires i !in q
    ensures |Covering(q + {i}, i.keys)| == |Covering(q, i.keys)| + 1
  {
    assert Covering(q + {i}, i.keys) == Covering(q, i.keys) + {i};
  }

  /** What the three loops add up to. */
  lemma Planned(before: set<Instance>, middle: set<Instance>, queued: set<Instance>, after: set<Instance>,
      keys: Keys, existing: nat, min: int, max: int)
    requires 0 <= max && min <= max && queued <= after
    requires |Covering(middle, keys)| == Room(|Covering(before, keys)|, existing, max) && middle <= before
    requires existing + |Covering(before, keys)| <= max ==> middle == before
    requires forall i <- before :: !Covers(i.keys, keys) ==> i in middle
    requires var counted := existing + |Covering(before, keys)|;
      && |Covering(queued, keys)| == |Covering(middle, keys)|
           + Larger(0, Lesser(min - counted, |Partial(middle, keys)|))
      && |Covering(after, keys)| == |Covering(queued, keys)|
           + Larger(0, min - counted - |Partial(middle, keys)| - |Exact(middle, keys)|)
    requires forall i <- middle :: !Covers(keys, i.keys) ==> i in queued
    requires forall i <- queued :: i in middle || i.keys == keys
    requires forall i <- after :: i in queued || i.keys == keys
    ensures IsPlanned(before, after, keys, existing, min, max)
  {
    hide Covering, Partial, Exact, Covers;
  }

  /** The first loop: covering instances past `max` leave the queue. */
  method DropExcess(toCreate: InstanceSet, keys: Keys, existing: nat, max: int, tie: (Keys, Keys) -> bool)
      returns (counter: nat)
    requires toCreate.Valid()
    modifies toCreate
    ensures toCreate.Valid() && counter == existing + |Covering(old(toCreate.Contents()), keys)|
    ensures 0 <= max ==>
      |Covering(toCreate.Contents(), keys)| == Room(|Covering(old(toCreate.Contents()), keys)|, existing, max)
    ensures toCreate.Contents() <= old(toCreate.Contents())
    ensures forall i <- old(toCreate.Contents()) :: !Covers(i.keys, keys) ==> i in toCreate.Contents()
    ensures counter <= max ==> toCreate.Contents() == old(toCreate.Contents())
  {
    hide Covering, Covers, Excess, Ordered, Room;
    ghost var before := toCreate.Contents();
    var covering := toCreate.Superset(keys, tie);
    DistinctCount(covering);
    NoExcess(existing, max);
    counter := existing;
    var j := 0;
    assert covering[..0] == [];
    while j < |covering|
      invariant j <= |covering| && counter == existing + j && toCreate.Valid()
      invariant toCreate.Contents() == before - Elements(Excess(covering[..j], existing, max))
    {
      counter := counter + 1;
      ExcessStep(covering, j, existing, max);
      if counter > max { toCreate.Delete(covering[j]); }
      j := j + 1;
    }
    assert covering[..j] == covering;
    DropCount(before, toCreate.Contents(), covering, keys, existing, max);
  }

  /** The part of a list that comes after the place where `max` is reached. */
  function Excess(s: seq<Instance>, existing: nat, max: int): seq<Instance> {
    if existing >= max then s else if existing + |s| <= max then [] else s[max - existing..]
  }

  lemma NoExcess(existing: nat, max: int)
    ensures Elements(Excess([], existing, max)) == {}
  {}

  lemma ExcessStep(s: seq<Instance>, j: nat, existing: nat, max: int)
    requires j < |s|
    ensures Elements(Excess(s[..j + 1], existing, max)) ==
      if existing + j + 1 > max then Elements(Excess(s[..j], existing, max)) + {s[j]}
      else Elements(Excess(s[..j], existing, max))
  {
    assert s[..j + 1] == s[..j] + [s[j]];
    if existing + j + 1 > max {
      assert Excess(s[..j + 1], existing, max) == Excess(s[..j], existing, max) + [s[j]];
    }
  }

  lemma ExcessDistinct(s: seq<Instance>, existing: nat, max: int)
    requires NoDuplicates(s)
    ensures NoDuplicates(Excess(s, existing, max)) && forall i <- Excess(s, existing, max) :: i in s
    ensures |Excess(s, existing, max)| == if existing >= max then |s| else Larger(0, existing + |s| - max)
  {}

  lemma DropCount(before: set<Instance>, after: set<Instance>, s: seq<Instance>, keys: Keys, existing: nat, max: int)
    requires NoDuplicates(s) && Elements(s) == Covering(before, keys)
      && after == before - Elements(Excess(s, existing, max))
    ensures 0 <= max ==> |Covering(after, keys)| == Room(|Covering(before, keys)|, existing, max)
    ensures forall i <- before :: !Covers(i.keys, keys) ==> i in after
    ensures existing + |s| <= max ==> after == before
  {
    var excess := Excess(s, existing, max);
    ExcessDistinct(s, existing, max);
    DistinctCount(excess);
    DistinctCount(s);
    assert Elements(excess) <= Elements(s);
    hide Excess, NoDuplicates, Covers, Elements, Covering;
    WithoutGone(before, after, Elements(excess), keys);
  }

  lemma WithoutGone(before: set<Instance>, after: set<Instance>, gone: set<Instance>, keys: Keys)
    requires gone <= Covering(before, keys) && after == before - gone
    ensures |Covering(after, keys)| == |Covering(before, keys)| - |gone|
    ensures forall i <- before :: !Covers(i.keys, keys) ==> i in after
    ensures |gone| == 0 ==> after == before
  {
    hide Covers;
    assert Covering(after, keys) == Covering(before, keys) - gone;
    DifferenceCount(Covering(before, keys), gone);
  }

  lemma DifferenceCount<T>(a: set<T>, b: set<T>)
    requires b <= a
    ensures |a - b| == |a| - |b|
  {
    assert a == (a - b) + b;
  }

  /** The second loop: partial instances up to `min` get all the keys. */
  method CompletePartial(toCreate: InstanceSet, keys: Keys, counted: nat, min: int, tie: (Keys, Keys) -> bool)
      returns (counter: nat)
    requires toCreate.Valid()
    modifies toCreate
    ensures toCreate.Valid()
    ensures counter == counted + |Partial(old(toCreate.Contents()), keys)| + |Exact(old(toCreate.Contents()), keys)|
    ensures |Covering(toCreate.Contents(), keys)| == |Covering(old(toCreate.Contents()), keys)|
      + Larger(0, Lesser(min - counted, |Partial(old(toCreate.Contents()), keys)|))
    ensures forall i <- old(toCreate.Contents()) :: !Covers(keys, i.keys) ==> i in toCreate.Contents()
    ensures forall i <- toCreate.Contents() :: i in old(toCreate.Contents()) || i.keys == keys
  {
    hide Covering, Covers, Ordered, Partial, Exact;
    ghost var before := toCreate.Contents();
    var partial := toCreate.Subset(keys, tie);
    ghost var n := PartialFirst(before, partial, keys);
    counter := counted;
    var j := 0;
    while j < |partial|
      invariant j <= |partial| && counter == counted + j && toCreate.Valid()
      invariant Completed(before, toCreate.Contents(), keys, partial[..Converted(min - counted, j)])
      invariant |Covering(toCreate.Contents(), keys)| == |Covering(before, keys)|
        + Lesser(Converted(min - counted, j), n)
    {
      counter := counter + 1;
      if counter <= min {
        assert partial[..j + 1] == partial[..j] + [partial[j]];
        assert partial[j] !in partial[..j] && partial[j] in Elements(partial);
        Convert(toCreate, partial[j], keys);
      }
      j := j + 1;
    }
    assert forall i <- partial :: i in Elements(partial);
    CompletedKeepsOthers(before, toCreate.Contents(), keys, partial, partial[..Converted(min - counted, j)]);
  }

  /** All but the ones in `done` are still there, and only ones with all the keys are new. */
  ghost predicate Completed(before: set<Instance>, after: set<Instance>, keys: Keys, done: seq<Instance>) {
    && (forall i <- after :: i in before || i.keys == keys)
    && forall i <- before :: i !in done ==> i in after
  }

  lemma CompletedKeepsOthers(before: set<Instance>, after: set<Instance>, keys: Keys, partial: seq<Instance>,
      done: seq<Instance>)
    requires Completed(before, after, keys, done) && Elements(partial) == set i <- before | Covers(keys, i.keys)
    requires forall i <- done :: i in partial
    ensures forall i <- before :: !Covers(keys, i.keys) ==> i in after
  {
    hide Covers;
    forall i <- partial ensures Covers(keys, i.keys) { assert i in Elements(partial); }
  }

  /** How many of the first `j` partial instances are completed. */
  function Converted(wanted: int, j: nat): nat { if wanted <= 0 then 0 else if wanted < j then wanted else j }

  /** One instance is replaced by a new one with all the keys. */
  method Convert(toCreate: InstanceSet, instance: Instance, keys: Keys)
    requires toCreate.Valid() && instance in toCreate.Contents() && Covers(keys, instance.keys)
    modifies toCreate
    ensures toCreate.Valid()
    ensures forall i <- toCreate.Contents() :: i in old(toCreate.Contents()) || i.keys == keys
    ensures forall i <- old(toCreate.Contents()) :: i != instance ==> i in toCreate.Contents()
    ensures |Covering(toCreate.Contents(), keys)| == |Covering(old(toCreate.Contents()), keys)|
      + if instance.keys == keys then 0 else 1
  {
    ghost var was, added := toCreate.Contents(), Instance(toCreate.nextId, keys);
    toCreate.Delete(instance);
    toCreate.Add(keys);
    CoverBothWays(instance.keys, keys);
    assert toCreate.Contents() == was - {instance} + {added};
    assert added !in was;
    assert Covering(toCreate.Contents(), keys) == Covering(was, keys) - {instance} + {added};
  }

  /** In a list sorted by number of keys, the partial instances come before the exact ones. */
  lemma PartialFirst(before: set<Instance>, s: seq<Instance>, keys: Keys) returns (n: nat)
    requires NoDuplicates(s) && Ordered(s, false) && Elements(s) == set i <- before | Covers(keys, i.keys)
    ensures n == |Partial(before, keys)| && |s| == n + |Exact(before, keys)|
    ensures forall j :: 0 <= j < |s| ==> Covers(keys, s[j].keys) && (s[j].keys == keys <==> n <= j)
  {
    forall j | 0 <= j < |s| ensures Covers(keys, s[j].keys) && |s[j].keys.Keys| <= |keys.Keys|
      && (s[j].keys == keys <==> |s[j].keys.Keys| == |keys.Keys|)
    {
      assert s[j] in Elements(s);
      FewerKeys(s[j].keys, keys);
    }
    n := 0;
    while n < |s| && s[n].keys != keys
      invariant n <= |s| && forall j :: 0 <= j < n ==> s[j].keys != keys
    {
      n := n + 1;
    }
    forall j | n <= j < |s| ensures s[j].keys == keys { assert n < j ==> Precedes(s[n], s[j], false); }
    SplitCounts(before, s, keys, n);
  }

  lemma SplitCounts(before: set<Instance>, s: seq<Instance>, keys: Keys, n: nat)
    requires NoDuplicates(s) && n <= |s| && Elements(s) == set i <- before | Covers(keys, i.keys)
    requires forall j :: 0 <= j < |s| ==> (s[j].keys == keys <==> n <= j)
    ensures n == |Partial(before, keys)| && |s| == n + |Exact(before, keys)|
  {
    assert NoDuplicates(s[..n]) && NoDuplicates(s[n..]);
    DistinctCount(s[..n]);
    DistinctCount(s[n..]);
    assert Elements(s[..n]) == Partial(before, keys) by {
      forall i | i in Partial(before, keys) ensures i in s[..n] {
        assert i in Elements(s);
        var j :| 0 <= j < |s| && s[j] == i;
        assert s[..n][j] == i;
      }
      forall i | i in s[..n] ensures i in Partial(before, keys) { assert i in Elements(s); }
    }
    assert Elements(s[n..]) == Exact(before, keys) by {
      forall i | i in Exact(before, keys) ensures i in s[n..] {
        assert Covers(keys, i.keys) && i in Elements(s);
        var j :| 0 <= j < |s| && s[j] == i;
        assert s[n..][j - n] == i;
      }
      forall i | i in s[n..] ensures i in Exact(before, keys) {
        assert i in Elements(s);
        var k :| 0 <= k < |s[n..]| && s[n..][k] == i;
        assert s[n + k] == i;
      }
    }
  }
}
