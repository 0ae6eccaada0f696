/** An object has no value and a value belongs to a leaf: whatever the order of timestamps, `set` keeps
    the two attributes coherent, and so do the clears that it returns. */
module DeviceCoherence {
  import opened Options
  import opened Paths
  import opened Devices

  predicate Coherent(m: Attributes) {
    && (Object in m && Truthy(m[Object].content) ==>
      Value in m && !Truthy(m[Value].content) && m[Value].time >= m[Object].time)
    && (Value in m && Truthy(m[Value].content) ==>
      Object in m && !Truthy(m[Object].content) && m[Object].time >= m[Value].time)
  }

  ghost predicate AllCoherent(d: Data) { forall p <- d.attributes :: Coherent(d.attributes[p]) }

  lemma NormalizedIsCoherent(m: Attributes)
    ensures Coherent(Normalized(m))
  {}

  lemma MergedIsCoherent(current: Attributes, m: Attributes)
    requires Coherent(current) && Coherent(m)
    ensures Coherent(Merged(current, m))
  {}

  lemma {:induction false} SetKeepsCoherence(d: Data, path: Path, time: nat, attributes: Option<Attributes>)
    requires AllCoherent(d)
    ensures AllCoherent(SetData(d, path, time, attributes))
    decreases |path.segments|
  {
    var l := SetLevel(d, path, time, attributes);
    var current := Current(d, path);
    if attributes.Some? && !HasWildcard(path) {
      NormalizedIsCoherent(attributes.value);
      if current.Some? { MergedIsCoherent(current.value, Normalized(attributes.value)); }
    }
    if GoesUp(d, path, l) { SetKeepsCoherence(l.data, Parent(path), l.time, Some(AsObject(l.time))); }
  }

  /** The value is not cleared for a later time than the object is. */
  predicate Harmless(c: Clear) {
    var m := ClearTimes(c);
    Value in m && m[Value] > 0 ==> Object in m && m[Object] >= m[Value]
  }

  lemma HarmlessKeepsCoherence(d: Data, c: Clear)
    requires AllCoherent(d) && Harmless(c)
    ensures AllCoherent(Cleared(d, c))
  {
    var e := Cleared(d, c);
    forall p <- e.attributes ensures Coherent(e.attributes[p]) {
      assert Coherent(d.attributes[p]);
      assert Stale(d, c, p, Value) ==>
        Stale(d, c, p, Object) || Object !in d.attributes[p] || ClearTimes(c)[Object] <= d.attributes[p][Object].time;
    }
  }

  /** A harmful clear leaves an object without its empty value. */
  lemma HarmfulBreaksCoherence(c: Clear)
    requires !Harmless(c) && |c.path.segments| <= ClearDepth(c)
    ensures exists d :: AllCoherent(d) && !AllCoherent(Cleared(d, c))
  {
    var v := ClearTimes(c)[Value];
    var m: Attributes := map[Object := Stamped(v - 1, Plain(1)), Value := Stamped(v - 1, Null)];
    var d := Data({c.path}, map[c.path := DescendantsTime(c)], map[c.path := m], map[], {});
    assert Stale(d, c, c.path, Value) && !Stale(d, c, c.path, Object);
    assert !Coherent(Cleared(d, c).attributes[c.path]);
  }

  /** A clear of a path that is longer than it looks for. */
  lemma TooLongClearsNothing(d: Data, c: Clear)
    requires |c.path.segments| > ClearDepth(c)
    ensures AllCoherent(d) ==> AllCoherent(Cleared(d, c))
  {
    assert forall p <- d.attributes :: !Cleans(d, c, p);
    forall p <- d.attributes ensures Kept(d, c, p) == d.attributes[p] {}
  }

  /** Exactly the harmless clears keep every coherent device coherent, and those that are too long to
      find anything. */
  lemma ClearKeepsCoherenceExactly(c: Clear)
    ensures (forall d :: AllCoherent(d) ==> AllCoherent(Cleared(d, c))) <==>
      Harmless(c) || |c.path.segments| > ClearDepth(c)
  {
    if Harmless(c) {
      forall d | AllCoherent(d) ensures AllCoherent(Cleared(d, c)) { HarmlessKeepsCoherence(d, c); }
    } else if |c.path.segments| > ClearDepth(c) {
      forall d | AllCoherent(d) ensures AllCoherent(Cleared(d, c)) { TooLongClearsNothing(d, c); }
    } else {
      HarmfulBreaksCoherence(c);
    }
  }

  lemma {:induction false} ReturnedClearsAreHarmless(d: Data, path: Path, time: nat, attributes: Option<Attributes>)
    ensures forall c <- SetClears(d, path, time, attributes) :: Harmless(c)
    decreases |path.segments|
  {
    var l := SetLevel(d, path, time, attributes);
    if GoesUp(d, path, l) { ReturnedClearsAreHarmless(l.data, Parent(path), l.time, Some(AsObject(l.time))); }
  }

  lemma {:induction false} ClearsKeepCoherence(d: Data, cs: seq<Clear>)
    requires AllCoherent(d) && forall c <- cs :: Harmless(c)
    ensures AllCoherent(ClearedAll(d, cs))
    decreases |cs|
  {
    if cs != [] {
      HarmlessKeepsCoherence(d, cs[0]);
      ClearsKeepCoherence(Cleared(d, cs[0]), cs[1..]);
    }
  }

  /** A set and the clears that it returns, in any order and number, keep the device coherent. */
  lemma CoherenceIsInductive(d: Data, path: Path, time: nat, attributes: Option<Attributes>, cs: seq<Clear>)
    requires AllCoherent(d) && forall c <- cs :: c in SetClears(d, path, time, attributes)
    ensures AllCoherent(ClearedAll(SetData(d, path, time, attributes), cs))
  {
    SetKeepsCoherence(d, path, time, attributes);
    ReturnedClearsAreHarmless(d, path, time, attributes);
    ClearsKeepCoherence(SetData(d, path, time, attributes), cs);
  }
}
