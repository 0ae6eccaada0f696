/** What a reader finds after `set` of lib/device.ts, said of the arguments of the call and of what was there
    before. */
module DeviceMerges {
  import opened Options
  import opened Paths
  import opened Devices

  predicate IsAncestor(p: Path, path: Path) {
    |p.segments| < |path.segments| && p.segments == path.segments[..|p.segments|]
  }

  /** Nothing is written but the path itself and the paths above it. */
  lemma {:induction false} SetTouchesOnlyAncestors(d: Data, path: Path, time: nat, attributes: Option<Attributes>,
      p: Path)
    requires p != path && !IsAncestor(p, path)
    ensures var e := SetData(d, path, time, attributes);
      && (p in e.attributes <==> p in d.attributes) && (p in d.attributes ==> e.attributes[p] == d.attributes[p])
      && (p in e.timestamps <==> p in d.timestamps) && (p in d.timestamps ==> e.timestamps[p] == d.timestamps[p])
    decreases |path.segments|
  {
    hide SetLevel, Watchers, IsAncestor;
    var l := SetLevel(d, path, time, attributes);
    LevelTouchesOnlyPath(d, path, time, attributes, p);
    if GoesUp(d, path, l) {
      if p == Parent(path) || IsAncestor(p, Parent(path)) { AncestorOfParent(p, path); }
      SetTouchesOnlyAncestors(l.data, Parent(path), l.time, Some(AsObject(l.time)), p);
    }
  }

  lemma LevelTouchesOnlyPath(d: Data, path: Path, time: nat, attributes: Option<Attributes>, p: Path)
    requires p != path
    ensures var e := SetLevel(d, path, time, attributes).data;
      && (p in e.attributes <==> p in d.attributes) && (p in d.attributes ==> e.attributes[p] == d.attributes[p])
      && (p in e.timestamps <==> p in d.timestamps) && (p in d.timestamps ==> e.timestamps[p] == d.timestamps[p])
  {}

  lemma AncestorOfParent(p: Path, path: Path)
    requires |path.segments| > 1 && (p == Parent(path) || IsAncestor(p, Parent(path)))
    ensures IsAncestor(p, path)
  {
    assert p.segments == path.segments[..|p.segments|];
  }

  lemma LevelStays(d: Data, path: Path, time: nat, attributes: Option<Attributes>)
    ensures var l, e := SetLevel(d, path, time, attributes), SetData(d, path, time, attributes);
      && (path in e.attributes <==> path in l.data.attributes)
      && (path in e.attributes ==> e.attributes[path] == l.data.attributes[path])
      && (path in e.timestamps <==> path in l.data.timestamps)
      && (path in e.timestamps ==> e.timestamps[path] == l.data.timestamps[path])
  {
    var l := SetLevel(d, path, time, attributes);
    if GoesUp(d, path, l) { SetTouchesOnlyAncestors(l.data, Parent(path), l.time, Some(AsObject(l.time)), path); }
  }

  // ---- What a set is given ----

  /** A non-empty value that is not older than the given `object`. */
  predicate ValueWins(given: Attributes) {
    Value in given && Truthy(given[Value].content) && (Object in given ==> given[Object].time <= given[Value].time)
  }

  /** A true `object` that is newer than a given value, or not older than an empty one. */
  predicate ObjectWins(given: Attributes) {
    && !ValueWins(given) && Object in given && Truthy(given[Object].content)
    && (Value in given ==> given[Value].time <= given[Object].time)
  }

  predicate SameAt(m: Attributes, given: Attributes, a: Attr) {
    if a in given then a in m && m[a] == given[a] else a !in m
  }

  /** Everything is as given, except that a value makes a leaf of the parameter, and an object has no value. */
  ghost predicate Settled(given: Attributes, m: Attributes) {
    && (forall a: Attr | a != Object && a != Value :: SameAt(m, given, a))
    && (SameAt(m, given, Value) || ObjectWins(given)) && (SameAt(m, given, Object) || ValueWins(given))
    && (ValueWins(given) ==> Object in m && m[Object] == Stamped(given[Value].time, Plain(0)))
    && (ObjectWins(given) ==> Value in m && m[Value] == Stamped(given[Object].time, Null))
  }

  lemma SettledIsNormalized(given: Attributes, m: Attributes)
    ensures Settled(given, m) <==> m == Normalized(given)
  {
    var n := Normalized(given);
    if Settled(given, m) {
      forall a: Attr ensures (a in m <==> a in n) && (a in m ==> m[a] == n[a]) {
        match a
        case Value =>
        case Object =>
        case _ => assert SameAt(m, given, a);
      }
      assert m.Keys == n.Keys;
    }
  }

  // ---- What a set leaves at the path itself ----

  /** The parameter has attributes, and a time that is not zero. */
  predicate Known(d: Data, path: Path) { path in d.timestamps && d.timestamps[path] > 0 && path in d.attributes }

  /** A time after a call at `time`. */
  function Raised(d: Data, path: Path, time: nat): nat {
    if path in d.timestamps && d.timestamps[path] >= time then d.timestamps[path] else time
  }

  /** What was not known is what is given, at the time of the call. */
  lemma UnknownIsReplaced(d: Data, path: Path, time: nat, given: Attributes)
    requires !Known(d, path) && !HasWildcard(path)
    ensures var e := SetData(d, path, time, Some(given));
      && path in e.attributes && Settled(given, e.attributes[path])
      && path in e.timestamps && e.timestamps[path] == Raised(d, path, time)
  {
    LevelStays(d, path, time, Some(given));
    SettledIsNormalized(given, Normalized(given));
  }

  /** Of what was known, each attribute keeps its newest stamp, the old one where times are equal. */
  ghost predicate NewestOf(current: Attributes, m: Attributes, merged: Attributes) {
    forall a: Attr ::
      && (a in merged <==> a in current || a in m)
      && (a in m && (a !in current || current[a].time < m[a].time) ==> a in merged && merged[a] == m[a])
      && (a in current && (a !in m || m[a].time <= current[a].time) ==> a in merged && merged[a] == current[a])
  }

  /** `t` is the latest of the time of the parameter, of the call, and of all that is given. */
  ghost predicate LatestOfAll(t: nat, before: nat, time: nat, m: Attributes) {
    && before <= t && time <= t && (forall a <- m :: m[a].time <= t)
    && (t == before || t == time || exists a <- m :: t == m[a].time)
  }

  lemma NewestWins(d: Data, path: Path, time: nat, given: Attributes, m: Attributes)
    requires Known(d, path) && !HasWildcard(path) && Settled(given, m)
    ensures var e := SetData(d, path, time, Some(given));
      && path in e.attributes && NewestOf(d.attributes[path], m, e.attributes[path])
      && path in e.timestamps && LatestOfAll(e.timestamps[path], d.timestamps[path], time, m)
  {
    LevelStays(d, path, time, Some(given));
    SettledIsNormalized(given, m);
    LatestIsOneOf(time, m);
  }

  lemma LatestIsOneOf(time: nat, m: Attributes)
    ensures Latest(time, m) >= time && (forall a <- m :: m[a].time <= Latest(time, m))
    ensures Latest(time, m) == time || exists a <- m :: Latest(time, m) == m[a].time
  {
    var t1 := Later(time, m, Object);
    var t2 := Later(t1, m, Writable);
    var t3 := Later(t2, m, Value);
    var t4 := Later(t3, m, Notification);
    forall a <- m ensures m[a].time <= Latest(time, m) {
      match a
      case Object => assert m[Object].time <= t1;
      case Writable => assert m[Writable].time <= t2;
      case Value => assert m[Value].time <= t3;
      case Notification => assert m[Notification].time <= t4;
      case AccessList =>
    }
  }

  /** A call that gives nothing, or is for a pattern, removes what it finds known and older at that path;
      it writes nothing else. */
  lemma NothingGiven(d: Data, path: Path, time: nat, attributes: Option<Attributes>)
    requires attributes.None? || HasWildcard(path)
    ensures var e := SetData(d, path, time, attributes);
      && e.timestamps == d.timestamps[path := Raised(d, path, time)]
      && e.attributes ==
           if Known(d, path) && !HasWildcard(path) && d.timestamps[path] < time then d.attributes - {path}
           else d.attributes
  {
    if path in d.timestamps && d.timestamps[path] >= time {
      assert d.timestamps[path := d.timestamps[path]] == d.timestamps;
    }
  }

  /** No call takes a time back. */
  lemma {:induction false} TimesNeverGoBack(d: Data, path: Path, time: nat, attributes: Option<Attributes>, p: Path)
    requires p in d.timestamps
    ensures p in SetData(d, path, time, attributes).timestamps
      && SetData(d, path, time, attributes).timestamps[p] >= d.timestamps[p]
    decreases |path.segments|
  {
    var l := SetLevel(d, path, time, attributes);
    if GoesUp(d, path, l) { TimesNeverGoBack(l.data, Parent(path), l.time, Some(AsObject(l.time)), p); }
  }

  // ---- What a set leaves above the path ----

  function Prefix(path: Path, n: nat): Path
    requires n <= |path.segments|
  {
    Path(path.segments[..n])
  }

  predicate Older(d: Data, p: Path, t: nat) { p !in d.timestamps || d.timestamps[p] < t }

  /** The path and everything above it down from `n` segments is older than `t`. */
  ghost predicate AllOlder(d: Data, path: Path, n: nat, t: nat)
    requires n <= |path.segments|
  {
    forall k :: n < k <= |path.segments| ==> Older(d, Prefix(path, k), t)
  }

  /** What an object at time `t` has. */
  function ObjectAt(t: nat): Attributes { map[Object := Stamped(t, Plain(1)), Value := Stamped(t, Null)] }

  /** `p` is an object, as of `t` or a later stamp that it had. */
  ghost predicate MadeObject(d: Data, e: Data, p: Path, t: nat) {
    && p in e.attributes && p in e.timestamps && e.timestamps[p] == Raised(d, p, t)
    && if Known(d, p) then NewestOf(d.attributes[p], ObjectAt(t), e.attributes[p]) else e.attributes[p] == ObjectAt(t)
  }

  ghost predicate Untouched(d: Data, e: Data, p: Path) {
    && (p in e.attributes <==> p in d.attributes) && (p in d.attributes ==> e.attributes[p] == d.attributes[p])
    && (p in e.timestamps <==> p in d.timestamps) && (p in d.timestamps ==> e.timestamps[p] == d.timestamps[p])
  }

  lemma ObjectIsSet(d: Data, p: Path, t: nat)
    requires !HasWildcard(p)
    ensures MadeObject(d, SetData(d, p, t, Some(AsObject(t))), p, t)
  {
    var given := AsObject(t);
    assert Settled(given, ObjectAt(t));
    if Known(d, p) {
      NewestWins(d, p, t, given, ObjectAt(t));
    } else {
      UnknownIsReplaced(d, p, t, given);
      SettledIsNormalized(given, ObjectAt(t));
      SettledIsNormalized(given, SetData(d, p, t, Some(given)).attributes[p]);
    }
  }

  lemma SameBefore(d: Data, e: Data, f: Data, p: Path, t: nat)
    requires Untouched(d, e, p)
    ensures Older(e, p, t) <==> Older(d, p, t)
    ensures MadeObject(e, f, p, t) <==> MadeObject(d, f, p, t)
    ensures Untouched(e, f, p) <==> Untouched(d, f, p)
  {}

  lemma OneOlder(d: Data, path: Path, n: nat, t: nat)
    requires n < |path.segments|
    ensures AllOlder(d, path, n, t) <==> Older(d, path, t) && AllOlder(d, Parent(path), n, t)
  {
    hide Older;
    assert Prefix(path, |path.segments|) == path;
    forall k | n < k < |path.segments| ensures Prefix(Parent(path), k) == Prefix(path, k) {}
  }

  lemma SameOlder(d: Data, e: Data, path: Path, n: nat, t: nat)
    requires n <= |path.segments| && forall k :: n < k <= |path.segments| ==> Untouched(d, e, Prefix(path, k))
    ensures AllOlder(e, path, n, t) <==> AllOlder(d, path, n, t)
  {
    hide Older, MadeObject;
    forall k | n < k <= |path.segments| ensures Older(e, Prefix(path, k), t) <==> Older(d, Prefix(path, k), t) {
      SameBefore(d, e, e, Prefix(path, k), t);
    }
  }

  lemma OnlyPath(d: Data, path: Path, time: nat, attributes: Option<Attributes>)
    ensures forall q | q != path :: Untouched(d, SetLevel(d, path, time, attributes).data, q)
  {
    forall q | q != path ensures Untouched(d, SetLevel(d, path, time, attributes).data, q) {
      LevelTouchesOnlyPath(d, path, time, attributes, q);
    }
  }

  lemma NoWildcardAbove(path: Path)
    requires !HasWildcard(path) && path.segments != []
    ensures !HasWildcard(Parent(path))
  {}

  lemma ParentPrefix(path: Path, n: nat)
    requires n < |path.segments|
    ensures Prefix(Parent(path), n) == Prefix(path, n) && (n == |path.segments| - 1 ==> Prefix(path, n) == Parent(path))
  {}

  lemma NoneOlder(d: Data, path: Path, t: nat)
    ensures AllOlder(d, path, |path.segments|, t)
  {}

  lemma TimeOfParent(d: Data, f: Data, parent: Path, n: nat, t: nat)
    requires n < |parent.segments| && MadeObject(d, f, parent, t)
    ensures AllOlder(d, parent, n, f.timestamps[parent]) <==> AllOlder(d, parent, n, t)
    ensures AllOlder(d, parent, n, t) ==> f.timestamps[parent] == t
  {
    hide AllOlder;
    OneOlder(d, parent, n, t);
    OneOlder(d, parent, n, f.timestamps[parent]);
  }

  lemma SameAttributes(d: Data, e: Data, f: Data, p: Path, t: nat)
    requires e.attributes == f.attributes && e.timestamps == f.timestamps
    ensures MadeObject(d, e, p, t) <==> MadeObject(d, f, p, t)
    ensures Untouched(d, e, p) <==> Untouched(d, f, p)
  {}

  /** What is to hold above the path. */
  ghost predicate ObjectUpTo(d: Data, e: Data, path: Path, n: nat, t: nat)
    requires n <= |path.segments|
  {
    if AllOlder(d, path, n, t) then MadeObject(d, e, Prefix(path, n), t) else Untouched(d, e, Prefix(path, n))
  }

  /** With a path that a set makes newer, everything above it that is older becomes an object at the same
      time, up to the first that is not older; from there on, and otherwise, nothing above is touched. */
  lemma {:induction false} ObjectsAbove(d: Data, path: Path, time: nat, given: Attributes, n: nat)
    requires !HasWildcard(path) && 0 < n < |path.segments|
    ensures var e := SetData(d, path, time, Some(given));
      path in e.timestamps && ObjectUpTo(d, e, path, n, e.timestamps[path])
    decreases |path.segments|
  {
    hide SetLevel, Watchers, Older, MadeObject, AllOlder, Untouched, Prefix;
    var l, e := SetLevel(d, path, time, Some(given)), SetData(d, path, time, Some(given));
    LevelStays(d, path, time, Some(given));
    LevelTime(d, path, time, given);
    var t, parent := e.timestamps[path], Parent(path);
    OnlyPath(d, path, time, Some(given));
    OneOlder(d, path, n, t);
    ParentPrefix(path, n);
    assert Prefix(path, n).segments == path.segments[..n] by { PrefixSegments(path, n); }
    if GoesUp(d, path, l) {
      var f := SetData(l.data, parent, t, Some(AsObject(t)));
      NoWildcardAbove(path);
      ObjectIsSet(l.data, parent, t);
      SameBefore(d, l.data, f, Prefix(path, n), t);
      if n < |path.segments| - 1 {
        ObjectsAbove(l.data, parent, t, AsObject(t), n);
        forall k | n < k <= |parent.segments| ensures Untouched(d, l.data, Prefix(parent, k)) {
          PrefixSegments(parent, k);
        }
        SameOlder(d, l.data, parent, n, t);
        TimeOfParent(l.data, f, parent, n, t);
      } else {
        NoneOlder(d, parent, t);
      }
      SameAttributes(d, e, f, Prefix(path, n), t);
    } else {
      SameAttributes(d, e, l.data, Prefix(path, n), t);
    }
  }

  lemma PrefixSegments(path: Path, n: nat)
    requires n <= |path.segments|
    ensures Prefix(path, n).segments == path.segments[..n]
  {}

  lemma LevelTime(d: Data, path: Path, time: nat, given: Attributes)
    requires !HasWildcard(path)
    ensures var l := SetLevel(d, path, time, Some(given));
      && l.given.Some? && path in l.data.timestamps
      && (Fresh(d, path, l.time) <==> Older(d, path, l.data.timestamps[path]))
      && (Fresh(d, path, l.time) ==> l.time == l.data.timestamps[path])
  {}
}
