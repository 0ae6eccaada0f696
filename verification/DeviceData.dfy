/** The functions of lib/device.ts that update the device data, as they run, against `Devices`.

    The versioned maps `timestamps` and `attributes` are held as their views at the current revision. */
module DeviceStates {
  import opened Options
  import opened Sequences
  import opened Paths
  import opened PathSets
  import opened Devices
  import PathCaches

  /** The latest of a time and those of some attributes. */
  function LatestOf(time: nat, m: Attributes, names: seq<Attr>): nat {
    if names == [] then time else Later(LatestOf(time, m, names[..|names| - 1]), m, names[|names| - 1])
  }

  lemma AllAttributes()
    ensures forall a: Attr :: a in [Object, Writable, Value, Notification, AccessList]
  {
    var names := [Object, Writable, Value, Notification, AccessList];
    forall a: Attr ensures a in names {
      match a
      case Object => assert a == names[0];
      case Writable => assert a == names[1];
      case Value => assert a == names[2];
      case Notification => assert a == names[3];
      case AccessList => assert a == names[4];
    }
  }

  lemma LatestOfAll(time: nat, m: Attributes)
    ensures LatestOf(time, m, [Object, Writable, Value, Notification, AccessList]) == Latest(time, m)
  {
    assert [Object][..0] == [] && [Object, Writable][..1] == [Object];
    assert [Object, Writable, Value][..2] == [Object, Writable];
    assert [Object, Writable, Value, Notification][..3] == [Object, Writable, Value];
    assert [Object, Writable, Value, Notification, AccessList][..4] == [Object, Writable, Value, Notification];
    assert LatestOf(time, m, [Object]) == Later(time, m, Object);
    assert LatestOf(time, m, [Object, Writable]) == Later(Later(time, m, Object), m, Writable);
    assert LatestOf(time, m, [Object, Writable, Value]) == Later(LatestOf(time, m, [Object, Writable]), m, Value);
    assert LatestOf(time, m, [Object, Writable, Value, Notification]) ==
      Later(LatestOf(time, m, [Object, Writable, Value]), m, Notification);
  }

  lemma SetUnfolds(d: Data, path: Path, time: nat, given: Option<Attributes>)
    ensures var l := SetLevel(d, path, time, given);
      && SetData(d, path, time, given) ==
        Notified(if GoesUp(d, path, l) then SetData(l.data, Parent(path), l.time, Some(AsObject(l.time)))
          else l.data, path, l)
      && SetClears(d, path, time, given) == l.covered
        + (if GoesUp(d, path, l) then SetClears(l.data, Parent(path), l.time, Some(AsObject(l.time))) else {})
        + if Follows(path, l).Some? then {Follows(path, l).value} else {}
  {
    hide SetLevel;
  }

  lemma NoFlags(d: Data, path: Path, subset: bool, depth: nat)
    ensures Watchers(d, path, subset, depth, {}) == {}
  {}

  lemma ElementsAppend<T(!new)>(a: seq<T>, b: seq<T>)
    ensures Elements(a + b) == Elements(a) + Elements(b)
    ensures |b| == 1 ==> Elements(b) == {b[0]}
  {}

  // ---- What is done after some of the found paths ----

  ghost function TimesAfter(d: Data, c: Clear, done: seq<Path>): map<Path, nat> {
    map p <- d.timestamps | !(p in done && Gone(d, c, p)) :: d.timestamps[p]
  }

  ghost function AttributesAfter(d: Data, c: Clear, done: seq<Path>): map<Path, Attributes> {
    map p <- d.attributes | !(p in done && Gone(d, c, p)) :: if p in done then Kept(d, c, p) else d.attributes[p]
  }

  ghost predicate FlagAfter(d: Data, c: Clear, done: seq<Path>, f: Flag) {
    f in c.flags || exists p <- done :: if f == Existence then Gone(d, c, p) else Stale(d, c, p, f.attr)
  }

  ghost predicate Seen(trackers: map<Path, map<string, set<Flag>>>, done: seq<Path>, k: string, f: Flag) {
    exists w <- done :: w in trackers && k in trackers[w] && f in trackers[w][k]
  }

  predicate Has(collected: map<string, set<Flag>>, k: string, f: Flag) { k in collected && f in collected[k] }

  ghost predicate Collected(trackers: map<Path, map<string, set<Flag>>>, done: seq<Path>,
      collected: map<string, set<Flag>>) {
    forall k, f :: Has(collected, k, f) <==> Seen(trackers, done, k, f)
  }

  method Collect(collected: map<string, set<Flag>>, tracker: map<string, set<Flag>>) returns (r: map<string, set<Flag>>)
    ensures forall k, f :: Has(r, k, f) <==> Has(collected, k, f) || Has(tracker, k, f)
  {
    r := collected;
    var todo := tracker.Keys;
    while todo != {}
      invariant todo <= tracker.Keys
      invariant forall k, f :: Has(r, k, f) <==> Has(collected, k, f) || (k !in todo && Has(tracker, k, f))
    {
      var k :| k in todo;
      r := r[k := (if k in r then r[k] else {}) + tracker[k]];
      todo := todo - {k};
    }
  }

  // ---- One more path ----

  lemma NothingDone(d: Data, c: Clear)
    ensures forall f :: f in c.flags <==> FlagAfter(d, c, [], f)
    ensures Collected(d.trackers, [], map[])
    ensures TimesAfter(d, c, []) == d.timestamps && AttributesAfter(d, c, []) == d.attributes
  {}

  /** Two maps agree on a key. */
  predicate Same<K, V(==)>(a: map<K, V>, b: map<K, V>, k: K) { if k in b then k in a && a[k] == b[k] else k !in a }

  lemma OneMore(d: Data, c: Clear, done: seq<Path>, p: Path)
    requires p !in done && d.attributes.Keys <= d.timestamps.Keys
    ensures Same(TimesAfter(d, c, done), d.timestamps, p) && Same(AttributesAfter(d, c, done), d.attributes, p)
    ensures TimesAfter(d, c, done + [p]) == if Gone(d, c, p) then TimesAfter(d, c, done) - {p}
      else TimesAfter(d, c, done)
    ensures AttributesAfter(d, c, done + [p]) ==
      if Gone(d, c, p) then AttributesAfter(d, c, done) - {p}
      else if p in d.attributes then AttributesAfter(d, c, done)[p := Kept(d, c, p)]
      else AttributesAfter(d, c, done)
    ensures forall f :: FlagAfter(d, c, done + [p], f) <==>
      FlagAfter(d, c, done, f) || if f == Existence then Gone(d, c, p) else Stale(d, c, p, f.attr)
  {
    hide Gone, Stale, Kept;
    forall f ensures FlagAfter(d, c, done + [p], f) <==>
      FlagAfter(d, c, done, f) || if f == Existence then Gone(d, c, p) else Stale(d, c, p, f.attr)
    {
      assert forall x :: x in done + [p] <==> x in done || x == p;
    }
  }

  lemma OneMoreTracker(trackers: map<Path, map<string, set<Flag>>>, done: seq<Path>, p: Path,
      before: map<string, set<Flag>>, after: map<string, set<Flag>>)
    requires Collected(trackers, done, before)
    requires forall k, f :: Has(after, k, f) <==> Has(before, k, f) || (p in trackers && Has(trackers[p], k, f))
    ensures Collected(trackers, done + [p], after)
  {
    forall k, f ensures Has(after, k, f) <==> Seen(trackers, done + [p], k, f) {
      assert forall x :: x in done + [p] <==> x in done || x == p;
      assert Has(before, k, f) <==> Seen(trackers, done, k, f);
    }
  }

  /** The attributes that are not older than their clear time, and the flags of the others. */
  method DropOlder(current: Attributes, times: map<Attr, nat>) returns (kept: Attributes, flags: set<Flag>)
    ensures kept == map a <- current | !(a in times && times[a] > current[a].time) :: current[a]
    ensures flags == set a <- current | a in times && times[a] > current[a].time :: Change(a)
  {
    kept, flags := current, {};
    var todo := times.Keys;
    while todo != {}
      invariant todo <= times.Keys
      invariant kept == map a <- current | !(a in times && a !in todo && times[a] > current[a].time) :: current[a]
      invariant flags == set a <- current | a in times && a !in todo && times[a] > current[a].time :: Change(a)
    {
      var a :| a in todo;
      if a in current && times[a] > current[a].time {
        flags := flags + {Change(a)};
        kept := kept - {a};
      }
      todo := todo - {a};
    }
  }

  lemma FlagsAreGiven(current: Attributes, m: Attributes)
    ensures Change(Object) in MergeFlags(current, m) ==> Object in m
  {}

  /** That the path is added first makes no difference. */
  lemma LevelInPaths(d: Data, path: Path, time: nat, given: Option<Attributes>)
    ensures SetLevel(Data(d.paths + {path}, d.timestamps, d.attributes, d.trackers, d.changes), path, time, given) ==
      SetLevel(d, path, time, given)
  {
    assert d.paths + {path} + {path} == d.paths + {path};
  }

  /** The markers on some of the paths, for any of the flags. */
  ghost function MarkersOn(trackers: map<Path, map<string, set<Flag>>>, done: seq<Path>,
      flags: set<Flag>): set<string> {
    set w <- trackers, k <- trackers[w] | w in done && trackers[w][k] * flags != {} :: k
  }

  lemma FoundAreThere(found: seq<Path>, d: Data, c: Clear)
    requires IsListed(found, d.paths, c.path, true, true, ClearDepth(c))
    ensures forall i :: 0 <= i < |found| ==>
      InRegion(d, c.path, true, ClearDepth(c), found[i]) && found[i] !in found[..i]
  {}

  lemma NothingMarked(trackers: map<Path, map<string, set<Flag>>>, flags: set<Flag>)
    ensures MarkersOn(trackers, [], flags) == {}
  {}

  lemma MarkedMore(trackers: map<Path, map<string, set<Flag>>>, done: seq<Path>, p: Path, flags: set<Flag>)
    ensures MarkersOn(trackers, done + [p], flags) ==
      MarkersOn(trackers, done, flags) + if p in trackers then set k <- trackers[p] | trackers[p][k] * flags != {}
        else {}
  {
    assert forall w :: w in done + [p] <==> w in done || w == p;
  }

  lemma MarkedAll(d: Data, path: Path, found: seq<Path>, flags: set<Flag>)
    requires IsListed(found, d.paths, path, true, false, |path.segments|) && d.trackers.Keys <= d.paths
    ensures MarkersOn(d.trackers, found, flags) == Watchers(d, path, false, |path.segments|, flags)
  {}

  function Tracked(d: Data, path: Path, marker: string, flags: set<Flag>): Data {
    var cur := if path in d.trackers then d.trackers[path] else map[];
    Data(d.paths + {path}, d.timestamps, d.attributes,
         d.trackers[path := cur[marker := (if marker in cur then cur[marker] else {}) + flags]], d.changes)
  }

  lemma TrackedIsSound(d: Data, path: Path, marker: string, flags: set<Flag>)
    requires Sound(d) && Existence in flags
    ensures Sound(Tracked(d, path, marker, flags))
    ensures forall w, k, f :: Watches(Tracked(d, path, marker, flags), w, k, f) <==>
      Watches(d, w, k, f) || (w == path && k == marker && f in flags)
  {}

  lemma UntrackedIsSound(d: Data, e: Data, marker: string)
    requires Sound(d) && e.paths == d.paths && e.timestamps == d.timestamps && e.attributes == d.attributes
    requires e.trackers == map w <- d.trackers :: d.trackers[w] - {marker}
    ensures Sound(e) && forall w, k, f :: Watches(e, w, k, f) <==> k != marker && Watches(d, w, k, f)
  {}

  lemma AddedIsSound(d: Data, path: Path)
    requires Sound(d)
    ensures Sound(Data(d.paths + {path}, d.timestamps, d.attributes, d.trackers, d.changes))
  {}

  lemma NoElements<T(!new)>()
    ensures Elements<T>([]) == {}
  {}

  class DeviceData {
    const paths: PathSet
    var timestamps: map<Path, nat>
    var attributes: map<Path, Attributes>
    var trackers: map<Path, map<string, set<Flag>>>
    var changes: set<string>

    ghost function Model(): Data
      reads this, paths
    {
      Data(paths.Contents(), timestamps, attributes, trackers, changes)
    }

    ghost predicate Valid()
      reads this, paths
    {
      paths.Valid() && Sound(Model())
    }

    constructor ()
      ensures Valid() && fresh(paths) && Model() == Data({}, map[], map[], map[], {})
    {
      paths := new PathSet();
      timestamps, attributes, trackers, changes := map[], map[], map[], {};
    }

    /** The flags under which a marker watches the given attributes. */
    static method FlagsOf(watched: seq<Attr>) returns (flags: set<Flag>)
      ensures forall f :: f in flags <==> f == Existence || (f.Change? && f.attr in watched)
    {
      flags := {Existence};
      for i := 0 to |watched|
        invariant forall f :: f in flags <==> f == Existence || (f.Change? && f.attr in watched[..i])
      {
        flags := flags + {Change(watched[i])};
      }
    }

    method Track(path: Path, marker: string, watched: seq<Attr>)
      requires Valid() && WellFormed(path) && NoAlias(path)
      modifies this`trackers, paths
      ensures Valid() && paths.Contents() == old(paths.Contents()) + {path}
      ensures forall w, k, f :: Watches(Model(), w, k, f) <==>
        Watches(old(Model()), w, k, f)
          || (w == path && k == marker && (f == Existence || (f.Change? && f.attr in watched)))
    {
      ghost var before := Model();
      var _ := paths.Add(path);
      var f := FlagsOf(watched);
      var cur := if path in trackers then trackers[path] else map[];
      cur := cur[marker := (if marker in cur then cur[marker] else {}) + f];
      trackers := trackers[path := cur];
      TrackedIsSound(before, path, marker, f);
    }

    method ClearTracker(marker: string)
      requires Valid()
      modifies this`trackers, this`changes
      ensures Valid() && changes == old(changes) - {marker}
      ensures forall w, k, f :: Watches(Model(), w, k, f) <==> k != marker && Watches(old(Model()), w, k, f)
    {
      ghost var before := Model();
      Untrack(marker);
      changes := changes - {marker};
      UntrackedIsSound(before, Model(), marker);
    }

    method Untrack(marker: string)
      modifies this`trackers
      ensures trackers == map w <- old(trackers) :: old(trackers)[w] - {marker}
    {
      var todo := trackers.Keys;
      while todo != {}
        invariant todo <= old(trackers.Keys)
        invariant trackers ==
          map w <- old(trackers) :: if w in todo then old(trackers)[w] else old(trackers)[w] - {marker}
      {
        var w :| w in todo;
        trackers := trackers[w := trackers[w] - {marker}];
        todo := todo - {w};
      }
    }

    method MarkChanges(collected: map<string, set<Flag>>, flags: set<Flag>)
      modifies this`changes
      ensures changes == old(changes) + set k <- collected | collected[k] * flags != {}
    {
      var todo := collected.Keys;
      while todo != {}
        invariant todo <= collected.Keys
        invariant changes == old(changes) + set k <- collected | k !in todo && collected[k] * flags != {}
      {
        var k :| k in todo;
        if collected[k] * flags != {} { changes := changes + {k}; }
        todo := todo - {k};
      }
    }

    method Clear(path: Path, timestamp: nat, times: Option<map<Attr, nat>>, changeFlags: set<Flag>)
      requires Valid() && WellFormed(path) && NoAlias(path)
      modifies this`timestamps, this`attributes, this`changes
      ensures Valid() && Model() == Cleared(old(Model()), Devices.Clear(path, timestamp, times, changeFlags))
    {
      hide FoundFrom, Gone, Kept, Stale, ClearFlags, FlagAfter, Collected;
      ghost var d, c := Model(), Devices.Clear(path, timestamp, times, changeFlags);
      var descendants, cleared := timestamp, times;
      if times.Some? && Object in times.value && times.value[Object] != 0 {
        if times.value[Object] > descendants { descendants := times.value[Object]; }
        if !(Value in times.value && times.value[Object] <= times.value[Value]) {
          cleared := Some(times.value[Value := times.value[Object]]);
        }
      }
      var found := paths.Find(path, true, true, if descendants > 0 then 99 else |path.segments|);
      var collected, flags := Sweep(d, c, found.value, path, timestamp, descendants, cleared, changeFlags);
      SweptAll(d, c, found.value, collected, flags);
      MarkChanges(collected, flags);
      ClearMissesNothing(d, c);
    }

    /** One turn of the loop over the found paths. */
    method Drop(ghost d: Data, ghost c: Clear, p: Path, path: Path, timestamp: nat, descendants: nat,
        cleared: Option<map<Attr, nat>>) returns (changed: set<Flag>)
      requires path == c.path && timestamp == c.time && descendants == DescendantsTime(c)
      requires cleared.Some? == c.attributes.Some? && (cleared.Some? ==> cleared.value == ClearTimes(c))
      requires InRegion(d, path, true, ClearDepth(c), p)
      requires Same(timestamps, d.timestamps, p) && Same(attributes, d.attributes, p)
      modifies this`timestamps, this`attributes
      ensures timestamps == if Gone(d, c, p) then old(timestamps) - {p} else old(timestamps)
      ensures attributes ==
        if Gone(d, c, p) then old(attributes) - {p}
        else if p in d.attributes then old(attributes)[p := Kept(d, c, p)]
        else old(attributes)
      ensures forall f :: f in changed <==> if f == Existence then Gone(d, c, p) else Stale(d, c, p, f.attr)
    {
      changed := {};
      if p !in timestamps {
        assert p in d.attributes ==> Kept(d, c, p) == d.attributes[p];
        return;
      }
      if timestamp > timestamps[p] || (descendants > timestamps[p] && |p.segments| > |path.segments|) {
        timestamps := timestamps - {p};
        attributes := attributes - {p};
        changed := {Existence};
      } else if cleared.Some? && |p.segments| == |path.segments| && p in attributes {
        var kept, dropped := DropOlder(attributes[p], cleared.value);
        assert kept == Kept(d, c, p);
        if dropped != {} {
          attributes := attributes[p := kept];
          changed := dropped;
        } else {
          assert kept == attributes[p] by {
            forall a <- attributes[p] ensures a in kept { assert Change(a) !in dropped; }
          }
        }
      } else {
        assert p in d.attributes ==> Kept(d, c, p) == d.attributes[p];
      }
    }

    /** The loop over the found paths: drops what is older, and collects trackers and flags. */
    method Sweep(ghost d: Data, ghost c: Clear, found: seq<Path>, path: Path, timestamp: nat, descendants: nat,
        cleared: Option<map<Attr, nat>>, changeFlags: set<Flag>)
        returns (collected: map<string, set<Flag>>, flags: set<Flag>)
      requires d.timestamps == timestamps && d.attributes == attributes && d.trackers == trackers
      requires d.attributes.Keys <= d.timestamps.Keys
      requires IsListed(found, d.paths, path, true, true, ClearDepth(c))
      requires path == c.path && timestamp == c.time && changeFlags == c.flags && descendants == DescendantsTime(c)
      requires cleared.Some? == c.attributes.Some? && (cleared.Some? ==> cleared.value == ClearTimes(c))
      modifies this`timestamps, this`attributes
      ensures timestamps == TimesAfter(d, c, found) && attributes == AttributesAfter(d, c, found)
      ensures forall f :: f in flags <==> FlagAfter(d, c, found, f)
      ensures Collected(d.trackers, found, collected)
    {
      hide *;
      FoundAreThere(found, d, c);
      collected, flags := map[], changeFlags;
      NothingDone(d, c);
      var i := 0;
      assert found[..0] == [];
      while i < |found|
        invariant i <= |found|
        invariant timestamps == TimesAfter(d, c, found[..i]) && attributes == AttributesAfter(d, c, found[..i])
        invariant forall f :: f in flags <==> FlagAfter(d, c, found[..i], f)
        invariant Collected(d.trackers, found[..i], collected)
      {
        var p := found[i];
        assert found[..i + 1] == found[..i] + [p];
        OneMore(d, c, found[..i], p);
        ghost var before := collected;
        if p in trackers { collected := Collect(collected, trackers[p]); }
        OneMoreTracker(d.trackers, found[..i], p, before, collected);
        var changed := Drop(d, c, p, path, timestamp, descendants, cleared);
        flags := flags + changed;
        i := i + 1;
      }
      assert found[..|found|] == found;
    }

    static method MergeOne(a: Attr, current: Attributes, given: Attributes, merged: Attributes, time: nat,
      flags: set<Flag>) returns (merged': Attributes, time': nat, flags': set<Flag>)
      ensures merged' == if a in given && a in current && given[a].time <= current[a].time then
        merged[a := current[a]] else merged
      ensures time' == Later(time, given, a)
      ensures flags' == flags + if Differs(current, given, a) then {Change(a)} else {}
    {
      merged', time', flags' := merged, time, flags;
      if a in given {
        if given[a].time > time { time' := given[a].time; }
        if a !in current {
          flags' := flags + {Change(a)};
        } else if given[a].time <= current[a].time {
          merged' := merged[a := current[a]];
        } else if given[a].content != current[a].content {
          flags' := flags + {Change(a)};
        }
      }
    }

    /** The loop over the given attributes where the parameter is known. */
    static method MergeAll(names: seq<Attr>, current: Attributes, given: Attributes, timestamp: nat)
      returns (merged: Attributes, time: nat, flags: set<Flag>)
      ensures merged.Keys == current.Keys + given.Keys
      ensures forall a <- merged :: merged[a] == (if a in names then Merged(current, given) else current + given)[a]
      ensures time == LatestOf(timestamp, given, names)
      ensures forall f :: f in flags <==> f.Change? && f.attr in names && Differs(current, given, f.attr)
    {
      merged, time, flags := current + given, timestamp, {};
      var i := 0;
      while i < |names|
        invariant i <= |names| && merged.Keys == current.Keys + given.Keys
        invariant forall a <- merged ::
          merged[a] == (if a in names[..i] then Merged(current, given) else current + given)[a]
        invariant time == LatestOf(timestamp, given, names[..i])
        invariant forall f :: f in flags <==> f.Change? && f.attr in names[..i] && Differs(current, given, f.attr)
      {
        assert names[..i + 1] == names[..i] + [names[i]];
        merged, time, flags := MergeOne(names[i], current, given, merged, time, flags);
        i := i + 1;
      }
      assert names[..i] == names;
    }

    static method Merge(timestamp: nat, current: Attributes, given: Attributes)
      returns (merged: Attributes, time: nat, flags: set<Flag>)
      ensures merged == Merged(current, given) && time == Latest(timestamp, given)
        && flags == MergeFlags(current, given)
    {
      merged, time, flags := MergeAll([Object, Writable, Value, Notification, AccessList], current, given, timestamp);
      AllAttributes();
      LatestOfAll(timestamp, given);
    }

    method Set(path: Path, timestamp: nat, given: Option<Attributes>, toClear: seq<Devices.Clear>)
        returns (r: seq<Devices.Clear>)
      requires Valid() && WellFormed(path) && NoAlias(path)
      modifies this`timestamps, this`attributes, this`changes, paths
      ensures Valid() && Model() == SetData(old(Model()), path, timestamp, given)
      ensures Elements(r) == Elements(toClear) + SetClears(old(Model()), path, timestamp, given)
      decreases |path.segments|
    {
      hide SetLevel, Watchers, SetData, SetClears;
      SetUnfolds(Model(), path, timestamp, given);
      ghost var d, l := Model(), SetLevel(Model(), path, timestamp, given);
      var time, isNew, normalized, flags, covered := SetOne(path, timestamp, given);
      ElementsAppend(toClear, covered);
      r := toClear + covered;
      ghost var mine := Elements(r);
      if normalized.Some? && isNew && |path.segments| > 1 {
        PathCaches.WellFormedPart(path.segments, 0, |path.segments| - 1);
        r := Set(Parent(path), time, Some(map[Object := Stamped(time, Plain(1))]), r);
      }
      if Existence in flags {
        ElementsAppend(r, [Devices.Clear(path, time, None, flags)]);
        r := r + [Devices.Clear(path, time, None, flags)];
      } else if Change(Object) in flags {
        ElementsAppend(r, [Devices.Clear(path, 0, Some(map[Object := normalized.value[Object].time]), flags)]);
        r := r + [Devices.Clear(path, 0, Some(map[Object := normalized.value[Object].time]), flags)];
      } else if flags != {} {
        Notify(path, flags);
      } else {
        NoFlags(Model(), path, false, |path.segments|);
      }
    }

    /** Stamps the path, unless it is stamped with that time or a later one. */
    method Stamp(path: Path, time: nat) returns (isNew: bool)
      modifies this`timestamps
      ensures isNew == Fresh(old(Model()), path, time)
      ensures timestamps == if isNew then old(timestamps)[path := time] else old(timestamps)
    {
      isNew := path !in timestamps || time > timestamps[path];
      if isNew { timestamps := timestamps[path := time]; }
    }

    /** What is given is merged with what is known. */
    method PutGiven(path: Path, timestamp: nat, m: Attributes, known: bool) returns (time: nat, flags: set<Flag>)
      requires known ==> path in attributes
      modifies this`attributes
      ensures time == if known then Latest(timestamp, m) else timestamp
      ensures flags == if known then MergeFlags(old(attributes)[path], m) else {Existence}
      ensures attributes == old(attributes)[path := if known then Merged(old(attributes)[path], m) else m]
    {
      var merged := m;
      time := timestamp;
      if known { merged, time, flags := Merge(timestamp, attributes[path], m); } else { flags := {Existence}; }
      attributes := attributes[path := merged];
    }

    /** Nothing is given, or the path is a pattern: what is known and older is removed. */
    method PutNothing(path: Path, time: nat, known: bool)
      returns (isNew: bool, flags: set<Flag>, covered: seq<Devices.Clear>)
      requires Valid() && path in paths.Contents() && WellFormed(path) && NoAlias(path)
      requires known <==> Current(Model(), path).Some?
      modifies this`timestamps, this`attributes
      ensures Valid()
      ensures forall given: Option<Attributes> :: given.None? || HasWildcard(path) ==>
        SetLevel(old(Model()), path, time, given) == Level(Model(), time, None, flags, Elements(covered))
      ensures isNew == Fresh(old(Model()), path, time) && flags <= {Existence}
    {
      covered, flags := [], {};
      isNew := Stamp(path, time);
      if isNew && known {
        attributes := attributes - {path};
        flags := {Existence};
      } else if isNew && HasWildcard(path) {
        covered := Covered(path, time);
      }
      assert paths.Contents() + {path} == paths.Contents();
    }

    /** Something is given: it is merged, and stamped with the latest time of all. */
    method PutSomething(path: Path, timestamp: nat, m: Attributes, known: bool)
      returns (time: nat, isNew: bool, flags: set<Flag>)
      requires Valid() && path in paths.Contents()
      requires known <==> Current(Model(), path).Some?
      modifies this`timestamps, this`attributes
      ensures !HasWildcard(path) ==> forall given: Option<Attributes> :: given.Some? && Normalized(given.value) == m ==>
        SetLevel(old(Model()), path, timestamp, given) == Level(Model(), time, Some(m), flags, {})
      ensures isNew == Fresh(old(Model()), path, time)
      ensures Change(Object) in flags ==> Object in m
    {
      hide Merged, MergeFlags, Latest, Normalized, Sound;
      if known { FlagsAreGiven(attributes[path], m); }
      time, flags := PutGiven(path, timestamp, m, known);
      isNew := Stamp(path, time);
      assert paths.Contents() + {path} == paths.Contents();
    }

    /** The part of `set` before the call for the parent and the clear that follows. */
    method SetOne(path: Path, timestamp: nat, given: Option<Attributes>)
      returns (time: nat, isNew: bool, normalized: Option<Attributes>, flags: set<Flag>, covered: seq<Devices.Clear>)
      requires Valid() && WellFormed(path) && NoAlias(path)
      modifies this`timestamps, this`attributes, paths
      ensures Valid()
      ensures SetLevel(old(Model()), path, timestamp, given) ==
        Level(Model(), time, normalized, flags, Elements(covered))
      ensures isNew == Fresh(old(Model()), path, time)
      ensures Change(Object) in flags ==> normalized.Some? && Object in normalized.value
    {
      hide SetLevel, Normalized, Elements;
      ghost var before := Model();
      LevelIsSound(before, path, timestamp, given);
      var _ := paths.Add(path);
      AddedIsSound(before, path);
      LevelInPaths(before, path, timestamp, given);
      var known := path in timestamps && timestamps[path] != 0 && path in attributes && !HasWildcard(path);
      if given.Some? && !HasWildcard(path) {
        hide Sound;
        normalized, covered := Some(Normalized(given.value)), [];
        NoElements<Devices.Clear>();
        time, isNew, flags := PutSomething(path, timestamp, normalized.value, known);
      } else {
        hide Sound;
        normalized, time := None, timestamp;
        isNew, flags, covered := PutNothing(path, timestamp, known);
      }
    }

    /** The clears for the parameters that a pattern covers. */
    method Covered(path: Path, timestamp: nat) returns (r: seq<Devices.Clear>)
      requires Valid() && WellFormed(path) && NoAlias(path)
      ensures Elements(r) == set p <- timestamps | p in paths.Contents() && FoundFrom(path, p, false, true, 0)
        && |p.segments| == |path.segments| && timestamp > timestamps[p] :: Devices.Clear(p, timestamp, None, {})
    {
      r := [];
      var found := paths.Find(path, false, true, |path.segments|);
      var i := 0;
      while i < |found.value|
        invariant i <= |found.value|
        invariant Elements(r) == set p <- found.value[..i] | p in timestamps && timestamp > timestamps[p] ::
          Devices.Clear(p, timestamp, None, {})
      {
        var p := found.value[i];
        assert found.value[..i + 1] == found.value[..i] + [p];
        if p in timestamps && timestamp > timestamps[p] {
          ElementsAppend(r, [Devices.Clear(p, timestamp, None, {})]);
          r := r + [Devices.Clear(p, timestamp, None, {})];
        }
        i := i + 1;
      }
      assert found.value[..i] == found.value;
    }

    /** The loop over the found paths: marks their trackers. */
    method MarkTrackers(found: seq<Path>, flags: set<Flag>)
      modifies this`changes
      ensures changes == old(changes) + MarkersOn(trackers, found, flags)
    {
      hide MarkersOn;
      NothingMarked(trackers, flags);
      var i := 0;
      assert found[..0] == [];
      while i < |found|
        invariant i <= |found| && changes == old(changes) + MarkersOn(trackers, found[..i], flags)
      {
        var p := found[i];
        assert found[..i + 1] == found[..i] + [p];
        MarkedMore(trackers, found[..i], p, flags);
        if p in trackers { MarkChanges(trackers[p], flags); }
        i := i + 1;
      }
      assert found[..i] == found;
    }

    /** Marks the trackers on the path and on the patterns for it. */
    method Notify(path: Path, flags: set<Flag>)
      requires Valid() && WellFormed(path) && NoAlias(path)
      modifies this`changes
      ensures changes == old(changes) + Watchers(old(Model()), path, false, |path.segments|, flags)
    {
      var found := paths.Find(path, true, false, |path.segments|);
      MarkedAll(Model(), path, found.value, flags);
      MarkTrackers(found.value, flags);
    }
  }

  /** All that can go is among the found paths. */
  lemma SweptAll(d: Data, c: Clear, found: seq<Path>, collected: map<string, set<Flag>>, flags: set<Flag>)
    requires IsListed(found, d.paths, c.path, true, true, ClearDepth(c)) && d.trackers.Keys <= d.paths
    requires (forall f :: f in flags <==> FlagAfter(d, c, found, f)) && Collected(d.trackers, found, collected)
    ensures TimesAfter(d, c, found) == Cleared(d, c).timestamps
    ensures AttributesAfter(d, c, found) == Cleared(d, c).attributes
    ensures flags == ClearFlags(d, c)
    ensures (set k <- collected | collected[k] * flags != {}) == Watchers(d, c.path, true, ClearDepth(c), flags)
  {
    forall p <- d.attributes | p !in found ensures Kept(d, c, p) == d.attributes[p] {}
    forall f ensures f in flags <==> f in ClearFlags(d, c) {}
    CollectedAll(d, c, found, collected, flags);
  }

  lemma CollectedAll(d: Data, c: Clear, found: seq<Path>, collected: map<string, set<Flag>>, flags: set<Flag>)
    requires IsListed(found, d.paths, c.path, true, true, ClearDepth(c)) && d.trackers.Keys <= d.paths
    requires Collected(d.trackers, found, collected)
    ensures (set k <- collected | collected[k] * flags != {}) == Watchers(d, c.path, true, ClearDepth(c), flags)
  {
    var marked := set k <- collected | collected[k] * flags != {};
    forall k ensures k in marked <==> k in Watchers(d, c.path, true, ClearDepth(c), flags) {
      if k in marked {
        var f :| f in collected[k] * flags;
        assert Has(collected, k, f);
        var w :| w in found && w in d.trackers && k in d.trackers[w] && f in d.trackers[w][k];
        assert f in d.trackers[w][k] * flags;
      }
      if k in Watchers(d, c.path, true, ClearDepth(c), flags) {
        var w :| w in d.trackers && k in d.trackers[w] && InRegion(d, c.path, true, ClearDepth(c), w)
          && d.trackers[w][k] * flags != {};
        var f :| f in d.trackers[w][k] * flags;
        assert w in found && Seen(d.trackers, found, k, f);
        assert Has(collected, k, f);
        assert f in collected[k] * flags;
      }
    }
  }
}
