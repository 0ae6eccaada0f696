/** Which clears `set` of lib/device.ts returns and which trackers it marks at once: exactly those that what
    it changed asks for. */
module DeviceMarks {
  import opened Options
  import opened Paths
  import opened PathSets
  import opened Devices
  import opened DeviceMerges

  /** The attributes of `p` that read differently. */
  function ChangedAt(d: Data, e: Data, p: Path): set<Flag> {
    set a: Attr | a in {Object, Writable, Value, Notification, AccessList} && ContentOf(d, p, a) != ContentOf(e, p, a)
      :: Change(a)
  }

  /** The clear that a written parameter asks for: one for everything below it if it was not known, or the
      values below if it became or ceased to be an object. */
  function Announced(d: Data, e: Data, p: Path, t: nat): Option<Clear> {
    if !Known(d, p) then Some(Clear(p, t, None, {Existence}))
    else if ContentOf(d, p, Object) != ContentOf(e, p, Object) && p in e.attributes && Object in e.attributes[p] then
      Some(Clear(p, 0, Some(map[Object := e.attributes[p][Object].time]), ChangedAt(d, e, p)))
    else None
  }

  /** The path of `n` segments is written: the path itself, or one above it that becomes an object. */
  ghost predicate Wrote(d: Data, e: Data, path: Path, n: nat)
    requires 0 < n <= |path.segments| && path in e.timestamps
  {
    n == |path.segments| || AllOlder(d, path, n, e.timestamps[path])
  }

  /** The clear for the path of `n` segments, after a set at `time`. */
  ghost function AnnouncedFor(d: Data, e: Data, path: Path, time: nat, n: nat): Option<Clear>
    requires 0 < n <= |path.segments| && path in e.timestamps
  {
    if Wrote(d, e, path, n) then
      Announced(d, e, Prefix(path, n), if n == |path.segments| then time else e.timestamps[path])
    else None
  }

  lemma LevelTells(d: Data, path: Path, time: nat, given: Attributes)
    requires !HasWildcard(path)
    ensures var l := SetLevel(d, path, time, Some(given));
      && l.covered == {} && Follows(path, l) == Announced(d, l.data, path, time)
      && (Follows(path, l).None? ==> l.flags == ChangedAt(d, l.data, path))
  {
    var l := SetLevel(d, path, time, Some(given));
    hide Normalized, Latest;
    if Known(d, path) {
      forall f ensures f in l.flags <==> f in ChangedAt(d, l.data, path) {
        if f.Change? { AttrListed(f.attr); }
      }
      assert l.flags == ChangedAt(d, l.data, path) && Existence !in l.flags;
      var m := Normalized(given);
      assert Change(Object) in l.flags <==> Differs(d.attributes[path], m, Object);
      assert Differs(d.attributes[path], m, Object) ==> Merged(d.attributes[path], m)[Object] == m[Object];
    }
  }

  lemma AttrListed(a: Attr)
    ensures a in {Object, Writable, Value, Notification, AccessList}
  {}

  /** The call for the parent writes the same paths above, at the same time. */
  lemma UpWritesAlike(d: Data, path: Path, time: nat, given: Attributes, n: nat)
    requires !HasWildcard(path) && 0 < n < |path.segments| && GoesUp(d, path, SetLevel(d, path, time, Some(given)))
    ensures var l, e, parent := SetLevel(d, path, time, Some(given)), SetData(d, path, time, Some(given)), Parent(path);
      var f := SetData(l.data, parent, l.time, Some(AsObject(l.time)));
      && path in e.timestamps && parent in f.timestamps && l.time == e.timestamps[path]
      && (Wrote(d, e, path, n) <==> Wrote(l.data, f, parent, n))
      && (n < |parent.segments| && Wrote(d, e, path, n) ==> f.timestamps[parent] == l.time)
  {
    hide SetLevel, Watchers, Older, MadeObject, AllOlder, Untouched, Prefix;
    var l, e, parent := SetLevel(d, path, time, Some(given)), SetData(d, path, time, Some(given)), Parent(path);
    LevelStays(d, path, time, Some(given));
    LevelTime(d, path, time, given);
    var t := e.timestamps[path];
    var f := SetData(l.data, parent, t, Some(AsObject(t)));
    OnlyPath(d, path, time, Some(given));
    OneOlder(d, path, n, t);
    NoWildcardAbove(path);
    ObjectIsSet(l.data, parent, t);
    ObjectHasTime(l.data, f, parent, t);
    if n < |parent.segments| {
      forall k | n <= k <= |parent.segments| ensures Untouched(d, l.data, Prefix(parent, k)) {
        PrefixSegments(parent, k);
      }
      SameOlder(d, l.data, parent, n, t);
      TimeOfParent(l.data, f, parent, n, t);
    } else {
      NoneOlder(d, parent, t);
    }
  }

  lemma ObjectHasTime(d: Data, e: Data, p: Path, t: nat)
    requires MadeObject(d, e, p, t)
    ensures p in e.timestamps
  {}

  lemma UpAnnouncesAlike(d: Data, path: Path, time: nat, given: Attributes, n: nat)
    requires !HasWildcard(path) && 0 < n < |path.segments| && GoesUp(d, path, SetLevel(d, path, time, Some(given)))
    ensures var l, e, parent := SetLevel(d, path, time, Some(given)), SetData(d, path, time, Some(given)), Parent(path);
      var f := SetData(l.data, parent, l.time, Some(AsObject(l.time)));
      && path in e.timestamps && parent in f.timestamps
      && AnnouncedFor(d, e, path, time, n) == AnnouncedFor(l.data, f, parent, l.time, n)
      && ChangedAt(d, e, Prefix(path, n)) == ChangedAt(l.data, f, Prefix(parent, n))
  {
    hide SetLevel, Watchers, Wrote, ChangedAt;
    var l, e, parent := SetLevel(d, path, time, Some(given)), SetData(d, path, time, Some(given)), Parent(path);
    var f := SetData(l.data, parent, l.time, Some(AsObject(l.time)));
    UpWritesAlike(d, path, time, given, n);
    ParentPrefix(path, n);
    PrefixSegments(path, n);
    OnlyPath(d, path, time, Some(given));
    AnnouncedAlike(d, l.data, e, f, Prefix(path, n), l.time);
  }

  lemma AnnouncedAlike(d: Data, e: Data, x: Data, y: Data, p: Path, t: nat)
    requires Untouched(d, e, p) && x.attributes == y.attributes
    ensures Announced(d, x, p, t) == Announced(e, y, p, t) && ChangedAt(d, x, p) == ChangedAt(e, y, p)
  {
    assert ChangedAt(d, x, p) == ChangedAt(e, y, p);
  }

  lemma AnnouncedSame(d: Data, x: Data, y: Data, p: Path, t: nat)
    requires (p in x.attributes <==> p in y.attributes) && (p in x.attributes ==> x.attributes[p] == y.attributes[p])
    ensures Announced(d, x, p, t) == Announced(d, y, p, t) && ChangedAt(d, x, p) == ChangedAt(d, y, p)
  {
    assert ChangedAt(d, x, p) == ChangedAt(d, y, p);
  }

  /** What the path itself asks for is settled by its own level. */
  lemma OwnAnnounced(d: Data, path: Path, time: nat, given: Attributes)
    requires !HasWildcard(path) && path.segments != []
    ensures var l, e := SetLevel(d, path, time, Some(given)), SetData(d, path, time, Some(given));
      && path in e.timestamps && Follows(path, l) == AnnouncedFor(d, e, path, time, |path.segments|)
      && (Follows(path, l).None? ==> l.flags == ChangedAt(d, e, path))
  {
    hide SetLevel, SetData, Known, ChangedAt, Announced, Follows;
    LevelTells(d, path, time, given);
    LevelStays(d, path, time, Some(given));
    LevelTime(d, path, time, given);
    assert Prefix(path, |path.segments|) == path;
    AnnouncedSame(d, SetLevel(d, path, time, Some(given)).data, SetData(d, path, time, Some(given)), path, time);
  }

  /** The returned clears are exactly those announced for the path and for the objects made above it. */
  lemma {:induction false} SetReturnsExactly(d: Data, path: Path, time: nat, given: Attributes, c: Clear)
    requires !HasWildcard(path) && path.segments != []
    ensures var e := SetData(d, path, time, Some(given));
      path in e.timestamps &&
      (c in SetClears(d, path, time, Some(given)) <==>
       exists n :: 0 < n <= |path.segments| && AnnouncedFor(d, e, path, time, n) == Some(c))
    decreases |path.segments|
  {
    hide SetLevel, SetData, AnnouncedFor, Follows;
    OwnAnnounced(d, path, time, given);
    LevelTells(d, path, time, given);
    var l, e, parent := SetLevel(d, path, time, Some(given)), SetData(d, path, time, Some(given)), Parent(path);
    if GoesUp(d, path, l) {
      NoWildcardAbove(path);
      SetReturnsExactly(l.data, parent, l.time, AsObject(l.time), c);
      forall n | 0 < n < |path.segments|
        ensures AnnouncedFor(d, e, path, time, n) ==
          AnnouncedFor(l.data, SetData(l.data, parent, l.time, Some(AsObject(l.time))), parent, l.time, n)
      {
        UpAnnouncesAlike(d, path, time, given, n);
      }
    } else {
      forall n | 0 < n < |path.segments| ensures AnnouncedFor(d, e, path, time, n).None? {
        NothingAbove(d, path, time, given, n);
      }
    }
  }

  lemma NothingAbove(d: Data, path: Path, time: nat, given: Attributes, n: nat)
    requires !HasWildcard(path) && 0 < n < |path.segments| && !GoesUp(d, path, SetLevel(d, path, time, Some(given)))
    ensures var e := SetData(d, path, time, Some(given));
      path in e.timestamps && AnnouncedFor(d, e, path, time, n).None? && !Wrote(d, e, path, n)
  {
    LevelStays(d, path, time, Some(given));
    LevelTime(d, path, time, given);
    hide SetLevel, SetData, Older, AllOlder;
    OneOlder(d, path, n, SetData(d, path, time, Some(given)).timestamps[path]);
  }

  /** A tracker `k` on the path of `n` segments, or on a pattern for it, watches something that now reads
      differently there, and no clear will tell. */
  ghost predicate ToldAt(d: Data, e: Data, path: Path, time: nat, n: nat, k: string)
    requires 0 < n <= |path.segments| && path in e.timestamps
  {
    && Wrote(d, e, path, n) && AnnouncedFor(d, e, path, time, n).None?
    && WatchedAt(d, Prefix(path, n), ChangedAt(d, e, Prefix(path, n)), k)
  }

  ghost predicate WatchedAt(d: Data, p: Path, flags: set<Flag>, k: string) {
    exists w, f :: Covers(w, p) && Watches(d, w, k, f) && f in flags
  }

  lemma NotifiedTells(d: Data, path: Path, l: Level, k: string)
    requires !HasWildcard(path) && d.trackers.Keys <= d.paths
    ensures k in Notified(d, path, l).changes <==>
      k in d.changes || (Follows(path, l).None? && WatchedAt(d, path, l.flags, k))
  {
    hide Follows;
    forall w: Path ensures InRegion(d, path, false, |path.segments|, w) <==> w in d.paths && Covers(w, path) {
      forall i | 0 <= i < |path.segments| ensures !Marked(path, i) { NothingMarkedWithout(path, i); }
      hide Marked;
      if w in d.paths && Covers(w, path) { CoverIsFoundUp(d, path, |path.segments|, w); }
    }
    hide InRegion;
    if k in Watchers(d, path, false, |path.segments|, l.flags) {
      var w :| w in d.trackers && k in d.trackers[w] && InRegion(d, path, false, |path.segments|, w)
        && d.trackers[w][k] * l.flags != {};
      var f :| f in d.trackers[w][k] * l.flags;
      assert Watches(d, w, k, f);
    }
    if w, f :| Covers(w, path) && Watches(d, w, k, f) && f in l.flags {
      assert f in d.trackers[w][k] * l.flags;
    }
  }

  lemma SameTrackers(d: Data, e: Data, p: Path, flags: set<Flag>, k: string)
    requires d.trackers == e.trackers
    ensures WatchedAt(d, p, flags, k) <==> WatchedAt(e, p, flags, k)
  {
    assert forall w, f :: Watches(d, w, k, f) <==> Watches(e, w, k, f);
  }

  /** Exactly those trackers are marked at once that the path, or an object made above it, asks for. */
  lemma {:induction false} SetMarksExactly(d: Data, path: Path, time: nat, given: Attributes, k: string)
    requires Sound(d) && !HasWildcard(path) && path.segments != []
    ensures var e := SetData(d, path, time, Some(given));
      path in e.timestamps &&
      (k in e.changes <==> k in d.changes || exists n :: 0 < n <= |path.segments| && ToldAt(d, e, path, time, n, k))
    decreases |path.segments|
  {
    hide SetLevel, AnnouncedFor, Follows, Watchers, Notified, Wrote, ChangedAt, WatchedAt, Sound;
    OwnAnnounced(d, path, time, given);
    LevelIsSound(d, path, time, Some(given));
    LevelKeepsMarks(d, path, time, given);
    var l, e, parent := SetLevel(d, path, time, Some(given)), SetData(d, path, time, Some(given)), Parent(path);
    var up := if GoesUp(d, path, l) then SetData(l.data, parent, l.time, Some(AsObject(l.time))) else l.data;
    UpIsSound(d, path, time, given);
    NotifiedTells(up, path, l, k);
    SameTrackers(d, up, path, l.flags, k);
    WroteItself(d, e, path);
    assert Follows(path, l).None? && WatchedAt(d, path, l.flags, k) <==> ToldAt(d, e, path, time, |path.segments|, k);
    if GoesUp(d, path, l) {
      NoWildcardAbove(path);
      SetMarksExactly(l.data, parent, l.time, AsObject(l.time), k);
      forall n | 0 < n < |path.segments|
        ensures parent in up.timestamps
          && (ToldAt(d, e, path, time, n, k) <==> ToldAt(l.data, up, parent, l.time, n, k))
      {
        UpWritesAlike(d, path, time, given, n);
        UpAnnouncesAlike(d, path, time, given, n);
        ParentPrefix(path, n);
        SameTrackers(d, l.data, Prefix(path, n), ChangedAt(d, e, Prefix(path, n)), k);
      }
    } else {
      forall n | 0 < n < |path.segments| ensures !ToldAt(d, e, path, time, n, k) {
        NothingAbove(d, path, time, given, n);
      }
    }
  }

  lemma WroteItself(d: Data, e: Data, path: Path)
    requires path.segments != [] && path in e.timestamps
    ensures Wrote(d, e, path, |path.segments|) && Prefix(path, |path.segments|) == path
  {}

  lemma LevelKeepsMarks(d: Data, path: Path, time: nat, given: Attributes)
    ensures SetLevel(d, path, time, Some(given)).data.changes == d.changes
  {}

  lemma UpIsSound(d: Data, path: Path, time: nat, given: Attributes)
    requires Sound(d)
    ensures var l := SetLevel(d, path, time, Some(given));
      var up := if GoesUp(d, path, l) then SetData(l.data, Parent(path), l.time, Some(AsObject(l.time))) else l.data;
      && up.trackers == d.trackers && up.trackers.Keys <= up.paths
      && SetData(d, path, time, Some(given)) == Notified(up, path, l)
  {
    hide SetLevel, Notified;
    LevelIsSound(d, path, time, Some(given));
    var l := SetLevel(d, path, time, Some(given));
    if GoesUp(d, path, l) { SetIsSound(l.data, Parent(path), l.time, Some(AsObject(l.time))); }
  }

  /** A call that gives nothing, or is for a pattern, marks nothing. It returns one clear for a parameter that
      it removes, and for a pattern that it makes newer one for each older parameter that the pattern finds. */
  lemma NothingGivenReturns(d: Data, path: Path, time: nat, attributes: Option<Attributes>)
    requires attributes.None? || HasWildcard(path)
    ensures SetData(d, path, time, attributes).changes == d.changes
    ensures SetClears(d, path, time, attributes) ==
      if !Older(d, path, time) then {}
      else if HasWildcard(path) then
        set p <- d.timestamps | p != path && p in d.paths && d.timestamps[p] < time
          && FoundFrom(path, p, false, true, 0) && |p.segments| == |path.segments| :: Clear(p, time, None, {})
      else if Known(d, path) then {Clear(path, time, None, {Existence})}
      else {}
  {
    hide FoundFrom;
    assert Watchers(SetLevel(d, path, time, attributes).data, path, false, |path.segments|, {}) == {};
    if HasWildcard(path) && Older(d, path, time) {
      assert SetLevel(d, path, time, attributes).covered ==
        set p <- d.timestamps | p != path && p in d.paths && d.timestamps[p] < time
          && FoundFrom(path, p, false, true, 0) && |p.segments| == |path.segments| :: Clear(p, time, None, {});
    }
  }
}
