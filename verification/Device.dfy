/** What `set` and `clear` of lib/device.ts do to the device data, seen at the current revision, and that
    no tracker misses a change. */
module Devices {
  import opened Options
  import opened Paths
  import opened PathSets

  datatype Attr = Object | Writable | Value | Notification | AccessList
  datatype Scalar = Text(text: string) | Number(number: int) | Boolean(truth: bool)
  datatype Content = Null | Plain(n: nat) | Typed(scalar: Scalar, kind: string) | Names(names: seq<string>)
  datatype Stamped = Stamped(time: nat, content: Content)
  type Attributes = map<Attr, Stamped>

  /** One bit of CHANGE_FLAGS: that a parameter exists, or one of its attributes. */
  datatype Flag = Existence | Change(attr: Attr)

  datatype Clear = Clear(path: Path, time: nat, attributes: Option<map<Attr, nat>>, flags: set<Flag>)

  datatype Data = Data(paths: set<Path>, timestamps: map<Path, nat>, attributes: map<Path, Attributes>,
                       trackers: map<Path, map<string, set<Flag>>>, changes: set<string>)

  predicate Truthy(c: Content) { c != Null && c != Plain(0) }

  predicate HasWildcard(p: Path) { WILDCARD in p.segments }

  // ---- Trackers ----

  /** `w` is `q` or a pattern for it. */
  predicate Covers(w: Path, q: Path) {
    |w.segments| == |q.segments| && forall i :: 0 <= i < |q.segments| ==>
      w.segments[i] == q.segments[i] || w.segments[i] == WILDCARD
  }

  ghost predicate Watches(d: Data, w: Path, k: string, f: Flag) {
    w in d.trackers && k in d.trackers[w] && f in d.trackers[w][k]
  }

  /** The markers on the paths that `find(path, true, subset, depth)` gives, for any of the flags. */
  ghost function Watchers(d: Data, path: Path, subset: bool, depth: nat, flags: set<Flag>): set<string> {
    set w <- d.trackers, k <- d.trackers[w] | InRegion(d, path, subset, depth, w) && d.trackers[w][k] * flags != {} :: k
  }

  ghost predicate InRegion(d: Data, path: Path, subset: bool, depth: nat, p: Path) {
    p in d.paths && FoundFrom(path, p, true, subset, 0) && |p.segments| <= depth
  }

  // ---- clear ----

  /** The time before which parameters below the path are dropped. */
  function DescendantsTime(c: Clear): nat {
    if c.attributes.Some? && Object in c.attributes.value && c.attributes.value[Object] > c.time then
      c.attributes.value[Object]
    else c.time
  }

  function ClearDepth(c: Clear): nat { if DescendantsTime(c) > 0 then 99 else |c.path.segments| }

  /** Clearing `object` clears `value` as well. */
  function ClearTimes(c: Clear): map<Attr, nat> {
    if c.attributes.None? then map[]
    else
      var m := c.attributes.value;
      if Object in m && m[Object] != 0 && !(Value in m && m[Object] <= m[Value]) then m[Value := m[Object]] else m
  }

  ghost predicate Cleans(d: Data, c: Clear, p: Path) {
    InRegion(d, c.path, true, ClearDepth(c), p) && p in d.timestamps
  }

  ghost predicate Gone(d: Data, c: Clear, p: Path) {
    Cleans(d, c, p) &&
    (c.time > d.timestamps[p] || (DescendantsTime(c) > d.timestamps[p] && |p.segments| > |c.path.segments|))
  }

  /** Attribute `a` of `p` is dropped while `p` stays. */
  ghost predicate Stale(d: Data, c: Clear, p: Path, a: Attr) {
    && Cleans(d, c, p) && !Gone(d, c, p) && |p.segments| == |c.path.segments| && p in d.attributes
    && a in d.attributes[p] && a in ClearTimes(c) && ClearTimes(c)[a] > d.attributes[p][a].time
  }

  ghost function ClearFlags(d: Data, c: Clear): set<Flag> {
    c.flags + (if exists p <- d.timestamps :: Gone(d, c, p) then {Existence} else {}) +
    set p <- d.attributes, a <- d.attributes[p] | Stale(d, c, p, a) :: Change(a)
  }

  ghost function Kept(d: Data, c: Clear, p: Path): Attributes
    requires p in d.attributes
  {
    map a <- d.attributes[p] | !Stale(d, c, p, a) :: d.attributes[p][a]
  }

  ghost function Cleared(d: Data, c: Clear): Data {
    Data(d.paths,
         map p <- d.timestamps | !Gone(d, c, p) :: d.timestamps[p],
         map p <- d.attributes | !Gone(d, c, p) :: Kept(d, c, p),
         d.trackers,
         d.changes + Watchers(d, c.path, true, ClearDepth(c), ClearFlags(d, c)))
  }

  // ---- set ----

  /** A value newer than `object` makes the parameter a leaf, and an object newer than the value has none. */
  function Normalized(m: Attributes): Attributes {
    var leaf :=
      if Value in m && Truthy(m[Value].content) && m[Value].time >= (if Object in m then m[Object].time else 0)
      then m[Object := Stamped(m[Value].time, Plain(0))] else m;
    if Object in leaf && Truthy(leaf[Object].content)
      && leaf[Object].time >= (if Value in leaf then leaf[Value].time else 0)
    then leaf[Value := Stamped(leaf[Object].time, Null)] else leaf
  }

  function Merged(current: Attributes, m: Attributes): Attributes {
    map a <- current.Keys + m.Keys :: if a in m && !(a in current && m[a].time <= current[a].time) then m[a]
      else current[a]
  }

  /** Attribute `a` of `m` is new or newer and different. */
  predicate Differs(current: Attributes, m: Attributes, a: Attr) {
    a in m && (a !in current || (m[a].time > current[a].time && m[a].content != current[a].content))
  }

  function MergeFlags(current: Attributes, m: Attributes): set<Flag> {
    set a <- m | Differs(current, m, a) :: Change(a)
  }

  function Later(time: nat, m: Attributes, a: Attr): nat { if a in m && m[a].time > time then m[a].time else time }

  function Latest(time: nat, m: Attributes): nat {
    Later(Later(Later(Later(Later(time, m, Object), m, Writable), m, Value), m, Notification), m, AccessList)
  }

  /** The attributes that a call merges with: none for a pattern, nor where the time is missing or zero. */
  function Current(d: Data, path: Path): Option<Attributes> {
    if !HasWildcard(path) && path in d.timestamps && d.timestamps[path] != 0 && path in d.attributes
    then Some(d.attributes[path]) else None
  }

  predicate Fresh(d: Data, path: Path, time: nat) { path !in d.timestamps || time > d.timestamps[path] }

  function Parent(p: Path): Path
    requires p.segments != []
  {
    Path(p.segments[..|p.segments| - 1])
  }

  /** One call without the call for the parent: the new data, the time it is stamped with, what changed,
      and the clears for the parameters that a pattern covers. */
  datatype Level = Level(data: Data, time: nat, given: Option<Attributes>, flags: set<Flag>, covered: set<Clear>)

  ghost function SetLevel(d: Data, path: Path, time: nat, attributes: Option<Attributes>): Level {
    var paths := d.paths + {path};
    var current := Current(d, path);
    if attributes.Some? && !HasWildcard(path) then
      var m := Normalized(attributes.value);
      var t := if current.Some? then Latest(time, m) else time;
      Level(Data(paths, if Fresh(d, path, t) then d.timestamps[path := t] else d.timestamps,
                 d.attributes[path := if current.Some? then Merged(current.value, m) else m], d.trackers, d.changes),
            t, Some(m), if current.Some? then MergeFlags(current.value, m) else {Existence}, {})
    else if !Fresh(d, path, time) then
      Level(Data(paths, d.timestamps, d.attributes, d.trackers, d.changes), time, None, {}, {})
    else
      var stamped := d.timestamps[path := time];
      if current.Some? then
        Level(Data(paths, stamped, d.attributes - {path}, d.trackers, d.changes), time, None, {Existence}, {})
      else
        var data := Data(paths, stamped, d.attributes, d.trackers, d.changes);
        Level(data, time, None, {},
              if !HasWildcard(path) then {}
              else
                set p <- stamped |
                  && p in paths && FoundFrom(path, p, false, true, 0)
                  && |p.segments| == |path.segments| && time > stamped[p]
                  :: Clear(p, time, None, {}))
  }

  predicate GoesUp(d: Data, path: Path, l: Level) {
    l.given.Some? && Fresh(d, path, l.time) && |path.segments| > 1
  }

  /** The clear that follows from what changed. */
  function Follows(path: Path, l: Level): Option<Clear> {
    if Existence in l.flags then Some(Clear(path, l.time, None, l.flags))
    else if Change(Object) in l.flags && l.given.Some? && Object in l.given.value then
      Some(Clear(path, 0, Some(map[Object := l.given.value[Object].time]), l.flags))
    else None
  }

  ghost function Notified(d: Data, path: Path, l: Level): Data {
    if Follows(path, l).Some? then d
    else Data(d.paths, d.timestamps, d.attributes, d.trackers,
              d.changes + Watchers(d, path, false, |path.segments|, l.flags))
  }

  ghost function AsObject(time: nat): Attributes { map[Object := Stamped(time, Plain(1))] }

  ghost function SetData(d: Data, path: Path, time: nat, attributes: Option<Attributes>): Data
    decreases |path.segments|
  {
    var l := SetLevel(d, path, time, attributes);
    Notified(if GoesUp(d, path, l) then SetData(l.data, Parent(path), l.time, Some(AsObject(l.time)))
      else l.data, path, l)
  }

  /** The clears that a call returns. */
  ghost function SetClears(d: Data, path: Path, time: nat, attributes: Option<Attributes>): set<Clear>
    decreases |path.segments|
  {
    var l := SetLevel(d, path, time, attributes);
    var own := if Follows(path, l).Some? then {Follows(path, l).value} else {};
    l.covered + own + if GoesUp(d, path, l) then SetClears(l.data, Parent(path), l.time, Some(AsObject(l.time))) else {}
  }

  // ---- No missed invalidation ----

  /** Tracked paths are known, and every tracker watches existence. */
  ghost predicate Sound(d: Data) {
    && d.attributes.Keys <= d.timestamps.Keys <= d.paths && d.trackers.Keys <= d.paths
    && forall w, k :: w in d.trackers && k in d.trackers[w] ==> Existence in d.trackers[w][k]
  }

  function ContentOf(d: Data, q: Path, a: Attr): Option<Content> {
    if q in d.attributes && a in d.attributes[q] then Some(d.attributes[q][a].content) else None
  }

  /** The existence of `q` changed, or the content of an attribute of a `q` that exists before and after. */
  predicate Changed(x: Data, y: Data, q: Path, f: Flag) {
    match f
    case Existence => (q in x.attributes) != (q in y.attributes)
    case Change(a) => q in x.attributes && q in y.attributes && ContentOf(x, q, a) != ContentOf(y, q, a)
  }

  ghost predicate Reported(x: Data, y: Data, marks: set<string>) {
    forall q, f, w, k :: Changed(x, y, q, f) && Covers(w, q) && Watches(x, w, k, f) ==> k in marks
  }

  lemma ReportedTwice(x: Data, y: Data, z: Data, marks: set<string>)
    requires Sound(x) && x.trackers == y.trackers && Reported(x, y, marks) && Reported(y, z, marks)
    ensures Reported(x, z, marks)
  {
    forall q, f, w, k | Changed(x, z, q, f) && Covers(w, q) && Watches(x, w, k, f) ensures k in marks {
      if f.Change? && q !in y.attributes {
        assert Changed(x, y, q, Existence) && Watches(x, w, k, Existence);
      } else {
        assert Changed(x, y, q, f) || Changed(y, z, q, f);
        assert Watches(y, w, k, f);
      }
    }
  }

  lemma ReportedSame(x: Data, y: Data, z: Data, marks: set<string>)
    requires y.attributes == z.attributes
    ensures Reported(y, z, marks) && (Reported(x, y, marks) ==> Reported(x, z, marks))
  {
    if Reported(x, y, marks) {
      forall q, f, w, k | Changed(x, z, q, f) && Covers(w, q) && Watches(x, w, k, f) ensures k in marks {
        assert Changed(x, y, q, f);
      }
    }
  }

  /** A pattern for a path that is found is found along with it. */
  lemma CoverIsFound(d: Data, path: Path, depth: nat, q: Path, w: Path)
    requires FoundFrom(path, q, true, true, 0) && |q.segments| <= depth && Covers(w, q) && w in d.paths
    ensures InRegion(d, path, true, depth, w)
  {
    hide Marked;
  }

  lemma CoverIsFoundUp(d: Data, path: Path, depth: nat, w: Path)
    requires Covers(w, path) && w in d.paths && |path.segments| <= depth && !HasWildcard(path)
    ensures InRegion(d, path, true, depth, w) && InRegion(d, path, false, depth, w)
  {
    forall k | 0 <= k < |path.segments| ensures !Marked(path, k) { NothingMarkedWithout(path, k); }
    hide Marked;
  }

  /** Without a wildcard nothing is marked, however long the path is. */
  lemma NothingMarkedWithout(path: Path, k: nat)
    requires !HasWildcard(path)
    ensures !Marked(path, k)
  {}

  /** After any clear, every tracker on a path or pattern for a parameter that went, or lost an attribute
      it watches, is marked. */
  lemma ClearMissesNothing(d: Data, c: Clear)
    requires Sound(d)
    ensures Sound(Cleared(d, c)) && Reported(d, Cleared(d, c), Cleared(d, c).changes)
    ensures Watchers(d, c.path, true, ClearDepth(c), c.flags) <= Cleared(d, c).changes
  {
    var e := Cleared(d, c);
    forall q, f, w, k | Changed(d, e, q, f) && Covers(w, q) && Watches(d, w, k, f) ensures k in e.changes {
      assert q in d.attributes;
      assert f == Existence ==> Gone(d, c, q);
      assert f.Change? ==> Stale(d, c, q, f.attr);
      assert f in ClearFlags(d, c);
      CoverIsFound(d, c.path, ClearDepth(c), q, w);
      assert f in d.trackers[w][k] * ClearFlags(d, c);
    }
  }

  ghost function ClearedAll(d: Data, cs: seq<Clear>): Data
    decreases |cs|
  {
    if cs == [] then d else ClearedAll(Cleared(d, cs[0]), cs[1..])
  }

  lemma {:induction false} ClearsMissNothing(d: Data, cs: seq<Clear>)
    requires Sound(d)
    ensures var e := ClearedAll(d, cs);
      Sound(e) && d.changes <= e.changes && Reported(d, e, e.changes) && e.trackers == d.trackers && e.paths == d.paths
    ensures forall c <- cs :: Watchers(d, c.path, true, ClearDepth(c), c.flags) <= ClearedAll(d, cs).changes
    decreases |cs|
  {
    if cs != [] {
      var e, last := Cleared(d, cs[0]), ClearedAll(d, cs);
      ClearMissesNothing(d, cs[0]);
      ClearsMissNothing(e, cs[1..]);
      ReportedTwice(d, e, last, last.changes);
      forall c <- cs ensures Watchers(d, c.path, true, ClearDepth(c), c.flags) <= last.changes {
        if c != cs[0] {
          assert c in cs[1..];
          assert Watchers(d, c.path, true, ClearDepth(c), c.flags) == Watchers(e, c.path, true, ClearDepth(c), c.flags);
        }
      }
    }
  }

  /** All the markers that the clears of a call will mark. */
  ghost predicate MarksAll(d: Data, cs: set<Clear>, marks: set<string>) {
    forall c <- cs :: Watchers(d, c.path, true, ClearDepth(c), c.flags) <= marks
  }

  /** A clear looks for paths of up to 99 segments. A pattern has no existence or attributes of its own
      that could change. */
  predicate Reachable(path: Path) { |path.segments| <= 99 || HasWildcard(path) }

  lemma LevelMissesNothing(d: Data, path: Path, time: nat, attributes: Option<Attributes>, marks: set<string>)
    requires Sound(d) && Reachable(path)
    requires var l := SetLevel(d, path, time, attributes);
      && (Follows(path, l).Some? ==> Watchers(l.data, path, true, ClearDepth(Follows(path, l).value), l.flags) <= marks)
      && (Follows(path, l).None? ==> Watchers(l.data, path, false, |path.segments|, l.flags) <= marks)
    ensures var l := SetLevel(d, path, time, attributes); Sound(l.data) && Reported(d, l.data, marks)
  {
    hide FoundFrom, SetLevel;
    LevelIsSound(d, path, time, attributes);
    var l := SetLevel(d, path, time, attributes);
    var e := l.data;
    forall q, f, w, k | Changed(d, e, q, f) && Covers(w, q) && Watches(d, w, k, f) ensures k in marks {
      LevelFlagsChanges(d, path, time, attributes, q, f);
      var g := if Existence in l.flags then Existence else f;
      assert g in l.flags && g in e.trackers[w][k];
      assert g in e.trackers[w][k] * l.flags;
      CoverIsFoundUp(e, path, |path.segments|, w);
      CoverIsFoundUp(e, path, 99, w);
    }
  }

  /** What one call changes is flagged. */
  lemma LevelFlagsChanges(d: Data, path: Path, time: nat, attributes: Option<Attributes>, q: Path, f: Flag)
    requires Sound(d) && Changed(d, SetLevel(d, path, time, attributes).data, q, f)
    ensures q == path && !HasWildcard(path)
    ensures var l := SetLevel(d, path, time, attributes); Existence in l.flags || f in l.flags
  {
    hide FoundFrom, Normalized, Latest;
  }

  lemma PatternGivesNothing(d: Data, path: Path, time: nat, attributes: Option<Attributes>)
    ensures HasWildcard(path) ==> SetLevel(d, path, time, attributes).given.None?
  {}

  lemma SameWatchers(d: Data, e: Data, path: Path, subset: bool, depth: nat, flags: set<Flag>)
    requires d.trackers == e.trackers && d.trackers.Keys <= d.paths && e.trackers.Keys <= e.paths
    ensures Watchers(d, path, subset, depth, flags) == Watchers(e, path, subset, depth, flags)
  {}

  lemma SameMarks(d: Data, e: Data, cs: set<Clear>, marks: set<string>)
    requires d.trackers == e.trackers && d.trackers.Keys <= d.paths && e.trackers.Keys <= e.paths
    ensures MarksAll(d, cs, marks) <==> MarksAll(e, cs, marks)
  {
    forall c <- cs
      ensures Watchers(d, c.path, true, ClearDepth(c), c.flags) == Watchers(e, c.path, true, ClearDepth(c), c.flags)
    {
      SameWatchers(d, e, c.path, true, ClearDepth(c), c.flags);
    }
  }

  /** After a set, every tracker that watches something that changed, in the parameter or in those above
      it, is marked already or will be by a returned clear. */
  lemma {:induction false} SetMissesNothing(d: Data, path: Path, time: nat, attributes: Option<Attributes>,
      marks: set<string>)
    requires Sound(d) && Reachable(path)
    requires SetData(d, path, time, attributes).changes <= marks
    requires MarksAll(d, SetClears(d, path, time, attributes), marks)
    ensures var e := SetData(d, path, time, attributes); Sound(e) && e.trackers == d.trackers && Reported(d, e, marks)
    decreases |path.segments|
  {
    hide SetLevel, Watchers, Reported;
    var l := SetLevel(d, path, time, attributes);
    var asObject := Some(AsObject(l.time));
    var up := if GoesUp(d, path, l) then SetData(l.data, Parent(path), l.time, asObject) else l.data;
    var clears := SetClears(d, path, time, attributes);
    LevelIsSound(d, path, time, attributes);
    SameMarks(d, l.data, clears, marks);
    if GoesUp(d, path, l) {
      PatternGivesNothing(d, path, time, attributes);
      assert MarksAll(l.data, SetClears(l.data, Parent(path), l.time, asObject), marks);
      SetMissesNothing(l.data, Parent(path), l.time, asObject, marks);
    }
    SameWatchers(l.data, up, path, false, |path.segments|, l.flags);
    if Follows(path, l).Some? { assert Follows(path, l).value in clears; }
    LevelMissesNothing(d, path, time, attributes, marks);
    if GoesUp(d, path, l) { ReportedTwice(d, l.data, up, marks); }
    ReportedSame(d, up, SetData(d, path, time, attributes), marks);
  }

  lemma LevelIsSound(d: Data, path: Path, time: nat, attributes: Option<Attributes>)
    requires Sound(d)
    ensures Sound(SetLevel(d, path, time, attributes).data)
      && SetLevel(d, path, time, attributes).data.trackers == d.trackers
  {}

  /** What is to be said after a set and some clears. */
  ghost predicate AllReported(d: Data, path: Path, time: nat, attributes: Option<Attributes>, cs: seq<Clear>) {
    var e := ClearedAll(SetData(d, path, time, attributes), cs);
    Sound(e) && Reported(d, e, e.changes)
  }

  ghost predicate AllDone(d: Data, path: Path, time: nat, attributes: Option<Attributes>, cs: seq<Clear>) {
    SetClears(d, path, time, attributes) <= set c <- cs
  }

  /** Trackers never miss a change: after a set and all the clears that it returns, in any order, a
      tracker on a parameter whose existence or content changed, or on a pattern for it, is marked. */
  lemma ChangesAreReported(d: Data, path: Path, time: nat, attributes: Option<Attributes>, cs: seq<Clear>)
    requires Sound(d) && Reachable(path) && AllDone(d, path, time, attributes, cs)
    ensures AllReported(d, path, time, attributes, cs)
  {
    SetIsSound(d, path, time, attributes);
    var after := SetData(d, path, time, attributes);
    var e := ClearedAll(after, cs);
    ClearsMissNothing(after, cs);
    SameMarks(d, after, SetClears(d, path, time, attributes), e.changes);
    SetMissesNothing(d, path, time, attributes, e.changes);
    ReportedTwice(d, after, e, e.changes);
  }

  /** That holds for a path, whatever is set and cleared, if and only if a clear can reach it: from the
      hundredth segment on, the clear that a set returns finds nothing, not even the path itself. */
  lemma NoMissedInvalidation(path: Path)
    ensures Reachable(path) <==>
      forall d, time, attributes, cs | Sound(d) && AllDone(d, path, time, attributes, cs) ::
        AllReported(d, path, time, attributes, cs)
  {
    hide Sound, AllDone, AllReported;
    if Reachable(path) {
      forall d, time, attributes, cs | Sound(d) && AllDone(d, path, time, attributes, cs)
        ensures AllReported(d, path, time, attributes, cs)
      {
        ChangesAreReported(d, path, time, attributes, cs);
      }
    } else {
      LongPathIsMissed(path);
    }
  }

  /** A parameter without attributes that is watched, and is removed. */
  function Watched(path: Path): Data {
    Data({path}, map[path := 1], map[path := map[]], map[path := map["k" := {Existence}]], {})
  }

  lemma LongPathIsMissed(path: Path)
    requires !Reachable(path)
    ensures var d, c := Watched(path), Clear(path, 2, None, {Existence});
      Sound(d) && AllDone(d, path, 2, None, [c]) && !AllReported(d, path, 2, None, [c])
  {
    var d, c := Watched(path), Clear(path, 2, None, {Existence});
    var after := SetData(d, path, 2, None);
    assert after.attributes == map[] && after.changes == {} && after.trackers == d.trackers;
    assert SetClears(d, path, 2, None) == {c} && c in [c];
    var e := ClearedAll(after, [c]);
    assert [c][1..] == [] && ClearedAll(Cleared(after, c), []) == Cleared(after, c);
    assert e == Cleared(after, c);
    assert forall w :: !InRegion(after, path, true, 99, w);
    assert e.changes == {};
    assert Changed(d, e, path, Existence) && Covers(path, path) && Watches(d, path, "k", Existence);
  }

  lemma {:induction false} SetIsSound(d: Data, path: Path, time: nat, attributes: Option<Attributes>)
    requires Sound(d)
    ensures Sound(SetData(d, path, time, attributes)) && SetData(d, path, time, attributes).trackers == d.trackers
    decreases |path.segments|
  {
    LevelIsSound(d, path, time, attributes);
    var l := SetLevel(d, path, time, attributes);
    if GoesUp(d, path, l) { SetIsSound(l.data, Parent(path), l.time, Some(AsObject(l.time))); }
  }
}
