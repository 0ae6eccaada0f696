/** What is left after `clear` of lib/device.ts, and what it marks, said of the arguments of the call. */
module DeviceClears {
  import opened Options
  import opened Paths
  import opened PathSets
  import opened Devices

  /** The time given for an attribute, zero if there is none. */
  function TimeFor(c: Clear, a: Attr): nat {
    if c.attributes.Some? && a in c.attributes.value then c.attributes.value[a] else 0
  }

  /** The path finds `p`, at any depth. */
  predicate Finds(c: Clear, p: Path) { FoundFrom(c.path, p, true, true, 0) }

  /** A parameter goes that is found, has at most 99 segments, and is older than the time of the clear or, if
      it is below the path, than the time for `object`. */
  ghost predicate Outdated(c: Clear, p: Path, time: nat) {
    && Finds(c, p) && |p.segments| <= 99
    && (time < c.time || (|p.segments| > |c.path.segments| && time < TimeFor(c, Object)))
  }

  lemma ClearRemovesExactly(d: Data, c: Clear, p: Path)
    requires Sound(d) && p in d.timestamps
    ensures var e := Cleared(d, c);
      && (p in e.timestamps <==> !Outdated(c, p, d.timestamps[p]))
      && (p in e.timestamps ==> e.timestamps[p] == d.timestamps[p])
      && (p in e.attributes <==> p in d.attributes && p in e.timestamps)
  {
    hide FoundFrom;
  }

  /** Whether the clear looks at parameters of `n` segments: up to the length of its path, or of 99 if some
      time makes it look below. */
  predicate Deep(c: Clear, n: nat) {
    n <= if c.time > 0 || TimeFor(c, Object) > 0 then 99 else |c.path.segments|
  }

  lemma DeepExactly(c: Clear, n: nat)
    ensures n <= ClearDepth(c) <==> Deep(c, n)
  {}

  /** An attribute of what stays goes if the parameter is as long as the path and found, and the stamp is older
      than the time for that attribute or, for the value, older than a time for `object`. */
  lemma ClearDropsExactly(d: Data, c: Clear, p: Path, a: Attr)
    requires Sound(d) && p in d.attributes && p in Cleared(d, c).attributes
    ensures var kept, stamps := Cleared(d, c).attributes[p], d.attributes[p];
      && (a in kept <==>
        a in stamps &&
        !(Finds(c, p) && |p.segments| == |c.path.segments| && Deep(c, |p.segments|) &&
          (stamps[a].time < TimeFor(c, a) || (a == Value && stamps[a].time < TimeFor(c, Object)))))
      && (a in kept ==> kept[a] == stamps[a])
  {
    hide FoundFrom;
    DeepExactly(c, |p.segments|);
    assert p in d.timestamps && p in d.paths;
    if a in d.attributes[p] { ValueTime(c, a, d.attributes[p][a].time); }
  }

  lemma ValueTime(c: Clear, a: Attr, t: nat)
    ensures a in ClearTimes(c) && ClearTimes(c)[a] > t <==>
      t < TimeFor(c, a) || (a == Value && t < TimeFor(c, Object))
  {}

  /** Something of `f` went: a parameter, or one attribute of a parameter that stays. */
  ghost predicate Went(d: Data, e: Data, f: Flag) {
    match f
    case Existence => exists p <- d.timestamps :: p !in e.timestamps
    case Change(a) =>
      exists p <- d.attributes :: p in e.attributes && a in d.attributes[p] && a !in e.attributes[p]
  }

  /** Exactly those trackers are marked that are within reach of the clear and watch one of its flags or
      something of which anything went. */
  lemma ClearMarksExactly(d: Data, c: Clear, k: string)
    requires Sound(d)
    ensures var e := Cleared(d, c);
      k in e.changes <==>
        || k in d.changes
        || exists w, f :: Watches(d, w, k, f) && Finds(c, w) && Deep(c, |w.segments|) && (f in c.flags || Went(d, e, f))
  {
    hide FoundFrom, Deep;
    var e, flags := Cleared(d, c), ClearFlags(d, c);
    forall f ensures f in flags <==> f in c.flags || Went(d, e, f) { FlagsTell(d, c, f); }
    hide Went, ClearFlags;
    forall w: Path ensures |w.segments| <= ClearDepth(c) <==> Deep(c, |w.segments|) { DeepExactly(c, |w.segments|); }
    hide ClearDepth;
    var marked := Watchers(d, c.path, true, ClearDepth(c), flags);
    if k in marked {
      var w :| w in d.trackers && k in d.trackers[w] && InRegion(d, c.path, true, ClearDepth(c), w)
        && d.trackers[w][k] * flags != {};
      var f :| f in d.trackers[w][k] * flags;
      assert Watches(d, w, k, f);
    }
    if w, f :| Watches(d, w, k, f) && Finds(c, w) && Deep(c, |w.segments|) && (f in c.flags || Went(d, e, f)) {
      assert f in d.trackers[w][k] * flags;
      assert InRegion(d, c.path, true, ClearDepth(c), w);
    }
  }

  lemma FlagsTell(d: Data, c: Clear, f: Flag)
    requires Sound(d)
    ensures f in ClearFlags(d, c) <==> f in c.flags || Went(d, Cleared(d, c), f)
  {
    hide InRegion;
    var e := Cleared(d, c);
    if f.Change? {
      forall p <- d.attributes
        ensures Stale(d, c, p, f.attr) <==> p in e.attributes && f.attr in d.attributes[p] && f.attr !in e.attributes[p]
      {}
    }
  }

  /** What is left after any list of clears is what each of them would leave, in whatever order they come;
      and it keeps its time. */
  lemma {:induction false} ClearsLeaveWhatAllSpare(d: Data, cs: seq<Clear>, p: Path)
    requires Sound(d)
    ensures var e := ClearedAll(d, cs);
      && (p in e.timestamps <==> p in d.timestamps && forall c <- cs :: !Outdated(c, p, d.timestamps[p]))
      && (p in e.timestamps ==> e.timestamps[p] == d.timestamps[p])
      && (p in e.attributes <==> p in d.attributes && p in e.timestamps)
    decreases |cs|
  {
    if cs != [] {
      hide Cleared, Outdated;
      var e := Cleared(d, cs[0]);
      ClearMissesNothing(d, cs[0]);
      ClearsLeaveWhatAllSpare(e, cs[1..], p);
      NothingAppears(d, cs[0], p);
      if p in d.timestamps { ClearRemovesExactly(d, cs[0], p); }
      assert forall c <- cs :: c == cs[0] || c in cs[1..];
    }
  }

  lemma NothingAppears(d: Data, c: Clear, p: Path)
    requires Sound(d)
    ensures p in Cleared(d, c).timestamps ==> p in d.timestamps
    ensures p in Cleared(d, c).attributes ==> p in d.attributes && p in d.timestamps
  {}
}
