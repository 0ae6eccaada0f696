/** A map that keeps the history of every key (lib/versioned-map.ts).

    `Store` is the value that an object of class `VersionedMap` holds; the functions on it say
    what each method does to that value, and the lemmas say what this means for readers. */
module VersionedMaps {
  import opened Options
  import opened Word32

  /** What one key holds in one revision: the marker NONEXISTENT, or a value. */
  datatype Cell<+V> = Nonexistent | Present(value: V)

  /** The revisions of one key. Reading past the end reads the last one. */
  type History<V> = h: seq<Cell<V>> | |h| > 0 witness [Nonexistent]

  datatype Store<K, V> = Store(entries: map<K, History<V>>, sizeDiff: seq<int>, revision: nat, dirty: Word) {
    /** No history is longer than the revisions that the setter has announced. */
    ghost predicate Bounded() { |sizeDiff| > 0 && forall k <- entries :: |entries[k]| <= |sizeDiff| }

    /** Ready for a write at the current revision. */
    ghost predicate Valid() { revision < |sizeDiff| && Bounded() }
  }

  function Min(a: int, b: int): int { if a < b then a else b }

  function CellAt<V>(h: History<V>, rev: nat): Cell<V> { h[Min(|h| - 1, rev)] }

  function Newest<V>(h: History<V>): Cell<V> { h[|h| - 1] }

  function Uncell<V>(c: Cell<V>): Option<V> {
    match c
    case Nonexistent => None
    case Present(v) => Some(v)
  }

  /** What `get(key, rev)` answers; `None` is the source's `undefined`. */
  ghost function At<K, V>(s: Store<K, V>, key: K, rev: nat): Option<V> {
    if key in s.entries then Uncell(CellAt(s.entries[key], rev)) else None
  }

  /** What every reader of the newest state sees. */
  ghost function Latest<K, V>(s: Store<K, V>, key: K): Option<V> {
    if key in s.entries then Uncell(Newest(s.entries[key])) else None
  }

  // ---- The effect of the operations ----

  function Repeat<T>(x: T, n: nat): seq<T> { seq(n, i => x) }

  function Empty<K, V>(): Store<K, V> { Store(map[], [0], 0, ZERO) }

  /** `sizeDiff` extended to `n` elements by repeating its last one. */
  function Extended(sizeDiff: seq<int>, n: nat): seq<int>
    requires |sizeDiff| > 0
  {
    if |sizeDiff| >= n then sizeDiff else sizeDiff + Repeat(sizeDiff[|sizeDiff| - 1], n - |sizeDiff|)
  }

  /** `sizeDiff` with the elements below `rev` decremented: a key created at `rev` is not there before. */
  function Discounted(sizeDiff: seq<int>, rev: nat): seq<int> {
    seq(|sizeDiff|, i requires 0 <= i < |sizeDiff| => if i < rev then sizeDiff[i] - 1 else sizeDiff[i])
  }

  /** The `revision` setter. */
  function Advance<K, V>(s: Store<K, V>, rev: nat): Store<K, V>
    requires |s.sizeDiff| > 0
  {
    Store(s.entries, Extended(s.sizeDiff, rev + 1), rev, s.dirty)
  }

  /** A history with one more write at `rev`, the gap filled with the last cell. */
  function Written<V>(h: History<V>, rev: nat, c: Cell<V>): (r: History<V>)
    requires rev >= |h| - 1
    ensures |r| == rev + 1
    ensures forall i :: 0 <= i < rev ==> CellAt(r, i) == CellAt(h, i)
    ensures forall i :: rev <= i ==> CellAt(r, i) == c
  {
    if rev == |h| - 1 then h[..rev] + [c] else h + Repeat(Newest(h), rev - |h|) + [c]
  }

  /** The history of a key first written at `rev`. */
  function Created<V>(value: V, rev: nat): (r: History<V>)
    ensures forall i :: 0 <= i < rev ==> CellAt(r, i).Nonexistent?
    ensures forall i :: rev <= i ==> CellAt(r, i) == Present(value)
  {
    Repeat(Nonexistent, rev) + [Present(value)]
  }

  /** `set(key, value, rev)`: refused when the key already has a later revision. */
  function Put<K, V>(s: Store<K, V>, key: K, value: V, rev: nat): Store<K, V>
    requires rev < |s.sizeDiff|
  {
    if key !in s.entries then
      Store(s.entries[key := Created(value, rev)], Discounted(s.sizeDiff, rev), s.revision, Or(s.dirty, Bit(rev)))
    else if rev < |s.entries[key]| - 1 then s
    else
      Store(s.entries[key := Written(s.entries[key], rev, Present(value))],
            if Newest(s.entries[key]).Nonexistent? then s.sizeDiff[rev := s.sizeDiff[rev] + 1] else s.sizeDiff,
            s.revision, Or(s.dirty, Bit(rev)))
  }

  /** `delete(key, rev)`: refused for an old revision, and nothing to do for an absent key. */
  function Remove<K, V>(s: Store<K, V>, key: K, rev: nat): Store<K, V>
    requires rev < |s.sizeDiff|
  {
    if key !in s.entries || rev < |s.entries[key]| - 1 || Newest(s.entries[key]).Nonexistent? then s
    else
      Store(s.entries[key := Written(s.entries[key], rev, Nonexistent)],
            s.sizeDiff[rev := s.sizeDiff[rev] - 1], s.revision, Or(s.dirty, Bit(rev)))
  }

  /** One history after a collapse: the revisions from `rev` on become the newest one. */
  function Collapsed<V>(h: History<V>, rev: nat): (r: History<V>)
    ensures forall i :: 0 <= i < rev ==> CellAt(r, i) == CellAt(h, i)
    ensures forall i :: rev <= i ==> CellAt(r, i) == Newest(h)
    ensures |r| <= rev + 1
    ensures Newest(r) == Newest(h)
  {
    if |h| - 1 <= rev then h else h[..rev] + [Newest(h)]
  }

  ghost predicate Dead<V>(h: History<V>) { forall i :: 0 <= i < |h| ==> h[i].Nonexistent? }

  /** Whether `collapse` drops the key: only a history that it has just shortened is looked at. */
  ghost predicate Dropped<V>(h: History<V>, rev: nat) { |h| - 1 > rev && Dead(Collapsed(h, rev)) }

  function FoldDirty(d: Word, rev: nat): Word {
    Or(Xor(d, Shl(Sar(d, rev), rev)), if Sar(d, rev) != ZERO then Bit(rev) else ZERO)
  }

  ghost function CollapsedEntries<K, V>(entries: map<K, History<V>>, rev: nat): map<K, History<V>> {
    map k <- entries | !Dropped(entries[k], rev) :: Collapsed(entries[k], rev)
  }

  ghost function Collapse<K, V>(s: Store<K, V>, rev: nat): Store<K, V>
    requires |s.sizeDiff| > 0
  {
    if |s.sizeDiff| <= rev then s
    else
      Store(CollapsedEntries(s.entries, rev), s.sizeDiff[..rev] + [s.sizeDiff[|s.sizeDiff| - 1]],
            s.revision, FoldDirty(s.dirty, rev))
  }

  // ---- What the operations mean for readers ----

  /** A write changes no read below its revision, and no read of another key. */
  lemma PutReads<K, V>(s: Store<K, V>, key: K, value: V, rev: nat, k: K, r: nat)
    requires rev < |s.sizeDiff|
    ensures r < rev || k != key ==> At(Put(s, key, value, rev), k, r) == At(s, k, r)
    ensures r >= rev && (key in s.entries ==> rev >= |s.entries[key]| - 1) ==>
      At(Put(s, key, value, rev), key, r) == Some(value)
    ensures key in s.entries && rev < |s.entries[key]| - 1 ==> Put(s, key, value, rev) == s
  {}

  /** The same for a deletion; when it is not refused the key reads as absent from `rev` on. */
  lemma RemoveReads<K, V>(s: Store<K, V>, key: K, rev: nat, k: K, r: nat)
    requires rev < |s.sizeDiff|
    ensures r < rev || k != key ==> At(Remove(s, key, rev), k, r) == At(s, k, r)
    ensures r >= rev && (key in s.entries ==> rev >= |s.entries[key]| - 1) ==> At(Remove(s, key, rev), key, r) == None
    ensures key in s.entries && rev < |s.entries[key]| - 1 ==> Remove(s, key, rev) == s
  {}

  /** Collapsing keeps every read below `rev` and makes every later read the old newest one. */
  lemma CollapseReads<K, V>(s: Store<K, V>, rev: nat, k: K, r: nat)
    requires s.Bounded()
    ensures Collapse(s, rev).Bounded()
    ensures r < rev ==> At(Collapse(s, rev), k, r) == At(s, k, r)
    ensures r >= rev ==> At(Collapse(s, rev), k, r) == Latest(s, k)
    ensures Latest(Collapse(s, rev), k) == Latest(s, k)
  {
    if |s.sizeDiff| > rev && k in s.entries && Dropped(s.entries[k], rev) {
      var c := Collapsed(s.entries[k], rev);
      assert CellAt(c, r).Nonexistent? && Newest(c).Nonexistent?;
      assert r < rev ==> CellAt(c, r) == CellAt(s.entries[k], r);
    }
  }

  /** The dirty bits below `rev` are kept and the others folded into bit `rev`. A revision from 32 on is
      taken modulo 32, so that bits below it are folded as well. */
  lemma CollapseFoldsDirty(d: Word, rev: nat, i: nat)
    requires i < 32
    ensures var bit := rev % 32;
      && (i < bit ==> FoldDirty(d, rev)[i] == d[i])
      && (i > bit ==> !FoldDirty(d, rev)[i])
      && (FoldDirty(d, rev)[bit] <==> exists j :: bit <= j < 32 && d[j])
  {
    var bit := rev % 32;
    assert FoldDirty(d, rev) == FoldDirty(d, bit);
    FoldsAt(d, bit, i);
  }

  lemma FoldsAt(d: Word, rev: nat, i: nat)
    requires rev < 32 && i < 32
    ensures i < rev ==> FoldDirty(d, rev)[i] == d[i]
    ensures i > rev ==> !FoldDirty(d, rev)[i]
    ensures FoldDirty(d, rev)[rev] <==> exists j :: rev <= j < 32 && d[j]
  {
    var high := Sar(d, rev);
    NonZeroHasBit(high);
    if j :| 0 <= j < 32 && high[j] {
      assert high[j] == d[if j + rev < 32 then j + rev else 31];
    }
    if j :| rev <= j < 32 && d[j] {
      assert high[j - rev] == d[j];
    }
    assert Shl(high, rev)[i] == (i >= rev && d[i]);
    assert Shl(high, rev)[rev] == d[rev];
  }

  /** Setting a revision changes no read at all. */
  lemma AdvanceReads<K, V>(s: Store<K, V>, rev: nat, k: K, r: nat)
    requires s.Bounded()
    ensures Advance(s, rev).Valid()
    ensures At(Advance(s, rev), k, r) == At(s, k, r)
  {}

  // ---- diff ----

  /** The triples that `diff()` yields, by key. */
  ghost function Diff<K, V>(s: Store<K, V>): map<K, (Option<V>, Option<V>)> {
    map k <- s.entries | |s.entries[k]| > 1 && !(s.entries[k][0].Nonexistent? && Newest(s.entries[k]).Nonexistent?)
      :: (Uncell(s.entries[k][0]), Uncell(Newest(s.entries[k])))
  }

  /** A reader's state at one revision. */
  ghost function View<K, V>(s: Store<K, V>, rev: nat): map<K, V> {
    map k <- s.entries | At(s, k, rev).Some? :: At(s, k, rev).value
  }

  /** Replays a diff on a view: writes the keys that end with a value and removes the others. */
  ghost function Replay<K, V>(view: map<K, V>, diff: map<K, (Option<V>, Option<V>)>): map<K, V> {
    map k <- view.Keys + diff.Keys | (if k in diff then diff[k].1.Some? else true)
      :: if k in diff then diff[k].1.value else view[k]
  }

  /** Replaying `diff()` on the oldest view gives the newest one. */
  lemma DiffReplays<K, V>(s: Store<K, V>, newest: nat)
    requires forall k <- s.entries :: |s.entries[k]| <= newest + 1
    ensures Replay(View(s, 0), Diff(s)) == View(s, newest)
  {
    var replayed, view := Replay(View(s, 0), Diff(s)), View(s, newest);
    forall k
      ensures k in replayed <==> k in view
      ensures k in replayed && k in view ==> replayed[k] == view[k]
    {
      if k in s.entries {
        assert CellAt(s.entries[k], newest) == Newest(s.entries[k]);
        assert CellAt(s.entries[k], 0) == s.entries[k][0];
      }
    }
  }

  /** `diff()` yields exactly the keys with more than one revision that exist at the first or at the last, with
      what they hold there. */
  lemma DiffTellsExactly<K, V>(s: Store<K, V>, k: K)
    ensures k in Diff(s) <==>
      k in s.entries && |s.entries[k]| > 1 && (At(s, k, 0).Some? || Latest(s, k).Some?)
    ensures k in Diff(s) ==> Diff(s)[k] == (At(s, k, 0), Latest(s, k))
    ensures k !in Diff(s) ==> At(s, k, 0) == Latest(s, k)
  {}

  /** And the other way round: with the first values in place of the last ones it leads back. */
  lemma DiffUndoes<K, V>(s: Store<K, V>, newest: nat)
    requires forall k <- s.entries :: |s.entries[k]| <= newest + 1
    ensures Replay(View(s, newest), map k <- Diff(s) :: (Diff(s)[k].1, Diff(s)[k].0)) == View(s, 0)
  {
    var back := map k <- Diff(s) :: (Diff(s)[k].1, Diff(s)[k].0);
    var replayed, view := Replay(View(s, newest), back), View(s, 0);
    forall k
      ensures k in replayed <==> k in view
      ensures k in replayed && k in view ==> replayed[k] == view[k]
    {
      DiffTellsExactly(s, k);
      if k in s.entries { assert CellAt(s.entries[k], newest) == Newest(s.entries[k]); }
    }
  }

  // ---- dirty ----

  /** A bit that is clear tells that its revision changes nothing. */
  ghost predicate DirtyTells<K, V>(s: Store<K, V>) {
    forall k <- s.entries, r :: 0 < r < 32 && !s.dirty[r] ==> At(s, k, r) == At(s, k, r - 1)
  }

  lemma ClearBitTells<K, V>(s: Store<K, V>, k: K, r: nat)
    requires DirtyTells(s) && 0 < r < 32 && !s.dirty[r]
    ensures At(s, k, r) == At(s, k, r - 1)
  {}

  lemma PutTells<K, V>(s: Store<K, V>, key: K, value: V, rev: nat)
    requires DirtyTells(s) && rev < |s.sizeDiff| <= 32
    ensures DirtyTells(Put(s, key, value, rev))
  {
    var t := Put(s, key, value, rev);
    if !(key in s.entries && rev < |s.entries[key]| - 1) {
      assert t.dirty == Or(s.dirty, Bit(rev));
      hide Put, At;
      forall k <- t.entries, r | 0 < r < 32 && !t.dirty[r] ensures At(t, k, r) == At(t, k, r - 1) {
        PutReads(s, key, value, rev, k, r);
        PutReads(s, key, value, rev, k, r - 1);
        ClearBitTells(s, k, r);
      }
    }
  }

  lemma RemoveTells<K, V>(s: Store<K, V>, key: K, rev: nat)
    requires DirtyTells(s) && rev < |s.sizeDiff| <= 32
    ensures DirtyTells(Remove(s, key, rev))
  {
    var t := Remove(s, key, rev);
    if t != s {
      assert t.dirty == Or(s.dirty, Bit(rev));
      assert key in s.entries && rev >= |s.entries[key]| - 1;
      hide Remove, At;
      forall k <- t.entries, r | 0 < r < 32 && !t.dirty[r] ensures At(t, k, r) == At(t, k, r - 1) {
        RemoveReads(s, key, rev, k, r);
        RemoveReads(s, key, rev, k, r - 1);
        ClearBitTells(s, k, r);
      }
    }
  }

  lemma {:induction false} NothingChangedFrom<K, V>(s: Store<K, V>, k: K, r: nat)
    requires DirtyTells(s) && s.Bounded() && |s.sizeDiff| <= 32 && 0 < r <= 32
    requires forall j :: r <= j < 32 ==> !s.dirty[j]
    ensures At(s, k, r - 1) == Latest(s, k)
    decreases 32 - r
  {
    if r < 32 {
      hide At, Latest;
      NothingChangedFrom(s, k, r + 1);
      ClearBitTells(s, k, r);
    }
  }

  lemma AdvanceTells<K, V>(s: Store<K, V>, rev: nat)
    requires DirtyTells(s) && s.Bounded()
    ensures DirtyTells(Advance(s, rev))
  {
    var t := Advance(s, rev);
    forall k <- t.entries, r | 0 < r < 32 && !t.dirty[r] ensures At(t, k, r) == At(t, k, r - 1) {
      ClearBitTells(s, k, r);
    }
  }

  lemma CollapseTells<K, V>(s: Store<K, V>, rev: nat)
    requires DirtyTells(s) && s.Bounded() && rev < |s.sizeDiff| <= 32
    ensures DirtyTells(Collapse(s, rev))
  {
    var t := Collapse(s, rev);
    assert t.dirty == FoldDirty(s.dirty, rev);
    hide Collapse, At, Latest, FoldDirty;
    forall k <- t.entries, r | 0 < r < 32 && !t.dirty[r] ensures At(t, k, r) == At(t, k, r - 1) {
      CollapsedBitTells(s, rev, k, r);
    }
  }

  lemma CollapsedBitTells<K, V>(s: Store<K, V>, rev: nat, k: K, r: nat)
    requires DirtyTells(s) && s.Bounded() && rev < |s.sizeDiff| <= 32
    requires 0 < r < 32 && !FoldDirty(s.dirty, rev)[r]
    ensures At(Collapse(s, rev), k, r) == At(Collapse(s, rev), k, r - 1)
  {
    hide Collapse, At, Latest, FoldDirty, DirtyTells;
    CollapseReads(s, rev, k, r);
    CollapseReads(s, rev, k, r - 1);
    CollapseFoldsDirty(s.dirty, rev, r);
    if r == rev { NothingChangedFrom(s, k, r); } else if r < rev { UnfoldedBitTells(s, rev, k, r); }
  }

  lemma UnfoldedBitTells<K, V>(s: Store<K, V>, rev: nat, k: K, r: nat)
    requires DirtyTells(s) && 0 < r < rev < 32 && !FoldDirty(s.dirty, rev)[r]
    ensures At(s, k, r) == At(s, k, r - 1)
  {
    hide At, FoldDirty, DirtyTells;
    CollapseFoldsDirty(s.dirty, rev, r);
    ClearBitTells(s, k, r);
  }

  /** The dirty word of a store with at most 32 revisions tells which of them changed something, and goes on
      telling after writes, deletions, other revisions and collapses. */
  lemma DirtyGoesOnTelling<K, V>(s: Store<K, V>, key: K, value: V, rev: nat)
    requires DirtyTells(s) && s.Bounded() && |s.sizeDiff| <= 32 && rev < |s.sizeDiff|
    ensures DirtyTells(Put(s, key, value, rev)) && DirtyTells(Remove(s, key, rev))
    ensures DirtyTells(Advance(s, rev)) && DirtyTells(Collapse(s, rev))
  {
    PutTells(s, key, value, rev);
    RemoveTells(s, key, rev);
    CollapseTells(s, rev);
    AdvanceTells(s, rev);
  }

  // ---- size ----

  ghost function Visible<K, V>(s: Store<K, V>, rev: nat): set<K> {
    set k <- s.entries | At(s, k, rev).Some?
  }

  /** The size that the getter reports at revision `rev`. */
  ghost function SizeAt<K, V>(s: Store<K, V>, rev: nat): int
    requires rev < |s.sizeDiff|
  {
    |s.entries| + s.sizeDiff[rev]
  }

  ghost predicate SizesExact<K, V>(s: Store<K, V>) {
    s.Valid() && forall r :: 0 <= r < |s.sizeDiff| ==> SizeAt(s, r) == |Visible(s, r)|
  }

  /** The uses of the map between two collapses: everything happens at the newest revision. */
  datatype Op<K, V> = ToRevision(rev: nat) | SetNewest(key: K, value: V) | DeleteNewest(key: K)

  ghost predicate Enabled<K, V>(s: Store<K, V>, op: Op<K, V>) {
    match op
    case ToRevision(rev) => true
    case SetNewest(_, _) => s.revision == |s.sizeDiff| - 1
    case DeleteNewest(_) => s.revision == |s.sizeDiff| - 1
  }

  ghost function Apply<K, V>(s: Store<K, V>, op: Op<K, V>): Store<K, V>
    requires s.Valid()
  {
    match op
    case ToRevision(rev) => Advance(s, rev)
    case SetNewest(key, value) => Put(s, key, value, s.revision)
    case DeleteNewest(key) => Remove(s, key, s.revision)
  }

  /** Who can read `key` after a write at the newest revision. */
  lemma PutVisible<K, V>(s: Store<K, V>, key: K, value: V, r: nat)
    requires s.Valid() && s.revision == |s.sizeDiff| - 1
    ensures Visible(Put(s, key, value, s.revision), r) == if r < s.revision then Visible(s, r)
      else Visible(s, r) + {key}
  {
    var t := Put(s, key, value, s.revision);
    forall k ensures k in Visible(t, r) <==> k in (if r < s.revision then Visible(s, r) else Visible(s, r) + {key}) {
      PutReads(s, key, value, s.revision, k, r);
    }
  }

  lemma RemoveVisible<K, V>(s: Store<K, V>, key: K, r: nat)
    requires s.Valid() && s.revision == |s.sizeDiff| - 1
    ensures Visible(Remove(s, key, s.revision), r) == if r < s.revision then Visible(s, r) else Visible(s, r) - {key}
  {
    var t := Remove(s, key, s.revision);
    forall k ensures k in Visible(t, r) <==> k in (if r < s.revision then Visible(s, r) else Visible(s, r) - {key}) {
      RemoveReads(s, key, s.revision, k, r);
    }
  }

  lemma CreateSize<K, V>(s: Store<K, V>, key: K, value: V, r: nat)
    requires s.Valid() && s.revision == |s.sizeDiff| - 1 && r < |s.sizeDiff| && key !in s.entries
    requires SizeAt(s, r) == |Visible(s, r)|
    ensures SizeAt(Put(s, key, value, s.revision), r) == |Visible(Put(s, key, value, s.revision), r)|
  {
    hide CellAt, Uncell, Created, Or;
    var t := Put(s, key, value, s.revision);
    PutVisible(s, key, value, r);
    assert |t.entries.Keys| == |s.entries.Keys| + 1 by { assert t.entries.Keys == s.entries.Keys + {key}; }
    assert key !in Visible(s, r);
  }

  lemma UpdateSize<K, V>(s: Store<K, V>, key: K, value: V, r: nat)
    requires s.Valid() && s.revision == |s.sizeDiff| - 1 && r < |s.sizeDiff| && key in s.entries
    requires SizeAt(s, r) == |Visible(s, r)|
    ensures SizeAt(Put(s, key, value, s.revision), r) == |Visible(Put(s, key, value, s.revision), r)|
  {
    hide Written, Or;
    var t := Put(s, key, value, s.revision);
    PutVisible(s, key, value, r);
    assert |t.entries| == |s.entries| by { assert t.entries.Keys == s.entries.Keys; }
    if r == s.revision {
      if Newest(s.entries[key]).Present? {
        assert key in Visible(s, r);
        assert Visible(s, r) + {key} == Visible(s, r);
      } else {
        assert key !in Visible(s, r);
      }
    }
  }

  lemma PutKeepsSizes<K, V>(s: Store<K, V>, key: K, value: V)
    requires SizesExact(s) && s.revision == |s.sizeDiff| - 1
    ensures SizesExact(Put(s, key, value, s.revision))
  {
    var t := Put(s, key, value, s.revision);
    forall r | 0 <= r < |t.sizeDiff| ensures SizeAt(t, r) == |Visible(t, r)| {
      if key in s.entries { UpdateSize(s, key, value, r); } else { CreateSize(s, key, value, r); }
    }
  }

  lemma RemoveKeepsSizes<K, V>(s: Store<K, V>, key: K)
    requires SizesExact(s) && s.revision == |s.sizeDiff| - 1
    ensures SizesExact(Remove(s, key, s.revision))
  {
    var t := Remove(s, key, s.revision);
    assert |t.entries.Keys| == |s.entries.Keys| by { assert t.entries.Keys == s.entries.Keys; }
    forall r | 0 <= r < |t.sizeDiff| ensures SizeAt(t, r) == |Visible(t, r)| {
      RemoveVisible(s, key, r);
      assert SizeAt(s, r) == |Visible(s, r)|;
      assert r == s.revision ==> (key in Visible(s, r) <==> key in s.entries && Newest(s.entries[key]).Present?);
    }
  }

  lemma AdvanceKeepsSizes<K, V>(s: Store<K, V>, rev: nat)
    requires SizesExact(s)
    ensures SizesExact(Advance(s, rev))
  {
    var t := Advance(s, rev);
    forall r | 0 <= r < |t.sizeDiff| ensures SizeAt(t, r) == |Visible(t, r)| {
      var r0 := Min(r, |s.sizeDiff| - 1);
      assert SizeAt(s, r0) == |Visible(s, r0)|;
      assert Visible(t, r) == Visible(s, r0);
    }
  }

  ghost function Run<K, V>(s: Store<K, V>, ops: seq<Op<K, V>>): Option<Store<K, V>>
    requires s.Valid()
    decreases ops
  {
    if ops == [] then Some(s)
    else if Enabled(s, ops[0]) && Apply(s, ops[0]).Valid() then Run(Apply(s, ops[0]), ops[1..])
    else None
  }

  /** Over every run of revision changes, writes and deletions at the newest revision, the size
      reported at every revision is the number of keys that can be read there. */
  lemma {:induction false} SizeCountsVisible<K, V>(s: Store<K, V>, ops: seq<Op<K, V>>)
    requires SizesExact(s) && Run(s, ops).Some?
    ensures SizesExact(Run(s, ops).value)
    decreases ops
  {
    if ops != [] {
      match ops[0] {
        case ToRevision(rev) => AdvanceKeepsSizes(s, rev);
        case SetNewest(key, value) => PutKeepsSizes(s, key, value);
        case DeleteNewest(key) => RemoveKeepsSizes(s, key);
      }
      SizeCountsVisible(Apply(s, ops[0]), ops[1..]);
    }
  }

  /** A collapse drops a key exactly if it shortens its history and nobody can read the key any more. */
  lemma DropsExactly<K, V>(s: Store<K, V>, rev: nat, k: K)
    requires s.Bounded() && k in s.entries
    ensures k !in Collapse(s, rev).entries <==>
      |s.entries[k]| > rev + 1 && (forall r: nat :: r < rev ==> At(s, k, r) == None) && Latest(s, k) == None
  {
    var h := s.entries[k];
    if |h| > rev + 1 {
      var c := Collapsed(h, rev);
      assert forall i :: 0 <= i < rev ==> c[i] == CellAt(c, i) == CellAt(h, i);
      assert c[rev] == Newest(h) && |c| == rev + 1;
      if Dead(c) {
        forall r: nat | r < rev ensures At(s, k, r) == None { assert c[r].Nonexistent?; }
      } else {
        var i :| 0 <= i < |c| && !c[i].Nonexistent?;
        assert i < rev ==> At(s, k, i).Some?;
      }
    }
  }

  lemma CollapseShows<K, V>(s: Store<K, V>, rev: nat, r: nat)
    requires s.Bounded() && r <= rev < |s.sizeDiff|
    ensures Visible(Collapse(s, rev), r) == Visible(s, if r < rev then r else |s.sizeDiff| - 1)
  {
    var t, r0 := Collapse(s, rev), if r < rev then r else |s.sizeDiff| - 1;
    hide Collapse;
    forall k ensures At(t, k, r) == At(s, k, r0) {
      CollapseReads(s, rev, k, r);
      if k in s.entries { assert CellAt(s.entries[k], |s.sizeDiff| - 1) == Newest(s.entries[k]); }
    }
    hide At;
    ReadAlike(t, r, s, r0);
  }

  lemma ReadAlike<K, V>(s: Store<K, V>, r: nat, t: Store<K, V>, r0: nat)
    requires forall k :: At(s, k, r) == At(t, k, r0)
    ensures Visible(s, r) == Visible(t, r0)
  {
    assert forall k :: At(s, k, r).Some? ==> k in s.entries;
    assert forall k :: At(t, k, r0).Some? ==> k in t.entries;
    hide At;
    assert forall k :: k in Visible(s, r) <==> k in Visible(t, r0);
  }

  lemma Parted<K>(all: set<K>, kept: set<K>)
    requires kept <= all
    ensures |kept| == |all| - |all - kept|
  {
    assert kept + (all - kept) == all;
  }

  /** The sizes after a collapse fall short by the number of keys that it drops: they are right if and only if
      it drops none. */
  lemma CollapseLosesSize<K, V>(s: Store<K, V>, rev: nat, r: nat)
    requires SizesExact(s) && r <= rev < |s.sizeDiff|
    ensures var t := Collapse(s, rev);
      && r < |t.sizeDiff| && t.entries.Keys <= s.entries.Keys
      && SizeAt(t, r) == |Visible(t, r)| - |s.entries.Keys - t.entries.Keys|
  {
    hide Visible, CollapsedEntries, FoldDirty;
    CollapseShows(s, rev, r);
    var t, r0 := Collapse(s, rev), if r < rev then r else |s.sizeDiff| - 1;
    assert SizeAt(s, r0) == |Visible(s, r0)|;
    FewerEntries(s.entries, rev);
    Parted(s.entries.Keys, t.entries.Keys);
    assert |t.entries| == |t.entries.Keys| && |s.entries| == |s.entries.Keys|;
  }

  lemma FewerEntries<K, V>(entries: map<K, History<V>>, rev: nat)
    ensures CollapsedEntries(entries, rev).Keys <= entries.Keys
  {}

  // ---- The serial form of a history ----

  /** The object that `getRevisions` returns: a `delete` mask and one property per written revision. */
  datatype Revisions<+V> = Revisions(del: Word, at: map<nat, V>)

  /** Revision `i` differs from the one before it; before the first one there is nothing. */
  ghost predicate Changed<V>(h: History<V>, i: nat) {
    i < |h| && h[i] != if i == 0 then Nonexistent else h[i - 1]
  }

  ghost predicate ChangedIn<V>(cells: seq<Cell<V>>, i: nat) { cells != [] && Changed(cells, i) }

  ghost predicate WrittenAt<V>(h: History<V>, i: nat) { Changed(h, i) && h[i].Present? }

  ghost predicate WrittenAs<V>(h: History<V>, i: nat, v: V) { WrittenAt(h, i) && h[i].value == v }

  ghost predicate DeletedAt<V>(h: History<V>, i: nat) { Changed(h, i) && h[i].Nonexistent? }

  /** Bit `b` stands for some deletion among the first `n` revisions. */
  ghost predicate DeletionFor<V>(h: History<V>, n: nat, b: nat) {
    exists i: nat :: i < n && DeletedAt(h, i) && i % 32 == b
  }

  ghost predicate KeyFor<V>(at: map<nat, V>, b: nat) { exists k :: k in at && k % 32 == b }

  /** What is recorded of the first `n` revisions. */
  ghost predicate Records<V>(o: Revisions<V>, h: History<V>, n: nat) {
    && (forall b :: 0 <= b < 32 ==> (o.del[b] <==> DeletionFor(h, n, b)))
    && (forall i <- o.at :: i < n && WrittenAs(h, i, o.at[i]))
    && (forall i: nat :: i < n && WrittenAt(h, i) ==> i in o.at)
  }

  /** The mask of all recorded revisions. */
  ghost function Mutations<V>(o: Revisions<V>): (m: Word)
    ensures forall b :: 0 <= b < 32 ==> (m[b] <==> o.del[b] || KeyFor(o.at, b))
  {
    seq(32, b requires 0 <= b < 32 => o.del[b] || KeyFor(o.at, b))
  }

  /** What the decoding loop puts at revision `i`. */
  function DecodedCell<V>(o: Revisions<V>, i: nat): Cell<V> {
    if o.del[i % 32] then Nonexistent
    else if i in o.at then Present(o.at[i])
    else if i == 0 then Nonexistent
    else DecodedCell(o, i - 1)
  }

  /** Where the decoding loop stops: the least `n` with `mutations >> n` zero. */
  function Length(m: Word, n: nat := 31): (len: nat)
    requires n <= 31 && forall b :: n <= b < 32 ==> !m[b]
    ensures len <= n && (forall b :: len <= b < 32 ==> !m[b]) && (len > 0 ==> m[len - 1])
  {
    if n == 0 || m[n - 1] then n else Length(m, n - 1)
  }

  ghost function Decoded<V>(o: Revisions<V>): seq<Cell<V>>
    requires !Mutations(o)[31]
  {
    DecodedUpTo(o, Length(Mutations(o)))
  }

  ghost function DecodedUpTo<V>(o: Revisions<V>, n: nat): seq<Cell<V>> {
    seq(n, i requires 0 <= i => DecodedCell(o, i))
  }

  /** The bits of `dirty` are those of `d` and the revisions at which the cells change. */
  ghost predicate Marked<V>(cells: seq<Cell<V>>, d: Word, dirty: Word) {
    forall b :: 0 <= b < 32 ==> (dirty[b] <==> d[b] || ChangedIn(cells, b))
  }

  lemma MarkOne<V>(cells: seq<Cell<V>>, v: Cell<V>, d: Word, dirty: Word)
    requires |cells| < 32 && Marked(cells, d, dirty)
    ensures Marked(cells + [v], d, if v != LastOr(cells) then Or(dirty, Bit(|cells|)) else dirty)
  {
    var more := cells + [v];
    forall b | 0 <= b < 32 && b != |cells| ensures ChangedIn(more, b) == ChangedIn(cells, b) {}
    assert ChangedIn(more, |cells|) == (v != LastOr(cells));
  }

  ghost function LastOr<V>(cells: seq<Cell<V>>): Cell<V> { if cells == [] then Nonexistent else cells[|cells| - 1] }

  /** The loop guard `mutations >> i` is zero first at the length of the history. */
  lemma GuardIsLength(m: Word, i: nat)
    requires !m[31] && i <= Length(m)
    ensures Sar(m, i) == ZERO <==> i == Length(m)
  {
    SarZero(m, i);
  }

  /** What is read back at revision `r` after `setRevisions`, which stores nothing for an empty mask. */
  ghost function RestoredCell<V>(o: Revisions<V>, r: nat): Cell<V>
    requires !Mutations(o)[31]
  {
    if Decoded(o) == [] then Nonexistent else CellAt(Decoded(o), r)
  }

  /** `setRevisions(getRevisions(key))` terminates and the key reads as before at every revision. */
  ghost predicate RoundTrips<V>(h: History<V>, o: Revisions<V>) {
    !Mutations(o)[31] && forall r: nat :: RestoredCell(o, r) == CellAt(h, r)
  }

  lemma {:induction false} NoChangeNoDifference<V>(h: History<V>, from: nat, r: nat)
    requires from <= r && forall i :: from < i ==> !Changed(h, i)
    ensures CellAt(h, r) == CellAt(h, from)
  {
    if from < r {
      NoChangeNoDifference(h, from, r - 1);
      assert !Changed(h, r);
    }
  }

  /** When nothing changes from revision 31 on, each bit of the mask stands for one revision. */
  lemma BitIsDeletion<V>(h: History<V>, o: Revisions<V>, r: nat)
    requires Records(o, h, |h|) && r < 32 && forall i :: 31 <= i ==> !Changed(h, i)
    ensures o.del[r] <==> DeletedAt(h, r)
  {
    if DeletionFor(h, |h|, r) {
      var i: nat :| i < |h| && DeletedAt(h, i) && i % 32 == r;
      assert i < 31;
    }
    if DeletedAt(h, r) {
      assert r % 32 == r;
    }
  }

  lemma BitIsWrite<V>(h: History<V>, o: Revisions<V>, r: nat)
    requires Records(o, h, |h|) && r < 32 && forall i :: 31 <= i ==> !Changed(h, i)
    ensures KeyFor(o.at, r) <==> WrittenAt(h, r)
  {
    if KeyFor(o.at, r) {
      var k :| k in o.at && k % 32 == r;
      assert k < 31;
    }
    if WrittenAt(h, r) {
      assert r % 32 == r && r in o.at;
    }
  }

  lemma BitIsChange<V>(h: History<V>, o: Revisions<V>, r: nat)
    requires Records(o, h, |h|) && r < 32 && forall i :: 31 <= i ==> !Changed(h, i)
    ensures Mutations(o)[r] <==> Changed(h, r)
  {
    BitIsDeletion(h, o, r);
    BitIsWrite(h, o, r);
  }

  lemma {:induction false} DecodesEachCell<V>(h: History<V>, o: Revisions<V>, r: nat)
    requires Records(o, h, |h|) && r < 31 && forall i :: 31 <= i ==> !Changed(h, i)
    ensures DecodedCell(o, r) == CellAt(h, r)
  {
    BitIsDeletion(h, o, r);
    if r > 0 {
      DecodesEachCell(h, o, r - 1);
    }
  }

  lemma ShortHistoryRoundTrips<V>(h: History<V>, o: Revisions<V>)
    requires Records(o, h, |h|) && forall i :: 31 <= i ==> !Changed(h, i)
    ensures RoundTrips(h, o)
  {
    BitIsChange(h, o, 31);
    var len := Length(Mutations(o));
    forall i | i >= len ensures !Changed(h, i) {
      if i < 31 {
        BitIsChange(h, o, i);
      }
    }
    forall r: nat ensures RestoredCell(o, r) == CellAt(h, r) {
      if len == 0 {
        assert !Changed(h, 0);
        NoChangeNoDifference(h, 0, r);
      } else if r < len {
        DecodesEachCell(h, o, r);
      } else {
        DecodesEachCell(h, o, len - 1);
        NoChangeNoDifference(h, len - 1, r);
      }
    }
  }

  /** A change after revision 31 is not in the decoded history, whose last cell is below 31. */
  lemma LateChangeIsLost<V>(h: History<V>, o: Revisions<V>, i: nat)
    requires 32 <= i && Changed(h, i) && !Mutations(o)[31]
    ensures RestoredCell(o, i) != CellAt(h, i) || RestoredCell(o, i - 1) != CellAt(h, i - 1)
  {
    assert RestoredCell(o, i) == RestoredCell(o, i - 1);
  }

  lemma ChangeAt31SetsSign<V>(h: History<V>, o: Revisions<V>)
    requires Changed(h, 31) && Records(o, h, |h|)
    ensures Mutations(o)[31]
  {
    assert 31 % 32 == 31;
    if WrittenAt(h, 31) {
      assert KeyFor(o.at, 31);
    } else {
      assert DeletedAt(h, 31) && DeletionFor(h, |h|, 31);
    }
  }

  /** A history survives serialisation exactly when nothing changes in it at revision 31 or later.
      A change at revision 31 leaves the sign bit set and the decoding loop never ends; a change
      after that is lost. */
  lemma RoundTripsExactlyBelow31<V>(h: History<V>, o: Revisions<V>)
    requires Records(o, h, |h|)
    ensures RoundTrips(h, o) <==> forall i :: 31 <= i ==> !Changed(h, i)
    ensures |h| <= 31 ==> RoundTrips(h, o)
  {
    if i :| 31 <= i && Changed(h, i) {
      if i == 31 {
        ChangeAt31SetsSign(h, o);
      } else if !Mutations(o)[31] {
        LateChangeIsLost(h, o, i);
      }
    } else {
      ShortHistoryRoundTrips(h, o);
    }
  }

  /** With the sign bit set the loop guard `mutations >> i` never becomes zero. */
  lemma DecodingNeverEnds<V>(o: Revisions<V>, i: nat)
    requires Mutations(o)[31]
    ensures Sar(Mutations(o), i) != ZERO
  {
    SignNeverShiftsOut(Mutations(o), i);
  }

  // ---- The class ----

  class VersionedMap<K(==), V(==)> {
    var sizeDiff: seq<int>
    var revision: nat
    var entries: map<K, History<V>>
    var dirty: Word

    ghost function Model(): Store<K, V> reads this { Store(entries, sizeDiff, revision, dirty) }

    constructor ()
      ensures Model() == Empty() && SizesExact(Model())
    {
      sizeDiff, revision, entries, dirty := [0], 0, map[], ZERO;
      new;
      assert Visible(Model(), 0) == {};
    }

    method Size() returns (size: int)
      requires Model().Valid()
      ensures size == SizeAt(Model(), revision)
      ensures SizesExact(Model()) ==> size == |Visible(Model(), revision)|
    {
      size := |entries| + sizeDiff[revision];
    }

    method SetRevision(rev: nat)
      requires Model().Bounded()
      modifies this
      ensures Model() == Advance(old(Model()), rev) && Model().Valid()
    {
      var i := |sizeDiff|;
      while i <= rev
        modifies this`sizeDiff
        invariant |old(sizeDiff)| <= i && (i <= rev + 1 || i == |old(sizeDiff)|)
        invariant sizeDiff == Extended(old(sizeDiff), i)
      {
        sizeDiff := sizeDiff + [sizeDiff[i - 1]];
        i := i + 1;
      }
      revision := rev;
    }

    method Get(key: K, rev: nat) returns (value: Option<V>)
      ensures value == At(Model(), key, rev)
    {
      if key !in entries { return None; }
      var h := entries[key];
      value := Uncell(h[Min(|h| - 1, rev)]);
    }

    method Has(key: K, rev: nat) returns (found: bool)
      ensures found == At(Model(), key, rev).Some?
    {
      if key !in entries { return false; }
      var h := entries[key];
      found := !h[Min(|h| - 1, rev)].Nonexistent?;
    }

    /** Pads a copy of a history up to `rev` with `fill` and writes the cell there. */
    static method WriteAt(h: History<V>, rev: nat, c: Cell<V>) returns (r: History<V>)
      requires rev >= |h| - 1
      ensures r == Written(h, rev, c)
    {
      r := h;
      var i := |h|;
      while i < rev
        invariant |h| <= i && (i <= rev || i == |h|) && r == h + Repeat(Newest(h), i - |h|)
      {
        r := r + [h[|h| - 1]];
        i := i + 1;
      }
      r := if rev < |r| then r[rev := c] else r + [c];
    }

    method Set(key: K, value: V, rev: nat) returns (accepted: bool)
      requires Model().Valid() && rev < |sizeDiff|
      modifies this
      ensures Model() == Put(old(Model()), key, value, rev) && Model().Valid()
      ensures accepted <==> (key in old(entries) ==> rev >= |old(entries)[key]| - 1)
    {
      if key !in entries {
        dirty := Or(dirty, Bit(rev));
        var i := 0;
        while i < rev
          modifies this`sizeDiff
          invariant 0 <= i <= rev && sizeDiff == Discounted(old(sizeDiff), i)
        {
          sizeDiff := sizeDiff[i := sizeDiff[i] - 1];
          i := i + 1;
        }
        var revisions: seq<Cell<V>> := [];
        i := 0;
        while i < rev
          invariant 0 <= i <= rev && revisions == Repeat(Nonexistent, i)
        {
          revisions := revisions + [Nonexistent];
          i := i + 1;
        }
        var created: History<V> := revisions + [Present(value)];
        entries := entries[key := created];
        return true;
      }
      if rev < |entries[key]| - 1 { return false; }
      var h := entries[key];
      dirty := Or(dirty, Bit(rev));
      if h[|h| - 1].Nonexistent? { sizeDiff := sizeDiff[rev := sizeDiff[rev] + 1]; }
      var written := WriteAt(h, rev, Present(value));
      entries := entries[key := written];
      return true;
    }

    method Delete(key: K, rev: nat) returns (deleted: bool)
      requires Model().Valid() && rev < |sizeDiff|
      modifies this
      ensures Model() == Remove(old(Model()), key, rev) && Model().Valid()
      ensures deleted <==> key in old(entries) && rev >= |old(entries)[key]| - 1 && Newest(old(entries)[key]).Present?
    {
      if key !in entries { return false; }
      var h := entries[key];
      if rev < |h| - 1 { return false; }
      if h[|h| - 1].Nonexistent? { return false; }
      dirty := Or(dirty, Bit(rev));
      sizeDiff := sizeDiff[rev := sizeDiff[rev] - 1];
      var written := WriteAt(h, rev, Nonexistent);
      entries := entries[key := written];
      return true;
    }

    /** Replaces the revisions from `rev` on by the last one; says whether no value is left. */
    static method Splice(h: History<V>, rev: nat) returns (short: History<V>, dead: bool)
      requires |h| - 1 > rev
      ensures short == Collapsed(h, rev) && dead == Dropped(h, rev)
    {
      short := h[..rev] + h[|h| - 1..];
      assert short == Collapsed(h, rev);
      dead := h[|h| - 1].Nonexistent? && !exists i :: 0 <= i < |short| && !short[i].Nonexistent?;
      if dead {
        assert Dead(short);
      } else {
        assert !Dead(short) by { assert short[|short| - 1] == h[|h| - 1]; }
      }
    }

    static method CollapseEntry(m: map<K, History<V>>, k: K, rev: nat) returns (r: map<K, History<V>>)
      requires k in m
      ensures r == if Dropped(m[k], rev) then m - {k} else m[k := Collapsed(m[k], rev)]
    {
      var h := m[k];
      if |h| - 1 > rev {
        var short, dead := Splice(h, rev);
        return if dead then m - {k} else m[k := short];
      }
      assert m[k := Collapsed(h, rev)] == m;
      return m;
    }

    /** Shortens every history that reaches past `rev`, dropping the keys left without a value. */
    static method CollapseEntries(entries: map<K, History<V>>, rev: nat) returns (m: map<K, History<V>>)
      ensures m == CollapsedEntries(entries, rev)
    {
      m := entries;
      var todo := entries.Keys;
      assert m == PartlyCollapsed(entries, rev, todo);
      while todo != {}
        invariant todo <= entries.Keys
        invariant m == PartlyCollapsed(entries, rev, todo)
      {
        var k :| k in todo;
        OneMoreCollapsed(entries, rev, todo - {k}, k);
        assert (todo - {k}) + {k} == todo;
        m := CollapseEntry(m, k, rev);
        todo := todo - {k};
      }
      assert m == CollapsedEntries(entries, rev);
    }

    method CollapseFrom(rev: nat)
      requires Model().Bounded()
      modifies this
      ensures Model() == Collapse(old(Model()), rev)
    {
      if |sizeDiff| <= rev { return; }
      sizeDiff := sizeDiff[..rev] + [sizeDiff[|sizeDiff| - 1]];
      var d := Sar(dirty, rev);
      dirty := Xor(dirty, Shl(d, rev));
      dirty := Or(dirty, if d != ZERO then Bit(rev) else ZERO);

      entries := CollapseEntries(entries, rev);
    }

    /** `None` exactly when the key never held a value; otherwise the recorded history. */
    method GetRevisions(key: K) returns (res: Option<Revisions<V>>)
      ensures res == None <==> key !in entries || Dead(entries[key])
      ensures res.Some? ==> Records(res.value, entries[key], |entries[key]|)
    {
      if key !in entries { return None; }
      var h := entries[key];
      var o: Revisions<V> := Revisions(ZERO, map[]);
      var prev: Cell<V> := Nonexistent;
      var i := 0;
      while i < |h|
        invariant 0 <= i <= |h| && prev == if i == 0 then Nonexistent else h[i - 1]
        invariant Records(o, h, i)
      {
        ghost var before := o;
        if h[i] != prev {
          o := if h[i].Nonexistent? then Revisions(Or(o.del, Bit(i)), o.at)
            else Revisions(o.del, o.at[i := h[i].value]);
          prev := h[i];
        }
        RecordsOneMore(before, o, h, i);
        i := i + 1;
      }
      NothingRecorded(o, h);
      if prev.Nonexistent? && o.del == ZERO { return None; }
      return Some(o);
    }

    /** Terminates because the sign bit is clear; stores the decoded history and marks what changes in it. */
    method SetRevisions(key: K, o: Revisions<V>)
      requires !Mutations(o)[31]
      modifies this`entries, this`dirty
      ensures Decoded(o) == [] ==> Model() == old(Model())
      ensures Decoded(o) != [] ==> entries == old(entries)[key := Decoded(o)]
      ensures Marked(Decoded(o), old(dirty), dirty)
    {
      ghost var m := Mutations(o);
      var mutations := Mask(o);
      if mutations == ZERO {
        NonZeroHasBit(m);
        assert Length(m) == 0;
        return;
      }
      NonZeroHasBit(m);
      var decoded;
      decoded, dirty := Decode(o, mutations, dirty);
      entries := entries[key := decoded];
    }

    /** The decoding loop, which also marks in `d` what changes. */
    static method Decode(o: Revisions<V>, mutations: Word, d: Word) returns (revisions: seq<Cell<V>>, dirty: Word)
      requires mutations == Mutations(o) && !mutations[31]
      ensures revisions == Decoded(o)
      ensures Marked(revisions, d, dirty)
    {
      revisions, dirty := [], d;
      var prev: Cell<V> := Nonexistent;
      var i := 0;
      GuardIsLength(mutations, 0);
      while Sar(mutations, i) != ZERO
        invariant 0 <= i <= Length(mutations) && (Sar(mutations, i) == ZERO <==> i == Length(mutations))
        invariant revisions == DecodedUpTo(o, i) && prev == LastOr(revisions)
        invariant Marked(revisions, d, dirty)
        decreases Length(mutations) - i
      {
        var v := NextCell(o, i, prev);
        MarkOne(revisions, v, d, dirty);
        if v != prev { dirty := Or(dirty, Bit(i)); }
        revisions := revisions + [v];
        prev := v;
        i := i + 1;
        GuardIsLength(mutations, i);
      }
    }

    /** One step of the decoding loop: a deletion, a value, or the cell before. */
    static method NextCell(o: Revisions<V>, i: nat, prev: Cell<V>) returns (v: Cell<V>)
      requires prev == LastOr(DecodedUpTo(o, i))
      ensures v == DecodedCell(o, i) && DecodedUpTo(o, i + 1) == DecodedUpTo(o, i) + [v]
    {
      v := prev;
      if o.del[i % 32] { v := Nonexistent; } else if i in o.at { v := Present(o.at[i]); }
    }

    static method Mask(o: Revisions<V>) returns (m: Word)
      ensures m == Mutations(o)
    {
      m := o.del;
      var todo := o.at.Keys;
      while todo != {}
        invariant todo <= o.at.Keys
        invariant forall b :: 0 <= b < 32 ==> (m[b] <==> o.del[b] || exists k :: k in o.at && k !in todo && k % 32 == b)
      {
        var k :| k in todo;
        ghost var before := m;
        m := Or(m, Bit(k));
        assert forall b :: 0 <= b < 32 ==> (m[b] <==> before[b] || b == k % 32);
        todo := todo - {k};
      }
      assert forall b :: 0 <= b < 32 ==> (m[b] <==> o.del[b] || KeyFor(o.at, b));
    }
  }

  /** The entries when the keys in `todo` are still as before. */
  ghost function PartlyCollapsed<K, V>(entries: map<K, History<V>>, rev: nat, todo: set<K>): map<K, History<V>> {
    map k <- entries | k in todo || !Dropped(entries[k], rev) :: if k in todo then entries[k]
      else Collapsed(entries[k], rev)
  }

  lemma OneMoreCollapsed<K, V>(entries: map<K, History<V>>, rev: nat, todo: set<K>, k: K)
    requires k in entries && k !in todo
    ensures PartlyCollapsed(entries, rev, todo)
      == if Dropped(entries[k], rev) then PartlyCollapsed(entries, rev, todo + {k}) - {k}
         else PartlyCollapsed(entries, rev, todo + {k})[k := Collapsed(entries[k], rev)]
  {}

  lemma RecordsOneMore<V>(before: Revisions<V>, after: Revisions<V>, h: History<V>, i: nat)
    requires i < |h| && Records(before, h, i)
    requires after == if !Changed(h, i) then before
                      else if h[i].Nonexistent? then Revisions(Or(before.del, Bit(i)), before.at)
                      else Revisions(before.del, before.at[i := h[i].value])
    ensures Records(after, h, i + 1)
  {
    forall b | 0 <= b < 32
      ensures after.del[b] <==> DeletionFor(h, i + 1, b)
    {
      assert after.del[b] <==> before.del[b] || (DeletedAt(h, i) && b == i % 32);
      if DeletionFor(h, i, b) {
        var j: nat :| j < i && DeletedAt(h, j) && j % 32 == b;
        assert j < i + 1;
      }
    }
  }

  /** If the last cell is NONEXISTENT and no deletion was recorded, there was never a value. */
  lemma NothingRecorded<V>(o: Revisions<V>, h: History<V>)
    requires Records(o, h, |h|)
    ensures Newest(h).Nonexistent? && o.del == ZERO <==> Dead(h)
  {
    if Dead(h) {
      NonZeroHasBit(o.del);
    } else if Newest(h).Nonexistent? && o.del == ZERO {
      var i :| 0 <= i < |h| && h[i].Present?;
      var j := LastValue(h, i);
      assert DeletedAt(h, j + 1);
      assert DeletionFor(h, |h|, (j + 1) % 32);

    }
  }

  /** The last revision holding a value before the newest, absent, one. */
  lemma LastValue<V>(h: History<V>, i: nat) returns (j: nat)
    requires i < |h| && h[i].Present? && Newest(h).Nonexistent?
    ensures j + 1 < |h| && h[j].Present? && h[j + 1].Nonexistent?
    decreases |h| - i
  {
    if h[i + 1].Nonexistent? { j := i; } else { j := LastValue(h, i + 1); }
  }
}
