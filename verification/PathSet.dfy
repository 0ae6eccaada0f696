/** The three-way index over paths (lib/common/path-set.ts). A set of path objects is a list without
    duplicates, in the order of insertion. */
module PathSets {
  import opened Options
  import opened Sequences
  import opened Word32
  import opened Paths
  import PathCaches
  import PathInjectivity

  predicate NoAlias(p: Path) { forall i :: 0 <= i < |p.segments| ==> p.segments[i].Name? }

  // ---- What `find` stands for ----

  /** How a segment of the argument matches one of a stored path. */
  predicate SegmentMatches(s: Segment, t: Segment, superset: bool, subset: bool) {
    s == t || (superset && t == WILDCARD) || (subset && s == WILDCARD)
  }

  /** The segments of `p` from `i` up to the length of `path` match. */
  predicate MatchesFrom(path: Path, p: Path, superset: bool, subset: bool, i: nat) {
    |p.segments| >= |path.segments| &&
    forall k :: i <= k < |path.segments| ==> SegmentMatches(path.segments[k], p.segments[k], superset, subset)
  }

  predicate Matches(path: Path, p: Path, superset: bool, subset: bool) { MatchesFrom(path, p, superset, subset, 0) }

  /** `found` lists, each once, the stored paths that match and are no longer than `depth`. */
  ghost predicate IsFound(found: seq<Path>, contents: set<Path>, path: Path, superset: bool, subset: bool, depth: nat) {
    NoDuplicates(found) &&
    forall p :: p in found <==> p in contents && Matches(path, p, superset, subset) && |p.segments| <= depth
  }

  // ---- What `find` looks at ----

  /** The code asks the mask whether a segment is a wildcard: `marked` is its bit. */
  predicate SegmentFound(s: Segment, t: Segment, marked: bool, superset: bool, subset: bool) {
    s == t || (superset && !marked && t == WILDCARD) || (subset && marked)
  }

  predicate Marked(path: Path, k: nat) { Test(PathCaches.WildcardMask(path.segments), k) }

  predicate FoundFrom(path: Path, p: Path, superset: bool, subset: bool, i: nat) {
    |p.segments| >= |path.segments| &&
    forall k :: i <= k < |path.segments| ==>
      SegmentFound(path.segments[k], p.segments[k], Marked(path, k), superset, subset)
  }

  /** `found` lists, each once, the stored paths that are found and are no longer than `depth`. */
  ghost predicate IsListed(found: seq<Path>, contents: set<Path>, path: Path, superset: bool, subset: bool,
      depth: nat) {
    NoDuplicates(found) &&
    forall p :: p in found <==> p in contents && FoundFrom(path, p, superset, subset, 0) && |p.segments| <= depth
  }

  /** Only wildcards are marked. The mask has 32 bits: in a longer path the wildcard at `i` also marks the
      segments at `i + 32` and `i - 32`. */
  ghost predicate MaskTells(path: Path) {
    forall k :: 0 <= k < |path.segments| && Marked(path, k) ==> path.segments[k] == WILDCARD
  }

  lemma ShortMaskTells(path: Path)
    requires |path.segments| <= 32
    ensures MaskTells(path)
  {
    forall k | 0 <= k < |path.segments| && Marked(path, k) ensures path.segments[k] == WILDCARD {
      MaskTellsWildcards(path, k);
    }
  }

  /** What is found is what matches, for all paths, if and only if nothing is marked but wildcards or
      neither supersets nor subsets are asked for. */
  lemma FindsWhatMatchesExactly(path: Path, superset: bool, subset: bool)
    requires WellFormed(path) && NoAlias(path)
    ensures (forall p | WellFormed(p) && NoAlias(p) ::
        FoundFrom(path, p, superset, subset, 0) <==> Matches(path, p, superset, subset)) <==>
      MaskTells(path) || !(superset || subset)
    ensures |path.segments| <= 32 ==> MaskTells(path)
  {
    if |path.segments| <= 32 { ShortMaskTells(path); }
    if MaskTells(path) || !(superset || subset) {
      forall p ensures FoundFrom(path, p, superset, subset, 0) <==> Matches(path, p, superset, subset) {
        if |p.segments| >= |path.segments| {
          forall k | 0 <= k < |path.segments|
            ensures SegmentFound(path.segments[k], p.segments[k], Marked(path, k), superset, subset) <==>
              SegmentMatches(path.segments[k], p.segments[k], superset, subset)
          {
            MaskTellsWildcards(path, k);
          }
        }
      }
    } else {
      var k: nat :| k < |path.segments| && Marked(path, k) && path.segments[k] != WILDCARD;
      var p := Misjudged(path, subset, k);
      assert FoundFrom(path, p, superset, subset, 0) != Matches(path, p, superset, subset);
    }
  }

  /** A path that differs at a segment which is wrongly marked: with subsets it is found there whatever it
      has, and without them not found under a wildcard. */
  lemma Misjudged(path: Path, subset: bool, k: nat) returns (p: Path)
    requires WellFormed(path) && NoAlias(path)
    requires k < |path.segments| && Marked(path, k) && path.segments[k] != WILDCARD
    ensures WellFormed(p) && NoAlias(p)
    ensures forall superset :: superset || subset ==>
      FoundFrom(path, p, superset, subset, 0) == subset && Matches(path, p, superset, subset) == !subset
  {
    var s := path.segments[k];
    PathCaches.WellFormedAt(path.segments, k);
    var t := if subset then Name(s.text + "a") else WILDCARD;
    p := Path(path.segments[k := t]);
    forall i | 0 <= i < |p.segments| ensures WellFormedSegment(p.segments[i]) {
      PathCaches.WellFormedAt(path.segments, i);
    }
    PathCaches.WellFormedAll(p.segments);
    forall superset | superset || subset
      ensures FoundFrom(path, p, superset, subset, 0) == subset && Matches(path, p, superset, subset) == !subset
    {
      assert SegmentFound(s, t, Marked(path, k), superset, subset) == subset;
      assert SegmentMatches(s, t, superset, subset) == !subset;
    }
  }

  lemma ListedIsFound(found: seq<Path>, contents: set<Path>, path: Path, superset: bool, subset: bool, depth: nat)
    requires WellFormed(path) && NoAlias(path) && MaskTells(path)
    requires forall p <- contents :: WellFormed(p) && NoAlias(p)
    requires IsListed(found, contents, path, superset, subset, depth)
    ensures IsFound(found, contents, path, superset, subset, depth)
  {
    FindsWhatMatchesExactly(path, superset, subset);
  }

  // ---- The indexes ----

  /** A path is stored under its text. */
  ghost predicate StringsOk(strings: map<string, Path>) {
    forall s :: s in strings ==> Print(strings[s]) == s && WellFormed(strings[s]) && NoAlias(strings[s])
  }

  ghost predicate LengthOk(l: seq<Path>, n: nat, contents: set<Path>) {
    NoDuplicates(l) && forall p :: p in l <==> p in contents && |p.segments| == n
  }

  ghost predicate HasFragment(p: Path, i: nat, fragment: string) { i < |p.segments| && p.segments[i] == Name(fragment) }

  ghost predicate FragmentsOk(f: map<string, seq<Path>>, i: nat, contents: set<Path>) {
    && (forall s :: s in f ==> NoDuplicates(f[s]) && forall p :: p in f[s] <==> p in contents && HasFragment(p, i, s))
    && (forall s, p :: p in contents && HasFragment(p, i, s) ==> s in f)
  }

  ghost predicate LengthsOk(ls: seq<seq<Path>>, contents: set<Path>) {
    (forall n :: 0 <= n < |ls| ==> LengthOk(ls[n], n, contents)) && (forall p :: p in contents ==> |p.segments| < |ls|)
  }

  /** The paths under a text are those of the index: a text names one path. */
  lemma StoredByText(strings: map<string, Path>, p: Path)
    requires StringsOk(strings) && WellFormed(p)
    ensures p in strings.Values <==> Print(p) in strings && strings[Print(p)] == p
    ensures Print(p) in strings ==> strings[Print(p)] == p
  {
    if Print(p) in strings { PathInjectivity.PrintIsInjective(p, strings[Print(p)]); }
  }

  lemma MaskTellsWildcards(path: Path, i: nat)
    requires i < |path.segments|
    ensures path.segments[i] == WILDCARD ==> Test(PathCaches.WildcardMask(path.segments), i)
    ensures |path.segments| <= 32 && Test(PathCaches.WildcardMask(path.segments), i) ==> path.segments[i] == WILDCARD
  {}

  // ---- Lists ----

  function Filter(s: seq<Path>, keep: Path -> bool): seq<Path> {
    if s == [] then [] else if keep(s[0]) then [s[0]] + Filter(s[1..], keep) else Filter(s[1..], keep)
  }

  lemma {:induction false} FilterKeeps(s: seq<Path>, keep: Path -> bool)
    ensures forall p :: p in Filter(s, keep) <==> p in s && keep(p)
    ensures NoDuplicates(s) ==> NoDuplicates(Filter(s, keep))
  {
    if s != [] { FilterKeeps(s[1..], keep); }
  }

  function Joined(ls: seq<seq<Path>>): seq<Path> { if ls == [] then [] else ls[0] + Joined(ls[1..]) }

  lemma {:induction false} JoinedLengths(ls: seq<seq<Path>>, n: nat, contents: set<Path>)
    requires forall i :: 0 <= i < |ls| ==> LengthOk(ls[i], n + i, contents)
    ensures NoDuplicates(Joined(ls))
    ensures forall p :: p in Joined(ls) <==> p in contents && n <= |p.segments| < n + |ls|
  {
    if ls != [] {
      assert forall i :: 0 <= i < |ls[1..]| ==> ls[1..][i] == ls[i + 1];
      JoinedLengths(ls[1..], n + 1, contents);
      assert LengthOk(ls[0], n + 0, contents);
      DisjointConcat(ls[0], Joined(ls[1..]));
    }
  }

  lemma DisjointConcat(a: seq<Path>, b: seq<Path>)
    requires NoDuplicates(a) && NoDuplicates(b) && forall p :: p in a ==> p !in b
    ensures NoDuplicates(a + b)
  {
    forall i, j | 0 <= i < j < |a + b| ensures (a + b)[i] != (a + b)[j] {
      if i < |a| && j >= |a| { assert a[i] in a && (a + b)[j] == b[j - |a|]; }
    }
  }

  /** The two lookups for a segment: what one of them has of `res`, or all they have if nothing was
      compared before. */
  method Narrow(res: Option<seq<Path>>, index: map<string, seq<Path>>, ghost i: nat, ghost contents: set<Path>,
      s: Segment, wildcards: bool) returns (next: seq<Path>)
    requires s.Name? && FragmentsOk(index, i, contents) && (res.Some? ==> NoDuplicates(res.value))
    requires s == WILDCARD ==> !wildcards
    ensures NoDuplicates(next) && forall p :: p in next <==>
      p in Candidates(index, s, wildcards) && (res.None? || p in res.value)
  {
    CandidatesAre(index, i, contents, s, wildcards);
    var second := if wildcards && "*" in index then Some(index["*"]) else None;
    var first := if s.text in index then Some(index[s.text]) else None;
    if first.None? {
      if second.None? { return []; }
      next := Pick(res, second.value, []);
    } else if second.None? {
      next := Pick(res, first.value, []);
    } else {
      next := Pick(res, first.value, second.value);
    }
  }

  /** Keeps of `res` what one of two lists has. */
  method Pick(res: Option<seq<Path>>, first: seq<Path>, second: seq<Path>) returns (next: seq<Path>)
    requires NoDuplicates(first + second) && (res.Some? ==> NoDuplicates(res.value))
    ensures NoDuplicates(next) && forall p :: p in next <==> p in first + second && (res.None? || p in res.value)
  {
    if res.None? { return first + second; }
    FilterKeeps(res.value, r => r in first || r in second);
    next := Filter(res.value, r => r in first || r in second);
  }

  class PathSet {
    var lengthIndex: seq<seq<Path>>
    var fragmentIndex: seq<map<string, seq<Path>>>
    var stringIndex: map<string, Path>

    ghost function Contents(): set<Path>
      reads this
    {
      stringIndex.Values
    }

    ghost predicate Valid()
      reads this
    {
      && StringsOk(stringIndex) && LengthsOk(lengthIndex, Contents())
      && |fragmentIndex| == (if lengthIndex == [] then 0 else |lengthIndex| - 1)
      && forall i :: 0 <= i < |fragmentIndex| ==> FragmentsOk(fragmentIndex[i], i, Contents())
    }

    constructor ()
      ensures Valid() && Contents() == {}
    {
      lengthIndex, fragmentIndex, stringIndex := [], [], map[];
    }

    method Get(path: Path) returns (p: Option<Path>)
      requires Valid() && WellFormed(path)
      ensures p == if path in Contents() then Some(path) else None
    {
      StoredByText(stringIndex, path);
      p := if Print(path) in stringIndex then Some(stringIndex[Print(path)]) else None;
    }

    /** The loop that makes room for a length. */
    method Grow(n: nat)
      requires Valid()
      modifies this`lengthIndex, this`fragmentIndex
      ensures Valid() && n < |lengthIndex|
    {
      while |lengthIndex| <= n
        invariant Valid()
        decreases n - |lengthIndex|
      {
        lengthIndex := lengthIndex + [[]];
        if |lengthIndex| > 1 { fragmentIndex := fragmentIndex + [map[]]; }
      }
    }

    /** A path with an alias is refused; any other ends up in the set. */
    method Add(path: Path) returns (p: Option<Path>)
      requires Valid() && WellFormed(path)
      modifies this
      ensures Valid() && p == if NoAlias(path) then Some(path) else None
      ensures Contents() == if NoAlias(path) then old(Contents()) + {path} else old(Contents())
    {
      PathCaches.NoAliasMask(path.segments);
      if PathCaches.AliasMask(path.segments) != ZERO { return None; }
      p := Get(path);
      if p.Some? { return p; }
      Grow(|path.segments|);
      ghost var before := Contents();
      StoredByText(stringIndex, path);
      var n := |path.segments|;
      LengthAdded(lengthIndex, before, path);
      ghost var fragments := fragmentIndex;
      TextAdded(stringIndex, path);
      stringIndex := stringIndex[Print(path) := path];
      ghost var after := before + {path};
      lengthIndex := lengthIndex[n := lengthIndex[n] + [path]];
      ghost var strings, lengths := stringIndex, lengthIndex;
      var i := 0;
      while i < n
        invariant i <= n && |fragmentIndex| == |fragments| && stringIndex == strings && lengthIndex == lengths
        invariant forall k :: 0 <= k < i ==> FragmentsOk(fragmentIndex[k], k, after)
        invariant forall k :: i <= k < |fragments| ==> fragmentIndex[k] == fragments[k]
      {
        var fragment, index := path.segments[i].text, fragmentIndex[i];
        var previous := if fragment in index then index[fragment] else [];
        FragmentAdded(index, i, before, path);
        fragmentIndex := fragmentIndex[i := index[fragment := previous + [path]]];
        i := i + 1;
      }
      forall k | n <= k < |fragmentIndex| ensures FragmentsOk(fragmentIndex[k], k, after) {
        assert FragmentsOk(fragments[k], k, before);
      }
      return Some(path);
    }

    /** Refused for a path with an alias. For any other, both the lookup by text and the walk over the
        indexes list what is found by the mask; that is what matches if the mask tells. */
    method Find(path: Path, superset: bool, subset: bool, depth: nat) returns (found: Option<seq<Path>>)
      requires Valid() && WellFormed(path)
      ensures found.None? <==> !NoAlias(path)
      ensures found.Some? ==> IsListed(found.value, Contents(), path, superset, subset, depth)
      ensures found.Some? && MaskTells(path) ==> IsFound(found.value, Contents(), path, superset, subset, depth)
    {
      PathCaches.NoAliasMask(path.segments);
      if PathCaches.AliasMask(path.segments) != ZERO { return None; }
      var len, wildcard := |path.segments|, PathCaches.WildcardMask(path.segments);
      if !superset && depth == len && (!subset || wildcard == ZERO) {
        var p := Get(path);
        ExactFound(path, subset);
        found := Some(if p.Some? then [p.value] else []);
      } else {
        var all := Walk(path, wildcard, superset, subset, depth);
        found := Some(all);
      }
      if MaskTells(path) { ListedIsFound(found.value, Contents(), path, superset, subset, depth); }
    }

    /** The walk over the indexes, from the last segment to the first. */
    method Walk(path: Path, wildcard: Word, superset: bool, subset: bool, depth: nat) returns (found: seq<Path>)
      requires Valid() && NoAlias(path) && wildcard == PathCaches.WildcardMask(path.segments)
      ensures IsListed(found, Contents(), path, superset, subset, depth)
    {
      hide StringsOk, Test, FragmentsOk, LengthOk, SegmentFound;
      var len := |path.segments|;
      if len >= |lengthIndex| || depth < len { return []; }
      var lengths := lengthIndex[len..if depth + 1 <= |lengthIndex| then depth + 1 else |lengthIndex|];
      var res: Option<seq<Path>> := None;
      var i := len;
      while i > 0
        invariant i <= len && (res.Some? ==> NoDuplicates(res.value))
        invariant Narrowed(res, Contents(), path, superset, subset, i)
      {
        i := i - 1;
        MaskTellsWildcards(path, i);
        if !(Test(wildcard, i) && subset) {
          ghost var before := res;
          var wildcards := !Test(wildcard, i) && superset;
          CandidatesAreFound(fragmentIndex[i], i, Contents(), path, superset, subset);
          var next := Narrow(res, fragmentIndex[i], i, Contents(), path.segments[i], wildcards);
          Narrows(before, next, fragmentIndex[i], Contents(), path, superset, subset, i);
          res := Some(next);
          if next == [] {
            NoneFound(Contents(), path, superset, subset, depth, i);
            return next;
          }
        } else {
          EverythingFound(res, Contents(), path, superset, subset, i);
        }
      }
      LengthSlice(lengthIndex, Contents(), len, |lengths|);
      var all := WithLengths(res, lengths, len, Contents());
      AllFound(res, all, Contents(), path, superset, subset, depth);
      return all;
    }
  }

  method WithLengths(res: Option<seq<Path>>, lengths: seq<seq<Path>>, ghost n: nat, ghost contents: set<Path>)
    returns (all: seq<Path>)
    requires forall k :: 0 <= k < |lengths| ==> LengthOk(lengths[k], n + k, contents)
    requires forall p :: (exists a <- lengths :: p in a) <==> p in contents && n <= |p.segments| < n + |lengths|
    requires res.Some? ==> NoDuplicates(res.value)
    ensures NoDuplicates(all)
    ensures forall p :: p in all <==>
      p in contents && n <= |p.segments| < n + |lengths| && (res.Some? ==> p in res.value)
  {
    if res.None? {
      JoinedLengths(lengths, n, contents);
      return Joined(lengths);
    }
    FilterKeeps(res.value, r => exists a <- lengths :: r in a);
    all := Filter(res.value, r => exists a <- lengths :: r in a);
  }

  /** A marked segment narrows nothing when subsets are wanted. */
  lemma EverythingFound(res: Option<seq<Path>>, contents: set<Path>, path: Path, superset: bool, subset: bool, i: nat)
    requires i < |path.segments| && Marked(path, i) && subset
    requires Narrowed(res, contents, path, superset, subset, i + 1)
    ensures Narrowed(res, contents, path, superset, subset, i)
  {
    hide Marked;
  }

  lemma AllFound(res: Option<seq<Path>>, all: seq<Path>, contents: set<Path>, path: Path, superset: bool,
      subset: bool, depth: nat)
    requires Narrowed(res, contents, path, superset, subset, 0) && NoDuplicates(all)
    requires forall p :: p in all <==>
      p in contents && |path.segments| <= |p.segments| <= depth && (res.Some? ==> p in res.value)
    ensures IsListed(all, contents, path, superset, subset, depth)
  {
    hide Marked;
  }

  /** Without a superset, and without marks if subsets are asked for, only the path itself is found among
      those of its length. */
  lemma ExactFound(path: Path, subset: bool)
    requires subset ==> PathCaches.WildcardMask(path.segments) == ZERO
    ensures forall p: Path :: FoundFrom(path, p, false, subset, 0) && |p.segments| <= |path.segments| <==> p == path
  {
    NonZeroHasBit(PathCaches.WildcardMask(path.segments));
    forall p: Path | FoundFrom(path, p, false, subset, 0) && |p.segments| <= |path.segments| ensures p == path {
      assert p.segments == path.segments;
    }
  }

  /** The candidates after the segments from `i` on are compared. */
  ghost predicate Narrowed(res: Option<seq<Path>>, contents: set<Path>, path: Path, superset: bool, subset: bool,
      i: nat) {
    match res
    case None => forall k :: i <= k < |path.segments| ==> subset && Marked(path, k)
    case Some(r) =>
      && NoDuplicates(r) && (forall p :: p in r ==> p in contents)
      && forall p: Path :: |p.segments| >= |path.segments| ==>
           (p in r <==> p in contents && FoundFrom(path, p, superset, subset, i))
  }

  function Candidates(f: map<string, seq<Path>>, s: Segment, wildcards: bool): seq<Path>
    requires s.Name?
  {
    (if s.text in f then f[s.text] else []) + if wildcards && "*" in f then f["*"] else []
  }

  lemma CandidatesAre(f: map<string, seq<Path>>, i: nat, contents: set<Path>, s: Segment, wildcards: bool)
    requires FragmentsOk(f, i, contents) && s.Name? && (s == WILDCARD ==> !wildcards)
    ensures NoDuplicates(Candidates(f, s, wildcards))
    ensures forall p :: p in Candidates(f, s, wildcards) <==>
      p in contents && i < |p.segments| && (p.segments[i] == s || (wildcards && p.segments[i] == WILDCARD))
  {
    var first := if s.text in f then f[s.text] else [];
    var second := if wildcards && "*" in f then f["*"] else [];
    forall p ensures p in first <==> p in contents && HasFragment(p, i, s.text) {}
    if wildcards {
      forall p ensures p in second <==> p in contents && HasFragment(p, i, "*") {}
    }
    DisjointConcat(first, second);
  }

  /** What the code looks up for a segment, unless it is marked and subsets are wanted. */
  lemma CandidatesAreFound(f: map<string, seq<Path>>, i: nat, contents: set<Path>, path: Path, superset: bool,
      subset: bool)
    requires FragmentsOk(f, i, contents) && i < |path.segments| && NoAlias(path) && !(Marked(path, i) && subset)
    requires path.segments[i] == WILDCARD ==> Marked(path, i)
    ensures forall p :: p in Candidates(f, path.segments[i], !Marked(path, i) && superset) <==>
      p in contents && i < |p.segments| &&
      SegmentFound(path.segments[i], p.segments[i], Marked(path, i), superset, subset)
  {
    hide Marked;
    CandidatesAre(f, i, contents, path.segments[i], !Marked(path, i) && superset);
  }

  lemma Narrows(res: Option<seq<Path>>, next: seq<Path>, f: map<string, seq<Path>>, contents: set<Path>, path: Path,
      superset: bool, subset: bool, i: nat)
    requires i < |path.segments| && path.segments[i].Name? && Narrowed(res, contents, path, superset, subset, i + 1)
    requires !(Marked(path, i) && subset)
    requires forall p :: p in Candidates(f, path.segments[i], !Marked(path, i) && superset) <==>
      p in contents && i < |p.segments| &&
      SegmentFound(path.segments[i], p.segments[i], Marked(path, i), superset, subset)
    requires NoDuplicates(next) && forall p :: p in next <==>
      p in Candidates(f, path.segments[i], !Marked(path, i) && superset) && (res.None? || p in res.value)
    ensures Narrowed(Some(next), contents, path, superset, subset, i)
  {
    hide Marked, Candidates;
    forall p: Path | |p.segments| >= |path.segments|
      ensures FoundFrom(path, p, superset, subset, i) <==>
        FoundFrom(path, p, superset, subset, i + 1) &&
        SegmentFound(path.segments[i], p.segments[i], Marked(path, i), superset, subset)
    {
    }
  }

  lemma NoneFound(contents: set<Path>, path: Path, superset: bool, subset: bool, depth: nat, i: nat)
    requires i <= |path.segments| && Narrowed(Some([]), contents, path, superset, subset, i)
    ensures IsListed([], contents, path, superset, subset, depth)
  {
    hide Marked;
    forall p | p in contents ensures !FoundFrom(path, p, superset, subset, 0) {
      assert |p.segments| >= |path.segments| ==> !FoundFrom(path, p, superset, subset, i);
    }
  }

  lemma LengthSlice(ls: seq<seq<Path>>, contents: set<Path>, n: nat, count: nat)
    requires LengthsOk(ls, contents) && n + count <= |ls|
    ensures var part := ls[n..n + count]; forall k :: 0 <= k < |part| ==> LengthOk(part[k], n + k, contents)
    ensures forall p :: (exists a <- ls[n..n + count] :: p in a) <==> p in contents && n <= |p.segments| < n + count
  {
    var part := ls[n..n + count];
    forall k | 0 <= k < count ensures LengthOk(part[k], n + k, contents) { assert part[k] == ls[n + k]; }
    forall p ensures (exists a <- part :: p in a) <==> p in contents && n <= |p.segments| < n + count {
      if p in contents && n <= |p.segments| < n + count {
        assert p in part[|p.segments| - n];
      }
    }
  }

  lemma TextAdded(strings: map<string, Path>, path: Path)
    requires StringsOk(strings) && WellFormed(path) && NoAlias(path) && Print(path) !in strings
    ensures var added := strings[Print(path) := path]; StringsOk(added) && added.Values == strings.Values + {path}
  {
    var added := strings[Print(path) := path];
    forall p | p in strings.Values ensures p in added.Values {
      var s :| s in strings && strings[s] == p;
      assert added[s] == p;
    }
    assert added[Print(path)] == path;
  }

  lemma LengthAdded(ls: seq<seq<Path>>, contents: set<Path>, path: Path)
    requires LengthsOk(ls, contents) && path !in contents && |path.segments| < |ls|
    ensures var n := |path.segments|; LengthsOk(ls[n := ls[n] + [path]], contents + {path})
  {
    var n := |path.segments|;
    var l := ls[n] + [path];
    assert LengthOk(ls[n], n, contents);
    assert LengthOk(l, n, contents + {path});
    forall k | 0 <= k < |ls| && k != n ensures LengthOk(ls[k], k, contents + {path}) {
      assert LengthOk(ls[k], k, contents);
    }
  }

  lemma FragmentAdded(f: map<string, seq<Path>>, i: nat, contents: set<Path>, path: Path)
    requires FragmentsOk(f, i, contents) && path !in contents && i < |path.segments| && path.segments[i].Name?
    ensures var s := path.segments[i].text;
      FragmentsOk(f[s := (if s in f then f[s] else []) + [path]], i, contents + {path})
  {}
}
