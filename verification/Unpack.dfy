/** How a path with aliases selects parameters (`unpack`, `getAliasDeclarations` of lib/device.ts). */
module Unpacking {
  import opened Options
  import opened Sequences
  import opened Word32
  import opened Paths
  import opened PathSets
  import opened Devices
  import PathCaches

  // ---- Nesting of aliases ----

  function Max(a: nat, b: nat): nat { if a < b then b else a }

  function Depth(ss: seq<Segment>): nat { if ss == [] then 0 else Max(SegmentDepth(ss[0]), Depth(ss[1..])) }

  function SegmentDepth(s: Segment): nat {
    match s
    case Name(_) => 0
    case Alias(pairs) => 1 + PairsDepth(pairs)
  }

  function PairsDepth(ps: seq<Pair>): nat {
    if ps == [] then 0 else Max(Depth(ps[0].path.segments), PairsDepth(ps[1..]))
  }

  lemma {:induction false} DepthOfPart(ss: seq<Segment>, i: nat)
    requires i < |ss|
    ensures SegmentDepth(ss[i]) <= Depth(ss)
  {
    if i > 0 { DepthOfPart(ss[1..], i - 1); }
  }

  lemma {:induction false} DepthOfPair(ps: seq<Pair>, k: nat)
    requires k < |ps|
    ensures Depth(ps[k].path.segments) <= PairsDepth(ps)
  {
    if k > 0 { DepthOfPair(ps[1..], k - 1); }
  }

  lemma {:induction false} NamesAddNoDepth(a: seq<Segment>, b: seq<Segment>)
    requires forall i :: 0 <= i < |a| ==> a[i].Name?
    ensures Depth(a + b) == Depth(b)
  {
    if a == [] {
      assert a + b == b;
    } else {
      NamesAddNoDepth(a[1..], b);
      assert (a + b)[1..] == a[1..] + b;
    }
  }

  // ---- What is selected ----

  predicate HasPair(path: Path, i: int, k: int) {
    0 <= i < |path.segments| && path.segments[i].Alias? && 0 <= k < |path.segments[i].pairs|
  }

  /** The parameters that can bear witness for pair `k` of the alias at `i`; aliases in them are nested
      less deep. */
  function Query(path: Path, i: int, k: int): (q: Path)
    requires HasPair(path, i, k)
    ensures Depth(q.segments) < Depth(path.segments)
  {
    var head, param := PathCaches.Stripped(path.segments)[..i + 1], path.segments[i].pairs[k].path;
    DepthOfPart(path.segments, i);
    DepthOfPair(path.segments[i].pairs, k);
    NamesAddNoDepth(head, param.segments);
    Path(head + param.segments)
  }

  function ValueOf(path: Path, i: int, k: int): string
    requires HasPair(path, i, k)
  {
    path.segments[i].pairs[k].value
  }

  /** The parameter has the given text for its value, read as a value of its type. */
  predicate HasValue(attributes: map<Path, Attributes>, sanitize: (string, string) -> Scalar, up: Path, value: string) {
    && up in attributes && Value in attributes[up] && attributes[up][Value].content.Typed?
    && sanitize(value, attributes[up][Value].content.kind) == attributes[up][Value].content.scalar
  }

  predicate SamePrefix(p: Path, up: Path, i: int) {
    i < |p.segments| && i < |up.segments| && forall j :: 0 <= j <= i ==> p.segments[j] == up.segments[j]
  }

  /** `p` exists, matches the path with a wildcard for every alias, and every key and value of every alias
      is borne out by a parameter that is itself selected by the key, below the same instance. */
  ghost predicate Selected(attributes: map<Path, Attributes>, sanitize: (string, string) -> Scalar, path: Path, p: Path)
    decreases Depth(path.segments), 1
  {
    Candidate(attributes, path, p) && forall i, k :: HasPair(path, i, k) ==>
      BorneOut(attributes, sanitize, path, p, i, k)
  }

  ghost predicate BorneOut(attributes: map<Path, Attributes>, sanitize: (string, string) -> Scalar, path: Path,
      p: Path, i: int, k: int)
    requires HasPair(path, i, k)
    decreases Depth(path.segments), 0
  {
    exists up <- attributes ::
      Selected(attributes, sanitize, Query(path, i, k), up)
        && HasValue(attributes, sanitize, up, ValueOf(path, i, k)) && SamePrefix(p, up, i)
  }

  predicate Candidate(attributes: map<Path, Attributes>, path: Path, p: Path) {
    p in attributes && |p.segments| == |path.segments|
      && Matches(Path(PathCaches.Stripped(path.segments)), p, false, true)
  }

  ghost predicate AliasMaskTells(path: Path) {
    forall i :: 0 <= i < |path.segments| && Test(PathCaches.AliasMask(path.segments), i) ==> path.segments[i].Alias?
  }

  /** Without an alias, and up to 32 segments, the masks of a path tell what it has. */
  lemma MasksTell(path: Path)
    ensures PathCaches.AliasMask(path.segments) == ZERO || |path.segments| <= 32 ==> AliasMaskTells(path)
    ensures |path.segments| <= 32 ==> MaskTells(Path(PathCaches.Stripped(path.segments)))
  {
    if |path.segments| <= 32 {
      ShortMaskTells(Path(PathCaches.Stripped(path.segments)));
      forall i | 0 <= i < |path.segments| && Test(PathCaches.AliasMask(path.segments), i)
        ensures path.segments[i].Alias?
      {
        PathCaches.MasksAreExact(path.segments, i);
      }
    }
  }

  /** The masks of all patterns that are looked up tell their wildcards, as they do up to 32 segments. */
  ghost predicate Fits(path: Path)
    decreases Depth(path.segments)
  {
    && MaskTells(Path(PathCaches.Stripped(path.segments))) && AliasMaskTells(path)
    && forall i, k :: HasPair(path, i, k) ==> Fits(Query(path, i, k))
  }

  lemma {:induction false} WellFormedPair(ps: seq<Pair>, k: nat)
    requires WellFormedPairs(ps) && k < |ps|
    ensures WellFormed(ps[k].path)
  {
    if k > 0 { WellFormedPair(ps[1..], k - 1); }
  }

  lemma WellFormedQuery(path: Path, i: int, k: int)
    requires WellFormed(path) && HasPair(path, i, k)
    ensures WellFormed(Query(path, i, k))
  {
    PathCaches.WellFormedAt(path.segments, i);
    WellFormedPair(path.segments[i].pairs, k);
    PathCaches.WellFormedStripped(path.segments);
    PathCaches.WellFormedPart(PathCaches.Stripped(path.segments), 0, i + 1);
    PathCaches.WellFormedJoin(PathCaches.Stripped(path.segments)[..i + 1], path.segments[i].pairs[k].path.segments);
  }

  // ---- unpack ----

  method ExistingMatches(paths: PathSet, attributes: map<Path, Attributes>, path: Path) returns (r: seq<Path>)
    requires paths.Valid() && WellFormed(path) && attributes.Keys <= paths.Contents()
    requires MaskTells(Path(PathCaches.Stripped(path.segments)))
    ensures NoDuplicates(r) && forall p :: p in r <==> Candidate(attributes, path, p)
  {
    var wildcardPath := Path(PathCaches.Stripped(path.segments));
    PathCaches.WellFormedStripped(path.segments);
    var found := paths.Find(wildcardPath, false, true, |path.segments|);
    FilterKeeps(found.value, p => p in attributes);
    r := Filter(found.value, p => p in attributes);
  }

  method HasSamePrefix(p: Path, up: Path, i: nat) returns (same: bool)
    requires i < |p.segments| && i < |up.segments|
    ensures same == SamePrefix(p, up, i)
  {
    var k := i;
    while k >= 0
      invariant -1 <= k <= i && forall j :: k < j <= i ==> p.segments[j] == up.segments[j]
    {
      if p.segments[k] != up.segments[k] { break; }
      k := k - 1;
    }
    same := k < 0;
  }

  ghost predicate Borne(attributes: map<Path, Attributes>, sanitize: (string, string) -> Scalar, ups: seq<Path>,
      value: string, p: Path, i: int) {
    exists up <- ups :: HasValue(attributes, sanitize, up, value) && SamePrefix(p, up, i)
  }

  /** One pair: keeps the matches that some witness bears out, each once. */
  method KeepBorne(matches: seq<Path>, unpacked: seq<Path>, attributes: map<Path, Attributes>,
      sanitize: (string, string) -> Scalar, value: string, i: nat) returns (filtered: seq<Path>)
    requires NoDuplicates(matches)
    requires (forall p <- matches :: i < |p.segments|) && forall up <- unpacked :: i < |up.segments|
    ensures NoDuplicates(filtered)
    ensures forall p :: p in filtered <==> p in matches && Borne(attributes, sanitize, unpacked, value, p, i)
  {
    filtered := [];
    var slots := seq(|matches|, m requires 0 <= m < |matches| => Some(matches[m]));
    var j := 0;
    while j < |unpacked|
      invariant j <= |unpacked| && NoDuplicates(filtered)
      invariant Slots(matches, slots, filtered)
      invariant forall p :: p in filtered <==> p in matches && Borne(attributes, sanitize, unpacked[..j], value, p, i)
    {
      var up := unpacked[j];
      assert unpacked[..j + 1] == unpacked[..j] + [up];
      ghost var before := filtered;
      if HasValue(attributes, sanitize, up, value) {
        slots, filtered := TakeBorne(matches, slots, filtered, up, i);
      }
      BorneByOneMore(attributes, sanitize, unpacked[..j], up, value, i);
      j := j + 1;
    }
    assert unpacked[..j] == unpacked;
  }

  lemma BorneByOneMore(attributes: map<Path, Attributes>, sanitize: (string, string) -> Scalar, ups: seq<Path>,
      up: Path, value: string, i: int)
    ensures forall p :: Borne(attributes, sanitize, ups + [up], value, p, i) <==>
      Borne(attributes, sanitize, ups, value, p, i)
        || (HasValue(attributes, sanitize, up, value) && SamePrefix(p, up, i))
  {
    assert forall x :: x in ups + [up] <==> x in ups || x == up;
  }

  /** A slot is emptied when its match is taken. */
  ghost predicate Slots(matches: seq<Path>, slots: seq<Option<Path>>, taken: seq<Path>) {
    |slots| == |matches| && (forall p <- taken :: p in matches) &&
    forall m :: 0 <= m < |matches| ==> slots[m] == if matches[m] in taken then None else Some(matches[m])
  }

  /** The innermost loop: takes the matches below the instance of one witness. */
  method TakeBorne(matches: seq<Path>, slots: seq<Option<Path>>, taken: seq<Path>, up: Path, i: nat)
    returns (slots': seq<Option<Path>>, taken': seq<Path>)
    requires NoDuplicates(matches) && NoDuplicates(taken) && Slots(matches, slots, taken)
    requires i < |up.segments| && forall p <- matches :: i < |p.segments|
    ensures NoDuplicates(taken') && Slots(matches, slots', taken')
    ensures forall p :: p in taken' <==> p in taken || (p in matches && SamePrefix(p, up, i))
  {
    slots', taken' := slots, taken;
    var m := 0;
    while m < |slots'|
      invariant m <= |slots'| == |matches| && NoDuplicates(taken') && Slots(matches, slots', taken')
      invariant forall p :: p in taken' <==> p in taken || (p in matches[..m] && SamePrefix(p, up, i))
    {
      assert matches[..m + 1] == matches[..m] + [matches[m]];
      if slots'[m].Some? {
        var match_ := slots'[m].value;
        var same := HasSamePrefix(match_, up, i);
        if same {
          taken' := taken' + [match_];
          slots' := slots'[m := None];
        }
      }
      m := m + 1;
    }
    assert matches[..m] == matches;
  }

  /** Lists, each once, exactly the parameters that the path selects. */
  method Unpack(paths: PathSet, attributes: map<Path, Attributes>, path: Path, sanitize: (string, string) -> Scalar)
      returns (r: seq<Path>)
    requires paths.Valid() && attributes.Keys <= paths.Contents() && WellFormed(path) && Fits(path)
    ensures NoDuplicates(r) && forall p :: p in r <==> Selected(attributes, sanitize, path, p)
    decreases Depth(path.segments)
  {
    PathCaches.NoAliasMask(path.segments);
    r := ExistingMatches(paths, attributes, path);
    var alias := PathCaches.AliasMask(path.segments);
    if alias == ZERO { return; }
    var i := |path.segments|;
    while i > 0
      invariant i <= |path.segments| && NoDuplicates(r)
      invariant forall p :: p in r <==> Candidate(attributes, path, p) && BorneOutFrom(attributes, sanitize, path, p, i)
    {
      i := i - 1;
      PathCaches.AliasIsMarked(path.segments, i);
      if Test(alias, i) {
        r := UnpackAlias(paths, attributes, path, sanitize, i, r);
      }
    }
  }

  ghost predicate BorneOutFrom(attributes: map<Path, Attributes>, sanitize: (string, string) -> Scalar, path: Path,
      p: Path, n: int) {
    forall i, k :: n <= i && HasPair(path, i, k) ==> BorneOut(attributes, sanitize, path, p, i, k)
  }

  ghost predicate BorneOutAt(attributes: map<Path, Attributes>, sanitize: (string, string) -> Scalar, path: Path,
      p: Path, i: int, n: int) {
    forall k :: k < n && HasPair(path, i, k) ==> BorneOut(attributes, sanitize, path, p, i, k)
  }

  lemma OnePairMore(attributes: map<Path, Attributes>, sanitize: (string, string) -> Scalar, path: Path, i: nat, k: nat)
    requires HasPair(path, i, k)
    ensures forall p :: BorneOutAt(attributes, sanitize, path, p, i, k + 1) <==>
      BorneOutAt(attributes, sanitize, path, p, i, k) && BorneOut(attributes, sanitize, path, p, i, k)
  {
    hide BorneOut;
  }

  lemma OneAliasMore(attributes: map<Path, Attributes>, sanitize: (string, string) -> Scalar, path: Path, i: nat)
    requires i < |path.segments| && path.segments[i].Alias?
    ensures forall p :: BorneOutFrom(attributes, sanitize, path, p, i) <==>
      && BorneOutFrom(attributes, sanitize, path, p, i + 1)
      && BorneOutAt(attributes, sanitize, path, p, i, |path.segments[i].pairs|)
  {
    hide BorneOut;
  }

  /** The loop over the pairs of one alias. */
  method UnpackAlias(paths: PathSet, attributes: map<Path, Attributes>, path: Path,
      sanitize: (string, string) -> Scalar, i: nat, matches: seq<Path>) returns (r: seq<Path>)
    requires paths.Valid() && attributes.Keys <= paths.Contents() && WellFormed(path) && Fits(path)
    requires i < |path.segments| && path.segments[i].Alias? && NoDuplicates(matches)
    requires forall p :: p in matches <==>
      Candidate(attributes, path, p) && BorneOutFrom(attributes, sanitize, path, p, i + 1)
    ensures NoDuplicates(r) && forall p :: p in r <==>
      Candidate(attributes, path, p) && BorneOutFrom(attributes, sanitize, path, p, i)
    decreases Depth(path.segments), 0
  {
    r := matches;
    var k := 0;
    while k < |path.segments[i].pairs|
      invariant k <= |path.segments[i].pairs| && NoDuplicates(r)
      invariant forall p :: p in r <==> p in matches && BorneOutAt(attributes, sanitize, path, p, i, k)
    {
      WellFormedQuery(path, i, k);
      var unpacked := Unpack(paths, attributes, Query(path, i, k), sanitize);
      r := KeepBorne(r, unpacked, attributes, sanitize, ValueOf(path, i, k), i);
      OnePairMore(attributes, sanitize, path, i, k);
      k := k + 1;
    }
    OneAliasMore(attributes, sanitize, path, i);
  }
}
