/** What the aliases of a path select (lib/device.ts, `unpack`), said of the instance itself and without wildcards
    or comparisons of prefixes. */
module Selections {
  import opened Options
  import opened Paths
  import opened PathSets
  import opened Devices
  import opened Unpacking
  import PathCaches

  /** A name is itself, and a wildcard or an alias may be any instance. */
  predicate Allows(x: Segment, t: Segment) { x == t || x == WILDCARD || x.Alias? }

  /** The key of pair `k` of the alias at `j`, aliases in which are nested less deep. */
  function Key(pattern: seq<Segment>, j: int, k: int): (key: seq<Segment>)
    requires HasPair(Path(pattern), j, k)
    ensures Depth(key) < Depth(pattern)
  {
    DepthOfPart(pattern, j);
    DepthOfPair(pattern[j].pairs, k);
    pattern[j].pairs[k].path.segments
  }

  /** `p` exists below `base` as the pattern has it; and for each pair of each alias, below the instance that the
      alias stands for in `p`, a parameter as the key has it has the value. */
  ghost predicate Below(attributes: map<Path, Attributes>, sanitize: (string, string) -> Scalar, base: seq<Segment>,
      pattern: seq<Segment>, p: Path)
    decreases Depth(pattern), 1
  {
    && p in attributes && base <= p.segments && |p.segments| == |base| + |pattern|
    && (forall j :: 0 <= j < |pattern| ==> Allows(pattern[j], p.segments[|base| + j]))
    && forall j, k :: HasPair(Path(pattern), j, k) ==>
         Witnessed(attributes, sanitize, p.segments[..|base| + j + 1], pattern, j, k)
  }

  ghost predicate Witnessed(attributes: map<Path, Attributes>, sanitize: (string, string) -> Scalar,
      instance: seq<Segment>, pattern: seq<Segment>, j: int, k: int)
    requires HasPair(Path(pattern), j, k)
    decreases Depth(pattern), 0
  {
    exists up <- attributes ::
      && Below(attributes, sanitize, instance, Key(pattern, j, k), up)
      && Says(attributes[up], sanitize, pattern[j].pairs[k].value)
  }

  /** The value is what the text is read as, in a type that the parameter has. */
  ghost predicate Says(m: Attributes, sanitize: (string, string) -> Scalar, text: string) {
    Value in m && exists kind: string :: m[Value].content == Typed(sanitize(text, kind), kind)
  }

  lemma ValueSays(attributes: map<Path, Attributes>, sanitize: (string, string) -> Scalar, up: Path, text: string)
    requires up in attributes
    ensures HasValue(attributes, sanitize, up, text) <==> Says(attributes[up], sanitize, text)
  {}

  predicate AllNames(ss: seq<Segment>) { forall i :: 0 <= i < |ss| ==> ss[i].Name? }

  /** `p` begins as the names and wildcards of `head` have it. */
  predicate Headed(head: seq<Segment>, p: Path) {
    |head| <= |p.segments| && forall i :: 0 <= i < |head| ==> Allows(head[i], p.segments[i])
  }

  predicate Tailed(pattern: seq<Segment>, p: Path, n: nat) {
    |p.segments| == n + |pattern| && forall j :: 0 <= j < |pattern| ==> Allows(pattern[j], p.segments[n + j])
  }

  lemma StrippedAllows(ss: seq<Segment>, i: nat, t: Segment)
    requires i < |ss|
    ensures SegmentMatches(PathCaches.Stripped(ss)[i], t, false, true) <==> Allows(ss[i], t)
  {}

  lemma CandidateHasBoth(attributes: map<Path, Attributes>, head: seq<Segment>, pattern: seq<Segment>, p: Path)
    ensures Candidate(attributes, Path(head + pattern), p) <==>
      p in attributes && Headed(head, p) && Tailed(pattern, p, |head|)
  {
    var ss := head + pattern;
    hide SegmentMatches, Allows;
    if |p.segments| == |ss| {
      forall i | 0 <= i < |ss|
        ensures SegmentMatches(PathCaches.Stripped(ss)[i], p.segments[i], false, true) <==> Allows(ss[i], p.segments[i])
      {
        StrippedAllows(ss, i, p.segments[i]);
      }
      assert forall i :: 0 <= i < |head| ==> ss[i] == head[i];
      assert forall j :: 0 <= j < |pattern| ==> ss[|head| + j] == pattern[j];
      if Headed(head, p) && Tailed(pattern, p, |head|) {
        forall i | 0 <= i < |ss| ensures Allows(ss[i], p.segments[i]) {
          if i >= |head| { assert Allows(pattern[i - |head|], p.segments[|head| + (i - |head|)]); }
        }
      }
    }
  }

  lemma PairsOfBoth(head: seq<Segment>, pattern: seq<Segment>, i: int, k: int)
    requires AllNames(head)
    ensures HasPair(Path(head + pattern), i, k) <==> i >= |head| && HasPair(Path(pattern), i - |head|, k)
  {}

  /** A witness that shares the prefix with `p` is one below the instance. */
  lemma {:induction false} SelectedIsBelow(attributes: map<Path, Attributes>, sanitize: (string, string) -> Scalar,
      head: seq<Segment>, pattern: seq<Segment>, p: Path)
    requires AllNames(head)
    ensures Selected(attributes, sanitize, Path(head + pattern), p) <==>
      Headed(head, p) && Below(attributes, sanitize, p.segments[..|head|], pattern, p)
    decreases Depth(pattern), 2
  {
    hide Candidate, Headed, Tailed, AllNames, Allows, BorneOut, Witnessed;
    var path := Path(head + pattern);
    CandidateHasBoth(attributes, head, pattern, p);
    HeadIsThere(head, p);
    if p in attributes && Headed(head, p) && Tailed(pattern, p, |head|) {
      BaseIsThere(attributes, sanitize, head, pattern, p);
      if Selected(attributes, sanitize, path, p) {
        forall j, k | HasPair(Path(pattern), j, k)
          ensures |head| + j + 1 <= |p.segments|
            && Witnessed(attributes, sanitize, p.segments[..|head| + j + 1], pattern, j, k)
        {
          PairIsWitnessed(attributes, sanitize, head, pattern, p, j, k);
        }
      }
      if Below(attributes, sanitize, p.segments[..|head|], pattern, p) {
        forall i, k | HasPair(path, i, k) ensures BorneOut(attributes, sanitize, path, p, i, k) {
          PairsOfBoth(head, pattern, i, k);
          PairIsWitnessed(attributes, sanitize, head, pattern, p, i - |head|, k);
        }
      }
    } else if Headed(head, p) && Below(attributes, sanitize, p.segments[..|head|], pattern, p) {
      TailIsThere(attributes, sanitize, head, pattern, p);
    }
  }

  lemma HeadIsThere(head: seq<Segment>, p: Path)
    ensures Headed(head, p) ==> |head| <= |p.segments|
  {}

  lemma BaseIsThere(attributes: map<Path, Attributes>, sanitize: (string, string) -> Scalar, head: seq<Segment>,
      pattern: seq<Segment>, p: Path)
    requires p in attributes && Headed(head, p) && Tailed(pattern, p, |head|)
    ensures Below(attributes, sanitize, p.segments[..|head|], pattern, p) <==>
      forall j, k :: HasPair(Path(pattern), j, k) ==>
        Witnessed(attributes, sanitize, p.segments[..|head| + j + 1], pattern, j, k)
  {
    hide Witnessed, Allows;
  }

  lemma TailIsThere(attributes: map<Path, Attributes>, sanitize: (string, string) -> Scalar, head: seq<Segment>,
      pattern: seq<Segment>, p: Path)
    requires |head| <= |p.segments| && Below(attributes, sanitize, p.segments[..|head|], pattern, p)
    ensures p in attributes && Tailed(pattern, p, |head|)
  {
    hide Witnessed, Allows;
  }

  lemma {:induction false} PairIsWitnessed(attributes: map<Path, Attributes>, sanitize: (string, string) -> Scalar,
      head: seq<Segment>, pattern: seq<Segment>, p: Path, j: int, k: int)
    requires AllNames(head) && HasPair(Path(pattern), j, k) && Headed(head, p) && Tailed(pattern, p, |head|)
    ensures HasPair(Path(head + pattern), |head| + j, k) && |head| + j + 1 <= |p.segments|
    ensures BorneOut(attributes, sanitize, Path(head + pattern), p, |head| + j, k) <==>
      Witnessed(attributes, sanitize, p.segments[..|head| + j + 1], pattern, j, k)
    decreases Depth(pattern), 1
  {
    hide Headed, Tailed, AllNames, HasValue, Says, Below, Selected, SamePrefix, Key, Query, ValueOf;
    PairsOfBoth(head, pattern, |head| + j, k);
    InstanceFits(head, pattern, p, j, k);
    var path, i, key, instance := Path(head + pattern), |head| + j, Key(pattern, j, k), p.segments[..|head| + j + 1];
    forall up | up in attributes ensures
      Selected(attributes, sanitize, Query(path, i, k), up) && HasValue(attributes, sanitize, up, ValueOf(path, i, k))
        && SamePrefix(p, up, i)
      <==>
      Below(attributes, sanitize, instance, key, up) && Says(attributes[up], sanitize, pattern[j].pairs[k].value)
    {
      WitnessAlike(attributes, sanitize, head, pattern, p, j, k, up);
    }
  }

  lemma {:induction false} WitnessAlike(attributes: map<Path, Attributes>, sanitize: (string, string) -> Scalar,
      head: seq<Segment>, pattern: seq<Segment>, p: Path, j: int, k: int, up: Path)
    requires AllNames(head) && HasPair(Path(pattern), j, k) && Headed(head, p) && Tailed(pattern, p, |head|)
    requires HasPair(Path(head + pattern), |head| + j, k) && |head| + j + 1 <= |p.segments| && up in attributes
    ensures var path, i := Path(head + pattern), |head| + j;
      Selected(attributes, sanitize, Query(path, i, k), up) && HasValue(attributes, sanitize, up, ValueOf(path, i, k))
        && SamePrefix(p, up, i)
      <==>
      Below(attributes, sanitize, p.segments[..i + 1], Key(pattern, j, k), up)
        && Says(attributes[up], sanitize, pattern[j].pairs[k].value)
    decreases Depth(pattern), 0
  {
    hide Headed, Tailed, AllNames, HasValue, Says, Below, Selected, SamePrefix;
    var path, i, key := Path(head + pattern), |head| + j, Key(pattern, j, k);
    var above := PathCaches.Stripped(path.segments)[..i + 1];
    assert path.segments[i] == pattern[j] && Query(path, i, k) == Path(above + key);
    InstanceFits(head, pattern, p, j, k);
    SelectedIsBelow(attributes, sanitize, above, key, up);
    InstanceShared(attributes, sanitize, above, key, p, up, i);
    ValueSays(attributes, sanitize, up, pattern[j].pairs[k].value);
  }

  lemma InstanceFits(head: seq<Segment>, pattern: seq<Segment>, p: Path, j: int, k: int)
    requires AllNames(head) && HasPair(Path(pattern), j, k) && Headed(head, p) && Tailed(pattern, p, |head|)
    ensures |head| + j + 1 <= |p.segments|
    ensures var above := PathCaches.Stripped(head + pattern)[..|head| + j + 1];
      AllNames(above) && Headed(above, p)
  {
    var ss := head + pattern;
    var above := PathCaches.Stripped(ss)[..|head| + j + 1];
    forall i | 0 <= i < |above| ensures above[i].Name? && Allows(above[i], p.segments[i]) {
      if i >= |head| { assert Allows(pattern[i - |head|], p.segments[|head| + (i - |head|)]); }
    }
  }

  lemma InstanceShared(attributes: map<Path, Attributes>, sanitize: (string, string) -> Scalar, above: seq<Segment>,
      key: seq<Segment>, p: Path, up: Path, i: nat)
    requires |above| == i + 1 && Headed(above, p)
    ensures Headed(above, up) && Below(attributes, sanitize, up.segments[..i + 1], key, up) && SamePrefix(p, up, i) <==>
      Below(attributes, sanitize, p.segments[..i + 1], key, up)
  {
    hide Allows;
    var instance := p.segments[..i + 1];
    if SamePrefix(p, up, i) {
      assert up.segments[..i + 1] == instance;
    }
    if Below(attributes, sanitize, instance, key, up) {
      assert forall j :: 0 <= j <= i ==> up.segments[j] == instance[j];
    }
  }

  /** A parameter is selected by a path if and only if it exists as the path has it and each alias is borne out
      below its own instance. */
  lemma SelectedExactly(attributes: map<Path, Attributes>, sanitize: (string, string) -> Scalar, path: Path, p: Path)
    ensures Selected(attributes, sanitize, path, p) <==> Below(attributes, sanitize, [], path.segments, p)
  {
    SelectedIsBelow(attributes, sanitize, [], path.segments, p);
    assert [] + path.segments == path.segments && p.segments[..0] == [];
  }
}
