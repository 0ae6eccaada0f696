/** What `getAliasDeclarations` of lib/device.ts declares is what `unpack` reads. */
module AliasDeclarations {
  import opened Options
  import opened Word32
  import opened Paths
  import opened Unpacking
  import PathCaches

  /** A declaration that refreshes the existence of parameters, and their values if asked for. */
  datatype Declaration = Declaration(path: Path, pathGet: nat, valueGet: Option<nat>)

  ghost function Declared(path: Path, timestamp: nat, valueGet: Option<nat>): seq<Declaration>
    decreases Depth(path.segments), 2, 0
  {
    [Declaration(Path(PathCaches.Stripped(path.segments)), timestamp, valueGet)]
      + DeclaredBelow(path, timestamp, |path.segments|)
  }

  /** For the aliases among the first `i` segments. */
  ghost function DeclaredBelow(path: Path, timestamp: nat, i: nat): seq<Declaration>
    requires i <= |path.segments|
    decreases Depth(path.segments), 1, i
  {
    if i == 0 then []
    else if path.segments[i - 1].Name? then DeclaredBelow(path, timestamp, i - 1)
    else DeclaredBelow(path, timestamp, i - 1) + DeclaredPairs(path, timestamp, i - 1, |path.segments[i - 1].pairs|)
  }

  /** For the first `k` pairs of the alias at `i`. */
  ghost function DeclaredPairs(path: Path, timestamp: nat, i: nat, k: nat): seq<Declaration>
    requires i < |path.segments| && path.segments[i].Alias? && k <= |path.segments[i].pairs|
    decreases Depth(path.segments), 0, k
  {
    if k == 0 then []
    else DeclaredPairs(path, timestamp, i, k - 1) + Declared(Query(path, i, k - 1), timestamp, Some(timestamp))
  }

  /** Unpacking `path` looks up `q`: itself, or the query for a pair, however deep. */
  ghost predicate Asks(path: Path, q: Path)
    decreases Depth(path.segments), 1
  {
    q == path || AsksBelow(path, q)
  }

  ghost predicate AsksBelow(path: Path, q: Path)
    decreases Depth(path.segments), 0
  {
    exists i, k :: HasPair(path, i, k) && Asks(Query(path, i, k), q)
  }

  ghost predicate IsFor(d: Declaration, q: Path, timestamp: nat, valueGet: Option<nat>) {
    d == Declaration(Path(PathCaches.Stripped(q.segments)), timestamp, valueGet)
  }

  lemma {:induction false} DeclaresWhatIsAsked(path: Path, timestamp: nat, valueGet: Option<nat>, q: Path)
    requires Asks(path, q)
    ensures exists d <- Declared(path, timestamp, valueGet) ::
      IsFor(d, q, timestamp, valueGet) || IsFor(d, q, timestamp, Some(timestamp))
    ensures q != path ==> exists d <- Declared(path, timestamp, valueGet) :: IsFor(d, q, timestamp, Some(timestamp))
    decreases Depth(path.segments)
  {
    if q == path {
      assert IsFor(Declared(path, timestamp, valueGet)[0], q, timestamp, valueGet);
    } else {
      var i, k :| HasPair(path, i, k) && Asks(Query(path, i, k), q);
      DeclaresWhatIsAsked(Query(path, i, k), timestamp, Some(timestamp), q);
      var d :| d in Declared(Query(path, i, k), timestamp, Some(timestamp)) && IsFor(d, q, timestamp, Some(timestamp));
      PairsInclude(path, timestamp, i, k + 1, |path.segments[i].pairs|, d);
      BelowIncludes(path, timestamp, i + 1, |path.segments|, d);
    }
  }

  lemma {:induction false} PairsInclude(path: Path, timestamp: nat, i: nat, k: nat, n: nat, d: Declaration)
    requires i < |path.segments| && path.segments[i].Alias? && k <= n <= |path.segments[i].pairs|
    requires d in DeclaredPairs(path, timestamp, i, k)
    ensures d in DeclaredPairs(path, timestamp, i, n)
    decreases n
  {
    if k < n { PairsInclude(path, timestamp, i, k, n - 1, d); }
  }

  lemma {:induction false} BelowIncludes(path: Path, timestamp: nat, i: nat, n: nat, d: Declaration)
    requires i <= n <= |path.segments| && d in DeclaredBelow(path, timestamp, i)
    ensures d in DeclaredBelow(path, timestamp, n)
    decreases n
  {
    if i < n { BelowIncludes(path, timestamp, i, n - 1, d); }
  }

  lemma {:induction false} AsksWhatIsDeclared(path: Path, timestamp: nat, valueGet: Option<nat>, d: Declaration)
    requires d in Declared(path, timestamp, valueGet)
    ensures
      IsFor(d, path, timestamp, valueGet) || exists q :: AsksBelow(path, q) && IsFor(d, q, timestamp, Some(timestamp))
    decreases Depth(path.segments), 2, 0
  {
    if !IsFor(d, path, timestamp, valueGet) { AsksBelowDeclared(path, timestamp, |path.segments|, d); }
  }

  lemma {:induction false} AsksBelowDeclared(path: Path, timestamp: nat, i: nat, d: Declaration)
    requires i <= |path.segments| && d in DeclaredBelow(path, timestamp, i)
    ensures exists q :: AsksBelow(path, q) && IsFor(d, q, timestamp, Some(timestamp))
    decreases Depth(path.segments), 1, i
  {
    if d in DeclaredBelow(path, timestamp, i - 1) {
      AsksBelowDeclared(path, timestamp, i - 1, d);
    } else {
      AsksPairsDeclared(path, timestamp, i - 1, |path.segments[i - 1].pairs|, d);
    }
  }

  lemma {:induction false} AsksPairsDeclared(path: Path, timestamp: nat, i: nat, k: nat, d: Declaration)
    requires i < |path.segments| && path.segments[i].Alias? && k <= |path.segments[i].pairs|
    requires d in DeclaredPairs(path, timestamp, i, k)
    ensures exists q :: AsksBelow(path, q) && IsFor(d, q, timestamp, Some(timestamp))
    decreases Depth(path.segments), 0, k
  {
    if d in DeclaredPairs(path, timestamp, i, k - 1) {
      AsksPairsDeclared(path, timestamp, i, k - 1, d);
    } else {
      var query := Query(path, i, k - 1);
      assert HasPair(path, i, k - 1);
      AsksWhatIsDeclared(query, timestamp, Some(timestamp), d);
      if IsFor(d, query, timestamp, Some(timestamp)) {
        assert Asks(query, query);
        assert AsksBelow(path, query);
      } else {
        var q :| AsksBelow(query, q) && IsFor(d, q, timestamp, Some(timestamp));
        assert Asks(query, q);
        assert AsksBelow(path, q);
      }
    }
  }

  /** Every pattern that `unpack` looks up is declared, with its values unless it is the path itself, and
      nothing else is. */
  lemma DeclaresExactlyWhatUnpackReads(path: Path, timestamp: nat, d: Declaration)
    ensures d in Declared(path, timestamp, None) <==>
      IsFor(d, path, timestamp, None) || exists q :: AsksBelow(path, q) && IsFor(d, q, timestamp, Some(timestamp))
  {
    if d in Declared(path, timestamp, None) { AsksWhatIsDeclared(path, timestamp, None, d); }
    if IsFor(d, path, timestamp, None) { assert d == Declared(path, timestamp, None)[0]; }
    if q :| AsksBelow(path, q) && IsFor(d, q, timestamp, Some(timestamp)) {
      var i, k :| HasPair(path, i, k) && Asks(Query(path, i, k), q);
      AskedBelowIsDeclared(path, timestamp, i, k, q);
    }
  }

  lemma AskedBelowIsDeclared(path: Path, timestamp: nat, i: int, k: int, q: Path)
    requires HasPair(path, i, k) && Asks(Query(path, i, k), q)
    ensures Declaration(Path(PathCaches.Stripped(q.segments)), timestamp, Some(timestamp))
      in Declared(path, timestamp, None)
  {
    DeclaresWhatIsAsked(Query(path, i, k), timestamp, Some(timestamp), q);
    var d :| d in Declared(Query(path, i, k), timestamp, Some(timestamp)) && IsFor(d, q, timestamp, Some(timestamp));
    PairsInclude(path, timestamp, i, k + 1, |path.segments[i].pairs|, d);
    BelowIncludes(path, timestamp, i + 1, |path.segments|, d);
  }

  method GetAliasDeclarations(path: Path, timestamp: nat, valueGet: Option<nat>) returns (decs: seq<Declaration>)
    ensures decs == Declared(path, timestamp, valueGet)
    decreases Depth(path.segments)
  {
    var stripped := Path(PathCaches.Stripped(path.segments));
    decs := [Declaration(stripped, timestamp, valueGet)];
    PathCaches.NoAliasMask(path.segments);
    if PathCaches.AliasMask(path.segments) == ZERO {
      NothingBelow(path, timestamp, |path.segments|);
      return;
    }
    ghost var first := decs;
    var i := 0;
    while i < |path.segments|
      invariant i <= |path.segments| && decs == first + DeclaredBelow(path, timestamp, i)
    {
      if path.segments[i].Alias? {
        var k := 0;
        while k < |path.segments[i].pairs|
          invariant k <= |path.segments[i].pairs|
          invariant decs == first + DeclaredBelow(path, timestamp, i) + DeclaredPairs(path, timestamp, i, k)
        {
          hide Depth;
          var below := GetAliasDeclarations(Query(path, i, k), timestamp, Some(timestamp));
          decs := decs + below;
          k := k + 1;
        }
      }
      i := i + 1;
    }
  }

  lemma {:induction false} NothingBelow(path: Path, timestamp: nat, i: nat)
    requires i <= |path.segments| && forall j :: 0 <= j < |path.segments| ==> !path.segments[j].Alias?
    ensures DeclaredBelow(path, timestamp, i) == []
  {
    if i > 0 { NothingBelow(path, timestamp, i - 1); }
  }
}
