/** Different well-formed paths print differently, whatever their alias values are. */
module PathInjectivity {
  import opened Options
  import opened JsonText
  import opened Paths
  import PathRoundTrips

  /** What can follow a printed name: the end, a dot, or the colon of an alias value. */
  predicate Stops(x: string) { x == "" || x[0] == '.' || x[0] == ':' }

  predicate Ends(x: string) { x == "" || x[0] == ':' }

  lemma {:induction false} ValuesDecode(v: string, w: string, x: string, y: string)
    requires Escaped(v) + ['"'] + x == Escaped(w) + ['"'] + y
    ensures v == w && x == y
  {
    hide Unescape, Escape;
    var s := Escaped(v) + ['"'] + x;
    FirstOfValue(v, x);
    FirstOfValue(w, y);
    if v == "" {
      assert s[1..] == x == y;
    } else {
      var n := |Escape(v[0])|;
      assert s[n..] == Escaped(v[1..]) + ['"'] + x == Escaped(w[1..]) + ['"'] + y;
      ValuesDecode(v[1..], w[1..], x, y);
      assert v == [v[0]] + v[1..] && w == [w[0]] + w[1..];
    }
  }

  /** The first character of a quoted text tells whether the value is empty, and if not, its first one. */
  lemma FirstOfValue(v: string, x: string)
    ensures var s := Escaped(v) + ['"'] + x;
      if v == "" then s == ['"'] + x
      else
        && s[0] != '"' && Unescape(s) == Some((v[0], |Escape(v[0])|))
        && |Escape(v[0])| <= |s| && s[|Escape(v[0])|..] == Escaped(v[1..]) + ['"'] + x
  {
    hide Unescape, Escape;
    if v != "" {
      var s, rest := Escaped(v) + ['"'] + x, Escaped(v[1..]) + ['"'] + x;
      EscapeUnescapes(v[0], rest);
      assert s == Escape(v[0]) + rest;
    }
  }

  function NameLength(s: string): nat {
    if s != "" && (LegalChar(s[0]) || s[0] == '*') then 1 + NameLength(s[1..]) else 0
  }

  lemma {:induction false} NameIsPrefix(a: string, x: string)
    requires Stops(x) && forall i :: 0 <= i < |a| ==> LegalChar(a[i]) || a[i] == '*'
    ensures NameLength(a + x) == |a|
  {
    if a == "" {
      assert a + x == x;
    } else {
      NameIsPrefix(a[1..], x);
      assert (a + x)[1..] == a[1..] + x;
    }
  }

  lemma NamesDecode(a: string, b: string, x: string, y: string)
    requires LegalName(a) && LegalName(b) && Stops(x) && Stops(y) && a + x == b + y
    ensures a == b && x == y
  {
    NameIsPrefix(a, x);
    NameIsPrefix(b, y);
    SplitsAlike(a, b, x, y);
  }

  lemma SplitsAlike(a: string, b: string, x: string, y: string)
    requires a + x == b + y && |a| == |b|
    ensures a == b && x == y
  {
    assert (a + x)[..|a|] == a && (b + y)[..|b|] == b;
    assert (a + x)[|a|..] == x && (b + y)[|b|..] == y;
  }

  lemma {:induction false} SegmentDecodes(a: Segment, b: Segment, x: string, y: string)
    requires WellFormedSegment(a) && WellFormedSegment(b) && Stops(x) && Stops(y)
    requires PrintSegment(a) + x == PrintSegment(b) + y
    ensures a == b && x == y
    decreases a, 2
  {
    hide PrintPairs;
    SegmentStarts(a, x);
    SegmentStarts(b, y);
    match a {
      case Name(text) => NamesDecode(text, b.text, x, y);
      case Alias(pairs) => PairsDecode(pairs, b.pairs, x, y);
    }
  }

  /** The first character tells an alias from a name. */
  lemma SegmentStarts(a: Segment, x: string)
    requires WellFormedSegment(a)
    ensures PrintSegment(a) != "" && (a.Alias? <==> (PrintSegment(a) + x)[0] == '[')
    ensures a.Alias? ==> (PrintSegment(a) + x)[1..] == PrintPairs(a.pairs) + "]" + x
  {
    hide PrintPairs, Sorted, WellFormedPairs;
    if a.Alias? { Bracketed(PrintPairs(a.pairs), x); } else { assert (a.text + x)[0] == a.text[0]; }
  }

  lemma Bracketed(inner: string, x: string)
    ensures var s := "[" + inner + "]" + x; s[0] == '[' && s[1..] == inner + "]" + x
  {}

  /** What stands behind the first segment. */
  function Behind(ss: seq<Segment>, x: string): string
    requires ss != []
  {
    if |ss| == 1 then x else "." + PrintSegments(ss[1..]) + x
  }

  lemma PrintedSegments(ss: seq<Segment>)
    requires ss != []
    ensures PrintSegments(ss) == if |ss| == 1 then PrintSegment(ss[0])
      else PrintSegment(ss[0]) + "." + PrintSegments(ss[1..])
  {
    hide PrintSegment;
  }

  lemma Regrouped(first: string, separator: string, rest: string, x: string)
    requires |separator| == 1
    ensures first + separator + rest + x == first + (separator + rest + x)
    ensures (separator + rest + x)[0] == separator[0] && (separator + rest + x)[1..] == rest + x
  {}

  lemma FirstSegment(ss: seq<Segment>, x: string)
    requires ss != [] && Ends(x)
    ensures PrintSegments(ss) + x == PrintSegment(ss[0]) + Behind(ss, x) && Stops(Behind(ss, x))
    ensures |ss| == 1 <==> Ends(Behind(ss, x))
    ensures |ss| > 1 ==> Behind(ss, x)[1..] == PrintSegments(ss[1..]) + x
  {
    hide PrintSegment, PrintSegments;
    PrintedSegments(ss);
    if |ss| > 1 { Regrouped(PrintSegment(ss[0]), ".", PrintSegments(ss[1..]), x); }
  }

  lemma {:induction false} SegmentsDecode(a: seq<Segment>, b: seq<Segment>, x: string, y: string)
    requires WellFormedSegments(a) && WellFormedSegments(b) && Ends(x) && Ends(y)
    requires a != [] && b != [] && PrintSegments(a) + x == PrintSegments(b) + y
    ensures a == b && x == y
    decreases a, 1
  {
    hide PrintSegment, PrintSegments;
    FirstSegment(a, x);
    FirstSegment(b, y);
    SegmentDecodes(a[0], b[0], Behind(a, x), Behind(b, y));
    if |a| > 1 { SegmentsDecode(a[1..], b[1..], x, y); }
    assert a == [a[0]] + a[1..] && b == [b[0]] + b[1..];
  }

  lemma {:induction false} PairDecodes(p: Pair, q: Pair, x: string, y: string)
    requires p.path.segments != [] && q.path.segments != [] && WellFormed(p.path) && WellFormed(q.path)
    requires PrintPair(p) + x == PrintPair(q) + y
    ensures p == q && x == y
    decreases p, 2
  {
    hide PrintSegments, Escaped;
    var u, w := ":" + Quote(p.value) + x, ":" + Quote(q.value) + y;
    assert PrintPair(p) + x == Print(p.path) + u;
    assert PrintPair(q) + y == Print(q.path) + w;
    SegmentsDecode(p.path.segments, q.path.segments, u, w);
    assert u[2..] == Escaped(p.value) + ['"'] + x;
    assert w[2..] == Escaped(q.value) + ['"'] + y;
    ValuesDecode(p.value, q.value, x, y);
  }

  lemma {:induction false} PairsDecode(ps: seq<Pair>, qs: seq<Pair>, x: string, y: string)
    requires WellFormedPairs(ps) && WellFormedPairs(qs)
    requires PrintPairs(ps) + "]" + x == PrintPairs(qs) + "]" + y
    ensures ps == qs && x == y
    decreases ps, 1
  {
    var s := PrintPairs(ps) + "]" + x;
    if ps != [] { PairsStart(ps); }
    if qs != [] { PairsStart(qs); }
    if ps == [] {
      assert s[0] == ']';
      assert s == "]" + x == "]" + y;
      assert s[1..] == x == y;
    } else {
      assert s[0] != ']';
      assert qs != [];
      MorePairsDecode(ps, qs, x, y);
    }
  }

  lemma PairsStart(ps: seq<Pair>)
    requires WellFormedPairs(ps) && ps != []
    ensures PrintPairs(ps) != "" && PrintPairs(ps)[0] != ']'
  {
    PathRoundTrips.FirstChar(ps[0].path.segments);
    PathRoundTrips.PrintedPairs(ps);
    assert PrintPair(ps[0])[0] == Print(ps[0].path)[0];
  }

  /** What stands behind the first pair. */
  function BehindPair(ps: seq<Pair>, x: string): string
    requires ps != []
  {
    if |ps| == 1 then "]" + x else "," + PrintPairs(ps[1..]) + ("]" + x)
  }

  lemma FirstPair(ps: seq<Pair>, x: string)
    requires ps != []
    ensures PrintPairs(ps) + "]" + x == PrintPair(ps[0]) + BehindPair(ps, x)
    ensures |ps| == 1 <==> BehindPair(ps, x)[0] == ']'
    ensures BehindPair(ps, x)[1..] == if |ps| == 1 then x else PrintPairs(ps[1..]) + "]" + x
  {
    hide PrintPair, PrintPairs;
    PathRoundTrips.PrintedPairs(ps);
    if |ps| == 1 {
      Reassociated(PrintPairs(ps), "]", x);
    } else {
      Commas(PrintPair(ps[0]), PrintPairs(ps[1..]), x);
    }
  }

  lemma Reassociated(a: string, b: string, c: string)
    ensures a + b + c == a + (b + c)
    ensures |b| == 1 ==> (b + c)[0] == b[0] && (b + c)[1..] == c
  {}

  lemma Commas(first: string, rest: string, x: string)
    ensures first + "," + rest + "]" + x == first + ("," + rest + ("]" + x))
    ensures var s := "," + rest + ("]" + x); s[0] == ',' && s[1..] == rest + "]" + x
  {
    Regrouped(first, ",", rest, "]" + x);
    assert first + "," + rest + "]" + x == first + "," + rest + ("]" + x);
    assert rest + "]" + x == rest + ("]" + x);
  }

  lemma {:induction false} MorePairsDecode(ps: seq<Pair>, qs: seq<Pair>, x: string, y: string)
    requires WellFormedPairs(ps) && WellFormedPairs(qs) && ps != [] && qs != []
    requires PrintPairs(ps) + "]" + x == PrintPairs(qs) + "]" + y
    ensures ps == qs && x == y
    decreases ps, 0
  {
    hide PrintPair, PrintPairs, BehindPair;
    FirstPair(ps, x);
    FirstPair(qs, y);
    PairDecodes(ps[0], qs[0], BehindPair(ps, x), BehindPair(qs, y));
    if |ps| > 1 { PairsDecode(ps[1..], qs[1..], x, y); }
    assert ps == [ps[0]] + ps[1..] && qs == [qs[0]] + qs[1..];
  }

  /** A text names one path. */
  lemma PrintIsInjective(p: Path, q: Path)
    requires WellFormed(p) && WellFormed(q) && Print(p) == Print(q)
    ensures p == q
  {
    if p.segments != [] { PathRoundTrips.FirstChar(p.segments); }
    if q.segments != [] { PathRoundTrips.FirstChar(q.segments); }
    if p.segments != [] {
      assert Print(p) + "" == Print(p) && Print(q) + "" == Print(q);
      SegmentsDecode(p.segments, q.segments, "", "");
    }
  }
}
