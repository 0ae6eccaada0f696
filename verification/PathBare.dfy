/** Paths with their values written bare (lib/common/path.ts), and when they are read as what they mean. */
module PathBare {
  import opened Options
  import opened JsonText
  import opened Paths
  import opened PathRoundTrips
  import opened PathSpellings
  import PathLanguage

  lemma {:induction false} TrimIgnoresBlanks(a: string, v: string, b: string)
    requires (forall i :: 0 <= i < |a| ==> Blank(a[i])) && (forall i :: 0 <= i < |b| ==> Blank(b[i]))
    ensures Trim(a + v + b) == Trim(v)
    decreases |a| + |v| + |b|
  {
    hide Blank;
    if a != "" {
      assert (a + v + b)[1..] == a[1..] + v + b;
      TrimIgnoresBlanks(a[1..], v, b);
    } else if v == "" && b != "" {
      assert (a + v + b)[1..] == a + v + b[1..];
      TrimIgnoresBlanks(a, v, b[1..]);
    } else if v != "" && Blank(v[0]) {
      assert (a + v + b)[1..] == a + v[1..] + b;
      TrimIgnoresBlanks(a, v[1..], b);
    } else if b != "" {
      assert (a + v + b)[..|a + v + b| - 1] == a + v + b[..|b| - 1];
      TrimIgnoresBlanks(a, v, b[..|b| - 1]);
    } else {
      assert a + v + b == v;
    }
  }

  /** Blanks around a bare value make no difference. */
  lemma BlanksMakeNoDifference(a: string, v: string, b: string)
    requires (forall i :: 0 <= i < |a| ==> Blank(a[i])) && (forall i :: 0 <= i < |b| ==> Blank(b[i]))
    requires LegalValue(Bare(v)) && LegalValue(Bare(a + v + b))
    ensures MeanValue(Bare(a + v + b)) == MeanValue(Bare(v))
  {
    TrimIgnoresBlanks(a, v, b);
  }

  /** A value that can be written bare: no comma and no closing bracket, no quote at the start and no blanks at
      the ends. */
  predicate Bareable(v: string) {
    && (forall i :: 0 <= i < |v| ==> v[i] != ',' && v[i] != ']')
    && (v != "" ==> v[0] != '"' && !Blank(v[0]) && !Blank(v[|v| - 1]))
  }

  /** The path with all its values bare. */
  function BareSegments(ss: seq<Segment>): seq<SpelledSegment> {
    if ss == [] then [] else [BareSegment(ss[0])] + BareSegments(ss[1..])
  }

  function BareSegment(x: Segment): SpelledSegment {
    match x
    case Name(text) => Plain(text)
    case Alias(pairs) => Listed(BarePairs(pairs), '.')
  }

  function BarePairs(ps: seq<Pair>): seq<SpelledPair> {
    if ps == [] then [] else [BarePair(ps[0])] + BarePairs(ps[1..])
  }

  function BarePair(p: Pair): SpelledPair { SpelledPair(0, BareSegments(p.path.segments), 0, Bare(p.value)) }

  // ---- Conditions on all pairs ----

  /** All pairs of all aliases, nested ones too, are as they should be. */
  predicate Every(ss: seq<Segment>, ok: Pair -> bool) { ss == [] || (EveryIn(ss[0], ok) && Every(ss[1..], ok)) }

  predicate EveryIn(x: Segment, ok: Pair -> bool) { x.Alias? ==> EveryOf(x.pairs, ok) }

  predicate EveryOf(ps: seq<Pair>, ok: Pair -> bool) { ps == [] || (EveryAt(ps[0], ok) && EveryOf(ps[1..], ok)) }

  predicate EveryAt(p: Pair, ok: Pair -> bool) { Every(p.path.segments, ok) && ok(p) }

  predicate CanBeBare(p: Pair) { Bareable(p.value) }

  /** The value is right behind a path that ends with an alias. */
  predicate BehindAlias(p: Pair) {
    p.path.segments != [] && p.path.segments[|p.path.segments| - 1].Alias? && p.value != ""
  }

  predicate NoNameBehindAlias(p: Pair) { BehindAlias(p) ==> !NameStart(p.value[0]) }

  predicate NoBracketBehindAlias(p: Pair) { BehindAlias(p) ==> p.value[0] != '[' }

  predicate MayBeBare(p: Pair) { CanBeBare(p) && NoNameBehindAlias(p) && NoBracketBehindAlias(p) }

  lemma {:induction false} AllThree(ss: seq<Segment>)
    requires Every(ss, CanBeBare) && Every(ss, NoNameBehindAlias) && Every(ss, NoBracketBehindAlias)
    ensures Every(ss, MayBeBare)
    decreases ss, 0
  {
    hide CanBeBare, NoNameBehindAlias, NoBracketBehindAlias, MayBeBare;
    if ss != [] {
      if ss[0].Alias? { AllThreeOf(ss[0].pairs); }
      AllThree(ss[1..]);
    }
  }

  lemma {:induction false} AllThreeOf(ps: seq<Pair>)
    requires EveryOf(ps, CanBeBare) && EveryOf(ps, NoNameBehindAlias) && EveryOf(ps, NoBracketBehindAlias)
    ensures EveryOf(ps, MayBeBare)
    decreases ps, 0
  {
    hide Bareable, BehindAlias;
    if ps != [] {
      AllThree(ps[0].path.segments);
      AllThreeOf(ps[1..]);
    }
  }

  // ---- Bare values are read ----

  lemma {:induction false} BareMeans(ss: seq<Segment>)
    requires WellFormedSegments(ss) && Every(ss, MayBeBare)
    ensures LegalSegments(BareSegments(ss)) && Plainly(BareSegments(ss)) && Means(BareSegments(ss)) == ss
    decreases ss, 1
  {
    hide LegalSegment, PlainSegment, Mean, BareSegment, WellFormedSegment, EveryIn;
    if ss != [] {
      BareSegmentMeans(ss[0]);
      BareMeans(ss[1..]);
      assert BareSegments(ss)[1..] == BareSegments(ss[1..]);
      assert [ss[0]] + ss[1..] == ss;
    }
  }

  lemma {:induction false} BareSegmentMeans(x: Segment)
    requires WellFormedSegment(x) && EveryIn(x, MayBeBare)
    ensures var y := BareSegment(x); LegalSegment(y) && PlainSegment(y) && Mean(y) == x
    decreases x, 3
  {
    hide LegalPairs, PlainPairs, MeanPairs, BarePairs, SortPairs;
    if x.Alias? {
      BarePairsMean(x.pairs);
      SortedStays(x.pairs);
    }
  }

  lemma {:induction false} BarePairsMean(ps: seq<Pair>)
    requires WellFormedPairs(ps) && EveryOf(ps, MayBeBare)
    ensures LegalPairs(BarePairs(ps)) && PlainPairs(BarePairs(ps)) && MeanPairs(BarePairs(ps)) == ps
    decreases ps, 1
  {
    hide LegalPair, PlainPair, MeanPair, BarePair, WellFormed, EveryAt;
    if ps != [] {
      BarePairMeans(ps[0]);
      BarePairsMean(ps[1..]);
      assert BarePairs(ps)[1..] == BarePairs(ps[1..]);
      assert [ps[0]] + ps[1..] == ps;
    }
  }

  lemma {:induction false} BareLast(ss: seq<Segment>)
    requires ss != []
    ensures |BareSegments(ss)| == |ss| && (BareSegments(ss)[|ss| - 1].Listed? <==> ss[|ss| - 1].Alias?)
  {
    if |ss| > 1 { BareLast(ss[1..]); }
  }

  lemma {:induction false} BarePairMeans(p: Pair)
    requires p.path.segments != [] && WellFormed(p.path) && EveryAt(p, MayBeBare)
    ensures var q := BarePair(p); LegalPair(q) && PlainPair(q) && MeanPair(q) == p
    decreases p, 2
  {
    hide LegalSegments, Plainly, Means, BareSegments, LegalChar, Blank, Every;
    BareMeans(p.path.segments);
    BareLast(p.path.segments);
    BareIsLegal(p.value);
  }

  lemma BareIsLegal(v: string)
    requires Bareable(v)
    ensures LegalValue(Bare(v)) && Trim(v) == v
  {
    assert Blank(' ');
  }

  /** A path whose values are written without quotes parses like the quoted one. */
  lemma BareParsesAlike(p: Path)
    requires WellFormed(p) && Every(p.segments, MayBeBare)
    ensures Parse(WriteSegments(BareSegments(p.segments))) == Some(p)
    ensures Readable(p) ==> Parse(WriteSegments(BareSegments(p.segments))) == Parse(Print(p))
  {
    BareMeans(p.segments);
    WrittenIsRead(BareSegments(p.segments));
    if Readable(p) { ParseUndoesPrint(p); }
  }

  // ---- The shortest way to write a path ----

  /** The length of the text with bare values. */
  function Size(ss: seq<Segment>): nat {
    if ss == [] then 0 else if |ss| == 1 then SizeIn(ss[0]) else SizeIn(ss[0]) + 1 + Size(ss[1..])
  }

  function SizeIn(x: Segment): nat {
    match x
    case Name(text) => |text|
    case Alias(pairs) => 2 + SizeOf(pairs)
  }

  function SizeOf(ps: seq<Pair>): nat {
    if ps == [] then 0 else if |ps| == 1 then SizeAt(ps[0]) else SizeAt(ps[0]) + 1 + SizeOf(ps[1..])
  }

  function SizeAt(p: Pair): nat { Size(p.path.segments) + 1 + |p.value| }

  lemma {:induction false} BareSize(ss: seq<Segment>)
    ensures |WriteSegments(BareSegments(ss))| == Size(ss)
    decreases ss, 1
  {
    hide WriteSegment, BareSegment, SizeIn;
    if ss != [] {
      BareSizeIn(ss[0]);
      BareSize(ss[1..]);
      assert BareSegments(ss)[1..] == BareSegments(ss[1..]);
      BareLast(ss);
    }
  }

  lemma {:induction false} BareSizeIn(x: Segment)
    ensures |WriteSegment(BareSegment(x))| == SizeIn(x)
    decreases x, 2
  {
    hide WritePairs, BarePairs, SizeOf;
    if x.Alias? { BareSizeOf(x.pairs); }
  }

  lemma {:induction false} BareSizeOf(ps: seq<Pair>)
    ensures |WritePairs(BarePairs(ps))| == SizeOf(ps) && |BarePairs(ps)| == |ps|
    decreases ps, 0
  {
    hide WriteSegments, BareSegments;
    if ps != [] {
      BareSize(ps[0].path.segments);
      BareSizeOf(ps[1..]);
      assert BarePairs(ps)[1..] == BarePairs(ps[1..]);
      assert |WritePair(BarePair(ps[0]))| == SizeAt(ps[0]);
    }
  }

  lemma {:induction false} InsertedAlike(p: Pair, ps: seq<Pair>, ok: Pair -> bool)
    ensures var qs := InsertPair(p, ps);
      && qs != [] && SizeOf(qs) == SizeAt(p) + (if ps == [] then 0 else 1 + SizeOf(ps))
      && (EveryOf(qs, ok) <==> EveryAt(p, ok) && EveryOf(ps, ok))
  {
    hide After, SizeAt, EveryAt;
    if ps != [] && After(p, ps[0]) {
      InsertedAlike(p, ps[1..], ok);
      assert InsertPair(p, ps)[1..] == InsertPair(p, ps[1..]);
    } else {
      assert ([p] + ps)[1..] == ps;
    }
  }

  /** The order of the pairs makes no difference to the length, nor to any condition on them. */
  lemma {:induction false} SortedAlike(ps: seq<Pair>, ok: Pair -> bool)
    ensures (SortPairs(ps) == [] <==> ps == []) && SizeOf(SortPairs(ps)) == SizeOf(ps)
    ensures EveryOf(SortPairs(ps), ok) <==> EveryOf(ps, ok)
  {
    hide SizeAt, EveryAt;
    if ps != [] {
      SortedAlike(ps[1..], ok);
      InsertedAlike(ps[0], SortPairs(ps[1..]), ok);
    }
  }

  lemma {:induction false} TrimShortens(s: string)
    ensures |Trim(s)| <= |s| && (|Trim(s)| == |s| ==> Trim(s) == s)
    decreases |s|
  {
    hide Blank;
    if s != "" && Blank(s[0]) { TrimShortens(s[1..]); }
    else if s != "" && Blank(s[|s| - 1]) { TrimShortens(s[..|s| - 1]); }
  }

  lemma {:induction false} UnquoteShortens(s: string)
    ensures UnquoteRest(s).Some? ==> |UnquoteRest(s).value| < |s|
    decreases |s|
  {
    hide Code, Simple;
    if s != "" && s[0] != '"' && Unescape(s).Some? && Unescape(s).value.1 <= |s| {
      UnquoteShortens(s[Unescape(s).value.1..]);
    }
  }

  /** Whatever way a value is written, it takes no less than bare, and as much only if it is bare. */
  lemma ValueTakes(v: SpelledValue)
    requires LegalValue(v)
    ensures |WriteValue(v)| >= |MeanValue(v)|
    ensures |WriteValue(v)| == |MeanValue(v)| ==> WriteValue(v) == MeanValue(v)
  {
    hide UnquoteRest, Trim;
    match v
    case Quoted(_, raw) => UnquoteShortens(raw[1..]);
    case Bare(text) => TrimShortens(text);
  }

  /** No legal way to write a path is shorter than with bare values; and none is as short if a name is right
      behind an alias. */
  lemma {:induction false} Takes(ss: seq<SpelledSegment>)
    requires LegalSegments(ss)
    ensures |WriteSegments(ss)| >= Size(Means(ss)) && |Means(ss)| == |ss|
    ensures |WriteSegments(ss)| == Size(Means(ss)) ==> Every(Means(ss), NoNameBehindAlias)
    ensures ss != [] ==> (Means(ss)[|ss| - 1].Alias? <==> ss[|ss| - 1].Listed?)
    decreases ss, 1
  {
    hide LegalSegment, WriteSegment, Mean, SizeIn, EveryIn;
    if ss != [] {
      TakesIn(ss[0]);
      Takes(ss[1..]);
      assert Means(ss)[1..] == Means(ss[1..]);
    }
  }

  lemma {:induction false} TakesIn(x: SpelledSegment)
    requires LegalSegment(x)
    ensures |WriteSegment(x)| >= SizeIn(Mean(x)) && (Mean(x).Alias? <==> x.Listed?)
    ensures |WriteSegment(x)| == SizeIn(Mean(x)) ==> EveryIn(Mean(x), NoNameBehindAlias)
    decreases x, 2
  {
    hide WritePairs, LegalPairs, MeanPairs, SizeOf, EveryOf, SortPairs, LegalName;
    if x.Listed? {
      TakesOf(x.pairs);
      SortedAlike(MeanPairs(x.pairs), NoNameBehindAlias);
    }
  }

  lemma {:induction false} TakesOf(ps: seq<SpelledPair>)
    requires LegalPairs(ps)
    ensures |WritePairs(ps)| >= SizeOf(MeanPairs(ps)) && |MeanPairs(ps)| == |ps|
    ensures |WritePairs(ps)| == SizeOf(MeanPairs(ps)) ==> EveryOf(MeanPairs(ps), NoNameBehindAlias)
    decreases ps, 1
  {
    hide LegalPair, WritePair, MeanPair, SizeAt, EveryAt;
    if ps != [] {
      TakesAt(ps[0]);
      TakesOf(ps[1..]);
      assert MeanPairs(ps)[1..] == MeanPairs(ps[1..]);
    }
  }

  lemma {:induction false} TakesAt(p: SpelledPair)
    requires LegalPair(p)
    ensures |WritePair(p)| >= SizeAt(MeanPair(p))
    ensures |WritePair(p)| == SizeAt(MeanPair(p)) ==> EveryAt(MeanPair(p), NoNameBehindAlias)
    decreases p, 2
  {
    hide LegalSegments, WriteSegments, WriteValue, Means, MeanValue, LegalValue, Size, Every, NameStart;
    Takes(p.path);
    ValueTakes(p.value);
  }

  // ---- When bare values are read ----

  /** If nothing is ambiguous, a path with bare values is read as what it means; and if a value that begins
      like a name is right behind an alias, it is not: the name is taken for a further segment. */
  lemma BareParsesExactly(p: Path)
    requires WellFormed(p) && Every(p.segments, CanBeBare)
    ensures var read := Parse(WriteSegments(BareSegments(p.segments))) == Some(p);
      && (read ==> Every(p.segments, NoNameBehindAlias))
      && (Every(p.segments, NoBracketBehindAlias) ==> (read <==> Every(p.segments, NoNameBehindAlias)))
  {
    hide Every, Parse, BareSegments, WriteSegments, WellFormed, LegalSegments, Means, Size;
    var text := WriteSegments(BareSegments(p.segments));
    if Parse(text) == Some(p) {
      var ss := PathLanguage.ReadIsWritten(text);
      Takes(ss);
      BareSize(p.segments);
    }
    if Every(p.segments, NoBracketBehindAlias) && Every(p.segments, NoNameBehindAlias) {
      AllThree(p.segments);
      BareParsesAlike(p);
    }
  }
}
