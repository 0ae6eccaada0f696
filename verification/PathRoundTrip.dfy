/** Parsing undoes printing: `Parse(Print(p))` is `p` for every well-formed path whose alias values do
    not end with a backslash, and fails for every other one. */
module PathRoundTrips {
  import opened Options
  import opened JsonText
  import opened Paths

  /** What may follow a printed path: nothing, or the colon and the quote of an alias value. */
  predicate Terminated(s: string, e: nat) {
    e == |s| || (e + 1 < |s| && s[e] == ':' && s[e + 1] == '"')
  }

  predicate Starts(c: char) { LegalChar(c) || c == '*' || c == '[' }

  lemma FirstChar(ss: seq<Segment>)
    requires ss != [] && WellFormedSegments(ss)
    ensures PrintSegments(ss) != "" && Starts(PrintSegments(ss)[0])
  {
    assert PrintSegment(ss[0]) != "" && Starts(PrintSegment(ss[0])[0]);
  }

  // ---- One segment ----

  lemma {:induction false} NameScan(s: string, i: nat, start: nat, wildcard: int, index: nat, acc: seq<Segment>,
      text: string)
    requires At(s, start, text) && (forall k :: 0 <= k < |text| ==> LegalChar(text[k]))
    requires index <= start <= i <= start + |text| && wildcard < start
    ensures PathLoop(s, Scan(i, start, wildcard, index, acc)) ==
      PathLoop(s, Scan(start + |text|, start, wildcard, index, acc))
    decreases start + |text| - i
  {
    if i < start + |text| {
      AtChar(s, start, text, i - start);
      NameScan(s, i + 1, start, wildcard, index, acc, text);
    }
  }

  /** The loop at the end of a name. */
  lemma NameEnds(s: string, i: nat, start: nat, wildcard: int, index: nat, acc: seq<Segment>)
    requires index <= start < i && (i == |s| || (i < |s| && !LegalChar(s[i])))
    ensures PathLoop(s, Scan(i, start, wildcard, index, acc)) ==
      if CharAt(s, i) == '.' then PathLoop(s, Scan(i + 1, i + 1, wildcard, i, acc + [Name(s[start..i])]))
      else (i, acc + [Name(s[start..i])])
  {
    var l := Scan(i, start, wildcard, index, acc);
    assert PathStep(s, l) == if CharAt(s, i) == '.' then
      (false, Scan(i + 1, i + 1, wildcard, i, acc + [Name(s[start..i])]))
      else (true, Scan(i, i, wildcard, i, acc + [Name(s[start..i])]));
  }

  /** The loop reads a name up to the character after it, which is not one of a name. */
  lemma NameStep(s: string, pos: nat, wildcard: int, index: nat, acc: seq<Segment>, text: string)
      returns (after: int)
    requires At(s, pos, text) && LegalName(text) && index <= pos && wildcard < pos
    requires pos + |text| == |s| || !LegalChar(s[pos + |text|])
    ensures after <= pos + |text|
    ensures PathLoop(s, Scan(pos, pos, wildcard, index, acc)) ==
      if CharAt(s, pos + |text|) == '.' then
        PathLoop(s, Scan(pos + |text| + 1, pos + |text| + 1, after, pos + |text|, acc + [Name(text)]))
      else (pos + |text|, acc + [Name(text)])
  {
    var e := pos + |text|;
    if text == "*" {
      AtChar(s, pos, text, 0);
      after := pos + 1;
      assert PathLoop(s, Scan(pos, pos, wildcard, index, acc)) == PathLoop(s, Scan(e, pos, after, index, acc));
    } else {
      NameScan(s, pos, pos, wildcard, index, acc, text);
      after := wildcard;
    }
    NameEnds(s, e, pos, after, index, acc);
    assert s[pos..e] == text;
  }

  // ---- A readable path is read back ----

  lemma {:induction false} SegmentsParse(s: string, pos: nat, wildcard: int, index: nat, ss: seq<Segment>,
      acc: seq<Segment>)
    requires ss != [] && WellFormedSegments(ss) && ReadableSegments(ss)
    requires At(s, pos, PrintSegments(ss)) && Terminated(s, pos + |PrintSegments(ss)|)
    requires index <= pos && wildcard < pos
    ensures PathLoop(s, Scan(pos, pos, wildcard, index, acc)) == (pos + |PrintSegments(ss)|, acc + ss)
    decreases ss, 1
  {
    hide PathLoop;
    var e := pos + |PrintSegment(ss[0])|;
    var after := SegmentsTurn(s, pos, wildcard, index, ss, acc);
    HeadThenTail(acc, ss);
    if |ss| > 1 { SegmentsParse(s, e + 1, after, e, ss[1..], acc + [ss[0]]); }
  }

  lemma HeadThenTail<T>(acc: seq<T>, xs: seq<T>)
    requires xs != []
    ensures acc + [xs[0]] + xs[1..] == acc + xs
    ensures |xs| == 1 ==> acc + [xs[0]] == acc + xs
  {}

  lemma {:induction false} SegmentsTurn(s: string, pos: nat, wildcard: int, index: nat, ss: seq<Segment>,
      acc: seq<Segment>) returns (after: int)
    requires ss != [] && WellFormedSegments(ss) && ReadableSegment(ss[0])
    requires At(s, pos, PrintSegments(ss)) && Terminated(s, pos + |PrintSegments(ss)|)
    requires index <= pos && wildcard < pos
    ensures after <= pos + |PrintSegment(ss[0])|
    ensures var l, e := Scan(pos, pos, wildcard, index, acc), pos + |PrintSegment(ss[0])|;
      if |ss| == 1 then PathLoop(s, l) == (pos + |PrintSegments(ss)|, acc + [ss[0]])
      else
        && PathLoop(s, l) == PathLoop(s, Scan(e + 1, e + 1, after, e, acc + [ss[0]]))
        && At(s, e + 1, PrintSegments(ss[1..])) && e + 1 + |PrintSegments(ss[1..])| == pos + |PrintSegments(ss)|
        && CharAt(s, e) == '.'
    decreases ss, 0
  {
    hide PathLoop, PrintSegments, PrintSegment, At;
    FirstSegment(s, pos, ss);
    after := SegmentStep(s, pos, wildcard, index, acc, ss[0]);
  }

  /** The loop reads a readable segment up to the dot after it, or to the end of the path. */
  lemma {:induction false} SegmentStep(s: string, pos: nat, wildcard: int, index: nat, acc: seq<Segment>, x: Segment)
      returns (after: int)
    requires WellFormedSegment(x) && ReadableSegment(x) && At(s, pos, PrintSegment(x)) && index <= pos && wildcard < pos
    requires Terminated(s, pos + |PrintSegment(x)|) || CharAt(s, pos + |PrintSegment(x)|) == '.'
    ensures after <= pos + |PrintSegment(x)|
    ensures var e := pos + |PrintSegment(x)|;
      PathLoop(s, Scan(pos, pos, wildcard, index, acc)) ==
        if CharAt(s, e) == '.' then PathLoop(s, Scan(e + 1, e + 1, after, e, acc + [x])) else (e, acc + [x])
    decreases x, 3
  {
    hide PathLoop, At, ParseAlias, PrintPairs;
    var e := pos + |PrintSegment(x)|;
    match x {
      case Name(text) => after := NameStep(s, pos, wildcard, index, acc, text);
      case Alias(pairs) =>
        AliasParses(s, pos, pairs);
        after := wildcard;
        AliasStep(s, pos, wildcard, index, acc, pairs);
        if CharAt(s, e) != '.' { StopsAfterAlias(s, e, wildcard, acc + [x]); }
    }
  }

  lemma AliasStep(s: string, pos: nat, wildcard: int, index: nat, acc: seq<Segment>, pairs: seq<Pair>)
    requires pos < |s| && s[pos] == '[' && index <= pos
    requires ParseAlias(s, pos + 1).1 == pairs && CharAt(s, ParseAlias(s, pos + 1).0) == ']'
    ensures var e := ParseAlias(s, pos + 1).0 + 1;
      PathLoop(s, Scan(pos, pos, wildcard, index, acc)) ==
      PathLoop(s, Scan(e + 1, e + 1, wildcard, e, acc + [Alias(pairs)]))
  {
    hide ParseAlias;
  }

  /** After an alias the loop goes on behind the next character, and stops if the path ends there. */
  lemma StopsAfterAlias(s: string, e: nat, wildcard: int, acc: seq<Segment>)
    requires e <= |s| && (e + 1 < |s| ==> !Starts(s[e + 1]))
    ensures PathLoop(s, Scan(e + 1, e + 1, wildcard, e, acc)) == (e, acc)
  {}

  lemma Separated(s: string, pos: nat, first: string, separator: string, rest: string)
    requires At(s, pos, first + separator + rest) && |separator| == 1
    ensures At(s, pos, first) && At(s, pos + |first| + 1, rest)
    ensures pos + |first| < |s| && s[pos + |first|] == separator[0]
  {
    AtConcat3(s, pos, first, separator, rest);
    AtChar(s, pos + |first|, separator, 0);
  }

  /** Where the first segment and the others stand. */
  lemma FirstSegment(s: string, pos: nat, ss: seq<Segment>)
    requires ss != [] && WellFormedSegments(ss) && At(s, pos, PrintSegments(ss))
    ensures At(s, pos, PrintSegment(ss[0]))
    ensures |ss| == 1 ==> PrintSegments(ss) == PrintSegment(ss[0])
    ensures |ss| > 1 ==>
      var e := pos + |PrintSegment(ss[0])|;
      && e < |s| && s[e] == '.' && At(s, e + 1, PrintSegments(ss[1..]))
      && |PrintSegments(ss)| == |PrintSegment(ss[0])| + 1 + |PrintSegments(ss[1..])|
  {
    hide PrintSegment;
    if |ss| > 1 { Separated(s, pos, PrintSegment(ss[0]), ".", PrintSegments(ss[1..])); }
  }

  /** Where the brackets and the pairs of an alias stand. */
  lemma AliasLayout(s: string, pos: nat, pairs: seq<Pair>)
    requires At(s, pos, PrintSegment(Alias(pairs)))
    ensures pos < |s| && s[pos] == '[' && At(s, pos + 1, PrintPairs(pairs))
    ensures CharAt(s, pos + 1 + |PrintPairs(pairs)|) == ']' && pos + 1 + |PrintPairs(pairs)| < |s|
  {
    hide PrintPairs, At;
    var inner := PrintPairs(pairs);
    assert "[" + inner + "]" == "[" + (inner + "]");
    AtConcat(s, pos, "[", inner + "]");
    AtConcat(s, pos + 1, inner, "]");
    AtChar(s, pos, "[", 0);
    AtChar(s, pos + 1 + |inner|, "]", 0);
  }

  lemma {:induction false} AliasParses(s: string, pos: nat, pairs: seq<Pair>)
    requires WellFormedSegment(Alias(pairs)) && ReadablePairs(pairs)
    requires At(s, pos, PrintSegment(Alias(pairs)))
    ensures pos < |s| && s[pos] == '['
    ensures ParseAlias(s, pos + 1) == (pos + 1 + |PrintPairs(pairs)|, pairs)
    ensures CharAt(s, pos + 1 + |PrintPairs(pairs)|) == ']' && pos + 1 + |PrintPairs(pairs)| < |s|
    decreases pairs, 2
  {
    hide AliasLoop, PrintPair, PrintSegment, At, ParsePair;
    AliasLayout(s, pos, pairs);
    if pairs != [] {
      PairsParse(s, pos + 1, pos + 1, pos + 1 + |PrintPairs(pairs)|, pairs, [], pairs);
      assert [] + pairs == pairs;
      SortedStays(pairs);
    } else {
      NoPair(s, pos + 1);
    }
  }

  lemma NoPair(s: string, i: nat)
    requires CharAt(s, i) == ']' && i < |s|
    ensures ParseAlias(s, i) == (i, [])
  {
    assert PathLoop(s, Scan(i, i, -1, i, [])) == (i, []);
    assert ParseAliasPath(s, i) == (i, None);
    assert ParsePair(s, i) == (i, None);
    assert AliasLoop(s, i, i, []) == (i, []);
  }

  lemma {:induction false} SortedStays(ps: seq<Pair>)
    requires Sorted(ps)
    ensures SortPairs(ps) == ps
  {
    if ps != [] { SortedStays(ps[1..]); }
  }

  lemma PrintedPairs(ps: seq<Pair>)
    requires ps != []
    ensures PrintPairs(ps) == if |ps| == 1 then PrintPair(ps[0]) else PrintPair(ps[0]) + "," + PrintPairs(ps[1..])
  {
    hide PrintPair;
  }

  /** Where the first pair and the others stand. */
  lemma FirstPair(s: string, pos: nat, ps: seq<Pair>)
    requires ps != [] && At(s, pos, PrintPairs(ps))
    ensures At(s, pos, PrintPair(ps[0]))
    ensures |ps| == 1 ==> PrintPairs(ps) == PrintPair(ps[0])
    ensures |ps| > 1 ==>
      var e := pos + |PrintPair(ps[0])|;
      && e < |s| && s[e] == ',' && At(s, e + 1, PrintPairs(ps[1..]))
      && |PrintPairs(ps)| == |PrintPair(ps[0])| + 1 + |PrintPairs(ps[1..])|
  {
    hide PrintPair, PrintPairs;
    PrintedPairs(ps);
    if |ps| > 1 { Separated(s, pos, PrintPair(ps[0]), ",", PrintPairs(ps[1..])); }
  }

  /** Where the path, the colon and the value of a pair stand. */
  lemma PairLayout(s: string, pos: nat, p: Pair)
    requires At(s, pos, PrintPair(p))
    ensures At(s, pos, Print(p.path)) && Terminated(s, pos + |Print(p.path)|)
    ensures CharAt(s, pos + |Print(p.path)|) == ':' && At(s, pos + |Print(p.path)| + 1, Quote(p.value))
    ensures |PrintPair(p)| == |Print(p.path)| + 1 + |Quote(p.value)|
  {
    var path, value := Print(p.path), Quote(p.value);
    AtConcat3(s, pos, path, ":", value);
    AtChar(s, pos + |path|, ":", 0);
    AtChar(s, pos + |path| + 1, value, 0);
  }

  lemma {:induction false} PairsParse(s: string, i: nat, index: nat, end: nat, ps: seq<Pair>, acc: seq<Pair>,
      all: seq<Pair>)
    requires ps != [] && WellFormedPairs(ps) && ReadablePairs(ps) && all == acc + ps
    requires At(s, i, PrintPairs(ps)) && end == i + |PrintPairs(ps)| && CharAt(s, end) == ']' && index <= i
    ensures AliasLoop(s, i, index, acc) == (end, all)
    decreases ps, 1
  {
    hide AliasLoop;
    HeadThenTail(acc, ps);
    PairsTurn(s, i, index, end, ps, acc);
    if |ps| > 1 { PairsParse(s, i + |PrintPair(ps[0])| + 1, i + |PrintPair(ps[0])|, end, ps[1..], acc + [ps[0]], all); }
  }

  lemma {:induction false} PairsTurn(s: string, i: nat, index: nat, end: nat, ps: seq<Pair>, acc: seq<Pair>)
    requires ps != [] && WellFormedPairs(ps) && ReadablePairs(ps)
    requires At(s, i, PrintPairs(ps)) && end == i + |PrintPairs(ps)| && CharAt(s, end) == ']' && index <= i
    ensures var e := i + |PrintPair(ps[0])|;
      if |ps| == 1 then AliasLoop(s, i, index, acc) == (end, acc + [ps[0]])
      else
        && AliasLoop(s, i, index, acc) == AliasLoop(s, e + 1, e, acc + [ps[0]])
        && At(s, e + 1, PrintPairs(ps[1..])) && end == e + 1 + |PrintPairs(ps[1..])|
    decreases ps, 0
  {
    hide AliasLoop, ParsePair, PrintPairs, PrintPair, At;
    FirstPair(s, i, ps);
    PairParses(s, i, ps[0]);
    AliasTurn(s, i, index, acc, i + |PrintPair(ps[0])|, ps[0]);
  }

  /** The loop goes on after a comma. */
  lemma AliasTurn(s: string, i: nat, index: nat, acc: seq<Pair>, e: nat, p: Pair)
    requires index <= i && ParsePair(s, i) == (e, Some(p))
    ensures AliasLoop(s, i, index, acc) == if CharAt(s, e) == ',' then AliasLoop(s, e + 1, e, acc + [p])
      else (e, acc + [p])
  {}

  lemma {:induction false} PairParses(s: string, i: nat, p: Pair)
    requires p.path.segments != [] && WellFormed(p.path) && ReadablePair(p) && At(s, i, PrintPair(p))
    ensures ParsePair(s, i) == (i + |PrintPair(p)|, Some(p))
    decreases p, 3
  {
    hide ParseAliasPath, ParseValue;
    PairLayout(s, i, p);
    AliasPathParses(s, i, p.path);
    ValueParses(s, i + |Print(p.path)| + 1, p.value);
    assert p == Pair(p.path, p.value);
  }

  lemma {:induction false} AliasPathParses(s: string, i: nat, p: Path)
    requires p.segments != [] && WellFormed(p) && Readable(p)
    requires At(s, i, Print(p)) && Terminated(s, i + |Print(p)|) && CharAt(s, i + |Print(p)|) == ':'
    ensures ParseAliasPath(s, i) == (i + |Print(p)| + 1, Some(p))
    decreases p, 2
  {
    hide PathLoop, PrintSegments, At, ReadableSegments, WellFormedSegments;
    FirstChar(p.segments);
    AtChar(s, i, Print(p), 0);
    SegmentsParse(s, i, -1, i, p.segments, []);
    assert [] + p.segments == p.segments;
  }

  lemma ValueParses(s: string, i: nat, v: string)
    requires At(s, i, Quote(v)) && !EndsWithBackslash(v)
    ensures ParseValue(s, i) == (i + |Quote(v)|, Some(v))
  {
    hide Escaped, EndsWithBackslash, Unquote, ClosingQuote;
    AtChar(s, i, Quote(v), 0);
    ScanFindsClosing(s, i, v);
    QuoteUnquotes(v);
    assert s[i..i + |Quote(v)|] == Quote(v);
  }

  lemma QuoteUnquotes(v: string)
    ensures Unquote(Quote(v)) == Some(v)
  {
    EscapedUnquotes(v, "");
    assert Quote(v)[1..] == Escaped(v) + ['"'] + "";
  }

  // ---- Any other path is not ----

  /** An unreadable segment stops the loop, which then stands where it began or at a dot before its end. */
  lemma {:induction false} SegmentsFail(s: string, pos: nat, wildcard: int, index: nat, ss: seq<Segment>,
      acc: seq<Segment>)
    requires ss != [] && WellFormedSegments(ss) && !ReadableSegments(ss)
    requires At(s, pos, PrintSegments(ss)) && Terminated(s, pos + |PrintSegments(ss)|)
    requires index <= pos && wildcard < pos
    ensures Stopped(s, PathLoop(s, Scan(pos, pos, wildcard, index, acc)).0, index, pos + |PrintSegments(ss)|)
    decreases ss, 1
  {
    hide PathLoop, PrintSegments, PrintSegment, At;
    var e := pos + |PrintSegment(ss[0])|;
    if ReadableSegment(ss[0]) {
      var after := SegmentsTurn(s, pos, wildcard, index, ss, acc);
      SegmentsFail(s, e + 1, after, e, ss[1..], acc + [ss[0]]);
    } else {
      FirstSegment(s, pos, ss);
      AliasFails(s, pos, wildcard, index, ss[0], acc);
    }
  }

  ghost predicate Stopped(s: string, x: nat, index: nat, end: nat) { x < end && (x == index || CharAt(s, x) == '.') }

  lemma {:induction false} AliasFails(s: string, pos: nat, wildcard: int, index: nat, x: Segment, acc: seq<Segment>)
    requires WellFormedSegment(x) && !ReadableSegment(x) && At(s, pos, PrintSegment(x)) && index <= pos
    ensures PathLoop(s, Scan(pos, pos, wildcard, index, acc)) == (index, acc) && PrintSegment(x) != ""
    decreases x, 3
  {
    var pairs := x.pairs;
    assert x == Alias(pairs);
    AliasLayout(s, pos, pairs);
    FirstCharOfPairs(s, pos + 1, pairs);
    PairsFail(s, pos + 1, pos + 1, pairs, []);
    assert CharAt(s, ParseAlias(s, pos + 1).0) != ']';
    assert PathStep(s, Scan(pos, pos, wildcard, index, acc)).0;
  }

  lemma FirstCharOfPairs(s: string, pos: nat, ps: seq<Pair>)
    requires ps != [] && WellFormedPairs(ps) && At(s, pos, PrintPairs(ps))
    ensures Starts(CharAt(s, pos))
  {
    FirstPair(s, pos, ps);
    PairLayout(s, pos, ps[0]);
    FirstChar(ps[0].path.segments);
    AtChar(s, pos, Print(ps[0].path), 0);
  }

  lemma {:induction false} PairsFail(s: string, i: nat, index: nat, ps: seq<Pair>, acc: seq<Pair>)
    requires ps != [] && WellFormedPairs(ps) && !ReadablePairs(ps)
    requires At(s, i, PrintPairs(ps)) && index <= i && CharAt(s, index) != ']'
    ensures CharAt(s, AliasLoop(s, i, index, acc).0) != ']'
    decreases ps, 1
  {
    hide AliasLoop, PrintPairs, PrintPair, At, ParsePair;
    FirstPair(s, i, ps);
    if ReadablePair(ps[0]) {
      PairParses(s, i, ps[0]);
      var e := i + |PrintPair(ps[0])|;
      AliasTurn(s, i, index, acc, e, ps[0]);
      PairsFail(s, e + 1, e, ps[1..], acc + [ps[0]]);
    } else {
      PairFails(s, i, ps[0]);
      AliasEnds(s, i, index, acc);
    }
  }

  lemma AliasEnds(s: string, i: nat, index: nat, acc: seq<Pair>)
    requires index <= i && ParsePair(s, i).1.None?
    ensures AliasLoop(s, i, index, acc) == (index, acc)
  {}

  lemma {:induction false} PairFails(s: string, i: nat, p: Pair)
    requires p.path.segments != [] && WellFormed(p.path) && !ReadablePair(p) && At(s, i, PrintPair(p))
    ensures ParsePair(s, i).1.None?
    decreases p, 3
  {
    hide ParseAliasPath, ParseValue, Print, Quote, At, PrintPair;
    PairLayout(s, i, p);
    if Readable(p.path) {
      AliasPathParses(s, i, p.path);
      ValueFails(s, i + |Print(p.path)| + 1, p.value);
    } else {
      AliasPathFails(s, i, p.path);
    }
  }

  lemma {:induction false} AliasPathFails(s: string, i: nat, p: Path)
    requires p.segments != [] && WellFormed(p) && !Readable(p)
    requires At(s, i, Print(p)) && Terminated(s, i + |Print(p)|)
    ensures ParseAliasPath(s, i).1.None?
    decreases p, 2
  {
    FirstChar(p.segments);
    AtChar(s, i, Print(p), 0);
    SegmentsFail(s, i, -1, i, p.segments, []);
  }

  lemma ValueFails(s: string, i: nat, v: string)
    requires At(s, i, Quote(v)) && EndsWithBackslash(v)
    ensures ParseValue(s, i) == (i, None)
  {
    hide Escaped, EndsWithBackslash, Unquote, ClosingQuote;
    AtChar(s, i, Quote(v), 0);
    ScanFindsClosing(s, i, v);
    if ClosingQuote(s, i + 1).Some? { LongerFails(s, i, v, ClosingQuote(s, i + 1).value); }
  }

  lemma LongerFails(s: string, i: nat, v: string, j: nat)
    requires At(s, i, Quote(v)) && i + |Quote(v)| <= j < |s|
    ensures Unquote(s[i..j + 1]).None?
  {
    hide Escaped, UnquoteRest;
    var rest := s[i + |Quote(v)|..j + 1];
    EscapedUnquotes(v, rest);
    assert s[i..j + 1] == Quote(v) + rest;
    assert s[i..j + 1][1..] == Escaped(v) + ['"'] + rest;
  }

  // ---- The round trip ----

  /** `Path.parse(path.toString())` gives the path back exactly when no alias value ends with a
      backslash, and throws otherwise: the scan for a closing quote takes the printed `\\` for an
      escaped quote. */
  lemma ParseUndoesPrint(p: Path)
    requires WellFormed(p)
    ensures Parse(Print(p)) == if Readable(p) then Some(p) else None
  {
    var s := Print(p);
    assert At(s, 0, s);
    if p.segments != [] {
      if Readable(p) {
        SegmentsParse(s, 0, -1, 0, p.segments, []);
        assert [] + p.segments == p.segments;
      } else {
        SegmentsFail(s, 0, -1, 0, p.segments, []);
      }
    }
  }

  // ---- What is parsed is well-formed ----

  lemma {:induction false} InsertKeepsSorted(p: Pair, ps: seq<Pair>)
    requires Sorted(ps) && WellFormedPairs(ps) && WellFormedPairs([p])
    ensures Sorted(InsertPair(p, ps)) && WellFormedPairs(InsertPair(p, ps))
    ensures ps != [] && After(p, ps[0]) ==> InsertPair(p, ps)[0] == ps[0]
  {
    if ps != [] && After(p, ps[0]) {
      InsertKeepsSorted(p, ps[1..]);
      AfterIsAsymmetric(p, ps[0]);
      assert ([ps[0]] + InsertPair(p, ps[1..]))[1..] == InsertPair(p, ps[1..]);
    } else {
      assert ([p] + ps)[1..] == ps;
    }
  }

  lemma AfterIsAsymmetric(a: Pair, b: Pair)
    requires After(a, b)
    ensures !After(b, a)
  {
    if Less(Print(b.path), Print(a.path)) {
      LessIsAsymmetric(Print(b.path), Print(a.path));
    } else {
      LessIsAsymmetric(b.value, a.value);
    }
  }

  lemma {:induction false} SortSorts(ps: seq<Pair>)
    requires WellFormedPairs(ps)
    ensures Sorted(SortPairs(ps)) && WellFormedPairs(SortPairs(ps))
  {
    if ps != [] {
      SortSorts(ps[1..]);
      assert [ps[0]][1..] == [];
      InsertKeepsSorted(ps[0], SortPairs(ps[1..]));
    }
  }

  lemma {:induction false} AppendWellFormed(ss: seq<Segment>, x: Segment)
    requires WellFormedSegments(ss) && WellFormedSegment(x)
    ensures WellFormedSegments(ss + [x])
  {
    if ss != [] {
      AppendWellFormed(ss[1..], x);
      assert (ss + [x])[1..] == ss[1..] + [x];
    }
  }

  lemma {:induction false} AppendPair(ps: seq<Pair>, x: Pair)
    requires WellFormedPairs(ps) && x.path.segments != [] && WellFormed(x.path)
    ensures WellFormedPairs(ps + [x])
  {
    if ps != [] {
      AppendPair(ps[1..], x);
      assert (ps + [x])[1..] == ps[1..] + [x];
    }
  }

  /** What the loop knows about the characters of the current segment. */
  ghost predicate Scanning(s: string, i: nat, start: nat, wildcard: int) {
    start <= i && (i <= |s| || i == start) &&
    (i == start || (i == start + 1 == wildcard && s[start] == '*')
      || (wildcard <= start && forall k :: start <= k < i ==> LegalChar(s[k])))
  }

  lemma {:induction false} LoopIsWellFormed(s: string, i: nat, start: nat, wildcard: int, index: nat, acc: seq<Segment>)
    requires index <= start <= i && Scanning(s, i, start, wildcard) && (i == start ==> wildcard <= start)
    requires WellFormedSegments(acc)
    ensures WellFormedSegments(PathLoop(s, Scan(i, start, wildcard, index, acc)).1)
    decreases |s| + 3 - i, 0
  {
    if i > |s| {
    } else if CharAt(s, i) == '[' && i == start {
      AliasIsWellFormed(s, i + 1);
      var (end, alias) := ParseAlias(s, i + 1);
      AppendWellFormed(acc, Alias(alias));
      if CharAt(s, end) == ']' { LoopIsWellFormed(s, end + 2, end + 2, wildcard, end + 1, acc + [Alias(alias)]); }
    } else if CharAt(s, i) == '*' && i == start {
      LoopIsWellFormed(s, i + 1, start, i + 1, index, acc);
    } else if LegalChar(CharAt(s, i)) && i != wildcard {
      LoopIsWellFormed(s, i + 1, start, wildcard, index, acc);
    } else if i > start {
      assert LegalName(s[start..i]);
      AppendWellFormed(acc, Name(s[start..i]));
      if CharAt(s, i) == '.' { LoopIsWellFormed(s, i + 1, i + 1, wildcard, i, acc + [Name(s[start..i])]); }
    }
  }

  lemma {:induction false} AliasIsWellFormed(s: string, index: nat)
    ensures Sorted(ParseAlias(s, index).1) && WellFormedPairs(ParseAlias(s, index).1)
    decreases |s| + 3 - index, 4
  {
    AliasLoopIsWellFormed(s, index, index, []);
    SortSorts(AliasLoop(s, index, index, []).1);
  }

  lemma {:induction false} AliasLoopIsWellFormed(s: string, i: nat, index: nat, pairs: seq<Pair>)
    requires index <= i && WellFormedPairs(pairs)
    ensures WellFormedPairs(AliasLoop(s, i, index, pairs).1)
    decreases |s| + 3 - i, 3
  {
    AliasPathIsWellFormed(s, i);
    var (end, pair) := ParsePair(s, i);
    if pair.Some? {
      AppendPair(pairs, pair.value);
      if CharAt(s, end) == ',' { AliasLoopIsWellFormed(s, end + 1, end, pairs + [pair.value]); }
    }
  }

  lemma {:induction false} AliasPathIsWellFormed(s: string, index: nat)
    ensures ParseAliasPath(s, index).1.Some? ==>
      WellFormed(ParseAliasPath(s, index).1.value) && ParseAliasPath(s, index).1.value.segments != []
    decreases |s| + 3 - index, 2
  {
    var i := SkipSpaces(s, index);
    LoopIsWellFormed(s, i, i, -1, i, []);
    LoopMovesWithSegments(s, i, i, -1, i, []);
  }

  /** The end moves only when a segment is found. */
  lemma {:induction false} LoopMovesWithSegments(s: string, i: nat, start: nat, wildcard: int, index: nat,
      acc: seq<Segment>)
    requires index <= start <= i
    ensures var r := PathLoop(s, Scan(i, start, wildcard, index, acc));
      |acc| <= |r.1| && (r.0 != index ==> |acc| < |r.1|)
    decreases |s| + 3 - i
  {
    if i > |s| {
    } else if CharAt(s, i) == '[' && i == start {
      var (end, alias) := ParseAlias(s, i + 1);
      if CharAt(s, end) == ']' { LoopMovesWithSegments(s, end + 2, end + 2, wildcard, end + 1, acc + [Alias(alias)]); }
    } else if CharAt(s, i) == '*' && i == start {
      LoopMovesWithSegments(s, i + 1, start, i + 1, index, acc);
    } else if LegalChar(CharAt(s, i)) && i != wildcard {
      LoopMovesWithSegments(s, i + 1, start, wildcard, index, acc);
    } else if i > start && CharAt(s, i) == '.' {
      LoopMovesWithSegments(s, i + 1, i + 1, wildcard, i, acc + [Name(s[start..i])]);
    }
  }

  /** Every path that the parser returns is well-formed, so that printing and parsing it again changes
      nothing if its values allow it. */
  lemma ParsedIsWellFormed(s: string)
    ensures Parse(s).Some? ==> WellFormed(Parse(s).value)
    ensures Parse(s).Some? && Readable(Parse(s).value) ==> Parse(Print(Parse(s).value)) == Parse(s)
  {
    LoopIsWellFormed(s, 0, 0, -1, 0, []);
    if Parse(s).Some? { ParseUndoesPrint(Parse(s).value); }
  }
}
