/** Every way to write a path that lib/common/path.ts accepts, and what it means. */
module PathSpellings {
  import opened Options
  import opened JsonText
  import opened Paths
  import opened PathRoundTrips

  /** A name, or the pairs of an alias in the order in which they are written. The character after an alias
      separates it from the next segment, whatever it is. */
  datatype SpelledSegment = Plain(text: string) | Listed(pairs: seq<SpelledPair>, next: char)

  /** Spaces may stand before a path and after it. */
  datatype SpelledPair = SpelledPair(lead: nat, path: seq<SpelledSegment>, gap: nat, value: SpelledValue)

  /** A JSON string after some spaces, or bare text with blanks around it. */
  datatype SpelledValue = Quoted(lead: nat, raw: string) | Bare(text: string)

  // ---- What is written ----

  function Spaces(n: nat): string { seq(n, i => ' ') }

  function Separator(x: SpelledSegment): char { if x.Listed? then x.next else '.' }

  function WriteSegments(ss: seq<SpelledSegment>): string {
    if ss == [] then ""
    else if |ss| == 1 then WriteSegment(ss[0])
    else WriteSegment(ss[0]) + [Separator(ss[0])] + WriteSegments(ss[1..])
  }

  function WriteSegment(x: SpelledSegment): string {
    match x
    case Plain(text) => text
    case Listed(pairs, _) => "[" + WritePairs(pairs) + "]"
  }

  function WritePairs(ps: seq<SpelledPair>): string {
    if ps == [] then ""
    else if |ps| == 1 then WritePair(ps[0])
    else WritePair(ps[0]) + "," + WritePairs(ps[1..])
  }

  function WritePair(p: SpelledPair): string
    decreases p, 1
  {
    Head(p) + ":" + WriteValue(p.value)
  }

  function Head(p: SpelledPair): string
    decreases p, 0
  {
    Spaces(p.lead) + WriteSegments(p.path) + Spaces(p.gap)
  }

  function WriteValue(v: SpelledValue): string {
    match v
    case Quoted(lead, raw) => Spaces(lead) + raw
    case Bare(text) => text
  }

  // ---- What it means ----

  function Means(ss: seq<SpelledSegment>): seq<Segment>
    requires LegalSegments(ss)
  {
    if ss == [] then [] else [Mean(ss[0])] + Means(ss[1..])
  }

  function Mean(x: SpelledSegment): Segment
    requires LegalSegment(x)
  {
    match x
    case Plain(text) => Name(text)
    case Listed(pairs, _) => Alias(SortPairs(MeanPairs(pairs)))
  }

  function MeanPairs(ps: seq<SpelledPair>): seq<Pair>
    requires LegalPairs(ps)
  {
    if ps == [] then [] else [MeanPair(ps[0])] + MeanPairs(ps[1..])
  }

  function MeanPair(p: SpelledPair): Pair
    requires LegalPair(p)
  {
    Pair(Path(Means(p.path)), MeanValue(p.value))
  }

  function MeanValue(v: SpelledValue): string
    requires LegalValue(v)
  {
    match v
    case Quoted(_, raw) => Unquote(raw).value
    case Bare(text) => Trim(text)
  }

  // ---- What may be written ----

  predicate LegalSegments(ss: seq<SpelledSegment>) { ss == [] || (LegalSegment(ss[0]) && LegalSegments(ss[1..])) }

  predicate LegalSegment(x: SpelledSegment) {
    match x
    case Plain(text) => LegalName(text)
    case Listed(pairs, _) => LegalPairs(pairs)
  }

  predicate LegalPairs(ps: seq<SpelledPair>) { ps == [] || (LegalPair(ps[0]) && LegalPairs(ps[1..])) }

  /** A value right behind the colon of a path that ends with an alias must not look like a name. */
  predicate LegalPair(p: SpelledPair) {
    && p.path != [] && LegalSegments(p.path) && LegalValue(p.value)
    && (Adjoining(p) ==> !NameStart(WriteValue(p.value)[0]))
  }

  /** The colon is taken for the separator behind an alias, so that the value is where a segment could be. */
  predicate Adjoining(p: SpelledPair)
    requires p.path != []
  {
    p.path[|p.path| - 1].Listed? && p.gap == 0 && WriteValue(p.value) != ""
  }

  predicate NameStart(c: char) { LegalChar(c) || c == '*' }

  /** No value in that place begins with a bracket, which may or may not be taken for an alias. */
  predicate Plainly(ss: seq<SpelledSegment>) { ss == [] || (PlainSegment(ss[0]) && Plainly(ss[1..])) }

  predicate PlainSegment(x: SpelledSegment) { x.Listed? ==> PlainPairs(x.pairs) }

  predicate PlainPairs(ps: seq<SpelledPair>) { ps == [] || (PlainPair(ps[0]) && PlainPairs(ps[1..])) }

  predicate PlainPair(p: SpelledPair) {
    Plainly(p.path) && (p.path != [] && Adjoining(p) ==> WriteValue(p.value)[0] != '[')
  }

  /** A JSON string in which no quote but the last has another character than a backslash before it; or text
      without a comma or a closing bracket that does not begin with a quote. */
  predicate LegalValue(v: SpelledValue) {
    match v
    case Quoted(_, raw) =>
      && raw != "" && raw[0] == '"' && ClosingQuote(raw, 1) == Some(|raw| - 1) && Unquote(raw).Some?
    case Bare(text) =>
      && CharAt(text, SkipSpaces(text, 0)) != '"'
      && forall i :: 0 <= i < |text| ==> text[i] != ',' && text[i] != ']'
  }

  // ---- What is written is read ----

  /** The text of a path ends at `e`, and what follows is not taken for another segment. */
  predicate Stops(s: string, e: nat, afterAlias: bool) {
    || e == |s|
    || (e < |s| && (s[e] == ':' || s[e] == ' ') && (afterAlias && e + 1 < |s| ==> !Starts(s[e + 1])))
  }

  lemma {:induction false} SkipsSpaces(s: string, i: nat, n: nat)
    requires At(s, i, Spaces(n)) && CharAt(s, i + n) != ' '
    ensures SkipSpaces(s, i) == i + n
    decreases n
  {
    if n > 0 {
      AtChar(s, i, Spaces(n), 0);
      assert Spaces(n) == [' '] + Spaces(n - 1);
      AtConcat(s, i, [' '], Spaces(n - 1));
      SkipsSpaces(s, i + 1, n - 1);
    }
  }

  lemma SegmentBegins(ss: seq<SpelledSegment>)
    requires ss != [] && LegalSegments(ss)
    ensures WriteSegments(ss) != "" && Starts(WriteSegments(ss)[0])
  {
    assert WriteSegment(ss[0]) != "" && Starts(WriteSegment(ss[0])[0]);
  }

  lemma {:induction false} SegmentsRead(s: string, pos: nat, wildcard: int, index: nat, ss: seq<SpelledSegment>,
      acc: seq<Segment>)
    requires ss != [] && LegalSegments(ss) && Plainly(ss)
    requires At(s, pos, WriteSegments(ss)) && index <= pos && wildcard < pos
    requires Stops(s, pos + |WriteSegments(ss)|, ss[|ss| - 1].Listed?)
    ensures PathLoop(s, Scan(pos, pos, wildcard, index, acc)) == (pos + |WriteSegments(ss)|, acc + Means(ss))
    decreases ss, 1
  {
    hide PathLoop, WriteSegment, WriteSegments, At, Mean, Means, LegalSegment, LegalSegments, PlainSegment, Plainly;
    var x, e := ss[0], pos + |WriteSegment(ss[0])|;
    FirstIsLegal(ss);
    FirstWritten(s, pos, ss);
    AppendMean(acc, ss);
    NoStart();
    var after := SegmentRead(s, pos, wildcard, index, acc, x);
    if |ss| > 1 {
      SegmentsRead(s, e + 1, after, e, ss[1..], acc + [Mean(x)]);
    } else if x.Listed? {
      StopsAfterAlias(s, e, after, acc + [Mean(x)]);
    }
  }

  lemma FirstIsLegal(ss: seq<SpelledSegment>)
    requires ss != [] && LegalSegments(ss) && Plainly(ss)
    ensures LegalSegment(ss[0]) && PlainSegment(ss[0]) && LegalSegments(ss[1..]) && Plainly(ss[1..])
    ensures |ss| > 1 ==> ss[1..] != [] && ss[1..][|ss| - 2] == ss[|ss| - 1]
  {
    hide LegalSegment, PlainSegment;
  }

  lemma AppendMean(acc: seq<Segment>, ss: seq<SpelledSegment>)
    requires ss != [] && LegalSegments(ss)
    ensures acc + [Mean(ss[0])] + Means(ss[1..]) == acc + Means(ss)
    ensures |ss| == 1 ==> acc + [Mean(ss[0])] == acc + Means(ss)
  {
    hide Mean, LegalSegment;
    OneMore(acc, Mean(ss[0]), Means(ss[1..]));
  }

  lemma OneMore<T>(acc: seq<T>, x: T, rest: seq<T>)
    ensures acc + [x] + rest == acc + ([x] + rest) && (rest == [] ==> [x] + rest == [x])
  {}

  lemma WrittenSegments(ss: seq<SpelledSegment>)
    requires ss != []
    ensures WriteSegments(ss) ==
      if |ss| == 1 then WriteSegment(ss[0])
      else WriteSegment(ss[0]) + [Separator(ss[0])] + WriteSegments(ss[1..])
  {
    hide WriteSegment, Separator;
  }

  /** Where the first segment and the others stand. */
  lemma FirstWritten(s: string, pos: nat, ss: seq<SpelledSegment>)
    requires ss != [] && At(s, pos, WriteSegments(ss))
    ensures At(s, pos, WriteSegment(ss[0]))
    ensures |ss| == 1 ==> WriteSegments(ss) == WriteSegment(ss[0])
    ensures |ss| > 1 ==>
      var e := pos + |WriteSegment(ss[0])|;
      && e < |s| && s[e] == Separator(ss[0]) && At(s, e + 1, WriteSegments(ss[1..]))
      && |WriteSegments(ss)| == |WriteSegment(ss[0])| + 1 + |WriteSegments(ss[1..])|
  {
    hide WriteSegment, WriteSegments, Separator;
    WrittenSegments(ss);
    if |ss| > 1 { Separated(s, pos, WriteSegment(ss[0]), [Separator(ss[0])], WriteSegments(ss[1..])); }
  }

  /** The loop reads one segment: behind a name it goes on after a dot, behind an alias after any character. */
  lemma {:induction false} SegmentRead(s: string, pos: nat, wildcard: int, index: nat, acc: seq<Segment>,
      x: SpelledSegment) returns (after: int)
    requires LegalSegment(x) && PlainSegment(x) && At(s, pos, WriteSegment(x)) && index <= pos && wildcard < pos
    requires var e := pos + |WriteSegment(x)|; x.Plain? ==> e == |s| || !LegalChar(s[e])
    ensures var e := pos + |WriteSegment(x)|;
      && after <= e
      && PathLoop(s, Scan(pos, pos, wildcard, index, acc)) ==
         if x.Listed? || CharAt(s, e) == '.' then PathLoop(s, Scan(e + 1, e + 1, after, e, acc + [Mean(x)]))
         else (e, acc + [Mean(x)])
    decreases x, 3
  {
    hide PathLoop, At, ParseAlias;
    match x {
      case Plain(text) => after := NameStep(s, pos, wildcard, index, acc, text);
      case Listed(pairs, _) =>
        PairsAreRead(s, pos, pairs);
        after := wildcard;
        AliasStep(s, pos, wildcard, index, acc, SortPairs(MeanPairs(pairs)));
    }
  }

  // ---- Pairs ----

  /** What ends a value. */
  predicate Closes(c: char) { c == ',' || c == ']' }

  lemma {:induction false} PairsAreRead(s: string, pos: nat, pairs: seq<SpelledPair>)
    requires LegalPairs(pairs) && PlainPairs(pairs) && At(s, pos, "[" + WritePairs(pairs) + "]")
    ensures var e := pos + 1 + |WritePairs(pairs)|;
      && pos < |s| && s[pos] == '[' && CharAt(s, e) == ']' && e < |s|
      && ParseAlias(s, pos + 1) == (e, SortPairs(MeanPairs(pairs)))
    decreases pairs, 2
  {
    hide AliasLoop, WritePair, At, ParsePair, MeanPair, LegalPair, PlainPair;
    var inner := WritePairs(pairs);
    AtConcat3(s, pos, "[", inner, "]");
    AtChar(s, pos, "[", 0);
    AtChar(s, pos + 1 + |inner|, "]", 0);
    if pairs != [] {
      PairsRead(s, pos + 1, pos + 1, pos + 1 + |inner|, pairs, [], MeanPairs(pairs));
    } else {
      NoPair(s, pos + 1);
    }
  }

  lemma WrittenPairs(ps: seq<SpelledPair>)
    requires ps != []
    ensures WritePairs(ps) == if |ps| == 1 then WritePair(ps[0]) else WritePair(ps[0]) + "," + WritePairs(ps[1..])
  {
    hide WritePair;
  }

  /** Where the first pair and the others stand. */
  lemma FirstPairWritten(s: string, pos: nat, ps: seq<SpelledPair>)
    requires ps != [] && At(s, pos, WritePairs(ps))
    ensures At(s, pos, WritePair(ps[0]))
    ensures |ps| == 1 ==> WritePairs(ps) == WritePair(ps[0])
    ensures |ps| > 1 ==>
      var e := pos + |WritePair(ps[0])|;
      && e < |s| && s[e] == ',' && At(s, e + 1, WritePairs(ps[1..]))
      && |WritePairs(ps)| == |WritePair(ps[0])| + 1 + |WritePairs(ps[1..])|
  {
    hide WritePair, WritePairs;
    WrittenPairs(ps);
    if |ps| > 1 { Separated(s, pos, WritePair(ps[0]), ",", WritePairs(ps[1..])); }
  }

  lemma {:induction false} PairsRead(s: string, i: nat, index: nat, end: nat, ps: seq<SpelledPair>, acc: seq<Pair>,
      all: seq<Pair>)
    requires ps != [] && LegalPairs(ps) && PlainPairs(ps) && all == acc + MeanPairs(ps) && index <= i
    requires At(s, i, WritePairs(ps)) && end == i + |WritePairs(ps)| && CharAt(s, end) == ']'
    ensures AliasLoop(s, i, index, acc) == (end, all)
    decreases ps, 1
  {
    hide AliasLoop, WritePairs, WritePair, At, ParsePair, MeanPair, LegalPair, PlainPair;
    FirstPairWritten(s, i, ps);
    var e := i + |WritePair(ps[0])|;
    PairRead(s, i, ps[0]);
    AliasTurn(s, i, index, acc, e, MeanPair(ps[0]));
    AppendPairMean(acc, ps);
    if |ps| > 1 { PairsRead(s, e + 1, e, end, ps[1..], acc + [MeanPair(ps[0])], all); }
  }

  lemma AppendPairMean(acc: seq<Pair>, ps: seq<SpelledPair>)
    requires ps != [] && LegalPairs(ps)
    ensures acc + [MeanPair(ps[0])] + MeanPairs(ps[1..]) == acc + MeanPairs(ps)
    ensures |ps| == 1 ==> acc + [MeanPair(ps[0])] == acc + MeanPairs(ps)
  {
    hide MeanPair, LegalPair;
    OneMore(acc, MeanPair(ps[0]), MeanPairs(ps[1..]));
  }

  lemma {:induction false} PairRead(s: string, i: nat, p: SpelledPair)
    requires LegalPair(p) && PlainPair(p) && At(s, i, WritePair(p)) && Closes(CharAt(s, i + |WritePair(p)|))
    ensures ParsePair(s, i) == (i + |WritePair(p)|, Some(MeanPair(p)))
    decreases p, 3
  {
    hide ParseAliasPath, ParseValue, At, Head, WriteValue, MeanValue, LegalSegments, Plainly, LegalChar;
    var e, v := i + |Head(p)|, WriteValue(p.value);
    AtConcat3(s, i, Head(p), ":", v);
    AtChar(s, e, ":", 0);
    if v != "" { AtChar(s, e + 1, v, 0); }
    NoStart();
    HeadRead(s, i, p);
    ValueRead(s, e + 1, p.value);
  }

  lemma NoStart()
    ensures !Starts(',') && !Starts(']') && !Starts(' ') && !Starts(':') && !Starts('"')
    ensures !LegalChar('.') && !LegalChar(':') && !LegalChar(' ') && CharAt("", 0) != '.'
  {}

  lemma {:induction false} HeadRead(s: string, i: nat, p: SpelledPair)
    requires p.path != [] && LegalSegments(p.path) && Plainly(p.path) && At(s, i, Head(p))
      && CharAt(s, i + |Head(p)|) == ':'
    requires i + |Head(p)| < |s|
    requires p.path[|p.path| - 1].Listed? && p.gap == 0 && i + |Head(p)| + 1 < |s| ==> !Starts(s[i + |Head(p)| + 1])
    ensures ParseAliasPath(s, i) == (i + |Head(p)| + 1, Some(Path(Means(p.path))))
    decreases p, 2
  {
    hide PathLoop, WriteSegments, At, LegalSegments, Plainly, Starts, Spaces, Means, LegalChar;
    var begin, w := i + |Spaces(p.lead)|, WriteSegments(p.path);
    var e := begin + |w|;
    AtConcat3(s, i, Spaces(p.lead), w, Spaces(p.gap));
    SegmentBegins(p.path);
    AtChar(s, begin, w, 0);
    NoStart();
    ManySpaces(p.lead);
    ManySpaces(p.gap);
    SkipsSpaces(s, i, p.lead);
    SkipsSpaces(s, e, p.gap);
    if p.gap > 0 {
      AtChar(s, e, Spaces(p.gap), 0);
      if p.gap > 1 { AtChar(s, e, Spaces(p.gap), 1); }
    }
    SegmentsRead(s, begin, -1, begin, p.path, []);
    assert [] + Means(p.path) == Means(p.path);
  }

  lemma ManySpaces(n: nat)
    ensures |Spaces(n)| == n && forall i :: 0 <= i < n ==> Spaces(n)[i] == ' '
  {}

  lemma {:induction false} ClosingQuoteAt(s: string, pos: nat, raw: string, j: nat)
    requires At(s, pos, raw) && j > 0 && ClosingQuote(raw, j).Some?
    ensures ClosingQuote(s, pos + j) == Some(pos + ClosingQuote(raw, j).value)
    decreases |raw| - j
  {
    if j < |raw| {
      AtChar(s, pos, raw, j);
      AtChar(s, pos, raw, j - 1);
      if !(raw[j] == '"' && raw[j - 1] != '\\') { ClosingQuoteAt(s, pos, raw, j + 1); }
    }
  }

  lemma ValueRead(s: string, i: nat, v: SpelledValue)
    requires LegalValue(v) && At(s, i, WriteValue(v)) && Closes(CharAt(s, i + |WriteValue(v)|))
    ensures ParseValue(s, i) == (i + |WriteValue(v)|, Some(MeanValue(v)))
  {
    match v
    case Quoted(lead, raw) => QuotedRead(s, i, lead, raw);
    case Bare(text) => BareRead(s, i, text);
  }

  lemma QuotedRead(s: string, i: nat, lead: nat, raw: string)
    requires LegalValue(Quoted(lead, raw)) && At(s, i, Spaces(lead) + raw)
    ensures ParseValue(s, i) == (i + lead + |raw|, Unquote(raw))
  {
    hide Unquote, ClosingQuote, Spaces, ParseValue;
    ManySpaces(lead);
    AtConcat(s, i, Spaces(lead), raw);
    AtChar(s, i + lead, raw, 0);
    SkipsSpaces(s, i, lead);
    ClosingQuoteAt(s, i + lead, raw, 1);
    ParsesQuoted(s, i, i + lead, raw);
  }

  lemma ParsesQuoted(s: string, i: nat, begin: nat, raw: string)
    requires At(s, begin, raw) && raw != "" && s[begin] == '"' && SkipSpaces(s, i) == begin
    requires ClosingQuote(s, begin + 1) == Some(begin + |raw| - 1) && Unquote(raw).Some?
    ensures ParseValue(s, i) == (begin + |raw|, Unquote(raw))
  {
    hide Unquote, ClosingQuote;
  }

  lemma {:induction false} SkipsWithin(s: string, i: nat, text: string, k: nat)
    requires At(s, i, text) && k <= |text| && CharAt(s, i + |text|) != ' '
    ensures SkipSpaces(text, k) <= |text| && SkipSpaces(s, i + k) == i + SkipSpaces(text, k)
    decreases |text| - k
  {
    if k < |text| {
      AtChar(s, i, text, k);
      if text[k] == ' ' { SkipsWithin(s, i, text, k + 1); }
    }
  }

  lemma {:induction false} ValueEndsAt(s: string, i: nat, text: string, k: nat)
    requires At(s, i, text) && k <= |text| && Closes(CharAt(s, i + |text|))
    requires forall j :: 0 <= j < |text| ==> text[j] != ',' && text[j] != ']'
    ensures ValueEnd(s, i + k) == i + |text|
    decreases |text| - k
  {
    if k < |text| {
      AtChar(s, i, text, k);
      ValueEndsAt(s, i, text, k + 1);
    }
  }

  lemma BareRead(s: string, i: nat, text: string)
    requires LegalValue(Bare(text)) && At(s, i, text) && Closes(CharAt(s, i + |text|))
    ensures ParseValue(s, i) == (i + |text|, Some(Trim(text)))
  {
    hide Trim, SkipSpaces, ValueEnd, At, ParseValue;
    SkipsWithin(s, i, text, 0);
    FirstOfBare(s, i, text, SkipSpaces(text, 0));
    ValueEndsAt(s, i, text, SkipSpaces(text, 0));
    Standing(s, i, text);
    ParsesBare(s, i);
  }

  lemma ParsesBare(s: string, i: nat)
    requires SkipSpaces(s, i) <= |s| && CharAt(s, SkipSpaces(s, i)) != '"'
    ensures var e := ValueEnd(s, SkipSpaces(s, i)); e <= |s| && ParseValue(s, i) == (e, Some(Trim(s[i..e])))
  {
    hide Trim, SkipSpaces, ValueEnd, ClosingQuote, Unquote;
  }

  lemma Standing(s: string, i: nat, text: string)
    requires At(s, i, text)
    ensures i + |text| <= |s| && s[i..i + |text|] == text
  {}

  lemma FirstOfBare(s: string, i: nat, text: string, k: nat)
    requires At(s, i, text) && k <= |text| && CharAt(text, k) != '"' && Closes(CharAt(s, i + |text|))
    ensures CharAt(s, i + k) != '"'
  {
    if k < |text| { AtChar(s, i, text, k); }
  }

  /** What is written is read: names, nested aliases in any order, JSON strings and bare text. */
  lemma WrittenIsRead(ss: seq<SpelledSegment>)
    requires LegalSegments(ss) && Plainly(ss)
    ensures Parse(WriteSegments(ss)) == Some(Path(Means(ss)))
  {
    var s := WriteSegments(ss);
    assert At(s, 0, s);
    if ss != [] {
      SegmentsRead(s, 0, -1, 0, ss, []);
      assert [] + Means(ss) == Means(ss);
    }
  }
}
