/** Parameter paths (lib/common/path.ts): how they are printed and how they are parsed. */
module Paths {
  import opened Options
  import opened JsonText

  /** A path is a list of segments: a name, the wildcard `*`, or an alias that selects instances by the
      values of parameters below them. */
  datatype Path = Path(segments: seq<Segment>)
  datatype Segment = Name(text: string) | Alias(pairs: seq<Pair>)
  datatype Pair = Pair(path: Path, value: string)

  const WILDCARD := Name("*")

  // ---- Printing ----

  function Print(p: Path): string { PrintSegments(p.segments) }

  function PrintSegments(ss: seq<Segment>): string {
    if ss == [] then ""
    else if |ss| == 1 then PrintSegment(ss[0])
    else PrintSegment(ss[0]) + "." + PrintSegments(ss[1..])
  }

  function PrintSegment(s: Segment): string {
    match s
    case Name(text) => text
    case Alias(pairs) => "[" + PrintPairs(pairs) + "]"
  }

  function PrintPairs(ps: seq<Pair>): string {
    if ps == [] then ""
    else if |ps| == 1 then PrintPair(ps[0])
    else PrintPair(ps[0]) + "," + PrintPairs(ps[1..])
  }

  function PrintPair(p: Pair): string { Print(p.path) + ":" + Quote(p.value) }

  // ---- Well-formed paths ----

  predicate LegalChar(c: char) {
    'a' <= c <= 'z' || 'A' <= c <= 'Z' || '0' <= c <= '9' || c == '_' || c == '-'
  }

  predicate LegalName(s: string) { s == "*" || (s != "" && forall i :: 0 <= i < |s| ==> LegalChar(s[i])) }

  /** The comparison by which an alias is sorted. */
  predicate After(a: Pair, b: Pair) {
    Less(Print(b.path), Print(a.path)) || (!Less(Print(a.path), Print(b.path)) && Less(b.value, a.value))
  }

  predicate Sorted(ps: seq<Pair>) { |ps| <= 1 || (!After(ps[0], ps[1]) && Sorted(ps[1..])) }

  /** What the parser produces: legal names, and sorted aliases with non-empty paths. */
  predicate WellFormed(p: Path) { WellFormedSegments(p.segments) }

  predicate WellFormedSegments(ss: seq<Segment>) {
    ss == [] || (WellFormedSegment(ss[0]) && WellFormedSegments(ss[1..]))
  }

  predicate WellFormedSegment(s: Segment) {
    match s
    case Name(text) => LegalName(text)
    case Alias(pairs) => Sorted(pairs) && WellFormedPairs(pairs)
  }

  predicate WellFormedPairs(ps: seq<Pair>) {
    ps == [] || (ps[0].path.segments != [] && WellFormed(ps[0].path) && WellFormedPairs(ps[1..]))
  }

  /** No alias value, however deep, ends with a backslash. */
  predicate Readable(p: Path) { ReadableSegments(p.segments) }

  predicate ReadableSegments(ss: seq<Segment>) { ss == [] || (ReadableSegment(ss[0]) && ReadableSegments(ss[1..])) }

  predicate ReadableSegment(s: Segment) { s.Alias? ==> ReadablePairs(s.pairs) }

  predicate ReadablePairs(ps: seq<Pair>) { ps == [] || (ReadablePair(ps[0]) && ReadablePairs(ps[1..])) }

  predicate ReadablePair(p: Pair) { Readable(p.path) && !EndsWithBackslash(p.value) }

  // ---- Parsing ----

  function SkipSpaces(s: string, i: nat): (j: nat)
    ensures i <= j && CharAt(s, j) != ' ' && (i <= |s| ==> j <= |s|)
    decreases |s| - i
  {
    if CharAt(s, i) == ' ' then SkipSpaces(s, i + 1) else i
  }

  function InsertPair(p: Pair, ps: seq<Pair>): seq<Pair> {
    if ps == [] || !After(p, ps[0]) then [p] + ps else [ps[0]] + InsertPair(p, ps[1..])
  }

  /** `alias.sort`, which is stable. */
  function SortPairs(ps: seq<Pair>): seq<Pair> {
    if ps == [] then [] else InsertPair(ps[0], SortPairs(ps[1..]))
  }

  /** The end of an unquoted value. */
  function ValueEnd(s: string, i: nat): (j: nat)
    ensures i <= j && (i <= |s| ==> j <= |s|)
    decreases |s| - i
  {
    if i >= |s| || s[i] == ']' || s[i] == ',' then i else ValueEnd(s, i + 1)
  }

  /** White space and line terminators, which `trim` removes. */
  predicate Blank(c: char) {
    var n := c as int;
    || 9 <= n <= 13 || n == 0x20 || n == 0xA0 || n == 0x1680 || 0x2000 <= n <= 0x200A
    || n == 0x2028 || n == 0x2029 || n == 0x202F || n == 0x205F || n == 0x3000 || n == 0xFEFF
  }

  function Trim(s: string): string {
    if s != "" && Blank(s[0]) then Trim(s[1..])
    else if s != "" && Blank(s[|s| - 1]) then Trim(s[..|s| - 1])
    else s
  }

  /** `parseAliasValue`: a JSON string, or the text up to the next comma or bracket. */
  function ParseValue(s: string, index: nat): (r: (nat, Option<string>))
    ensures index <= r.0 && (r.1.None? ==> r.0 == index)
  {
    var i := SkipSpaces(s, index);
    if CharAt(s, i) == '"' then
      ScanStaysAhead(s, i + 1);
      match ClosingQuote(s, i + 1)
      case None => (index, None)
      case Some(j) => if Unquote(s[i..j + 1]).Some? then (j + 1, Unquote(s[i..j + 1])) else (index, None)
    else
      (ValueEnd(s, i), Some(if i <= |s| then Trim(s[index..ValueEnd(s, i)]) else ""))
  }

  /** `parseAliasPath`: a non-empty path and a colon. */
  function ParseAliasPath(s: string, index: nat): (r: (nat, Option<Path>))
    ensures index <= r.0 && (r.1.Some? ==> index < r.0) && (r.1.None? ==> r.0 == index)
    decreases |s| + 3 - index, 3
  {
    var i := SkipSpaces(s, index);
    var (end, segments) := ParsePath(s, i);
    var colon := SkipSpaces(s, end);
    if end == i || CharAt(s, colon) != ':' then (index, None) else (colon + 1, Some(Path(segments)))
  }

  /** A path, a colon and a value. */
  function ParsePair(s: string, i: nat): (r: (nat, Option<Pair>))
    ensures r.1.Some? ==> i < r.0
    decreases |s| + 3 - i, 4
  {
    var (colon, path) := ParseAliasPath(s, i);
    if path.None? then (i, None)
    else
      var (end, value) := ParseValue(s, colon);
      if value.None? then (i, None) else (end, Some(Pair(path.value, value.value)))
  }

  /** The loop of `parseAlias` at `i`; `index` is the end of the last pair. */
  function AliasLoop(s: string, i: nat, index: nat, pairs: seq<Pair>): (r: (nat, seq<Pair>))
    requires index <= i
    ensures index <= r.0
    decreases |s| + 3 - i, 5
  {
    var (end, pair) := ParsePair(s, i);
    if pair.None? then (index, pairs)
    else if CharAt(s, end) != ',' then (end, pairs + [pair.value])
    else AliasLoop(s, end + 1, end, pairs + [pair.value])
  }

  function ParseAlias(s: string, index: nat): (r: (nat, seq<Pair>))
    ensures index <= r.0
    decreases |s| + 3 - index, 6
  {
    var (end, pairs) := AliasLoop(s, index, index, []);
    (end, SortPairs(pairs))
  }

  /** The variables of the loop of `parsePath`: the current segment starts at `start`, a `*` segment
      ends at `wildcard`, and `index` is the end of the last segment. */
  datatype Scan = Scan(i: nat, start: nat, wildcard: int, index: nat, segments: seq<Segment>) {
    predicate Ordered() { index <= start <= i }
  }

  /** One turn of the loop; the first result says whether it breaks. */
  function PathStep(s: string, l: Scan): (r: (bool, Scan))
    requires l.Ordered() && l.i <= |s|
    ensures r.1.Ordered() && l.index <= r.1.index && l.i <= r.1.i && (!r.0 ==> l.i < r.1.i)
    decreases |s| + 3 - l.i, 0
  {
    if CharAt(s, l.i) == '[' && l.i == l.start then
      var (end, alias) := ParseAlias(s, l.i + 1);
      if CharAt(s, end) != ']' then (true, l)
      else (false, Scan(end + 2, end + 2, l.wildcard, end + 1, l.segments + [Alias(alias)]))
    else if CharAt(s, l.i) == '*' && l.i == l.start then (false, Scan(l.i + 1, l.start, l.i + 1, l.index, l.segments))
    else if LegalChar(CharAt(s, l.i)) && l.i != l.wildcard then
      (false, Scan(l.i + 1, l.start, l.wildcard, l.index, l.segments))
    else if l.i == l.start then (true, l)
    else if CharAt(s, l.i) == '.' then
      (false, Scan(l.i + 1, l.i + 1, l.wildcard, l.i, l.segments + [Name(s[l.start..l.i])]))
    else (true, Scan(l.i, l.i, l.wildcard, l.i, l.segments + [Name(s[l.start..l.i])]))
  }

  function PathLoop(s: string, l: Scan): (r: (nat, seq<Segment>))
    requires l.Ordered()
    ensures l.index <= r.0
    decreases |s| + 3 - l.i, 1
  {
    if l.i > |s| then (l.index, l.segments)
    else
      var (done, next) := PathStep(s, l);
      if done then (next.index, next.segments) else PathLoop(s, next)
  }

  function ParsePath(s: string, index: nat): (r: (nat, seq<Segment>))
    ensures index <= r.0
    decreases |s| + 3 - index, 2
  {
    PathLoop(s, Scan(index, index, -1, index, []))
  }

  /** `Path.parse` without its cache; `None` when it throws. */
  function Parse(s: string): Option<Path> {
    var (index, segments) := ParsePath(s, 0);
    if index < |s| then None else Some(Path(segments))
  }
}
