/** Path objects and the string-keyed cache that shares them (lib/common/path.ts:150-274). */
module PathCaches {
  import opened Options
  import opened Word32
  import opened Paths
  import PathInjectivity
  import PathReaders
  import PathRoundTrips

  /** A path with what its constructor derives from the segments: bit i of a mask stands for segment i,
      and `stringIndex` holds where each segment ends in the text. */
  datatype PathObject = PathObject(segments: seq<Segment>, wildcard: Word, alias: Word, text: string,
      stringIndex: seq<nat>)

  function WildcardMask(ss: seq<Segment>): Word {
    seq(32, b => exists i :: 0 <= i < |ss| && i % 32 == b && ss[i] == WILDCARD)
  }

  function AliasMask(ss: seq<Segment>): Word {
    seq(32, b => exists i :: 0 <= i < |ss| && i % 32 == b && ss[i].Alias?)
  }

  function EndOf(ss: seq<Segment>, k: nat): nat
    requires k < |ss|
  {
    |PrintSegments(ss[..k + 1])|
  }

  function Built(ss: seq<Segment>): PathObject {
    PathObject(ss, WildcardMask(ss), AliasMask(ss), PrintSegments(ss),
      seq(|ss|, k requires 0 <= k < |ss| => EndOf(ss, k)))
  }

  /** Up to 32 segments, a bit tells exactly about its segment. */
  lemma MasksAreExact(ss: seq<Segment>, i: nat)
    requires i < |ss| <= 32
    ensures Test(Built(ss).alias, i) <==> ss[i].Alias?
    ensures Test(Built(ss).wildcard, i) <==> ss[i] == WILDCARD
  {}

  lemma AliasIsMarked(ss: seq<Segment>, i: nat)
    requires i < |ss|
    ensures ss[i].Alias? ==> Test(AliasMask(ss), i)
  {}

  /** However long the path is, the mask is zero exactly when there is no alias. */
  lemma NoAliasMask(ss: seq<Segment>)
    ensures AliasMask(ss) == ZERO <==> forall i :: 0 <= i < |ss| ==> !ss[i].Alias?
  {
    NonZeroHasBit(AliasMask(ss));
    forall i | 0 <= i < |ss| && ss[i].Alias? ensures AliasMask(ss)[i % 32] {}
  }

  // ---- Text of a part ----

  lemma {:induction false} PrintConcat(a: seq<Segment>, b: seq<Segment>)
    requires a != [] && b != []
    ensures PrintSegments(a + b) == PrintSegments(a) + "." + PrintSegments(b)
  {
    hide PrintSegment;
    assert (a + b)[1..] == a[1..] + b;
    if |a| > 1 { PrintConcat(a[1..], b); }
  }

  /** Cutting the text at the ends of segments is printing those segments. */
  lemma PartOfText(ss: seq<Segment>, start: nat, end: nat)
    requires start < end <= |ss|
    ensures var i1, i2 := if start > 0 then EndOf(ss, start - 1) + 1 else 0, EndOf(ss, end - 1);
      i1 <= i2 <= |PrintSegments(ss)| && PrintSegments(ss)[i1..i2] == PrintSegments(ss[start..end])
  {
    hide PrintSegments;
    var head, part := PrintSegments(ss[..end]), PrintSegments(ss[start..end]);
    HeadOfText(ss, end);
    assert ss[..end][start..] == ss[start..end] && ss[..end][..start] == ss[..start];
    if start > 0 {
      assert ss[..end] == ss[..start] + ss[start..end];
      PrintConcat(ss[..start], ss[start..end]);
      Behind(PrintSegments(ss[..start]) + ".", part);
    } else {
      Behind("", part);
    }
    assert head[|head| - |part|..] == part;
  }

  lemma HeadOfText(ss: seq<Segment>, end: nat)
    requires 0 < end <= |ss|
    ensures PrintSegments(ss[..end]) <= PrintSegments(ss) && EndOf(ss, end - 1) == |PrintSegments(ss[..end])|
  {
    hide PrintSegments;
    if end < |ss| {
      assert ss == ss[..end] + ss[end..];
      PrintConcat(ss[..end], ss[end..]);
    } else {
      assert ss[..end] == ss;
    }
  }

  lemma Behind(before: string, s: string)
    ensures (before + s)[|before|..] == s
  {}

  lemma TextIsEmpty(ss: seq<Segment>)
    requires WellFormedSegments(ss)
    ensures PrintSegments(ss) == "" <==> ss == []
  {
    if ss != [] { PathRoundTrips.FirstChar(ss); }
  }

  // ---- Parts of well-formed paths ----

  lemma {:induction false} WellFormedAt(ss: seq<Segment>, i: nat)
    requires WellFormedSegments(ss) && i < |ss|
    ensures WellFormedSegment(ss[i])
  {
    if i > 0 { WellFormedAt(ss[1..], i - 1); }
  }

  lemma {:induction false} WellFormedAll(ss: seq<Segment>)
    requires forall i :: 0 <= i < |ss| ==> WellFormedSegment(ss[i])
    ensures WellFormedSegments(ss)
  {
    if ss != [] { WellFormedAll(ss[1..]); }
  }

  lemma WellFormedPart(ss: seq<Segment>, start: nat, end: nat)
    requires WellFormedSegments(ss) && start <= end <= |ss|
    ensures WellFormedSegments(ss[start..end])
  {
    forall i | 0 <= i < end - start ensures WellFormedSegment(ss[start..end][i]) { WellFormedAt(ss, start + i); }
    WellFormedAll(ss[start..end]);
  }

  lemma WellFormedJoin(a: seq<Segment>, b: seq<Segment>)
    requires WellFormedSegments(a) && WellFormedSegments(b)
    ensures WellFormedSegments(a + b)
  {
    forall i | 0 <= i < |a + b| ensures WellFormedSegment((a + b)[i]) {
      if i < |a| { WellFormedAt(a, i); } else { WellFormedAt(b, i - |a|); }
    }
    WellFormedAll(a + b);
  }

  function Stripped(ss: seq<Segment>): seq<Segment> {
    seq(|ss|, i requires 0 <= i < |ss| => if ss[i].Alias? then WILDCARD else ss[i])
  }

  lemma WellFormedStripped(ss: seq<Segment>)
    requires WellFormedSegments(ss)
    ensures WellFormedSegments(Stripped(ss)) && ReadableSegments(Stripped(ss))
  {
    forall i | 0 <= i < |ss| ensures WellFormedSegment(Stripped(ss)[i]) { WellFormedAt(ss, i); }
    WellFormedAll(Stripped(ss));
    NamesAreReadable(Stripped(ss));
  }

  lemma {:induction false} NamesAreReadable(ss: seq<Segment>)
    requires forall i :: 0 <= i < |ss| ==> ss[i].Name?
    ensures ReadableSegments(ss)
  {
    if ss != [] { NamesAreReadable(ss[1..]); }
  }

  // ---- Slices ----

  /** A negative bound counts from the end. */
  function Bound(i: int, n: nat): nat { if i >= 0 then i else if n + i > 0 then n + i else 0 }

  /** The segments that a slice stands for. */
  function Sliced(ss: seq<Segment>, start: int, end: int): seq<Segment> {
    var a, b := Bound(start, |ss|), Bound(end, |ss|);
    if a >= b || a >= |ss| then [] else ss[a..if b <= |ss| then b else |ss|]
  }

  lemma WellFormedSlice(ss: seq<Segment>, start: int, end: int)
    requires WellFormedSegments(ss)
    ensures WellFormedSegments(Sliced(ss, start, end))
  {
    var a, b := Bound(start, |ss|), Bound(end, |ss|);
    if a < b && a < |ss| { WellFormedPart(ss, a, if b <= |ss| then b else |ss|); }
  }

  /** The string method `slice` for bounds that are not negative. */
  function Cut(s: string, i: nat, j: nat): string {
    var a, b := if i <= |s| then i else |s|, if j <= |s| then j else |s|;
    if a >= b then "" else s[a..b]
  }

  /** The text under which the code looks a slice up. Past the last segment `stringIndex` is undefined,
      and a cut from there is a cut from zero. */
  function SliceText(p: PathObject, start: int, end: int): string
    requires p == Built(p.segments)
  {
    var n := |p.segments|;
    var a, b := Bound(start, n), Bound(end, n);
    if a >= b then ""
    else
      var from := if a == 0 || a > n then 0 else p.stringIndex[a - 1] + 1;
      Cut(p.text, from, if b <= n then p.stringIndex[b - 1] else |p.text|)
  }

  /** Whether a slice starts behind the last segment and yet before its end. */
  predicate Outside(ss: seq<Segment>, start: int, end: int) {
    ss != [] && |ss| < Bound(start, |ss|) < Bound(end, |ss|)
  }

  /** The text is that of the slice exactly when the slice does not start outside the path: there it is
      the text of the whole path, and the cache is filled with an empty path under that name. */
  lemma SliceTextIsExact(ss: seq<Segment>, start: int, end: int)
    requires WellFormedSegments(ss)
    ensures SliceText(Built(ss), start, end) == PrintSegments(Sliced(ss, start, end)) <==> !Outside(ss, start, end)
    ensures Outside(ss, start, end) ==> SliceText(Built(ss), start, end) == PrintSegments(ss)
  {
    hide PrintSegments, WellFormedSegments, SliceText, Sliced;
    var n := |ss|;
    var a, b := Bound(start, n), Bound(end, n);
    TextIsEmpty(ss);
    if a >= b {
      NothingSliced(ss, start, end);
    } else if a < n {
      InsideIsExact(ss, start, end);
    } else {
      BehindTheEnd(ss, start, end);
    }
  }

  /** Bounds that are counted from the start already stay as they are. */
  lemma BoundedOnce(p: PathObject, start: int, end: int)
    requires p == Built(p.segments)
    ensures var n := |p.segments|;
      && SliceText(p, Bound(start, n), Bound(end, n)) == SliceText(p, start, end)
      && Sliced(p.segments, Bound(start, n), Bound(end, n)) == Sliced(p.segments, start, end)
    ensures p.text == PrintSegments(p.segments)
    ensures Outside(p.segments, start, end) ==> Sliced(p.segments, start, end) == []
  {
    hide PrintSegments;
  }

  lemma NothingSliced(ss: seq<Segment>, start: int, end: int)
    requires Bound(start, |ss|) >= Bound(end, |ss|)
    ensures SliceText(Built(ss), start, end) == PrintSegments(Sliced(ss, start, end)) == ""
  {}

  lemma InsideIsExact(ss: seq<Segment>, start: int, end: int)
    requires Bound(start, |ss|) < Bound(end, |ss|) && Bound(start, |ss|) < |ss|
    ensures SliceText(Built(ss), start, end) == PrintSegments(Sliced(ss, start, end))
  {
    hide PrintSegments, Bound, EndOf;
    var n := |ss|;
    var a, b := Bound(start, n), Bound(end, n);
    EndOfLast(ss);
    PartOfText(ss, a, if b <= n then b else n);
  }

  lemma BehindTheEnd(ss: seq<Segment>, start: int, end: int)
    requires |ss| <= Bound(start, |ss|) < Bound(end, |ss|)
    ensures PrintSegments(Sliced(ss, start, end)) == ""
    ensures SliceText(Built(ss), start, end) == if |ss| < Bound(start, |ss|) then PrintSegments(ss) else ""
  {
    EndOfLast(ss);
  }

  lemma EndOfLast(ss: seq<Segment>)
    ensures ss != [] ==> EndOf(ss, |ss| - 1) == |PrintSegments(ss)|
  {
    hide PrintSegments;
    if ss != [] { assert ss[..|ss|] == ss; }
  }

  // ---- The cache ----

  /** An entry is what its name parses to, or the path of that name. */
  ghost predicate Entry(name: string, p: PathObject) {
    && WellFormedSegments(p.segments) && p == Built(p.segments)
    && (Parse(name) == Some(Path(p.segments)) || p.text == name)
  }

  /** The text of a path leads back to that path. */
  lemma EntryOfText(ss: seq<Segment>, p: PathObject)
    requires WellFormedSegments(ss) && Entry(PrintSegments(ss), p)
    ensures p == Built(ss)
  {
    PathRoundTrips.ParseUndoesPrint(Path(ss));
    if p.text == PrintSegments(ss) { PathInjectivity.PrintIsInjective(Path(ss), Path(p.segments)); }
  }

  /** A name that parses leads to what it parses to. */
  lemma EntryOfName(name: string, p: PathObject)
    requires Entry(name, p) && Parse(name).Some?
    ensures p == Built(Parse(name).value.segments)
  {
    PathRoundTrips.ParseUndoesPrint(Path(p.segments));
  }

  lemma OwnEntry(ss: seq<Segment>)
    requires WellFormedSegments(ss)
    ensures Entry(PrintSegments(ss), Built(ss))
  {
  }

  lemma ParsedEntry(name: string)
    requires Parse(name).Some?
    ensures Entry(name, Built(Parse(name).value.segments))
  {
    PathRoundTrips.ParsedIsWellFormed(name);
  }

  ghost predicate Coherent(cache: map<string, PathObject>) { forall name :: name in cache ==> Entry(name, cache[name]) }

  /** The constructor: masks and text by one pass over the segments. */
  method Build(segments: seq<Segment>) returns (p: PathObject)
    ensures p == Built(segments)
  {
    var wildcard, alias, text, stringIndex := ZERO, ZERO, "", [];
    var i := 0;
    while i < |segments|
      invariant i <= |segments| && |stringIndex| == i
      invariant text == PrintSegments(segments[..i])
      invariant forall k :: 0 <= k < i ==> stringIndex[k] == EndOf(segments, k)
      invariant forall b :: 0 <= b < 32 ==>
        (wildcard[b] <==> exists k :: 0 <= k < i && k % 32 == b && segments[k] == WILDCARD)
      invariant forall b :: 0 <= b < 32 ==> (alias[b] <==> exists k :: 0 <= k < i && k % 32 == b && segments[k].Alias?)
    {
      if segments[i].Alias? {
        alias := Or(alias, Bit(i));
      } else if segments[i] == WILDCARD {
        wildcard := Or(wildcard, Bit(i));
      }
      assert segments[..i + 1] == segments[..i] + [segments[i]];
      if i > 0 { PrintConcat(segments[..i], [segments[i]]); }
      text := (if i > 0 then text + "." else text) + PrintSegment(segments[i]);
      stringIndex := stringIndex + [|text|];
      i := i + 1;
    }
    assert segments[..i] == segments;
    p := PathObject(segments, wildcard, alias, text, stringIndex);
    assert wildcard == WildcardMask(segments) && alias == AliasMask(segments);
  }

  class PathCache {
    var cache1: map<string, PathObject>
    var cache2: map<string, PathObject>

    ghost predicate Valid()
      reads this
    {
      Coherent(cache1) && Coherent(cache2)
    }

    constructor ()
      ensures Valid() && cache1 == map[] && cache2 == map[]
    {
      cache1, cache2 := map[], map[];
    }

    /** The timer: the older half is forgotten. */
    method Rotate()
      requires Valid()
      modifies this
      ensures Valid() && cache1 == map[] && cache2 == old(cache1)
    {
      cache2 := cache1;
      cache1 := map[];
    }

    /** Text that parses gives what it parses to. Other text fails, unless it is the text of an unreadable
        path that `slice` or `concat` has put into the cache. */
    method Parse(str: string) returns (r: Option<PathObject>)
      requires Valid()
      modifies this`cache1
      ensures Valid()
      ensures Paths.Parse(str).Some? ==> r == Some(Built(Paths.Parse(str).value.segments))
      ensures Paths.Parse(str).None? ==> r.Some? == (str in old(cache1) || str in cache2)
      ensures r.Some? ==> Entry(str, r.value) && str in cache1 && cache1[str] == r.value
      ensures r.None? ==> cache1 == old(cache1)
    {
      if Paths.Parse(str).Some? {
        forall p | Entry(str, p) ensures p == Built(Paths.Parse(str).value.segments) { EntryOfName(str, p); }
      }
      if str in cache1 { return Some(cache1[str]); }
      var path: PathObject;
      if str in cache2 {
        path := cache2[str];
      } else {
        var index, segments := PathReaders.ReadPath(str, 0);
        if index < |str| { return None; }
        assert Paths.Parse(str) == Some(Path(segments));
        ParsedEntry(str);
        path := Build(segments);
        OwnEntry(segments);
        if path.text != str { cache1 := cache1[path.text := path]; }
      }
      cache1 := cache1[str := path];
      return Some(path);
    }

    /** The lookup that `slice`, `concat` and `stripAlias` end with. */
    method Share(str: string, segments: seq<Segment>) returns (path: PathObject)
      requires Valid()
      modifies this`cache1
      ensures cache1 == old(cache1)[str := path]
      ensures path == if str in old(cache1) then old(cache1)[str] else if str in cache2 then cache2[str]
        else Built(segments)
      ensures WellFormedSegments(segments) && str == PrintSegments(segments) ==>
        Valid() && path == Built(segments)
    {
      if str in cache1 {
        path := cache1[str];
      } else if str in cache2 {
        path := cache2[str];
      } else {
        path := Build(segments);
      }
      cache1 := cache1[str := path];
      if WellFormedSegments(segments) && str == PrintSegments(segments) {
        OwnEntry(segments);
        EntryOfText(segments, path);
      }
    }

    /** Whatever the cache holds, a slice is the path of those segments. */
    method Slice(p: PathObject, start: int, end: int) returns (r: PathObject)
      requires Valid() && p == Built(p.segments) && WellFormedSegments(p.segments)
      modifies this`cache1
      ensures !Outside(p.segments, start, end) ==> Valid() && r == Built(Sliced(p.segments, start, end))
      ensures Outside(p.segments, start, end) && p.text !in old(cache1) && p.text !in cache2 ==>
        cache1 == old(cache1)[p.text := Built([])]
    {
      hide PrintSegments, WellFormedSegments, ReadableSegments, SliceText, Sliced, Built;
      BoundedOnce(p, start, end);
      var a, b := start, end;
      if a < 0 { a := if |p.segments| + a > 0 then |p.segments| + a else 0; }
      if b < 0 { b := if |p.segments| + b > 0 then |p.segments| + b else 0; }
      var str := SliceText(p, a, b);
      SliceTextIsExact(p.segments, start, end);
      var segments := Sliced(p.segments, a, b);
      WellFormedSlice(p.segments, start, end);
      r := Share(str, segments);
    }

    /** Whatever the cache holds, a concatenation is the path of all the segments. */
    method Concat(p: PathObject, q: PathObject) returns (r: PathObject)
      requires Valid() && p == Built(p.segments) && q == Built(q.segments)
      requires WellFormedSegments(p.segments) && WellFormedSegments(q.segments)
      modifies this`cache1
      ensures Valid() && r == Built(p.segments + q.segments)
    {
      TextIsEmpty(p.segments);
      TextIsEmpty(q.segments);
      assert q.segments == [] ==> p.segments + q.segments == p.segments;
      assert p.segments == [] ==> p.segments + q.segments == q.segments;
      if q.text == "" { return p; }
      if p.text == "" { return q; }
      PrintConcat(p.segments, q.segments);
      WellFormedJoin(p.segments, q.segments);
      r := Share(p.text + "." + q.text, p.segments + q.segments);
    }

    /** Whatever the cache holds, stripping puts a wildcard for every alias and leaves the rest. */
    method StripAlias(p: PathObject) returns (r: PathObject)
      requires Valid() && p == Built(p.segments) && WellFormedSegments(p.segments)
      modifies this`cache1
      ensures Valid() && r == Built(Stripped(p.segments))
    {
      NoAliasMask(p.segments);
      if p.alias == ZERO {
        assert Stripped(p.segments) == p.segments;
        return p;
      }
      var segments := Stripped(p.segments);
      WellFormedStripped(p.segments);
      r := Share(PrintSegments(segments), segments);
    }
  }
}
