/** The parser of lib/common/path.ts accepts nothing but what can be written: whatever it reads is some way to
    write the path that it returns. */
module PathLanguage {
  import opened Options
  import opened JsonText
  import opened Paths
  import opened PathRoundTrips
  import opened PathSpellings

  lemma {:induction false} SpacesSkipped(s: string, i: nat)
    requires i <= |s|
    ensures var j := SkipSpaces(s, i); j <= |s| && s[i..j] == Spaces(j - i)
    decreases |s| - i
  {
    if CharAt(s, i) == ' ' {
      SpacesSkipped(s, i + 1);
      var j := SkipSpaces(s, i);
      assert s[i..j] == [' '] + s[i + 1..j];
    }
  }

  /** What may stand behind what was read: not the beginning of a name, if an alias was read last. */
  predicate Follows(s: string, e: nat, ss: seq<SpelledSegment>)
    requires ss != []
  {
    ss[|ss| - 1].Listed? && e + 1 < |s| ==> !NameStart(s[e + 1])
  }

  /** The segments `ss` were written at `start`, up to the end that the loop returns. */
  ghost predicate WrittenAt(s: string, start: nat, index: nat, acc: seq<Segment>, r: (nat, seq<Segment>),
      ss: seq<SpelledSegment>)
  {
    && LegalSegments(ss) && r.1 == acc + Means(ss)
    && (ss == [] ==> r.0 == index)
    && (ss != [] ==> start < r.0 <= |s| && s[start..r.0] == WriteSegments(ss) && Follows(s, r.0, ss))
  }

  lemma ConsWritten(s: string, start: nat, e: nat, index: nat, acc: seq<Segment>, x: SpelledSegment,
      r: (nat, seq<Segment>), rest: seq<SpelledSegment>)
    requires LegalSegment(x) && start < e <= |s| && s[start..e] == WriteSegment(x)
    requires WrittenAt(s, e + 1, e, acc + [Mean(x)], r, rest)
    requires rest != [] ==> s[e] == Separator(x)
    requires rest == [] ==> Follows(s, e, [x])
    ensures WrittenAt(s, start, index, acc, r, [x] + rest)
  {
    hide LegalSegment, LegalSegments, Mean, Means, WriteSegment, WriteSegments, Separator;
    OnePrefixed(x, rest);
    OneMore(acc, Mean(x), Means(rest));
    if rest != [] {
      assert s[start..r.0] == s[start..e] + [s[e]] + s[e + 1..r.0];
    }
  }

  lemma OnePrefixed(x: SpelledSegment, rest: seq<SpelledSegment>)
    requires LegalSegment(x)
    ensures LegalSegments([x] + rest) <==> LegalSegments(rest)
    ensures LegalSegments(rest) ==> Means([x] + rest) == [Mean(x)] + Means(rest)
    ensures WriteSegments([x] + rest) ==
      if rest == [] then WriteSegment(x) else WriteSegment(x) + [Separator(x)] + WriteSegments(rest)
    ensures LegalSegments([]) && Means([]) == []
  {
    hide LegalSegment, Mean, WriteSegment, Separator;
    assert ([x] + rest)[1..] == rest;
  }

  lemma NothingWritten(s: string, start: nat, index: nat, acc: seq<Segment>)
    ensures WrittenAt(s, start, index, acc, (index, acc), [])
  {
    assert acc + [] == acc;
  }

  lemma {:induction false} LoopIsWritten(s: string, i: nat, start: nat, wildcard: int, index: nat, acc: seq<Segment>)
      returns (ss: seq<SpelledSegment>)
    requires index <= start <= i && Scanning(s, i, start, wildcard) && (i == start ==> wildcard < start)
    ensures WrittenAt(s, start, index, acc, PathLoop(s, Scan(i, start, wildcard, index, acc)), ss)
    ensures i > start || (start < |s| && NameStart(s[start])) ==> ss != []
    decreases |s| + 3 - i, 0
  {
    hide Means, Mean, LegalSegment, WriteSegments, WriteSegment, WrittenAt, SortPairs, WritePairs, LegalPairs,
      MeanPairs;
    ss := [];
    if i > |s| || (i == start && CharAt(s, i) != '[' && !NameStart(CharAt(s, i))) {
      NothingWritten(s, start, index, acc);
    } else if i == start && CharAt(s, i) == '[' {
      var ps := AliasIsWritten(s, i + 1);
      var end := ParseAlias(s, i + 1).0;
      if CharAt(s, end) == ']' {
        var x := Listed(ps, CharAt(s, end + 1));
        AliasMeans(ps, CharAt(s, end + 1));
        var rest := LoopIsWritten(s, end + 2, end + 2, wildcard, end + 1, acc + [Mean(x)]);
        AliasText(s, i, end, ps, CharAt(s, end + 1));
        var r := PathLoop(s, Scan(end + 2, end + 2, wildcard, end + 1, acc + [Mean(x)]));
        RestBehind(s, end + 2, end + 1, acc + [Mean(x)], r, rest);
        ConsWritten(s, start, end + 1, index, acc, x, r, rest);
        ss := [x] + rest;
      } else {
        NothingWritten(s, start, index, acc);
      }
    } else if i == start && CharAt(s, i) == '*' {
      ss := LoopIsWritten(s, i + 1, start, i + 1, index, acc);
    } else if LegalChar(CharAt(s, i)) && i != wildcard {
      ss := LoopIsWritten(s, i + 1, start, wildcard, index, acc);
    } else {
      var x := Plain(s[start..i]);
      NameRead(s, i, start, wildcard);
      if CharAt(s, i) == '.' {
        var rest := LoopIsWritten(s, i + 1, i + 1, wildcard, i, acc + [Mean(x)]);
        ConsWritten(s, start, i, index, acc, x,
          PathLoop(s, Scan(i + 1, i + 1, wildcard, i, acc + [Mean(x)])), rest);
        ss := [x] + rest;
      } else {
        NothingWritten(s, i + 1, i, acc + [Mean(x)]);
        ConsWritten(s, start, i, index, acc, x, (i, acc + [Mean(x)]), []);
        ss := [x] + [];
      }
    }
  }

  lemma AliasMeans(ps: seq<SpelledPair>, next: char)
    requires LegalPairs(ps)
    ensures LegalSegment(Listed(ps, next)) && Mean(Listed(ps, next)) == Alias(SortPairs(MeanPairs(ps)))
  {}

  /** A name of which the loop has seen all characters. */
  lemma NameRead(s: string, i: nat, start: nat, wildcard: int)
    requires start < i <= |s| && Scanning(s, i, start, wildcard)
    ensures LegalName(s[start..i]) && WriteSegment(Plain(s[start..i])) == s[start..i]
    ensures LegalSegment(Plain(s[start..i])) && Mean(Plain(s[start..i])) == Name(s[start..i])
    ensures Follows(s, i, [Plain(s[start..i])]) && Separator(Plain(s[start..i])) == '.'
  {}

  lemma RestBehind(s: string, start: nat, index: nat, acc: seq<Segment>, r: (nat, seq<Segment>),
      rest: seq<SpelledSegment>)
    requires WrittenAt(s, start, index, acc, r, rest)
    ensures rest != [] ==> start < |s|
  {}

  lemma AliasText(s: string, i: nat, end: nat, ps: seq<SpelledPair>, next: char)
    requires i < |s| && s[i] == '[' && i + 1 <= end && CharAt(s, end) == ']' && s[i + 1..end] == WritePairs(ps)
    requires end < |s|
    ensures s[i..end + 1] == WriteSegment(Listed(ps, next))
  {
    assert s[i..end + 1] == [s[i]] + s[i + 1..end] + [s[end]];
  }

  lemma {:induction false} AliasIsWritten(s: string, index: nat) returns (ps: seq<SpelledPair>)
    requires index <= |s|
    ensures var r := ParseAlias(s, index);
      LegalPairs(ps) && r.1 == SortPairs(MeanPairs(ps)) && r.0 <= |s| && s[index..r.0] == WritePairs(ps)
    decreases |s| + 3 - index, 4
  {
    hide WritePairs, MeanPairs;
    ps := PairsAreWritten(s, index, index, []);
    assert [] + MeanPairs(ps) == MeanPairs(ps);
    if ps == [] { NoPairs(); }
  }

  lemma NoPairs()
    ensures WritePairs([]) == "" && MeanPairs([]) == []
  {}

  lemma {:induction false} PairsAreWritten(s: string, i: nat, index: nat, pairs: seq<Pair>)
      returns (ps: seq<SpelledPair>)
    requires index <= i <= |s|
    ensures var r := AliasLoop(s, i, index, pairs);
      && LegalPairs(ps) && r.1 == pairs + MeanPairs(ps) && r.0 <= |s|
      && (ps == [] ==> r.0 == index) && (ps != [] ==> i <= r.0 && s[i..r.0] == WritePairs(ps))
    decreases |s| + 3 - i, 3
  {
    hide LegalPair, WritePair, MeanPair, ParsePair;
    var (end, pair) := ParsePair(s, i);
    ps := [];
    if pair.Some? {
      var p := PairIsWritten(s, i);
      var rest := [];
      if CharAt(s, end) == ',' { rest := PairsAreWritten(s, end + 1, end, pairs + [pair.value]); }
      ps := [p] + rest;
      assert ps[1..] == rest;
      OneMore(pairs, pair.value, MeanPairs(rest));
      if rest != [] {
        var r := AliasLoop(s, i, index, pairs);
        assert s[i..r.0] == s[i..end] + "," + s[end + 1..r.0];
      }
    }
  }

  lemma ThreeParts(s: string, i: nat, begin: nat, e: nat, colon: nat)
    requires i <= begin <= e <= colon < |s| && s[colon] == ':'
    ensures s[i..colon + 1] == s[i..begin] + s[begin..e] + s[e..colon] + ":"
  {
    TwoParts(s, i, begin, e);
    TwoParts(s, i, e, colon);
    TwoParts(s, i, colon, colon + 1);
    assert s[colon..colon + 1] == ":";
  }

  lemma TwoParts(s: string, i: nat, j: nat, k: nat)
    requires i <= j <= k <= |s|
    ensures s[i..k] == s[i..j] + s[j..k]
  {}

  /** The spaces, the path, the spaces and the colon of a pair. */
  lemma {:induction false} HeadIsWritten(s: string, i: nat) returns (p: SpelledPair)
    requires i <= |s| && ParseAliasPath(s, i).1.Some?
    ensures var r := ParseAliasPath(s, i);
      && i < r.0 <= |s| && s[i..r.0] == Head(p) + ":"
      && p.path != [] && LegalSegments(p.path) && Path(Means(p.path)) == r.1.value
      && (p.path[|p.path| - 1].Listed? && p.gap == 0 && r.0 < |s| ==> !NameStart(s[r.0]))
    decreases |s| + 3 - i, 1
  {
    hide PathLoop, Means, LegalSegments, WriteSegments, Spaces, NameStart;
    var begin := SkipSpaces(s, i);
    SpacesSkipped(s, i);
    var ss := LoopIsWritten(s, begin, begin, -1, begin, []);
    var (e, segments) := ParsePath(s, begin);
    var colon := SkipSpaces(s, e);
    SpacesSkipped(s, e);
    assert [] + Means(ss) == Means(ss);
    p := SpelledPair(begin - i, ss, colon - e, Bare(""));
    ThreeParts(s, i, begin, e, colon);
  }

  lemma {:induction false} PairIsWritten(s: string, i: nat) returns (p: SpelledPair)
    requires i <= |s| && ParsePair(s, i).1.Some?
    ensures var r := ParsePair(s, i);
      LegalPair(p) && MeanPair(p) == r.1.value && i <= r.0 <= |s| && s[i..r.0] == WritePair(p)
    decreases |s| + 3 - i, 2
  {
    hide ParseAliasPath, ParseValue, Means, LegalSegments, WriteSegments, WriteValue, MeanValue, LegalValue, NameStart,
      Spaces;
    var head := HeadIsWritten(s, i);
    var value := ParseAliasPath(s, i).0;
    var v := ValueIsWritten(s, value);
    p := SpelledPair(head.lead, head.path, head.gap, v);
    var end := ParseValue(s, value).0;
    FirstOfText(s, value, end, WriteValue(v));
    assert s[i..end] == s[i..value] + s[value..end];
  }

  lemma FirstOfText(s: string, i: nat, e: nat, text: string)
    requires i <= e <= |s| && s[i..e] == text
    ensures text != "" ==> i < |s| && text[0] == s[i]
  {}

  lemma PartAt(s: string, i: nat, e: nat, k: nat)
    requires i <= k < e <= |s|
    ensures s[i..e][k - i] == s[k]
  {}

  lemma {:induction false} ClosingQuoteWithin(s: string, i: nat, j: nat, k: nat)
    requires i < k <= j < |s| && ClosingQuote(s, k) == Some(j)
    ensures ClosingQuote(s[i..j + 1], k - i) == Some(j - i)
    decreases j - k
  {
    PartAt(s, i, j + 1, k);
    PartAt(s, i, j + 1, k - 1);
    ScanStaysAhead(s, k + 1);
    if k < j { ClosingQuoteWithin(s, i, j, k + 1); }
  }

  lemma ValueIsWritten(s: string, index: nat) returns (v: SpelledValue)
    requires index <= |s| && ParseValue(s, index).1.Some?
    ensures var r := ParseValue(s, index);
      LegalValue(v) && MeanValue(v) == r.1.value && index <= r.0 <= |s| && s[index..r.0] == WriteValue(v)
  {
    if CharAt(s, SkipSpaces(s, index)) == '"' {
      v := QuotedIsWritten(s, index);
    } else {
      v := BareIsWritten(s, index);
    }
  }

  lemma QuotedIsWritten(s: string, index: nat) returns (v: SpelledValue)
    requires index <= |s| && ParseValue(s, index).1.Some? && CharAt(s, SkipSpaces(s, index)) == '"'
    ensures var r := ParseValue(s, index);
      LegalValue(v) && MeanValue(v) == r.1.value && index <= r.0 <= |s| && s[index..r.0] == WriteValue(v)
  {
    hide Unquote, SkipSpaces, ClosingQuote;
    var i := SkipSpaces(s, index);
    SpacesSkipped(s, index);
    ScanStaysAhead(s, i + 1);
    var j := ClosingQuote(s, i + 1).value;
    ClosingQuoteWithin(s, i, j, i + 1);
    v := Quoted(i - index, s[i..j + 1]);
    assert s[index..j + 1] == s[index..i] + s[i..j + 1];
  }

  lemma BareIsWritten(s: string, index: nat) returns (v: SpelledValue)
    requires index <= |s| && CharAt(s, SkipSpaces(s, index)) != '"'
    ensures var r := ParseValue(s, index);
      && r.1.Some? && index <= r.0 <= |s|
      && LegalValue(v) && MeanValue(v) == r.1.value && s[index..r.0] == WriteValue(v)
  {
    hide Trim, SkipSpaces, ValueEnd;
    var i := SkipSpaces(s, index);
    SpacesSkipped(s, index);
    var e := ValueEnd(s, i);
    v := Bare(s[index..e]);
    ValueHasNoEnd(s, i);
    SkippedWithin(s, index, e, 0);
    ManySpaces(i - index);
    var text := s[index..e];
    forall k | 0 <= k < |text| ensures text[k] != ',' && text[k] != ']' {
      assert text[k] == s[index + k];
      if k < i - index { assert s[index..i][k] == ' '; }
    }
    FirstAfterSpaces(s, index, e, i);
  }

  lemma FirstAfterSpaces(s: string, index: nat, e: nat, i: nat)
    requires index <= i <= e <= |s| && CharAt(s, i) != '"'
    ensures CharAt(s[index..e], i - index) != '"'
  {
    if i < e { assert s[index..e][i - index] == s[i]; }
  }

  lemma {:induction false} ValueHasNoEnd(s: string, i: nat)
    requires i <= |s|
    ensures forall k :: i <= k < ValueEnd(s, i) ==> s[k] != ',' && s[k] != ']'
    decreases |s| - i
  {
    if i < |s| && s[i] != ']' && s[i] != ',' { ValueHasNoEnd(s, i + 1); }
  }

  lemma {:induction false} SkippedWithin(s: string, index: nat, e: nat, k: nat)
    requires index + k <= e <= |s| && SkipSpaces(s, index + k) <= e
    ensures SkipSpaces(s[index..e], k) == SkipSpaces(s, index + k) - index
    decreases e - k
  {
    if index + k < e && s[index + k] == ' ' { SkippedWithin(s, index, e, k + 1); }
  }

  /** Whatever is read is written in some legal way. */
  lemma ReadIsWritten(s: string) returns (ss: seq<SpelledSegment>)
    requires Parse(s).Some?
    ensures LegalSegments(ss) && WriteSegments(ss) == s && Path(Means(ss)) == Parse(s).value
  {
    ss := LoopIsWritten(s, 0, 0, -1, 0, []);
    assert [] + Means(ss) == Means(ss);
    if ss != [] { assert s[0..|s|] == s; }
  }

  /** After an alias, any character at all separates the next segment. */
  lemma AnythingSeparates(x: SpelledSegment, c: char, rest: seq<SpelledSegment>)
    requires x.Listed? && rest != [] && LegalSegments([x] + rest) && Plainly([x] + rest)
    ensures Parse(WriteSegment(x) + [c] + WriteSegments(rest)) == Some(Path(Means([x] + rest)))
  {
    hide LegalPairs, PlainPairs, MeanPairs, WritePairs;
    var y := Listed(x.pairs, c);
    assert ([x] + rest)[1..] == rest && ([y] + rest)[1..] == rest;
    WrittenIsRead([y] + rest);
  }

  /** A single character is a path if it is a letter or digit of ASCII, an underscore, a hyphen or the wildcard. */
  lemma OneCharacter(c: char)
    ensures Parse([c]) ==
      if 'A' <= c <= 'Z' || 'a' <= c <= 'z' || '0' <= c <= '9' || c in "_-*" then Some(Path([Name([c])])) else None
  {
    hide ClosingQuote, Unquote;
    if LegalName([c]) {
      var ss := [Plain([c])];
      OneName([c]);
      WrittenIsRead(ss);
      assert c == '*' || LegalChar([c][0]);
    } else {
      var start := Scan(0, 0, -1, 0, []);
      assert CharAt([c], 0) == c && LegalChar(c) ==> LegalName([c]);
      if c == '[' { NothingOpens(); }
      assert PathLoop([c], start) == (0, []);
    }
  }

  lemma OneName(name: string)
    requires LegalName(name)
    ensures var ss := [Plain(name)];
      LegalSegments(ss) && Plainly(ss) && WriteSegments(ss) == name && Means(ss) == [Name(name)]
  {
    var ss := [Plain(name)];
    assert ss[1..] == [] && PlainSegment(ss[0]) && LegalSegment(ss[0]);
    NothingIsLegal();
  }

  lemma NothingIsLegal()
    ensures LegalSegments([]) && Plainly([]) && Means([]) == []
  {}

  lemma NothingOpens()
    ensures PathStep("[", Scan(0, 0, -1, 0, [])) == (true, Scan(0, 0, -1, 0, []))
  {
    var s := "[";
    assert CharAt(s, 1) == '\0' && SkipSpaces(s, 1) == 1;
    assert PathStep(s, Scan(1, 1, -1, 1, [])).0;
    assert ParsePath(s, 1) == (1, []);
    assert ParseAliasPath(s, 1) == (1, None);
  }

  /** What `trim` removes: the white space and the line terminators of ECMA-262, sections 12.2 and 12.3. */
  lemma BlankCharacters(c: char)
    ensures Trim([c]) == (
      if c as int in [9, 10, 11, 12, 13, 32, 160, 5760, 8192, 8193, 8194, 8195, 8196, 8197, 8198, 8199, 8200, 8201,
                      8202, 8232, 8233, 8239, 8287, 12288, 65279]
      then "" else [c])
  {
    assert [c][1..] == "";
  }
}
