/** The parsers of lib/common/path.ts as they run, with index loops, against the functions of `Paths`. */
module PathReaders {
  import opened Options
  import opened JsonText
  import opened Paths

  method SkipSpacesFrom(pattern: string, index: nat) returns (i: nat)
    ensures i == SkipSpaces(pattern, index)
  {
    i := index;
    while CharAt(pattern, i) == ' '
      invariant SkipSpaces(pattern, i) == SkipSpaces(pattern, index)
      decreases |pattern| - i
    {
      i := i + 1;
    }
  }

  method ReadAliasValue(pattern: string, index: nat) returns (end: nat, value: Option<string>)
    ensures (end, value) == ParseValue(pattern, index)
  {
    hide Trim, Unquote, SkipSpaces;
    var i := SkipSpacesFrom(pattern, index);
    if CharAt(pattern, i) == '"' {
      var j := i + 1;
      while j < |pattern|
        invariant i < j
        invariant ClosingQuote(pattern, j) == ClosingQuote(pattern, i + 1)
      {
        if pattern[j] == '"' && pattern[j - 1] != '\\' {
          var v := Unquote(pattern[i..j + 1]);
          if v.None? { return index, None; }
          return j + 1, v;
        }
        j := j + 1;
      }
      return index, None;
    }
    end := i;
    while end < |pattern|
      invariant i <= end && ValueEnd(pattern, end) == ValueEnd(pattern, i)
    {
      if pattern[end] == ']' || pattern[end] == ',' { break; }
      end := end + 1;
    }
    value := Some(if i <= |pattern| then Trim(pattern[index..end]) else "");
  }

  method ReadAliasPath(pattern: string, index: nat) returns (end: nat, path: Option<Path>)
    ensures (end, path) == ParseAliasPath(pattern, index)
    decreases |pattern| + 3 - index, 3
  {
    var i := SkipSpacesFrom(pattern, index);
    var idx, segments := ReadPath(pattern, i);
    if idx == i { return index, None; }
    var colon := SkipSpacesFrom(pattern, idx);
    if CharAt(pattern, colon) != ':' { return index, None; }
    return colon + 1, Some(Path(segments));
  }

  method ReadAlias(pattern: string, index: nat) returns (end: nat, alias: seq<Pair>)
    ensures (end, alias) == ParseAlias(pattern, index)
    decreases |pattern| + 3 - index, 5
  {
    hide ParseAliasPath, ParseValue, SortPairs;
    end, alias := index, [];
    var i := index;
    while true
      invariant index <= end <= i && (i == index || i <= |pattern|)
      invariant AliasLoop(pattern, i, end, alias) == AliasLoop(pattern, index, index, [])
      decreases |pattern| + 3 - i
    {
      var colon, path := ReadAliasPath(pattern, i);
      if path.None? { break; }
      var next, value := ReadAliasValue(pattern, colon);
      if value.None? { break; }
      alias := alias + [Pair(path.value, value.value)];
      end := next;
      if CharAt(pattern, end) != ',' { break; }
      i := end + 1;
    }
    alias := SortPairs(alias);
  }

  method ReadPath(pattern: string, index: nat) returns (end: nat, segments: seq<Segment>)
    ensures (end, segments) == ParsePath(pattern, index)
    decreases |pattern| + 3 - index, 2
  {
    end, segments := index, [];
    var segStart, wildcard, i := index, -1, index;
    while i <= |pattern|
      invariant index <= end <= segStart <= i
      invariant PathLoop(pattern, Scan(i, segStart, wildcard, end, segments)) == ParsePath(pattern, index)
      decreases |pattern| + 3 - i
    {
      var c := CharAt(pattern, i);
      if c == '[' && i == segStart {
        var idx, alias := ReadAlias(pattern, i + 1);
        if CharAt(pattern, idx) != ']' { break; }
        segments := segments + [Alias(alias)];
        end, i := idx + 1, idx + 1;
        segStart := i + 1;
      } else if c == '*' && i == segStart {
        wildcard := i + 1;
      } else if !LegalChar(c) || i == wildcard {
        if i == segStart { break; }
        segments := segments + [Name(pattern[segStart..i])];
        end := i;
        if c != '.' { break; }
        segStart := i + 1;
      }
      i := i + 1;
    }
  }
}
