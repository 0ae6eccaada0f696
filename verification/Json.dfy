/** Text as the path parser sees it: characters past the end, JSON strings, and string order. */
module JsonText {
  import opened Options

  /** `charCodeAt` of lib/common/path.ts: zero past the end. */
  function CharAt(s: string, i: nat): char { if i < |s| then s[i] else '\0' }

  /** `text` stands at position `pos` of `s`. */
  predicate At(s: string, pos: nat, text: string) { pos + |text| <= |s| && s[pos..pos + |text|] == text }

  lemma AtConcat(s: string, pos: nat, a: string, b: string)
    requires At(s, pos, a + b)
    ensures At(s, pos, a) && At(s, pos + |a|, b)
  {
    var t := s[pos..pos + |a + b|];
    assert s[pos..pos + |a|] == t[..|a|] == a;
    assert s[pos + |a|..pos + |a| + |b|] == t[|a|..] == b;
  }

  lemma AtConcat3(s: string, pos: nat, a: string, b: string, c: string)
    requires At(s, pos, a + b + c)
    ensures At(s, pos, a) && At(s, pos + |a|, b) && At(s, pos + |a| + |b|, c)
  {
    AtConcat(s, pos, a + b, c);
    AtConcat(s, pos, a, b);
  }

  lemma AtChar(s: string, pos: nat, text: string, i: nat)
    requires At(s, pos, text) && i < |text|
    ensures s[pos + i] == text[i]
  {
    assert s[pos..pos + |text|][i] == text[i];
  }

  /** The order of strings that the operators < and > use. */
  predicate Less(a: string, b: string) {
    b != "" && (a == "" || a[0] < b[0] || (a[0] == b[0] && Less(a[1..], b[1..])))
  }

  lemma {:induction false} LessIsAsymmetric(a: string, b: string)
    requires Less(a, b)
    ensures !Less(b, a)
  {
    if a != "" && a[0] == b[0] { LessIsAsymmetric(a[1..], b[1..]); }
  }

  lemma {:induction false} LessIsTotal(a: string, b: string)
    ensures Less(a, b) || a == b || Less(b, a)
  {
    if a != "" && b != "" && a[0] == b[0] {
      LessIsTotal(a[1..], b[1..]);
      assert a == [a[0]] + a[1..] && b == [b[0]] + b[1..];
    }
  }

  lemma {:induction false} LessIsTransitive(a: string, b: string, c: string)
    requires Less(a, b) && Less(b, c)
    ensures Less(a, c)
  {
    if a != "" && a[0] == b[0] == c[0] { LessIsTransitive(a[1..], b[1..], c[1..]); }
  }

  // ---- JSON strings ----

  function Hex(d: nat): char
    requires d < 16
  {
    if d < 10 then '0' + d as char else 'a' + (d - 10) as char
  }

  function HexValue(c: char): (d: Option<nat>)
    ensures d.Some? ==> d.value < 16
  {
    if '0' <= c <= '9' then Some((c - '0') as nat)
    else if 'a' <= c <= 'f' then Some((c - 'a') as nat + 10)
    else if 'A' <= c <= 'F' then Some((c - 'A') as nat + 10)
    else None
  }

  /** How `JSON.stringify` writes one character. */
  function Escape(c: char): string {
    if c == '"' then ['\\', '"']
    else if c == '\\' then ['\\', '\\']
    else if c == 8 as char then ['\\', 'b']
    else if c == 9 as char then ['\\', 't']
    else if c == 10 as char then ['\\', 'n']
    else if c == 12 as char then ['\\', 'f']
    else if c == 13 as char then ['\\', 'r']
    else if c < 32 as char then ['\\', 'u', '0', '0', Hex(c as nat / 16), Hex(c as nat % 16)]
    else [c]
  }

  function Escaped(v: string): string { if v == "" then "" else Escape(v[0]) + Escaped(v[1..]) }

  /** `JSON.stringify` of a string. */
  function Quote(v: string): string { ['"'] + Escaped(v) + ['"'] }

  function Code(a: char, b: char, c: char, d: char): Option<nat> {
    match (HexValue(a), HexValue(b), HexValue(c), HexValue(d))
    case (Some(w), Some(x), Some(y), Some(z)) => Some(w * 4096 + x * 256 + y * 16 + z)
    case _ => None
  }

  function Simple(c: char): Option<char> {
    if c == '"' || c == '\\' || c == '/' then Some(c)
    else if c == 'b' then Some(8 as char)
    else if c == 't' then Some(9 as char)
    else if c == 'n' then Some(10 as char)
    else if c == 'f' then Some(12 as char)
    else if c == 'r' then Some(13 as char)
    else None
  }

  /** One character or escape sequence of a JSON string: what it stands for and how long it is. Escapes
      of surrogates are taken as malformed. */
  function Unescape(s: string): Option<(char, nat)>
    requires s != ""
  {
    if s[0] == '"' || s[0] < 32 as char then None
    else if s[0] != '\\' then Some((s[0], 1))
    else if |s| >= 2 && Simple(s[1]).Some? then Some((Simple(s[1]).value, 2))
    else if |s| >= 6 && s[1] == 'u' && Code(s[2], s[3], s[4], s[5]).Some?
      && !(0xD800 <= Code(s[2], s[3], s[4], s[5]).value < 0xE000) then
      CodeInRange(s[2], s[3], s[4], s[5]);
      Some((Code(s[2], s[3], s[4], s[5]).value as char, 6))
    else None
  }

  lemma CodeInRange(a: char, b: char, c: char, d: char)
    ensures Code(a, b, c, d).Some? ==> Code(a, b, c, d).value < 0x10000
  {
    hide HexValue;
  }

  /** The rest of a JSON string after its opening quote; the closing quote must be the last character. */
  function UnquoteRest(s: string): Option<string> {
    if s == "" then None
    else if s[0] == '"' then if |s| == 1 then Some("") else None
    else
      match Unescape(s)
      case None => None
      case Some((c, n)) =>
        if n > |s| then None
        else
          match UnquoteRest(s[n..])
          case None => None
          case Some(rest) => Some([c] + rest)
  }

  /** `JSON.parse` of a slice that starts with a quote; `None` when it throws. */
  function Unquote(s: string): Option<string> {
    if s == "" || s[0] != '"' then None else UnquoteRest(s[1..])
  }

  lemma EscapeUnescapes(c: char, rest: string)
    ensures Unescape(Escape(c) + rest) == Some((c, |Escape(c)|))
    ensures Escape(c) != "" && Escape(c)[0] != '"'
  {
    var s := Escape(c) + rest;
    if c < 32 as char && Simple(s[1]).None? {
      assert HexValue(Hex(c as nat / 16)) == Some(c as nat / 16) && HexValue(Hex(c as nat % 16)) == Some(c as nat % 16);
      assert Code(s[2], s[3], s[4], s[5]) == Some(c as nat);
    }
  }

  /** What is printed is read back, and only if nothing follows the closing quote. */
  lemma {:induction false} EscapedUnquotes(v: string, rest: string)
    ensures UnquoteRest(Escaped(v) + ['"'] + rest) == if rest == "" then Some(v) else None
  {
    hide Escape, Unescape;
    var s := Escaped(v) + ['"'] + rest;
    if v == "" {
      assert s == ['"'] + rest;
    } else {
      var tail := Escaped(v[1..]) + ['"'] + rest;
      assert s == Escape(v[0]) + tail;
      EscapeUnescapes(v[0], tail);
      assert s[|Escape(v[0])|..] == tail;
      EscapedUnquotes(v[1..], rest);
      assert v == [v[0]] + v[1..];
    }
  }

  /** Where the parser's scan for a closing quote stops: at the first quote, from `j` on, that no
      backslash stands right before. */
  function ClosingQuote(s: string, j: nat): Option<nat>
    requires j > 0
    decreases |s| - j
  {
    if j >= |s| then None
    else if s[j] == '"' && s[j - 1] != '\\' then Some(j)
    else ClosingQuote(s, j + 1)
  }

  predicate EndsWithBackslash(v: string) { v != "" && v[|v| - 1] == '\\' }

  /** In an escaped text every quote has a backslash before it, and the last character is a backslash
      exactly when the text ends with one. */
  lemma {:induction false} EscapedHidesQuotes(v: string, i: nat)
    requires i < |Escaped(v)|
    ensures Escaped(v)[i] == '"' ==> i > 0 && Escaped(v)[i - 1] == '\\'
    ensures i == |Escaped(v)| - 1 ==> (Escaped(v)[i] == '\\' <==> EndsWithBackslash(v))
  {
    var head, tail := Escape(v[0]), Escaped(v[1..]);
    if i >= |head| {
      EscapedHidesQuotes(v[1..], i - |head|);
      assert tail[i - |head|] == Escaped(v)[i];
      EscapedNotEmpty(v[1..]);
    } else {
      EscapedNotEmpty(v[1..]);
      assert Escaped(v)[i] == head[i];
    }
  }

  lemma EscapedNotEmpty(v: string)
    ensures v == "" <==> Escaped(v) == ""
  {}

  lemma {:induction false} ScanPast(s: string, pos: nat, v: string, i: nat)
    requires At(s, pos, Quote(v)) && i <= |Escaped(v)|
    ensures ClosingQuote(s, pos + 1) == ClosingQuote(s, pos + 1 + i)
  {
    hide Escaped, EndsWithBackslash;
    if i > 0 {
      ScanPast(s, pos, v, i - 1);
      AtChar(s, pos, Quote(v), i);
      AtChar(s, pos, Quote(v), i - 1);
      EscapedHidesQuotes(v, i - 1);
    }
  }

  /** The scan finds the quote that `JSON.stringify` wrote exactly when the text does not end with a
      backslash; otherwise it stops after that quote or not at all. */
  lemma ScanFindsClosing(s: string, pos: nat, v: string)
    requires At(s, pos, Quote(v))
    ensures !EndsWithBackslash(v) ==> ClosingQuote(s, pos + 1) == Some(pos + |Quote(v)| - 1)
    ensures EndsWithBackslash(v) ==>
      ClosingQuote(s, pos + 1).None? || pos + |Quote(v)| <= ClosingQuote(s, pos + 1).value < |s|
  {
    hide Escaped;
    var n := |Escaped(v)|;
    ScanPast(s, pos, v, n);
    AtChar(s, pos, Quote(v), n + 1);
    AtChar(s, pos, Quote(v), n);
    EscapedNotEmpty(v);
    if n > 0 { EscapedHidesQuotes(v, n - 1); }
    ScanStaysAhead(s, pos + 1 + n + 1);
  }

  lemma {:induction false} ScanStaysAhead(s: string, j: nat)
    requires j > 0
    ensures ClosingQuote(s, j).Some? ==> j <= ClosingQuote(s, j).value < |s| && s[ClosingQuote(s, j).value] == '"'
    decreases |s| - j
  {
    if j < |s| { ScanStaysAhead(s, j + 1); }
  }
}
