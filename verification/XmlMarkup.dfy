/** What the XML parser of lib/xml-parser.ts skips and refuses: comments, processing instructions, CDATA and
    other declarations. */
module XmlMarkup {
  import opened Options
  import opened JsonText
  import opened XmlParser

  /** Markup that begins with `<!--` and ends at `-->`, or begins with `<?` and ends at `?>`. */
  datatype Markup = Comment | Instruction

  function Opening(k: Markup): string { if k.Comment? then "<!--" else "<?" }

  function Closing(k: Markup): string { if k.Comment? then "-->" else "?>" }

  /** A `>` after the characters `a` and `b` closes the markup. */
  predicate ClosesAfter(k: Markup, a: char, b: char) { if k.Comment? then a == '-' && b == '-' else b == '?' }

  /** Every quote is closed, and nothing outside quotes closes the markup; `a` and `b` stand before. */
  predicate Enclosed(k: Markup, body: string, a: char, b: char, quote: Option<char>) {
    if body == "" then quote.None?
    else
      var c, rest := body[0], body[1..];
      if quote.Some? then Enclosed(k, rest, b, c, if c == quote.value then None else quote)
      else
        && !(c == '>' && ClosesAfter(k, a, b))
        && Enclosed(k, rest, b, c, if c == '"' || c == '\'' then Some(c) else None)
  }

  /** The two characters before the body. */
  function Before(k: Markup): (char, char) { if k.Comment? then ('-', '-') else ('<', '?') }

  predicate LegalBody(k: Markup, body: string) { Enclosed(k, body, Before(k).0, Before(k).1, None) }

  function Write(k: Markup, body: string): (text: string)
    ensures |text| > 1
  {
    Opening(k) + body + Closing(k)
  }

  /** The parser is in the tag at `start`, or in quotes in it. */
  predicate InTag(m: Mode, start: nat, quote: Option<char>) {
    match quote
    case None => m.Tag? && m.start == start
    case Some(q) => m.Quoted? && m.start == start && m.quote == q
  }

  predicate Begins(s: string, start: nat, k: Markup) { At(s, start, Opening(k)) }

  lemma EndStays(s: string, i: nat, p: Parser, k: Markup)
    requires p.mode.Tag? && p.mode.start + |Opening(k)| <= i < |s| && Begins(s, p.mode.start, k)
    ensures EndTag(s, i, p) ==
      Some(if ClosesAfter(k, s[i - 2], s[i - 1]) then Parser(Outside, p.stack, p.closedRoot) else p)
  {
    var start := p.mode.start;
    AtChar(s, start, Opening(k), 1);
    if k.Comment? {
      AtChar(s, start, Opening(k), 2);
      AtChar(s, start, Opening(k), 3);
      var rest := s[start + 1..];
      assert rest[0] == '!' && rest[1] == '-' && rest[2] == '-';
      assert rest[1] != "![CDATA["[1];
      assert rest[..3] == "!--";
      assert s[i - 2..i] == [s[i - 2], s[i - 1]];
    }
  }

  /** One character of the markup: the parser stays in it, and keeps track of quotes. */
  lemma StaysIn(s: string, i: nat, p: Parser, k: Markup, start: nat, quote: Option<char>)
    requires InTag(p.mode, start, quote) && start + |Opening(k)| <= i < |s| && Begins(s, start, k)
    requires quote.None? ==> !(s[i] == '>' && ClosesAfter(k, s[i - 2], s[i - 1]))
    ensures var c, next := s[i], Step(s, i, p);
      && next.Some? && next.value.stack == p.stack && next.value.closedRoot == p.closedRoot
      && InTag(next.value.mode, start,
           if quote.Some? then (if c == quote.value then None else quote)
           else if c == '"' || c == '\'' then Some(c) else None)
  {
    if s[i] == '>' && quote.None? { EndStays(s, i, p, k); }
    hide EndTag, Field;
  }

  lemma {:induction false} BodyIsPassed(s: string, pos: nat, body: string, p: Parser, k: Markup, start: nat,
      quote: Option<char>) returns (q: Parser)
    requires InTag(p.mode, start, quote) && start + |Opening(k)| <= pos && Begins(s, start, k) && At(s, pos, body)
    requires Enclosed(k, body, s[pos - 2], s[pos - 1], quote)
    ensures q.stack == p.stack && q.closedRoot == p.closedRoot && InTag(q.mode, start, None)
    ensures Loop(s, pos, p) == Loop(s, pos + |body|, q)
    decreases |body|
  {
    hide Loop, Step, Begins, At;
    q := p;
    if body != "" {
      AtChar(s, pos, body, 0);
      assert body == [body[0]] + body[1..];
      AtConcat(s, pos, [body[0]], body[1..]);
      Within(s, pos, body);
      StaysIn(s, pos, p, k, start, quote);
      LoopGoesOn(s, pos, p);
      q := BodyIsPassed(s, pos + 1, body[1..], Step(s, pos, p).value, k, start,
        if quote.Some? then (if body[0] == quote.value then None else quote)
        else if body[0] == '"' || body[0] == '\'' then Some(body[0]) else None);
    }
  }

  lemma Within(s: string, pos: nat, body: string)
    requires At(s, pos, body)
    ensures pos + |body| <= |s|
  {}

  /** Comments and processing instructions leave no trace. */
  lemma MarkupIsSkipped(s: string, pos: nat, k: Markup, body: string, p: Parser)
    requires At(s, pos, Write(k, body)) && LegalBody(k, body) && p.mode == Outside
    ensures Loop(s, pos, p) == Loop(s, pos + |Write(k, body)|, p)
  {
    hide Loop, Step;
    var open, close := Opening(k), Closing(k);
    AtConcat3(s, pos, open, body, close);
    var q := OpeningIsPassed(s, pos, k, p);
    var b := pos + |open|;
    BeforeBody(s, pos, k);
    q := BodyIsPassed(s, b, body, q, k, pos, None);
    ClosingIsPassed(s, b + |body|, q, k, pos);
  }

  lemma BeforeBody(s: string, pos: nat, k: Markup)
    requires At(s, pos, Opening(k))
    ensures var b := pos + |Opening(k)|; b >= 2 && b <= |s| && (s[b - 2], s[b - 1]) == Before(k)
  {
    AtChar(s, pos, Opening(k), |Opening(k)| - 1);
    AtChar(s, pos, Opening(k), |Opening(k)| - 2);
  }

  lemma OpeningIsPassed(s: string, pos: nat, k: Markup, p: Parser) returns (q: Parser)
    requires At(s, pos, Opening(k)) && p.mode == Outside
    ensures q.stack == p.stack && q.closedRoot == p.closedRoot && InTag(q.mode, pos, None)
    ensures Loop(s, pos, p) == Loop(s, pos + |Opening(k)|, q)
  {
    hide Loop;
    AtChar(s, pos, Opening(k), 0);
    AtChar(s, pos, Opening(k), 1);
    LoopGoesOn(s, pos, p);
    q := Parser(Tag(pos, 0, 0), p.stack, p.closedRoot);
    LoopGoesOn(s, pos + 1, q);
    if k.Comment? {
      AtChar(s, pos, Opening(k), 2);
      AtChar(s, pos, Opening(k), 3);
      LoopGoesOn(s, pos + 2, q);
      LoopGoesOn(s, pos + 3, q);
    }
  }

  lemma ClosingIsPassed(s: string, i: nat, q: Parser, k: Markup, start: nat)
    requires InTag(q.mode, start, None) && start + |Opening(k)| <= i && Begins(s, start, k) && At(s, i, Closing(k))
    ensures Loop(s, i, q) == Loop(s, i + |Closing(k)|, Parser(Outside, q.stack, q.closedRoot))
  {
    hide Loop, EndTag;
    AtChar(s, i, Closing(k), 0);
    AtChar(s, i, Closing(k), 1);
    LoopGoesOn(s, i, q);
    if k.Comment? {
      AtChar(s, i, Closing(k), 2);
      LoopGoesOn(s, i + 1, q);
      EndStays(s, i + 2, q, k);
      LoopGoesOn(s, i + 2, q);
    } else {
      EndStays(s, i + 1, q, k);
      LoopGoesOn(s, i + 1, q);
    }
  }

  // ---- Text between elements ----

  /** Text without an opening bracket, comments and instructions. */
  ghost predicate Skippable(text: string)
    decreases |text|
  {
    || text == ""
    || (text[0] != '<' && Skippable(text[1..]))
    || exists k, body :: LegalBody(k, body) && Write(k, body) <= text && Skippable(text[|Write(k, body)|..])
  }

  lemma CharIsSkipped(s: string, pos: nat, text: string, p: Parser)
    requires At(s, pos, text) && text != "" && text[0] != '<' && p.mode == Outside
    ensures At(s, pos + 1, text[1..]) && Loop(s, pos, p) == Loop(s, pos + 1, p)
  {
    hide Loop;
    AtChar(s, pos, text, 0);
    LoopGoesOn(s, pos, p);
    assert text == [text[0]] + text[1..];
    AtConcat(s, pos, [text[0]], text[1..]);
  }

  lemma {:induction false} TextIsSkipped(s: string, pos: nat, text: string, p: Parser)
    requires At(s, pos, text) && Skippable(text) && p.mode == Outside
    ensures Loop(s, pos, p) == Loop(s, pos + |text|, p)
    decreases |text|
  {
    hide Loop, Step, LegalBody, Write, At;
    if text == "" {
    } else if text[0] != '<' && Skippable(text[1..]) {
      CharIsSkipped(s, pos, text, p);
      TextIsSkipped(s, pos + 1, text[1..], p);
    } else {
      var k, body :| LegalBody(k, body) && Write(k, body) <= text && Skippable(text[|Write(k, body)|..]);
      var first := Write(k, body);
      assert text == first + text[|first|..];
      AtConcat(s, pos, first, text[|first|..]);
      MarkupIsSkipped(s, pos, k, body, p);
      TextIsSkipped(s, pos + |first|, text[|first|..], p);
    }
  }

  // ---- What is refused ----

  /** The parser is somewhere in the tag at `start`. */
  predicate SomewhereIn(m: Mode, start: nat) { !m.Outside? && m.start == start }

  /** A declaration that is not a comment, CDATA included, never ends: the text is refused. */
  lemma {:induction false} DeclarationNeverEnds(s: string, i: nat, p: Parser, start: nat)
    requires SomewhereIn(p.mode, start) && start < i && start + 1 < |s| && s[start + 1] == '!'
    requires !("!--" <= s[start + 1..])
    ensures Loop(s, i, p).Some? ==> Loop(s, i, p).value.mode != Outside
    decreases |s| - i
  {
    hide Field;
    if i < |s| && Step(s, i, p).Some? { DeclarationNeverEnds(s, i + 1, Step(s, i, p).value, start); }
  }

  lemma CommentBegins(rest: string)
    ensures "!--" <= ['!'] + rest <==> "--" <= rest
  {
    assert "!--" == ['!'] + "--";
    if "--" <= rest { assert (['!'] + rest)[..3] == "!--"; }
    if "!--" <= ['!'] + rest { assert (['!'] + rest)[1] == rest[0] && (['!'] + rest)[2] == rest[1]; }
  }

  lemma DeclarationsAreRefused(text: string, rest: string)
    requires Skippable(text) && !("--" <= rest)
    ensures Parse(text + "<!" + rest).None?
  {
    hide Loop, Skippable;
    var s, p, pos := text + "<!" + rest, Parser(Outside, [ROOT], []), |text|;
    assert s[..|text|] == text;
    TextIsSkipped(s, 0, text, p);
    assert s[pos] == '<' && s[pos + 1] == '!';
    assert s[pos + 1..] == ['!'] + rest;
    CommentBegins(rest);
    LoopGoesOn(s, pos, p);
    DeclarationNeverEnds(s, pos + 1, Parser(Tag(pos, 0, 0), p.stack, p.closedRoot), pos);
  }
}
