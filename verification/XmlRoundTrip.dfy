/** Parsing undoes rendering: `parseXml` gives back the tree that a text was rendered from. */
module XmlRoundTrips {
  import opened Options
  import opened JsonText
  import opened XmlParser
  import opened XmlMarkup

  /** An element with the text before it; `text` is what stands before its closing tag. */
  datatype Tree = Tree(gap: string, name: string, attrs: string, selfClosing: bool, children: seq<Tree>, text: string)

  function Attached(t: Tree): string { if t.attrs == "" then "" else " " + t.attrs }

  function Slash(t: Tree): string { if t.selfClosing then "/" else "" }

  /** What stands between `<` and `>`. */
  function Inside(t: Tree): string { t.name + Attached(t) + Slash(t) }

  function StartTag(t: Tree): string { "<" + Inside(t) + ">" }

  function CloseTag(t: Tree): string { "</" + t.name + ">" }

  function Render(t: Tree): string
    decreases t, 0
  {
    t.gap + StartTag(t) + if t.selfClosing then "" else RenderAll(t.children) + t.text + CloseTag(t)
  }

  function RenderAll(ts: seq<Tree>): string
    decreases ts
  {
    if ts == [] then "" else Render(ts[0]) + RenderAll(ts[1..])
  }

  // ---- Well-formed trees ----

  predicate NameChar(c: char) { !White(c) && c !in {'<', '>', '"', '\'', '/'} }

  /** Shorter than 255 characters, so that the white space after it is seen. */
  predicate LegalName(name: string) {
    0 < |name| < 255 && name[0] != '!' && name[0] != '?' && forall i :: 0 <= i < |name| ==> NameChar(name[i])
  }

  /** Every quote is closed, and `>` is only in quotes. `quote` is the one that is open at first. */
  predicate WellQuoted(attrs: string, quote: Option<char>) {
    if attrs == "" then quote.None?
    else
      var c := attrs[0];
      if quote.Some? then WellQuoted(attrs[1..], if c == quote.value then None else quote)
      else c != '>' && WellQuoted(attrs[1..], if c == '"' || c == '\'' then Some(c) else None)
  }

  ghost predicate WellFormed(t: Tree)
    decreases t, 0
  {
    && Skippable(t.gap) && Skippable(t.text) && LegalName(t.name) && WellQuoted(t.attrs, None)
         && AllWellFormed(t.children)
    && (if t.selfClosing then t.children == [] && t.text == "" else t.attrs == "" || t.attrs[|t.attrs| - 1] != '/')
  }

  ghost predicate AllWellFormed(ts: seq<Tree>)
    decreases ts
  {
    ts == [] || (WellFormed(ts[0]) && AllWellFormed(ts[1..]))
  }

  // ---- What is parsed ----

  /** The colon field after more of a tag. */
  function ColonAfter(text: string, offset: nat, quote: Option<char>, colon: nat): nat {
    if text == "" then colon
    else
      var c := text[0];
      if quote.Some? then ColonAfter(text[1..], offset + 1, if c == quote.value then None else quote, colon)
      else if c == '"' || c == '\'' then ColonAfter(text[1..], offset + 1, Some(c), colon)
      else ColonAfter(text[1..], offset + 1, None, if c == ':' then Field(colon, offset) else colon)
  }

  function ColonOf(t: Tree): nat {
    var named := ColonAfter(t.name, 1, None, 0);
    if t.attrs == "" then named else ColonAfter(t.attrs, |t.name| + 2, None, named)
  }

  function WhiteOf(t: Tree): nat { if t.attrs == "" then 0 else |t.name| + 1 }

  function Expected(t: Tree): Element
    decreases t, 0
  {
    var (namespace, localName) := SplitName(t.name, ColonOf(t), WhiteOf(t));
    Element(t.name, namespace, localName, t.attrs, if t.children == [] then t.text else "", AllExpected(t.children))
  }

  function AllExpected(ts: seq<Tree>): seq<Element>
    decreases ts
  {
    if ts == [] then [] else [Expected(ts[0])] + AllExpected(ts[1..])
  }

  // ---- Scanning a tag ----

  function ScanChar(c: char, offset: nat, m: Mode): Mode
    requires !m.Outside?
  {
    if m.Quoted? then (if c == m.quote then Tag(m.start, m.colon, m.ws) else m)
    else if c == '\'' || c == '"' then Quoted(c, m.start, m.colon, m.ws)
    else if c == ':' then Tag(m.start, Field(m.colon, offset), m.ws)
    else if White(c) then Tag(m.start, m.colon, Field(m.ws, offset))
    else m
  }

  function Scan(text: string, offset: nat, m: Mode): (r: Mode)
    requires !m.Outside?
    ensures !r.Outside? && r.start == m.start
  {
    if text == "" then m else Scan(text[1..], offset + 1, ScanChar(text[0], offset, m))
  }

  /** No `>` ends the tag. */
  predicate NoEnd(text: string, offset: nat, m: Mode)
    requires !m.Outside?
  {
    text == "" || ((m.Tag? ==> text[0] != '>') && NoEnd(text[1..], offset + 1, ScanChar(text[0], offset, m)))
  }

  function In(m: Mode, p: Parser): Parser { Parser(m, p.stack, p.closedRoot) }

  lemma {:induction false} ScanLoop(s: string, pos: nat, text: string, m: Mode, p: Parser)
    requires At(s, pos, text) && !m.Outside? && m.start < pos && NoEnd(text, pos - m.start, m)
    ensures Loop(s, pos, In(m, p)) == Loop(s, pos + |text|, In(Scan(text, pos - m.start, m), p))
    decreases |text|
  {
    hide EndTag, Loop;
    if text != "" {
      AtChar(s, pos, text, 0);
      LoopGoesOn(s, pos, In(m, p));
      AtConcat(s, pos, [text[0]], text[1..]);
      ScanLoop(s, pos + 1, text[1..], ScanChar(text[0], pos - m.start, m), p);
    }
  }

  lemma {:induction false} ScanConcat(a: string, b: string, offset: nat, m: Mode)
    requires !m.Outside?
    ensures Scan(a + b, offset, m) == Scan(b, offset + |a|, Scan(a, offset, m))
    ensures NoEnd(a + b, offset, m) <==> NoEnd(a, offset, m) && NoEnd(b, offset + |a|, Scan(a, offset, m))
    decreases |a|
  {
    if a == "" {
      assert a + b == b;
    } else {
      assert (a + b)[1..] == a[1..] + b;
      ScanConcat(a[1..], b, offset + 1, ScanChar(a[0], offset, m));
    }
  }

  /** A name leaves only a colon field. */
  lemma {:induction false} ScanName(name: string, offset: nat, m: Mode)
    requires m.Tag? && forall i :: 0 <= i < |name| ==> NameChar(name[i])
    ensures NoEnd(name, offset, m)
      && Scan(name, offset, m) == Tag(m.start, ColonAfter(name, offset, None, m.colon), m.ws)
    decreases |name|
  {
    if name != "" { ScanName(name[1..], offset + 1, ScanChar(name[0], offset, m)); }
  }

  function ModeFor(quote: Option<char>, start: nat, colon: nat, ws: nat): Mode {
    match quote
    case None => Tag(start, colon, ws)
    case Some(q) => Quoted(q, start, colon, ws)
  }

  /** Attributes leave the white space field as it is. */
  lemma {:induction false} ScanAttrs(attrs: string, offset: nat, quote: Option<char>, start: nat, colon: nat, ws: nat)
    requires WellQuoted(attrs, quote) && ws != 0
    ensures NoEnd(attrs, offset, ModeFor(quote, start, colon, ws))
    ensures Scan(attrs, offset, ModeFor(quote, start, colon, ws)) ==
      Tag(start, ColonAfter(attrs, offset, quote, colon), ws)
    decreases |attrs|
  {
    if attrs != "" {
      var c := attrs[0];
      if quote.Some? {
        ScanAttrs(attrs[1..], offset + 1, if c == quote.value then None else quote, start, colon, ws);
      } else if c == '"' || c == '\'' {
        ScanAttrs(attrs[1..], offset + 1, Some(c), start, colon, ws);
      } else {
        ScanAttrs(attrs[1..], offset + 1, None, start, if c == ':' then Field(colon, offset) else colon, ws);
      }
    }
  }

  // ---- Text and tags ----

  predicate LegalTag(t: Tree) {
    LegalName(t.name) && WellQuoted(t.attrs, None) && (t.selfClosing || t.attrs == "" || t.attrs[|t.attrs| - 1] != '/')
  }

  lemma ScanOne(c: char, offset: nat, m: Mode)
    requires !m.Outside?
    ensures Scan([c], offset, m) == ScanChar(c, offset, m) && (NoEnd([c], offset, m) <==> (m.Tag? ==> c != '>'))
  {
    assert [c][1..] == "";
  }

  lemma ScanAttached(t: Tree, start: nat, named: Mode)
    requires LegalTag(t) && named == Tag(start, ColonAfter(t.name, 1, None, 0), 0)
    ensures NoEnd(Attached(t), 1 + |t.name|, named)
    ensures Scan(Attached(t), 1 + |t.name|, named) == Tag(start, ColonOf(t), WhiteOf(t))
  {
    hide Scan, NoEnd, ColonAfter, WellQuoted, NameChar;
    var n := |t.name|;
    if t.attrs != "" {
      ScanConcat(" ", t.attrs, n + 1, named);
      ScanOne(' ', n + 1, named);
      ScanAttrs(t.attrs, n + 2, None, start, ColonAfter(t.name, 1, None, 0), n + 1);
    } else {
      ScanNothing(n + 1, named);
    }
  }

  lemma ScanSlash(t: Tree, offset: nat, m: Mode)
    requires m.Tag?
    ensures Scan(Slash(t), offset, m) == m && NoEnd(Slash(t), offset, m)
  {
    if t.selfClosing { ScanOne('/', offset, m); } else { ScanNothing(offset, m); }
  }

  lemma ScanInside(t: Tree, start: nat)
    requires LegalTag(t)
    ensures NoEnd(Inside(t), 1, Tag(start, 0, 0))
      && Scan(Inside(t), 1, Tag(start, 0, 0)) == Tag(start, ColonOf(t), WhiteOf(t))
  {
    hide Scan, NoEnd, ColonAfter, Attached, Slash, ColonOf, WhiteOf, WellQuoted;
    var m0, attrs := Tag(start, 0, 0), Attached(t);
    ScanName(t.name, 1, m0);
    ScanConcat(t.name, attrs, 1, m0);
    ScanConcat(t.name + attrs, Slash(t), 1, m0);
    ScanAttached(t, start, Tag(start, ColonAfter(t.name, 1, None, 0), 0));
    ScanSlash(t, 1 + |t.name + attrs|, Tag(start, ColonOf(t), WhiteOf(t)));
  }

  lemma ScanNothing(offset: nat, m: Mode)
    requires !m.Outside?
    ensures Scan("", offset, m) == m && NoEnd("", offset, m)
  {}

  function FrameOf(t: Tree, bodyIndex: nat): Frame {
    var (namespace, localName) := SplitName(t.name, ColonOf(t), WhiteOf(t));
    Frame(t.name, namespace, localName, t.attrs, bodyIndex, [])
  }

  /** Where the brackets of a start tag stand. */
  lemma TagBrackets(s: string, pos: nat, t: Tree)
    requires At(s, pos, StartTag(t))
    ensures var i := pos + 1 + |Inside(t)|; i < |s| && s[pos] == '<' && At(s, pos + 1, Inside(t)) && s[i] == '>'
  {
    hide Inside;
    AtConcat3(s, pos, "<", Inside(t), ">");
    AtChar(s, pos, "<", 0);
    AtChar(s, pos + 1 + |Inside(t)|, ">", 0);
  }

  lemma SliceIs(s: string, pos: nat, text: string)
    requires At(s, pos, text)
    ensures Slice(s, pos, pos + |text|) == text
  {}

  /** Where the name and the attributes stand, and what the last character is. */
  lemma LegalNameEnds(name: string)
    requires LegalName(name)
    ensures name != "" && name[|name| - 1] != '/'
  {}

  lemma InsideLayout(s: string, pos: nat, t: Tree)
    requires At(s, pos, Inside(t)) && LegalTag(t)
    ensures At(s, pos, t.name) && (t.attrs != "" ==> At(s, pos + 1 + |t.name|, t.attrs))
    ensures s[pos] == t.name[0] && (s[pos + |Inside(t)| - 1] == '/' <==> t.selfClosing)
    ensures |Inside(t)| == |t.name| + |Attached(t)| + |Slash(t)|
  {
    hide At, WellQuoted, LegalName;
    LegalNameEnds(t.name);
    AtConcat3(s, pos, t.name, Attached(t), Slash(t));
    AtChar(s, pos, t.name, 0);
    AtChar(s, pos, t.name, |t.name| - 1);
    if t.attrs != "" {
      AtConcat(s, pos + |t.name|, " ", t.attrs);
      AtChar(s, pos + 1 + |t.name|, t.attrs, |t.attrs| - 1);
    }
    if t.selfClosing { AtChar(s, pos + |t.name| + |Attached(t)|, "/", 0); }
  }

  lemma OpenedIsFrame(s: string, pos: nat, t: Tree, i: nat)
    requires LegalTag(t) && At(s, pos + 1, Inside(t)) && i == pos + 1 + |Inside(t)| && i <= |s|
    ensures Opened(s, i, Tag(pos, ColonOf(t), WhiteOf(t))) == FrameOf(t, i + 1)
  {
    hide At, Slice, Inside, LegalTag, ColonOf, WhiteOf, Opened, FrameOf, SplitName;
    InsideLayout(s, pos + 1, t);
    SliceIs(s, pos + 1, t.name);
    if t.attrs != "" { SliceIs(s, pos + 2 + |t.name|, t.attrs); }
    FrameFromSlices(s, pos, t, i);
  }

  lemma FrameFromSlices(s: string, pos: nat, t: Tree, i: nat)
    requires 0 < i <= |s| && (s[i - 1] == '/' <==> t.selfClosing)
      && i == pos + 1 + |t.name| + |Attached(t)| + |Slash(t)|
    requires Slice(s, pos + 1, pos + 1 + |t.name|) == t.name
    requires t.attrs != "" ==> Slice(s, pos + 2 + |t.name|, pos + 2 + |t.name| + |t.attrs|) == t.attrs
    ensures Opened(s, i, Tag(pos, ColonOf(t), WhiteOf(t))) == FrameOf(t, i + 1)
  {
    hide ColonOf, SplitName, Slice;
  }

  /** From `<` to the `>` of a start tag. */
  lemma StartIsScanned(s: string, pos: nat, t: Tree, p: Parser)
    requires At(s, pos, StartTag(t)) && LegalTag(t) && p.mode == Outside
    ensures var i := pos + 1 + |Inside(t)|;
      i < |s| && s[i] == '>' && At(s, pos + 1, Inside(t))
        && Loop(s, pos, p) == Loop(s, i, In(Tag(pos, ColonOf(t), WhiteOf(t)), p))
  {
    hide Loop, Scan, NoEnd, Inside, StartTag, At, LegalTag, ColonOf, WhiteOf;
    TagBrackets(s, pos, t);
    ScanInside(t, pos);
    LoopGoesOn(s, pos, p);
    ScanLoop(s, pos + 1, Inside(t), Tag(pos, 0, 0), p);
  }

  lemma TagFacts(t: Tree)
    requires LegalTag(t)
    ensures |StartTag(t)| == |Inside(t)| + 2 && t.name != "" && t.name[0] !in {'/', '!', '?'}
  {
    assert NameChar(t.name[0]);
  }

  lemma StartParses(s: string, pos: nat, t: Tree, p: Parser)
    requires At(s, pos, StartTag(t)) && LegalTag(t) && p.mode == Outside && p.stack != []
    ensures var e, f := pos + |StartTag(t)|, FrameOf(t, pos + |StartTag(t)|);
      Loop(s, pos, p) == Loop(s, e,
        Parser(Outside, if t.selfClosing then AddChild(p.stack, Finished(f, "")) else p.stack + [f], p.closedRoot))
  {
    hide Loop, Opened, Inside, StartTag, FrameOf, Finished, At, LegalTag, LegalName, ColonOf, WhiteOf, AddChild;
    var i := pos + 1 + |Inside(t)|;
    TagFacts(t);
    StartIsScanned(s, pos, t, p);
    InsideLayout(s, pos + 1, t);
    OpenedIsFrame(s, pos, t, i);
    LoopGoesOn(s, i, In(Tag(pos, ColonOf(t), WhiteOf(t)), p));
  }

  lemma CloseParses(s: string, pos: nat, name: string, p: Parser)
    requires At(s, pos, "</" + name + ">") && LegalName(name) && p.mode == Outside && |p.stack| > 1
      && p.stack[|p.stack| - 1].name == name
    ensures var top, below := p.stack[|p.stack| - 1], p.stack[..|p.stack| - 1];
      Loop(s, pos, p) == Loop(s, pos + |name| + 3,
        Parser(Outside, AddChild(below, Finished(top, Slice(s, top.bodyIndex, pos))), p.closedRoot))
  {
    hide Loop, Finished, At, LegalName, ColonAfter, AddChild;
    var i := pos + 2 + |name|;
    CloseIsScanned(s, pos, name, p);
    LoopGoesOn(s, i, In(Tag(pos, ColonAfter(name, 2, None, 0), 0), p));
  }

  /** A closing tag for another element than the innermost open one, or for none, is refused. */
  lemma MismatchIsRefused(s: string, pos: nat, name: string, p: Parser)
    requires At(s, pos, "</" + name + ">") && LegalName(name) && p.mode == Outside
    requires p.stack == [] || p.stack[|p.stack| - 1].name != name
    ensures Loop(s, pos, p).None?
  {
    hide At, LegalName, ColonAfter, AddChild;
    CloseIsScanned(s, pos, name, p);
  }

  /** From `</` to the `>` of a closing tag. */
  lemma CloseIsScanned(s: string, pos: nat, name: string, p: Parser)
    requires At(s, pos, "</" + name + ">") && LegalName(name) && p.mode == Outside
    ensures var i := pos + 2 + |name|;
      && i < |s| && s[i] == '>' && s[pos + 1] == '/' && Slice(s, pos + 2, i) == name
      && Loop(s, pos, p) == Loop(s, i, In(Tag(pos, ColonAfter(name, 2, None, 0), 0), p))
  {
    hide Loop, At, Scan, NoEnd, ColonAfter, LegalName, Slice;
    var text, m := "/" + name, Tag(pos, 0, 0);
    CloseLayout(s, pos, name);
    SliceIs(s, pos + 2, name);
    LoopGoesOn(s, pos, p);
    ScanConcat("/", name, 1, m);
    ScanOne('/', 1, m);
    ScanLegalName(name, 2, m);
    ScanLoop(s, pos + 1, text, m, p);
  }

  lemma CloseLayout(s: string, pos: nat, name: string)
    requires At(s, pos, "</" + name + ">")
    ensures var i := pos + 2 + |name|;
      i < |s| && s[i] == '>' && s[pos] == '<' && s[pos + 1] == '/' && At(s, pos + 1, "/" + name) && At(s, pos + 2, name)
  {
    var text := "/" + name;
    assert "</" + name + ">" == "<" + text + ">";
    AtConcat3(s, pos, "<", text, ">");
    AtChar(s, pos, "<", 0);
    AtChar(s, pos + 1, text, 0);
    AtChar(s, pos + 1 + |text|, ">", 0);
    AtConcat(s, pos + 1, "/", name);
  }

  lemma ScanLegalName(name: string, offset: nat, m: Mode)
    requires m.Tag? && LegalName(name)
    ensures NoEnd(name, offset, m)
      && Scan(name, offset, m) == Tag(m.start, ColonAfter(name, offset, None, m.colon), m.ws)
  {
    ScanName(name, offset, m);
  }

  // ---- Trees ----

  function AddChildren(stack: seq<Frame>, es: seq<Element>): seq<Frame>
    requires stack != []
  {
    var top := stack[|stack| - 1];
    stack[|stack| - 1 := Frame(top.name, top.namespace, top.localName, top.attrs, top.bodyIndex, top.children + es)]
  }

  lemma NoChildren(stack: seq<Frame>)
    requires stack != []
    ensures AddChildren(stack, []) == stack
  {
    assert stack[|stack| - 1].children + [] == stack[|stack| - 1].children;
  }

  lemma OneMoreChild(stack: seq<Frame>, e: Element, es: seq<Element>)
    requires stack != []
    ensures AddChildren(AddChild(stack, e), es) == AddChildren(stack, [e] + es)
  {
    assert stack[|stack| - 1].children + [e] + es == stack[|stack| - 1].children + ([e] + es);
  }

  function WithStack(stack: seq<Frame>, p: Parser): Parser { Parser(Outside, stack, p.closedRoot) }

  /** Where the parts of an element stand. */
  lemma RenderLayout(s: string, pos: nat, t: Tree)
    requires At(s, pos, Render(t))
    ensures At(s, pos, t.gap) && At(s, pos + |t.gap|, StartTag(t))
    ensures t.selfClosing ==> |Render(t)| == |t.gap| + |StartTag(t)|
    ensures !t.selfClosing ==>
      var b := pos + |t.gap| + |StartTag(t)|;
      var c := b + |RenderAll(t.children)|;
      && At(s, b, RenderAll(t.children)) && At(s, c, t.text) && At(s, c + |t.text|, CloseTag(t))
      && pos + |Render(t)| == c + |t.text| + |CloseTag(t)|
  {
    hide At, StartTag, CloseTag, RenderAll;
    if t.selfClosing {
      assert Render(t) == t.gap + StartTag(t);
      AtConcat(s, pos, t.gap, StartTag(t));
    } else {
      var rest := RenderAll(t.children) + t.text + CloseTag(t);
      AtConcat3(s, pos, t.gap, StartTag(t), rest);
      AtConcat3(s, pos + |t.gap| + |StartTag(t)|, RenderAll(t.children), t.text, CloseTag(t));
    }
  }

  lemma {:induction false} RenderParses(s: string, pos: nat, t: Tree, p: Parser)
    requires At(s, pos, Render(t)) && WellFormed(t) && p.mode == Outside && p.stack != []
    ensures Loop(s, pos, p) == Loop(s, pos + |Render(t)|, WithStack(AddChild(p.stack, Expected(t)), p))
    decreases t, 0
  {
    hide Loop, At, Render, StartTag, CloseTag, RenderAll, FrameOf, Expected, AddChild, LegalName, AllWellFormed,
      WellFormed, Skippable, LegalTag;
    var b := pos + |t.gap| + |StartTag(t)|;
    FrameFacts(t, b);
    RenderLayout(s, pos, t);
    BeforeContent(s, pos, t, p);
    if t.selfClosing { EmptyIsExpected(t, b); } else { ContentParses(s, b, t, p); }
  }

  lemma BeforeContent(s: string, pos: nat, t: Tree, p: Parser)
    requires At(s, pos, t.gap) && At(s, pos + |t.gap|, StartTag(t)) && WellFormed(t) && p.mode == Outside
      && p.stack != []
    ensures var b := pos + |t.gap| + |StartTag(t)|;
      Loop(s, pos, p) == Loop(s, b,
        WithStack(if t.selfClosing then AddChild(p.stack, Finished(FrameOf(t, b), ""))
        else p.stack + [FrameOf(t, b)], p))
  {
    hide Loop, At, StartTag, FrameOf, AddChild, LegalTag, LegalName, AllWellFormed, WellFormed, Skippable, CloseTag;
    FrameFacts(t, 0);
    TextIsSkipped(s, pos, t.gap, p);
    StartParses(s, pos + |t.gap|, t, p);
  }

  lemma EmptyIsExpected(t: Tree, b: nat)
    requires t.children == [] && t.text == ""
    ensures Finished(FrameOf(t, b), "") == Expected(t)
  {}

  /** The content and the closing tag of an element whose frame is on the stack. */
  lemma {:induction false} ContentParses(s: string, b: nat, t: Tree, p: Parser)
    requires WellFormed(t) && !t.selfClosing && p.stack != []
    requires var c := b + |RenderAll(t.children)|;
      At(s, b, RenderAll(t.children)) && At(s, c, t.text) && At(s, c + |t.text|, CloseTag(t))
    ensures Loop(s, b, WithStack(p.stack + [FrameOf(t, b)], p)) ==
      Loop(s, b + |RenderAll(t.children)| + |t.text| + |CloseTag(t)|, WithStack(AddChild(p.stack, Expected(t)), p))
    decreases t.children, 1
  {
    hide Loop, At, FrameOf, Expected, AddChild, AddChildren, CloseTag, LegalName, AllWellFormed, WellFormed, Skippable,
      LegalTag, RenderAll;
    FrameFacts(t, b);
    var c := b + |RenderAll(t.children)|;
    var d := c + |t.text|;
    var f := FrameOf(t, b);
    var start := WithStack(p.stack + [f], p);
    var filled := WithStack(AddChildren(p.stack + [f], AllExpected(t.children)), p);
    AllParse(s, b, t.children, start);
    TextIsSkipped(s, c, t.text, filled);
    FilledStack(p.stack, f, AllExpected(t.children));
    CloseParses(s, d, t.name, filled);
    FinishedIsExpected(s, b, t);
  }

  lemma FilledStack(stack: seq<Frame>, f: Frame, es: seq<Element>)
    ensures var filled := AddChildren(stack + [f], es);
      && |filled| == |stack| + 1 && filled[..|stack|] == stack
      && filled[|stack|] == Frame(f.name, f.namespace, f.localName, f.attrs, f.bodyIndex, f.children + es)
  {}

  /** The text of a leaf is what stands between its tags. */
  lemma FinishedIsExpected(s: string, b: nat, t: Tree)
    requires !t.selfClosing && At(s, b + |RenderAll(t.children)|, t.text)
    ensures var f := FrameOf(t, b);
      Finished(Frame(f.name, f.namespace, f.localName, f.attrs, f.bodyIndex, f.children + AllExpected(t.children)),
               Slice(s, b, b + |RenderAll(t.children)| + |t.text|)) == Expected(t)
  {
    SameLength(t.children);
    assert [] + AllExpected(t.children) == AllExpected(t.children);
    if t.children == [] { SliceIs(s, b, t.text); }
  }

  lemma FrameFacts(t: Tree, b: nat)
    requires WellFormed(t)
    ensures CloseTag(t) == "</" + t.name + ">" && |CloseTag(t)| == |t.name| + 3
    ensures FrameOf(t, b).name == t.name && FrameOf(t, b).bodyIndex == b
    ensures LegalName(t.name) && Skippable(t.text) && Skippable(t.gap) && LegalTag(t) && AllWellFormed(t.children)
    ensures t.selfClosing ==> t.children == [] && t.text == ""
  {}

  lemma SameLength(ts: seq<Tree>)
    ensures AllExpected(ts) == [] <==> ts == []
  {}

  lemma {:induction false} AllParse(s: string, pos: nat, ts: seq<Tree>, p: Parser)
    requires At(s, pos, RenderAll(ts)) && AllWellFormed(ts) && p.mode == Outside && p.stack != []
    ensures Loop(s, pos, p) == Loop(s, pos + |RenderAll(ts)|, WithStack(AddChildren(p.stack, AllExpected(ts)), p))
    decreases ts, 0
  {
    hide Loop, At, Render, AddChild, AddChildren, Expected, WellFormed;
    if ts == [] {
      NoChildren(p.stack);
    } else {
      AtConcat(s, pos, Render(ts[0]), RenderAll(ts[1..]));
      RenderParses(s, pos, ts[0], p);
      OneMoreChild(p.stack, Expected(ts[0]), AllExpected(ts[1..]));
      AllParse(s, pos + |Render(ts[0])|, ts[1..], WithStack(AddChild(p.stack, Expected(ts[0])), p));
    }
  }

  /** The parser gives back every rendered document: names, attribute text, the text of leaves and the
      children, with names split where the colon field says. */
  lemma ParseUndoesRender(ts: seq<Tree>, tail: string)
    requires ts != [] && AllWellFormed(ts) && Skippable(tail)
    ensures Parse(RenderAll(ts) + tail) == Some(Element("root", "", "root", "", "", AllExpected(ts)))
  {
    hide Loop, At, RenderAll, AllExpected, AllWellFormed, Skippable;
    var s := RenderAll(ts) + tail;
    var p := Parser(Outside, [ROOT], []);
    WholeIsThere(s);
    AtConcat(s, 0, RenderAll(ts), tail);
    AllParse(s, 0, ts, p);
    var q := WithStack(AddChildren([ROOT], AllExpected(ts)), p);
    TextIsSkipped(s, |RenderAll(ts)|, tail, q);
    LoopEnds(s, |s|, q);
    SameLength(ts);
    assert [] + AllExpected(ts) == AllExpected(ts);
  }

  lemma RootEnds(s: string, i: nat, pos: nat, colon: nat, es: seq<Element>)
    requires pos + 1 < i < |s| && s[pos + 1] == '/' && Slice(s, pos + 2, i) == "root"
    ensures EndTag(s, i, Parser(Tag(pos, colon, 0), AddChildren([ROOT], es), [])) == Some(Parser(Outside, [], es))
  {
    hide Slice;
    var stack := AddChildren([ROOT], es);
    assert |stack| == 1 && stack[..0] == [] && stack[0].name == "root" && stack[0].children == [] + es == es;
  }

  lemma RootCloses(s: string, pos: nat, es: seq<Element>)
    requires At(s, pos, "</root>")
    ensures Loop(s, pos, Parser(Outside, AddChildren([ROOT], es), [])) == Loop(s, pos + 7, Parser(Outside, [], es))
  {
    hide Loop, At, LegalName, ColonAfter, AddChildren, EndTag, Slice;
    var p, colon := Parser(Outside, AddChildren([ROOT], es), []), ColonAfter("root", 2, None, 0);
    RootIsLegal();
    CloseIsScanned(s, pos, "root", p);
    RootEnds(s, pos + 6, pos, colon, es);
    LoopGoesOn(s, pos + 6, In(Tag(pos, colon, 0), p));
  }

  lemma RootIsLegal()
    ensures LegalName("root") && "</" + "root" + ">" == "</root>"
  {}

  /** The root that holds the document may be closed by a tag as well, behind all elements. */
  lemma RootMayBeClosed(ts: seq<Tree>, tail: string)
    requires ts != [] && AllWellFormed(ts) && Skippable(tail)
    ensures Parse(RenderAll(ts) + "</root>" + tail) == Parse(RenderAll(ts))
  {
    hide Loop, At, RenderAll, AllExpected, AllWellFormed, Skippable, AddChildren;
    var s := RenderAll(ts) + "</root>" + tail;
    var p := Parser(Outside, [ROOT], []);
    WholeIsThere(s);
    AtConcat3(s, 0, RenderAll(ts), "</root>", tail);
    AllParse(s, 0, ts, p);
    RootCloses(s, |RenderAll(ts)|, AllExpected(ts));
    var q := Parser(Outside, [], AllExpected(ts));
    TextIsSkipped(s, |RenderAll(ts)| + 7, tail, q);
    LoopEnds(s, |s|, q);
    SameLength(ts);
    NothingIsSkippable();
    ParseUndoesRender(ts, "");
    assert RenderAll(ts) + "" == RenderAll(ts);
  }

  lemma NothingIsSkippable()
    ensures Skippable("")
  {}

  lemma WholeIsThere(s: string)
    ensures At(s, 0, s)
  {
    assert s[0..|s|] == s;
  }

  /** After a start tag and the content of its element, the element is still open. */
  lemma ContentStaysOpen(s: string, t: Tree, p: Parser) returns (q: Parser)
    requires WellFormed(t) && !t.selfClosing && p.mode == Outside && p.stack != []
    requires var b := |t.gap| + |StartTag(t)|;
      && At(s, 0, t.gap) && At(s, |t.gap|, StartTag(t))
      && At(s, b, RenderAll(t.children)) && At(s, b + |RenderAll(t.children)|, t.text)
    ensures q.mode == Outside && |q.stack| == |p.stack| + 1
    ensures Loop(s, 0, p) == Loop(s, |t.gap| + |StartTag(t)| + |RenderAll(t.children)| + |t.text|, q)
  {
    hide Loop, At, StartTag, CloseTag, RenderAll, FrameOf, Expected, AddChild, AddChildren, AllExpected, LegalName,
      AllWellFormed, WellFormed, Skippable, LegalTag;
    var b := |t.gap| + |StartTag(t)|;
    FrameFacts(t, b);
    BeforeContent(s, 0, t, p);
    var start := WithStack(p.stack + [FrameOf(t, b)], p);
    AllParse(s, b, t.children, start);
    q := WithStack(AddChildren(start.stack, AllExpected(t.children)), start);
    FilledStack(p.stack, FrameOf(t, b), AllExpected(t.children));
    TextIsSkipped(s, b + |RenderAll(t.children)|, t.text, q);
  }

  /** An element that is not closed is refused. */
  lemma UnclosedIsRefused(t: Tree)
    requires WellFormed(t) && !t.selfClosing
    ensures Parse(t.gap + StartTag(t) + (RenderAll(t.children) + t.text)).None?
  {
    hide Loop, At, StartTag, RenderAll, WellFormed;
    var content := RenderAll(t.children) + t.text;
    var s := t.gap + StartTag(t) + content;
    WholeIsThere(s);
    AtConcat3(s, 0, t.gap, StartTag(t), content);
    AtConcat(s, |t.gap| + |StartTag(t)|, RenderAll(t.children), t.text);
    var q := ContentStaysOpen(s, t, Parser(Outside, [ROOT], []));
    LoopEnds(s, |s|, q);
  }
}
