/** The XML parser (lib/xml-parser.ts, `parseXml`): one pass over the characters, with the offsets of the
    first colon and the first white space of a tag in two 8-bit fields. */
module XmlParser {
  import opened Options

  datatype Element = Element(name: string, namespace: string, localName: string, attrs: string, text: string,
      children: seq<Element>)

  /** An element that is not closed yet. */
  datatype Frame = Frame(name: string, namespace: string, localName: string, attrs: string, bodyIndex: nat,
      children: seq<Element>)

  /** Where the parser is: in text, in the tag that starts at `start`, or in quotes inside that tag. */
  datatype Mode = Outside | Tag(start: nat, colon: nat, ws: nat) | Quoted(quote: char, start: nat, colon: nat, ws: nat)

  /** The open elements, the root first. A tag can close the root as well, which leaves `closedRoot`. */
  datatype Parser = Parser(mode: Mode, stack: seq<Frame>, closedRoot: seq<Element>)

  const ROOT := Frame("root", "", "root", "", 0, [])

  predicate White(c: char) { c == ' ' || c == '\t' || c == '\r' || c == '\n' }

  /** `slice` of a string, whose bounds may be out of order or past the end. */
  function Slice(s: string, i: nat, j: nat): string {
    var b := if j <= |s| then j else |s|;
    if i >= b then "" else s[i..b]
  }

  /** A field takes the offset modulo 256, unless it is taken. */
  function Field(field: nat, offset: nat): nat { if field == 0 then offset % 256 else field }

  function NameOf(s: string, from: nat, m: Mode, end: nat): string
    requires m.Tag?
  {
    Slice(s, from, if m.ws == 0 then end else m.start + m.ws)
  }

  /** The split at the colon field, if it stands before the white space field. */
  function SplitName(name: string, colon: nat, ws: nat): (string, string) {
    if colon != 0 && (ws == 0 || colon < ws) then (Slice(name, 0, colon - 1), Slice(name, colon, |name|))
    else ("", name)
  }

  function Opened(s: string, i: nat, m: Mode): (f: Frame)
    requires m.Tag? && i > 0
  {
    var end := if i <= |s| && s[i - 1] == '/' then i - 1 else i;
    var name := NameOf(s, m.start + 1, m, end);
    var (namespace, localName) := SplitName(name, m.colon, m.ws);
    Frame(name, namespace, localName, if m.ws != 0 then Slice(s, m.start + m.ws + 1, end) else "", i + 1, [])
  }

  function Finished(f: Frame, text: string): Element {
    Element(f.name, f.namespace, f.localName, f.attrs, if f.children == [] then text else "", f.children)
  }

  function AddChild(stack: seq<Frame>, e: Element): (r: seq<Frame>)
    requires stack != []
    ensures |r| == |stack|
  {
    var top := stack[|stack| - 1];
    stack[|stack| - 1 := Frame(top.name, top.namespace, top.localName, top.attrs, top.bodyIndex, top.children + [e])]
  }

  /** The end of a tag at `i`; `None` where the code throws. */
  function EndTag(s: string, i: nat, p: Parser): (r: Option<Parser>)
    requires p.mode.Tag? && p.mode.start < i < |s|
    ensures r.Some? ==> r.value.mode.Outside? || r.value.mode == p.mode
  {
    var m := p.mode;
    var second := s[m.start + 1];
    if second == '/' then
      if p.stack == [] then None
      else
        var top, below := p.stack[|p.stack| - 1], p.stack[..|p.stack| - 1];
        if top.name != NameOf(s, m.start + 2, m, i) then None
        else if below == [] then Some(Parser(Outside, [], top.children))
        else Some(Parser(Outside, AddChild(below, Finished(top, Slice(s, top.bodyIndex, m.start))), p.closedRoot))
    else if second == '!' then
      if "![CDATA[" <= s[m.start + 1..] then (if i >= 2 && s[i - 2..i] == "]]" then None else Some(p))
      else if "!--" <= s[m.start + 1..] && i >= 2 && s[i - 2..i] == "--" then
        Some(Parser(Outside, p.stack, p.closedRoot))
      else Some(p)
    else if second == '?' then
      Some(if s[i - 1] == '?' then Parser(Outside, p.stack, p.closedRoot) else p)
    else if p.stack == [] then None
    else if s[i - 1] == '/' then Some(Parser(Outside, AddChild(p.stack, Finished(Opened(s, i, m), "")), p.closedRoot))
    else Some(Parser(Outside, p.stack + [Opened(s, i, m)], p.closedRoot))
  }

  /** One character. */
  function Step(s: string, i: nat, p: Parser): Option<Parser>
    requires i < |s| && (p.mode.Tag? ==> p.mode.start < i)
  {
    var c, m := s[i], p.mode;
    if m.Outside? then Some(if c == '<' then Parser(Tag(i, 0, 0), p.stack, p.closedRoot) else p)
    else if m.Quoted? then Some(if c == m.quote then Parser(Tag(m.start, m.colon, m.ws), p.stack, p.closedRoot) else p)
    else if c == '\'' || c == '"' then Some(Parser(Quoted(c, m.start, m.colon, m.ws), p.stack, p.closedRoot))
    else if c == ':' then Some(Parser(Tag(m.start, Field(m.colon, i - m.start), m.ws), p.stack, p.closedRoot))
    else if White(c) then Some(Parser(Tag(m.start, m.colon, Field(m.ws, i - m.start)), p.stack, p.closedRoot))
    else if c == '>' then EndTag(s, i, p)
    else Some(p)
  }

  predicate Behind(m: Mode, i: nat) { (m.Tag? ==> m.start < i) && (m.Quoted? ==> m.start < i) }

  lemma StepGoesOn(s: string, i: nat, p: Parser)
    requires i < |s| && Behind(p.mode, i)
    ensures Step(s, i, p).Some? ==> Behind(Step(s, i, p).value.mode, i + 1)
  {}

  function Loop(s: string, i: nat, p: Parser): Option<Parser>
    requires Behind(p.mode, i)
    decreases |s| - i
  {
    if i >= |s| then Some(p)
    else
      StepGoesOn(s, i, p);
      match Step(s, i, p)
      case None => None
      case Some(next) => Loop(s, i + 1, next)
  }

  /** What the root element is after the last character. */
  function Result(s: string, p: Parser): Option<Element> {
    if p.mode != Outside || |p.stack| > 1 then None
    else
      var children := if p.stack == [] then p.closedRoot else p.stack[0].children;
      Some(Element("root", "", "root", "", if children == [] then s else "", children))
  }

  function Parse(s: string): Option<Element> {
    match Loop(s, 0, Parser(Outside, [ROOT], []))
    case None => None
    case Some(p) => Result(s, p)
  }

  // ---- The packed state ----

  const LESS_THAN := 1
  const SINGLE_QUOTE := 2
  const DOUBLE_QUOTE := 3

  /** The kind in the low byte, the colon field in the second, the white space field in the third. */
  function Packed(colon: nat, ws: nat): nat { LESS_THAN + 256 * colon + 65536 * ws }

  function Kind(state: nat): nat { state % 256 }
  function ColonField(state: nat): nat { state / 256 % 256 }
  function WhiteField(state: nat): nat { state / 65536 % 256 }

  lemma Unpacked(colon: nat, ws: nat)
    requires colon < 256 && ws < 256
    ensures Kind(Packed(colon, ws)) == LESS_THAN && ColonField(Packed(colon, ws)) == colon
      && WhiteField(Packed(colon, ws)) == ws
  {}

  /** The two states and their indices stand for a mode. */
  predicate Stands(state1: nat, index1: nat, state2: nat, index2: nat, m: Mode) {
    match m
    case Outside => state1 == 0 && state2 == 0
    case Tag(start, colon, ws) => colon < 256 && ws < 256 && state1 == Packed(colon, ws) && index1 == start
      && state2 == 0
    case Quoted(q, start, colon, ws) =>
      && colon < 256 && ws < 256 && state2 == Packed(colon, ws) && index2 == start
      && ((q == '\'' && state1 == SINGLE_QUOTE) || (q == '"' && state1 == DOUBLE_QUOTE))
  }

  /** The exclusive or with a field that is zero. */
  function SetField(state: nat, field: nat, value: nat): nat
    requires field == 1 || field == 2
  {
    state + value % 256 * (if field == 1 then 256 else 65536)
  }

  /** The main loop, on packed states; the work at the end of a tag is that of `EndTag`. */
  method ParseXml(s: string) returns (root: Option<Element>)
    ensures root == Parse(s)
  {
    hide EndTag, Loop;
    var state1: nat, state1Index: nat, state2: nat, state2Index: nat := 0, 0, 0, 0;
    var stack, closedRoot := [ROOT], [];
    ghost var p := Parser(Outside, stack, closedRoot);
    ghost var start := p;
    var i := 0;
    while i < |s|
      invariant i <= |s| && p.stack == stack && p.closedRoot == closedRoot
      invariant Stands(state1, state1Index, state2, state2Index, p.mode) && Behind(p.mode, i)
      invariant Loop(s, i, p) == Loop(s, 0, start)
    {
      StepGoesOn(s, i, p);
      ghost var q := Step(s, i, p);
      var c := s[i];
      if p.mode.Tag? { Unpacked(p.mode.colon, p.mode.ws); }
      KindOfQuotes();
      FieldsSet(state1, i - state1Index);
      if c == '\'' || c == '"' {
        var kind := if c == '\'' then SINGLE_QUOTE else DOUBLE_QUOTE;
        if Kind(state1) == kind {
          state1, state1Index, state2 := state2, state2Index, 0;
        } else if Kind(state1) == LESS_THAN {
          state1, state1Index, state2, state2Index := kind, i, state1, state1Index;
        }
      } else if c == '<' {
        if Kind(state1) == 0 { state1, state1Index, state2, state2Index := LESS_THAN, i, state1, state1Index; }
      } else if c == ':' {
        if Kind(state1) == LESS_THAN && ColonField(state1) == 0 { state1 := SetField(state1, 1, i - state1Index); }
      } else if White(c) {
        if Kind(state1) == LESS_THAN && WhiteField(state1) == 0 { state1 := SetField(state1, 2, i - state1Index); }
      } else if c == '>' {
        if Kind(state1) == LESS_THAN {
          var tag := Tag(state1Index, ColonField(state1), WhiteField(state1));
          var next := EndTag(s, i, Parser(tag, stack, closedRoot));
          if next.None? {
            LoopStops(s, i, p);
            return None;
          }
          stack, closedRoot := next.value.stack, next.value.closedRoot;
          if next.value.mode.Outside? { state1, state1Index, state2 := state2, state2Index, 0; }
        }
      }
      LoopGoesOn(s, i, p);
      p := q.value;
      i := i + 1;
    }
    LoopEnds(s, i, p);
    OutsideIsZero(state1, state1Index, state2, state2Index, p.mode);
    root := if state1 != 0 || |stack| > 1 then None else Result(s, Parser(Outside, stack, closedRoot));
  }

  lemma KindOfQuotes()
    ensures Kind(0) == 0 && Kind(SINGLE_QUOTE) == SINGLE_QUOTE && Kind(DOUBLE_QUOTE) == DOUBLE_QUOTE
      && LESS_THAN == Packed(0, 0)
  {}

  /** Setting a field that is zero leaves the others. */
  lemma FieldsSet(state: nat, offset: int)
    ensures forall colon: nat, ws: nat {:trigger Packed(colon, ws)} :: state == Packed(colon, ws) && offset >= 0 ==>
      && (colon == 0 ==> SetField(state, 1, offset) == Packed(offset % 256, ws))
      && (ws == 0 ==> SetField(state, 2, offset) == Packed(colon, offset % 256))
  {}

  lemma OutsideIsZero(state1: nat, index1: nat, state2: nat, index2: nat, m: Mode)
    requires Stands(state1, index1, state2, index2, m)
    ensures state1 == 0 <==> m.Outside?
  {}

  lemma LoopEnds(s: string, i: nat, p: Parser)
    requires i >= |s| && Behind(p.mode, i)
    ensures Loop(s, i, p) == Some(p)
  {}

  lemma LoopStops(s: string, i: nat, p: Parser)
    requires i < |s| && Behind(p.mode, i) && Step(s, i, p).None?
    ensures Loop(s, i, p).None?
  {}

  lemma LoopGoesOn(s: string, i: nat, p: Parser)
    requires i < |s| && Behind(p.mode, i) && Step(s, i, p).Some?
    ensures Behind(Step(s, i, p).value.mode, i + 1) && Loop(s, i, p) == Loop(s, i + 1, Step(s, i, p).value)
  {
    StepGoesOn(s, i, p);
  }
}
