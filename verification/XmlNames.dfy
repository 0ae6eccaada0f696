/** Where the parser splits names: at the first colon, unless a colon far behind in the attributes is taken
    for an early one, because its offset is kept modulo 256. */
module XmlNames {
  import opened Options
  import opened XmlParser
  import opened XmlMarkup
  import opened XmlRoundTrips

  function FirstColon(name: string): (k: nat)
    ensures k <= |name| && (k < |name| ==> name[k] == ':') && forall i :: 0 <= i < k ==> name[i] != ':'
  {
    if name == "" || name[0] == ':' then 0 else 1 + FirstColon(name[1..])
  }

  /** The namespace prefix and the local part of a name. */
  function Split(name: string): (string, string) {
    var k := FirstColon(name);
    if k < |name| then (name[..k], name[k + 1..]) else ("", name)
  }

  /** The element as it was meant. */
  function Meant(t: Tree): Element
    decreases t, 0
  {
    var (namespace, localName) := Split(t.name);
    Element(t.name, namespace, localName, t.attrs, if t.children == [] then t.text else "", AllMeant(t.children))
  }

  function AllMeant(ts: seq<Tree>): seq<Element>
    decreases ts
  {
    if ts == [] then [] else [Meant(ts[0])] + AllMeant(ts[1..])
  }

  /** The offset of the first colon outside quotes, not counting those at multiples of 256. */
  function SeenColon(attrs: string, offset: nat, quote: Option<char>): (o: Option<nat>)
    ensures o.Some? ==> offset <= o.value < offset + |attrs| && o.value % 256 != 0
  {
    if attrs == "" then None
    else
      var c := attrs[0];
      if quote.Some? then SeenColon(attrs[1..], offset + 1, if c == quote.value then None else quote)
      else if c == '"' || c == '\'' then SeenColon(attrs[1..], offset + 1, Some(c))
      else if c == ':' && offset % 256 != 0 then Some(offset)
      else SeenColon(attrs[1..], offset + 1, None)
  }

  /** The name has a colon of its own, or no colon in the attributes is taken for one of the name. */
  predicate Fits(t: Tree) {
    var seen := SeenColon(t.attrs, |t.name| + 2, None);
    FirstColon(t.name) < |t.name| || seen.None? || seen.value % 256 > |t.name|
  }

  predicate AllFit(ts: seq<Tree>)
    decreases ts
  {
    ts == [] || (Fits(ts[0]) && AllFit(ts[0].children) && AllFit(ts[1..]))
  }

  lemma {:induction false} TakenField(text: string, offset: nat, quote: Option<char>, colon: nat)
    requires colon != 0
    ensures ColonAfter(text, offset, quote, colon) == colon
    decreases |text|
  {
    if text != "" {
      var c := text[0];
      if quote.Some? {
        TakenField(text[1..], offset + 1, if c == quote.value then None else quote, colon);
      } else {
        TakenField(text[1..], offset + 1, if c == '"' || c == '\'' then Some(c) else None, colon);
      }
    }
  }

  lemma {:induction false} FieldIsSeenColon(text: string, offset: nat, quote: Option<char>)
    ensures ColonAfter(text, offset, quote, 0) ==
      match SeenColon(text, offset, quote) case None => 0 case Some(o) => o % 256
    decreases |text|
  {
    if text != "" {
      var c := text[0];
      if quote.Some? {
        FieldIsSeenColon(text[1..], offset + 1, if c == quote.value then None else quote);
      } else if c == '"' || c == '\'' {
        FieldIsSeenColon(text[1..], offset + 1, Some(c));
      } else if c == ':' && offset % 256 != 0 {
        TakenField(text[1..], offset + 1, None, offset % 256);
      } else {
        FieldIsSeenColon(text[1..], offset + 1, None);
      }
    }
  }

  /** In a name of less than 255 characters the first colon is seen where it is. */
  lemma {:induction false} ColonInName(name: string, offset: nat)
    requires 0 < offset && offset + |name| <= 256 && forall i :: 0 <= i < |name| ==> NameChar(name[i])
    ensures SeenColon(name, offset, None) == if FirstColon(name) < |name| then Some(offset + FirstColon(name)) else None
    decreases |name|
  {
    if name != "" {
      assert NameChar(name[0]);
      if name[0] != ':' { ColonInName(name[1..], offset + 1); }
    }
  }

  lemma SplitAtColon(name: string, ws: nat)
    requires FirstColon(name) < |name| && (ws == 0 || ws == |name| + 1)
    ensures SplitName(name, FirstColon(name) + 1, ws) == Split(name)
  {
    hide FirstColon;
    var k := FirstColon(name);
    assert Slice(name, 0, k) == name[..k] && Slice(name, k + 1, |name|) == name[k + 1..];
  }

  lemma SplitWithoutColon(name: string, field: nat, ws: nat)
    requires FirstColon(name) == |name| && name != "" && ((ws == 0 && field == 0) || ws == |name| + 1)
    ensures SplitName(name, field, ws) == Split(name) <==> field == 0 || field > |name|
  {
    assert 0 < field < ws ==> |SplitName(name, field, ws).1| < |name|;
  }

  lemma SplitExactly(t: Tree)
    requires LegalName(t.name)
    ensures SplitName(t.name, ColonOf(t), WhiteOf(t)) == Split(t.name) <==> Fits(t)
  {
    hide SplitName, Split, FirstColon, ColonAfter, SeenColon, NameChar;
    var n, k := |t.name|, FirstColon(t.name);
    ColonInName(t.name, 1);
    FieldIsSeenColon(t.name, 1, None);
    if k < n {
      if t.attrs != "" { TakenField(t.attrs, n + 2, None, k + 1); }
      SplitAtColon(t.name, WhiteOf(t));
    } else {
      FieldIsSeenColon(t.attrs, n + 2, None);
      SplitWithoutColon(t.name, ColonOf(t), WhiteOf(t));
    }
  }

  lemma {:induction false} MeantExactly(t: Tree)
    requires WellFormed(t)
    ensures Expected(t) == Meant(t) <==> Fits(t) && AllFit(t.children)
    decreases t, 0
  {
    SplitExactly(t);
    AllMeantExactly(t.children);
  }

  lemma {:induction false} AllMeantExactly(ts: seq<Tree>)
    requires AllWellFormed(ts)
    ensures |AllExpected(ts)| == |AllMeant(ts)|
    ensures AllExpected(ts) == AllMeant(ts) <==> AllFit(ts)
    decreases ts
  {
    hide Expected, Meant, Fits, WellFormed;
    if ts != [] {
      MeantExactly(ts[0]);
      AllMeantExactly(ts[1..]);
      SplitLists(Expected(ts[0]), Meant(ts[0]), AllExpected(ts[1..]), AllMeant(ts[1..]));
    }
  }

  lemma SplitLists(a: Element, b: Element, x: seq<Element>, y: seq<Element>)
    ensures [a] + x == [b] + y <==> a == b && x == y
  {
    assert ([a] + x)[0] == a && ([b] + y)[0] == b && ([a] + x)[1..] == x && ([b] + y)[1..] == y;
  }

  /** The parser gives back a rendered document with its names split as they were meant exactly if no
      colon of an attribute, at its offset modulo 256, falls into a name without one. */
  lemma ParseReturnsWhatWasMeant(ts: seq<Tree>, tail: string)
    requires ts != [] && AllWellFormed(ts) && Skippable(tail)
    ensures Parse(RenderAll(ts) + tail) == Some(Element("root", "", "root", "", "", AllMeant(ts))) <==> AllFit(ts)
  {
    ParseUndoesRender(ts, tail);
    AllMeantExactly(ts);
  }

  /** Tags of up to 256 characters always fit. */
  lemma ShortTagsFit(t: Tree)
    requires |t.name| + |t.attrs| <= 254
    ensures Fits(t)
  {}

  function Letters(n: nat): string { seq(n, i => 'x') }

  lemma {:induction false} ColonBehindLetters(n: nat, offset: nat)
    requires (offset + n) % 256 != 0
    ensures SeenColon(Letters(n) + ":", offset, None) == Some(offset + n)
    decreases n
  {
    if n == 0 {
      assert Letters(0) + ":" == ":";
    } else {
      ColonBehindLetters(n - 1, offset + 1);
      assert (Letters(n) + ":")[1..] == Letters(n - 1) + ":";
    }
  }

  /** A colon at offset 257 is taken for the first character of the name. */
  lemma LateColonSplitsName(t: Tree)
    requires t.name == "a" && t.attrs == Letters(254) + ":"
    ensures !Fits(t) && Expected(t).localName == "" && Meant(t).localName == "a"
  {
    ColonBehindLetters(254, 3);
    FieldIsSeenColon(t.attrs, 3, None);
    ColonInName(t.name, 1);
    FieldIsSeenColon(t.name, 1, None);
  }
}
