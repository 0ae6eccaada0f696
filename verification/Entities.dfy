/** XML entities (lib/xml-parser.ts, `encodeEntities` and `decodeEntities`). */
module Entities {
  import opened Options

  function Entity(c: char): Option<string> {
    if c == '&' then Some("&amp;")
    else if c == '"' then Some("&quot;")
    else if c == '\'' then Some("&apos;")
    else if c == '<' then Some("&lt;")
    else if c == '>' then Some("&gt;")
    else None
  }

  function Encode(s: string): string {
    if s == "" then "" else Entity(s[0]).GetOr([s[0]]) + Encode(s[1..])
  }

  /** The characters between `&` and `;` of a match. */
  predicate InReference(c: char) { '0' <= c <= '9' || 'a' <= c <= 'z' || 'A' <= c <= 'Z' || c == '#' }

  function RunLength(s: string): (n: nat)
    ensures n <= |s|
  {
    if s != "" && InReference(s[0]) then 1 + RunLength(s[1..]) else 0
  }

  /** The length of the match that starts with the `&` before `rest`, if there is one. */
  function MatchLength(rest: string): (n: Option<nat>)
    ensures n.Some? ==> 2 < n.value <= |rest| + 1
  {
    var run := RunLength(rest);
    if run > 0 && run < |rest| && rest[run] == ';' then Some(run + 2) else None
  }

  /** What a match is replaced with; `reference` gives the character of a numeric reference. */
  function Replacement(match_: string, reference: string -> string): string {
    if match_ == "&quot;" then "\""
    else if match_ == "&amp;" then "&"
    else if match_ == "&apos;" then "'"
    else if match_ == "&lt;" then "<"
    else if match_ == "&gt;" then ">"
    else if "&#" <= match_ then reference(match_)
    else match_
  }

  function Decode(s: string, reference: string -> string): string
    decreases |s|
  {
    if s == "" then ""
    else if s[0] == '&' && MatchLength(s[1..]).Some? then
      var n := MatchLength(s[1..]).value;
      Replacement(s[..n], reference) + Decode(s[n..], reference)
    else [s[0]] + Decode(s[1..], reference)
  }

  lemma {:induction false} RunOf(name: string, tail: string)
    requires (forall i :: 0 <= i < |name| ==> InReference(name[i])) && tail != "" && !InReference(tail[0])
    ensures RunLength(name + tail) == |name|
  {
    if name == "" {
      assert name + tail == tail;
    } else {
      RunOf(name[1..], tail);
      assert (name + tail)[1..] == name[1..] + tail;
    }
  }

  /** An entity is decoded to its character, whatever follows. */
  lemma EntityDecodes(c: char, tail: string, reference: string -> string)
    requires Entity(c).Some?
    ensures Decode(Entity(c).value + tail, reference) == [c] + Decode(tail, reference)
  {
    var e := Entity(c).value;
    var name := e[1..|e| - 1];
    var s := e + tail;
    assert s[1..] == name + (";" + tail);
    RunOf(name, ";" + tail);
    assert s[..|e|] == e && s[|e|..] == tail;
    assert Replacement(e, reference) == [c];
  }

  /** Decoding what was encoded gives back every text. */
  lemma {:induction false} DecodeUndoesEncode(s: string, reference: string -> string)
    ensures Decode(Encode(s), reference) == s
  {
    if s != "" {
      DecodeUndoesEncode(s[1..], reference);
      assert s == [s[0]] + s[1..];
      if Entity(s[0]).Some? {
        EntityDecodes(s[0], Encode(s[1..]), reference);
      } else {
        assert ([s[0]] + Encode(s[1..]))[1..] == Encode(s[1..]);
      }
    }
  }

  /** The five entities that every XML processor knows, section 4.6 of XML 1.0; all else is written as it is. */
  lemma PredefinedEntities(c: char, s: string)
    ensures Encode([c] + s) == (
      if c == '<' then "&lt;" else if c == '>' then "&gt;" else if c == '&' then "&amp;"
      else if c == '\'' then "&apos;" else if c == '"' then "&quot;" else [c]) + Encode(s)
  {
    assert ([c] + s)[1..] == s;
  }

  /** Text without an ampersand is its own decoding. */
  lemma {:induction false} PlainIsDecoded(s: string, reference: string -> string)
    requires '&' !in s
    ensures Decode(s, reference) == s
    decreases |s|
  {
    if s != "" {
      PlainIsDecoded(s[1..], reference);
      assert s == [s[0]] + s[1..];
    }
  }

  /** Encoded text has none of the characters that the XML parser reacts to in text or in quotes. */
  lemma {:induction false} EncodedIsPlain(s: string)
    ensures forall i :: 0 <= i < |Encode(s)| ==> Encode(s)[i] !in {'<', '>', '"', '\''}
  {
    if s != "" { EncodedIsPlain(s[1..]); }
  }
}
