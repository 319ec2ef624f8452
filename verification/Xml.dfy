/** Escaping text for the skill listing (crates/rupi-compat/src/skill.rs:227-234). */
module Xml {
  import opened Text

  /** Replacing one character throughout. */
  function Replaced(text: string, c: char, with: string): string {
    if text == "" then "" else (if text[0] == c then with else [text[0]]) + Replaced(text[1..], c, with)
  }

  /** One replacement behind the other. */
  function Escaped(text: string): string {
    Replaced(Replaced(Replaced(Replaced(Replaced(text, '&', "&amp;"), '<', "&lt;"), '>', "&gt;"), '"', "&quot;"),
             '\'', "&apos;")
  }

  function Entity(c: char): string {
    match c
    case '&' => "&amp;"
    case '<' => "&lt;"
    case '>' => "&gt;"
    case '"' => "&quot;"
    case '\'' => "&apos;"
    case _ => [c]
  }

  /** Every character by itself, all at once. */
  function Mapped(text: string): string {
    if text == "" then "" else Entity(text[0]) + Mapped(text[1..])
  }

  lemma {:induction false} ReplacedOfConcat(a: string, b: string, c: char, with: string)
    ensures Replaced(a + b, c, with) == Replaced(a, c, with) + Replaced(b, c, with)
    decreases |a|
  {
    if a == "" {
      assert a + b == b;
    } else {
      ReplacedOfConcat(a[1..], b, c, with);
      assert (a + b)[1..] == a[1..] + b;
    }
  }

  lemma {:induction false} ReplacedNothing(text: string, c: char, with: string)
    requires c !in text
    ensures Replaced(text, c, with) == text
  {
    if text != "" {
      assert text[0] in text && text == [text[0]] + text[1..];
      ReplacedNothing(text[1..], c, with);
    }
  }

  lemma EscapedOfConcat(a: string, b: string)
    ensures Escaped(a + b) == Escaped(a) + Escaped(b)
  {
    hide Replaced;
    ReplacedOfConcat(a, b, '&', "&amp;");
    var a1, b1 := Replaced(a, '&', "&amp;"), Replaced(b, '&', "&amp;");
    ReplacedOfConcat(a1, b1, '<', "&lt;");
    var a2, b2 := Replaced(a1, '<', "&lt;"), Replaced(b1, '<', "&lt;");
    ReplacedOfConcat(a2, b2, '>', "&gt;");
    var a3, b3 := Replaced(a2, '>', "&gt;"), Replaced(b2, '>', "&gt;");
    ReplacedOfConcat(a3, b3, '"', "&quot;");
    ReplacedOfConcat(Replaced(a3, '"', "&quot;"), Replaced(b3, '"', "&quot;"), '\'', "&apos;");
  }

  lemma ReplacedOne(d: char, c: char, with: string)
    ensures Replaced([d], c, with) == if d == c then with else [d]
  {
    assert Replaced([d][1..], c, with) == "";
  }

  /** No replacement touches what an earlier one put in. */
  lemma EscapedOne(c: char)
    ensures Escaped([c]) == Entity(c)
  {
    hide Replaced;
    ReplacedOne(c, '&', "&amp;");
    ReplacedOne(c, '<', "&lt;");
    ReplacedOne(c, '>', "&gt;");
    ReplacedOne(c, '"', "&quot;");
    ReplacedOne(c, '\'', "&apos;");
    if c == '&' { Untouched("&amp;"); }
    if c == '<' { Untouched("&lt;"); }
    if c == '>' { Untouched("&gt;"); }
    if c == '"' { Untouched("&quot;"); }
  }

  lemma Untouched(entity: string)
    requires '<' !in entity && '>' !in entity && '"' !in entity && '\'' !in entity
    ensures Replaced(entity, '<', "&lt;") == entity && Replaced(entity, '>', "&gt;") == entity
    ensures Replaced(entity, '"', "&quot;") == entity && Replaced(entity, '\'', "&apos;") == entity
  {
    ReplacedNothing(entity, '<', "&lt;");
    ReplacedNothing(entity, '>', "&gt;");
    ReplacedNothing(entity, '"', "&quot;");
    ReplacedNothing(entity, '\'', "&apos;");
  }

  /** The five replacements, one behind the other, are one map over the characters. */
  lemma {:induction false} EscapedIsMapped(text: string)
    ensures Escaped(text) == Mapped(text)
  {
    hide Escaped;
    if text == "" {
      assert Escaped("") == "" by { EscapedNothing(); }
    } else {
      EscapedIsMapped(text[1..]);
      EscapedOne(text[0]);
      EscapedOfConcat([text[0]], text[1..]);
      assert text == [text[0]] + text[1..];
    }
  }

  lemma EscapedNothing()
    ensures Escaped("") == ""
  {
  }

  predicate IsMarkup(c: char) {
    c == '<' || c == '>' || c == '"' || c == '\''
  }

  predicate HasNoMarkup(text: string) {
    forall i :: 0 <= i < |text| ==> !IsMarkup(text[i])
  }

  /** Nothing in the result can be read as a tag or the end of a quoted value. */
  lemma {:induction false} EscapedHasNoMarkup(text: string)
    ensures HasNoMarkup(Escaped(text))
  {
    hide Escaped, HasNoMarkup;
    EscapedIsMapped(text);
    MappedHasNoMarkup(text);
  }

  lemma EntityHasNoMarkup(c: char)
    ensures HasNoMarkup(Entity(c))
  {
  }

  lemma {:induction false} MappedHasNoMarkup(text: string)
    ensures HasNoMarkup(Mapped(text))
  {
    hide Entity, IsMarkup;
    if text != "" {
      EntityHasNoMarkup(text[0]);
      MappedHasNoMarkup(text[1..]);
    }
  }

  /** Reading entities back. */
  function Decoded(text: string): string {
    if text == "" then ""
    else if Starts(text, "&amp;") then "&" + Decoded(text[5..])
    else if Starts(text, "&lt;") then "<" + Decoded(text[4..])
    else if Starts(text, "&gt;") then ">" + Decoded(text[4..])
    else if Starts(text, "&quot;") then "\"" + Decoded(text[6..])
    else if Starts(text, "&apos;") then "'" + Decoded(text[6..])
    else [text[0]] + Decoded(text[1..])
  }

  lemma DecodedEntity(c: char, rest: string)
    ensures Decoded(Entity(c) + rest) == [c] + Decoded(rest)
  {
    var e := Entity(c);
    var text := e + rest;
    assert text[|e|..] == rest && text[..|e|] == e;
    StartsWithFirst(text, "&amp;");
    StartsWithFirst(text, "&lt;");
    StartsWithFirst(text, "&gt;");
    StartsWithFirst(text, "&quot;");
    StartsWithFirst(text, "&apos;");
    StartsDiffer(text);
  }

  lemma StartsDiffer(text: string)
    ensures Starts(text, "&lt;") ==> !Starts(text, "&amp;")
    ensures Starts(text, "&gt;") ==> !Starts(text, "&amp;") && !Starts(text, "&lt;")
    ensures Starts(text, "&quot;") ==> !Starts(text, "&amp;") && !Starts(text, "&lt;") && !Starts(text, "&gt;")
    ensures Starts(text, "&apos;") ==> !Starts(text, "&amp;") && !Starts(text, "&lt;") && !Starts(text, "&gt;")
    ensures Starts(text, "&apos;") ==> !Starts(text, "&quot;")
  {
    if |text| >= 3 {
      StartsAt(text, "&amp;", 1);
      StartsAt(text, "&lt;", 1);
      StartsAt(text, "&gt;", 1);
      StartsAt(text, "&quot;", 1);
      StartsAt(text, "&apos;", 1);
      StartsAt(text, "&amp;", 2);
      StartsAt(text, "&apos;", 2);
    }
  }

  lemma StartsAt(text: string, needle: string, i: nat)
    requires i < |needle| && i < |text|
    ensures Starts(text, needle) ==> text[i] == needle[i]
  {
    if Starts(text, needle) { assert needle[i] == text[..|needle|][i]; }
  }

  /** The original text comes back. */
  lemma {:induction false} DecodedIsOriginal(text: string)
    ensures Decoded(Escaped(text)) == text
  {
    hide Escaped, Decoded;
    EscapedIsMapped(text);
    if text == "" {
      assert Decoded("") == "" by { DecodedNothing(); }
    } else {
      EscapedIsMapped(text[1..]);
      DecodedIsOriginal(text[1..]);
      DecodedEntity(text[0], Mapped(text[1..]));
    }
  }

  lemma DecodedNothing()
    ensures Decoded("") == ""
  {
  }
}
