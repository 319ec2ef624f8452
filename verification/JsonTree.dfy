/**
 JSON as section 2 of RFC 8259 spells it, printed in every way the manifest reader accepts,
 and what the reader makes of the print: strings read back, and any value, however deeply
 arrays and objects nest, is stepped over exactly.

 A printer takes the text behind what it prints; by `PrintBehind` it merely goes in front.
 */
module JsonTree {
  import opened Text
  import opened Json

  /**
   One character of a string: itself, behind a backslash the letter that stands for it (section 7 of
   RFC 8259) or itself where no letter is meant, or in four hexadecimal digits of either case.
   */
  datatype Glyph = Raw(c: char) | Escaped(c: char) | Lenient(c: char) | Hex(c: char, upper: seq<bool>)

  /** A value with the white space written around its parts. */
  datatype Value =
    | JString(glyphs: seq<Glyph>)
    | JLiteral(text: Bytes)
    | JArray(gap: Bytes, elements: Elements)
    | JObject(gap: Bytes, members: Members)

  datatype Elements =
    | NoElements
    | Element(before: Bytes, value: Value, after: Bytes, more: Elements)

  datatype Members =
    | NoMembers
    | Member(before: Bytes, key: seq<Glyph>, beforeColon: Bytes, afterColon: Bytes,
             value: Value, after: Bytes, more: Members)

  // ----- What may be written -----

  const BACKSPACE: char := 8 as char
  const FORM_FEED: char := 12 as char

  predicate IsGlyph(g: Glyph) {
    match g
    case Raw(c) => c != '"' && c != '\\'
    case Escaped(c) => c in "\"\\/\n\r\t" || c == BACKSPACE || c == FORM_FEED
    case Lenient(c) => c < 0x80 as char && c !in "bfnrtu"
    case Hex(c, upper) => |upper| == 4 && c < 0x1_0000 as char
  }

  predicate AreGlyphs(gs: seq<Glyph>) {
    forall g :: g in gs ==> IsGlyph(g)
  }

  predicate IsGap(s: Bytes) {
    forall b :: b in s ==> IsSpace(b)
  }

  /** `true`, `false`, `null`, a number: nothing that opens, closes or separates. */
  predicate IsLiteral(s: Bytes) {
    s != [] && forall b :: b in s ==> !IsDelimiter(b) && b != QUOTE && b != OPEN_BRACKET && b != OPEN_BRACE
  }

  predicate IsValue(v: Value) {
    match v
    case JString(gs) => AreGlyphs(gs)
    case JLiteral(text) => IsLiteral(text)
    case JArray(gap, es) => IsGap(gap) && AreElements(es)
    case JObject(gap, ms) => IsGap(gap) && AreMembers(ms)
  }

  predicate AreElements(es: Elements) {
    match es
    case NoElements => true
    case Element(before, v, after, more) => IsGap(before) && IsValue(v) && IsGap(after) && AreElements(more)
  }

  predicate AreMembers(ms: Members) {
    match ms
    case NoMembers => true
    case Member(before, key, beforeColon, afterColon, v, after, more) =>
      && IsGap(before) && AreGlyphs(key) && IsGap(beforeColon) && IsGap(afterColon)
      && IsValue(v) && IsGap(after) && AreMembers(more)
  }

  // ----- Printing -----

  /** The UTF-8 encoding of a character. */
  function Encode(c: char): (s: Bytes)
    ensures s != []
  {
    var n := c as int;
    if n < 0x80 then [n as Byte]
    else if n < 0x800 then [(0xC0 + n / 64) as Byte, (0x80 + n % 64) as Byte]
    else if n < 0x1_0000 then
      [(0xE0 + n / 4096) as Byte, (0x80 + n / 64 % 64) as Byte, (0x80 + n % 64) as Byte]
    else
      [(0xF0 + n / 262_144) as Byte, (0x80 + n / 4096 % 64) as Byte,
       (0x80 + n / 64 % 64) as Byte, (0x80 + n % 64) as Byte]
  }

  function AsciiByte(c: char): Byte {
    if c < 0x80 as char then c as int as Byte else 0
  }

  /** The letter that stands for a character behind a backslash. */
  function EscapeLetter(c: char): char {
    if c == '\n' then 'n' else if c == '\t' then 't' else if c == '\r' then 'r'
    else if c == BACKSPACE then 'b' else if c == FORM_FEED then 'f' else c
  }

  function HexDigit(n: nat, upper: bool): Byte
    requires n < 16
  {
    AsciiByte(if upper then "0123456789ABCDEF"[n] else "0123456789abcdef"[n])
  }

  /** The last digits of `n` in base 16, each in the case asked for. */
  function HexDigits(n: nat, upper: seq<bool>): (s: Bytes)
    ensures |s| == |upper|
  {
    if upper == [] then []
    else HexDigits(n / 16, upper[..|upper| - 1]) + [HexDigit(n % 16, upper[|upper| - 1])]
  }

  function GlyphText(g: Glyph): (s: Bytes)
    ensures s != []
  {
    match g
    case Raw(c) => Encode(c)
    case Escaped(c) => [BACKSLASH, AsciiByte(EscapeLetter(c))]
    case Lenient(c) => [BACKSLASH, AsciiByte(c)]
    case Hex(c, upper) => [BACKSLASH, LETTER_U] + HexDigits(c as nat, upper)
  }

  /** The characters a string stands for: those of its glyphs. */
  function StringValue(gs: seq<Glyph>): string {
    if gs == [] then "" else [gs[0].c] + StringValue(gs[1..])
  }

  function PrintBody(gs: seq<Glyph>, tail: Bytes): Bytes {
    if gs == [] then [QUOTE] + tail else GlyphText(gs[0]) + PrintBody(gs[1..], tail)
  }

  function PrintString(gs: seq<Glyph>, tail: Bytes): Bytes {
    [QUOTE] + PrintBody(gs, tail)
  }

  function PrintValue(v: Value, tail: Bytes): Bytes
    decreases v, 0
  {
    match v
    case JString(gs) => PrintString(gs, tail)
    case JLiteral(text) => text + tail
    case JArray(gap, es) =>
      [OPEN_BRACKET] + (if es.NoElements? then gap + ([CLOSE_BRACKET] + tail)
                        else PrintElements(es, [CLOSE_BRACKET] + tail))
    case JObject(gap, ms) =>
      [OPEN_BRACE] + (if ms.NoMembers? then gap + ([CLOSE_BRACE] + tail)
                      else PrintMembers(ms, [CLOSE_BRACE] + tail))
  }

  function PrintElements(es: Elements, tail: Bytes): Bytes
    requires es.Element?
    decreases es, 0
  {
    es.before + PrintValue(es.value, es.after + MoreElements(es.more, tail))
  }

  function MoreElements(es: Elements, tail: Bytes): Bytes
    decreases es, 1
  {
    if es.NoElements? then tail else [COMMA] + PrintElements(es, tail)
  }

  function PrintMembers(ms: Members, tail: Bytes): Bytes
    requires ms.Member?
    decreases ms, 0
  {
    ms.before + PrintString(ms.key, ms.beforeColon + ([COLON] + (ms.afterColon +
      PrintValue(ms.value, ms.after + MoreMembers(ms.more, tail)))))
  }

  function MoreMembers(ms: Members, tail: Bytes): Bytes
    decreases ms, 1
  {
    if ms.NoMembers? then tail else [COMMA] + PrintMembers(ms, tail)
  }

  /** A printer puts its text in front of what it is given, and nothing more. */
  lemma {:induction false} PrintAppends(v: Value, a: Bytes, b: Bytes)
    ensures PrintValue(v, a + b) == PrintValue(v, a) + b
    decreases v, 0
  {
    hide PrintElements, PrintMembers, PrintBody;
    match v
    case JString(gs) => PrintBodyAppends(gs, a, b);
    case JLiteral(text) =>
    case JArray(gap, es) =>
      assert [CLOSE_BRACKET] + (a + b) == ([CLOSE_BRACKET] + a) + b;
      if es.Element? { PrintElementsAppends(es, [CLOSE_BRACKET] + a, b); }
    case JObject(gap, ms) =>
      assert [CLOSE_BRACE] + (a + b) == ([CLOSE_BRACE] + a) + b;
      if ms.Member? { PrintMembersAppends(ms, [CLOSE_BRACE] + a, b); }
  }

  lemma {:induction false} PrintBodyAppends(gs: seq<Glyph>, a: Bytes, b: Bytes)
    ensures PrintBody(gs, a + b) == PrintBody(gs, a) + b
  {
    hide GlyphText;
    if gs != [] { PrintBodyAppends(gs[1..], a, b); }
  }

  lemma {:induction false} PrintElementsAppends(es: Elements, a: Bytes, b: Bytes)
    requires es.Element?
    ensures PrintElements(es, a + b) == PrintElements(es, a) + b
    decreases es, 0
  {
    hide PrintValue;
    if es.more.Element? { PrintElementsAppends(es.more, a, b); }
    var behind := es.after + MoreElements(es.more, a);
    assert es.after + MoreElements(es.more, a + b) == behind + b;
    PrintAppends(es.value, behind, b);
  }

  lemma {:induction false} PrintMembersAppends(ms: Members, a: Bytes, b: Bytes)
    requires ms.Member?
    ensures PrintMembers(ms, a + b) == PrintMembers(ms, a) + b
    decreases ms, 0
  {
    hide PrintValue, PrintBody;
    if ms.more.Member? { PrintMembersAppends(ms.more, a, b); }
    var behind := ms.after + MoreMembers(ms.more, a);
    assert ms.after + MoreMembers(ms.more, a + b) == behind + b;
    PrintAppends(ms.value, behind, b);
    var value := PrintValue(ms.value, behind);
    var colon := ms.beforeColon + ([COLON] + (ms.afterColon + value));
    assert ms.beforeColon + ([COLON] + (ms.afterColon + (value + b))) == colon + b;
    PrintBodyAppends(ms.key, colon, b);
  }

  /** The text of a value alone. */
  function Print(v: Value): Bytes {
    PrintValue(v, [])
  }

  lemma PrintBehind(v: Value, tail: Bytes)
    ensures PrintValue(v, tail) == Print(v) + tail
  {
    PrintAppends(v, [], tail);
    assert [] + tail == tail;
  }

  // ----- Characters and strings read back -----

  /** The number of bytes of a character is the length of its encoding. */
  lemma CharBytesAreEncoded(c: char)
    ensures CharBytes(c) == |Encode(c)|
  {
  }

  lemma DecodeEncode(c: char)
    ensures CharWidth(Encode(c)[0]) == |Encode(c)| && DecodeChar(Encode(c)) == Some(c)
    ensures Encode(c)[0] == QUOTE <==> c == '"'
    ensures Encode(c)[0] == BACKSLASH <==> c == '\\'
  {
    var n := c as int;
    if n < 0x80 {
    } else if n < 0x800 {
      assert n == n / 64 * 64 + n % 64;
    } else if n < 0x1_0000 {
      DecodeEncode3(c);
    } else {
      DecodeEncode4(c);
    }
  }

  /** And nothing else is read as a character: no overlong sequence, no surrogate, no stray byte. */
  lemma DecodedIsEncoded(s: Bytes)
    requires s != [] && |s| == CharWidth(s[0])
    ensures DecodeChar(s).Some? ==> s == Encode(DecodeChar(s).value)
  {
    if |s| == 3 {
      DecodedIsEncoded3(s);
    } else if |s| == 4 {
      DecodedIsEncoded4(s);
    }
  }

  lemma DecodedIsEncoded3(s: Bytes)
    requires |s| == 3 == CharWidth(s[0])
    ensures DecodeChar(s).Some? ==> s == Encode(DecodeChar(s).value)
  {
    if DecodeChar(s).Some? { Digits64(s[0] as int - 0xE0, s[1] as int - 0x80, s[2] as int - 0x80); }
  }

  lemma DecodedIsEncoded4(s: Bytes)
    requires |s| == 4 == CharWidth(s[0])
    ensures DecodeChar(s).Some? ==> s == Encode(DecodeChar(s).value)
  {
    if DecodeChar(s).Some? {
      var top, high, low := s[0] as int - 0xF0, s[1] as int - 0x80, s[2] as int - 0x80;
      Digits64(top * 64 + high, low, s[3] as int - 0x80);
      Digits64(top, high, low);
    }
  }

  lemma Digits64(a: nat, b: nat, c: nat)
    requires b < 64 && c < 64
    ensures var n := a * 4096 + b * 64 + c; n / 4096 == a && n / 64 % 64 == b && n % 64 == c && n / 64 == a * 64 + b
  {
  }

  /** The bytes the reader knows by name are those characters of section 2 of RFC 8259. */
  lemma AlphabetIs(b: Byte)
    ensures
      && QUOTE == AsciiByte('"') && COMMA == AsciiByte(',') && COLON == AsciiByte(':') && BACKSLASH == AsciiByte('\\')
      && OPEN_BRACKET == AsciiByte('[') && CLOSE_BRACKET == AsciiByte(']') && OPEN_BRACE == AsciiByte('{')
      && CLOSE_BRACE == AsciiByte('}') && LETTER_U == AsciiByte('u')
    ensures IsSpace(b) <==> b as char in " \t\n\r"
    ensures IsDelimiter(b) <==> b as char in ",}] \t\n\r"
    ensures IsHexDigit(b) <==> b as char in "0123456789abcdefABCDEF"
  {
  }

  lemma DecodeEncode3(c: char)
    requires 0x800 <= c as int < 0x1_0000
    ensures CharWidth(Encode(c)[0]) == |Encode(c)| == 3 && DecodeChar(Encode(c)) == Some(c)
  {
    var n, s := c as int, Encode(c);
    var high, low := n / 4096, n / 64 % 64;
    assert n == high * 4096 + low * 64 + n % 64;
    assert DecodeScalar(high * 4096 + low * 64, s[2..], 0x800) == Some(c);
  }

  lemma DecodeEncode4(c: char)
    requires 0x1_0000 <= c as int
    ensures CharWidth(Encode(c)[0]) == |Encode(c)| == 4 && DecodeChar(Encode(c)) == Some(c)
  {
    var n, s := c as int, Encode(c);
    var top, high, low := n / 262_144, n / 4096 % 64, n / 64 % 64;
    assert n / 4096 == top * 64 + high;
    assert n / 64 == n / 4096 * 64 + low;
    assert n == top * 262_144 + high * 4096 + low * 64 + n % 64;
    assert DecodeScalar(top * 262_144 + high * 4096 + low * 64, s[3..], 0x1_0000) == Some(c);
  }

  lemma {:induction false} HexPrefixOfDigits(digits: Bytes, tail: Bytes)
    requires forall b :: b in digits ==> IsHexDigit(b)
    ensures HexPrefix(digits + tail, |digits|) == |digits|
  {
    if digits != [] {
      HexPrefixOfDigits(digits[1..], tail);
      assert (digits + tail)[1..] == digits[1..] + tail;
    }
  }

  lemma HexDigitIs(n: nat, upper: bool)
    requires n < 16
    ensures IsHexDigit(HexDigit(n, upper)) && HexValue(HexDigit(n, upper)) == n
  {
  }

  function Power16(width: nat): nat {
    if width == 0 then 1 else 16 * Power16(width - 1)
  }

  lemma {:induction false} HexDigitsAre(n: nat, upper: seq<bool>)
    requires n < Power16(|upper|)
    ensures forall b :: b in HexDigits(n, upper) ==> IsHexDigit(b)
    ensures HexCode(HexDigits(n, upper)) == n
  {
    hide HexDigit, HexValue, IsHexDigit;
    if upper != [] {
      var front := upper[..|upper| - 1];
      HexDigitsAre(n / 16, front);
      HexDigitIs(n % 16, upper[|upper| - 1]);
      assert HexDigits(n, upper)[..|front|] == HexDigits(n / 16, front);
    }
  }

  lemma FourDigits(n: nat, upper: seq<bool>)
    requires n < 0x1_0000 && |upper| == 4
    ensures forall b :: b in HexDigits(n, upper) ==> IsHexDigit(b)
    ensures HexCode(HexDigits(n, upper)) == n
  {
    hide HexDigits, HexCode, IsHexDigit;
    assert Power16(4) == 0x1_0000 by { assert Power16(2) == 0x100; }
    HexDigitsAre(n, upper);
  }

  lemma ReadHex(c: char, upper: seq<bool>, tail: Bytes)
    requires c < 0x1_0000 as char && |upper| == 4
    ensures ParseChar([BACKSLASH, LETTER_U] + HexDigits(c as nat, upper) + tail) == Ok(c, tail)
  {
    hide HexDigits, EscapeValue, DecodeChar;
    var digits := HexDigits(c as nat, upper);
    var s := [BACKSLASH, LETTER_U] + digits + tail;
    FourDigits(c as nat, upper);
    assert s[2..] == digits + tail;
    HexPrefixOfDigits(digits, tail);
    assert s[2..][..4] == digits && s[2..][4..] == tail;
  }

  lemma ReadGlyph(g: Glyph, tail: Bytes)
    requires IsGlyph(g)
    ensures GlyphText(g)[0] != QUOTE
    ensures ParseChar(GlyphText(g) + tail) == Ok(g.c, tail)
  {
    var s := GlyphText(g) + tail;
    match g
    case Raw(c) =>
      hide Encode, DecodeChar;
      DecodeEncode(c);
      assert s[..|Encode(c)|] == Encode(c);
    case Escaped(c) =>
    case Lenient(c) =>
    case Hex(c, upper) => ReadHex(c, upper, tail);
  }

  /** Half of a surrogate pair is refused, so that no pair is ever read, though RFC 8259 allows it. */
  lemma SurrogateIsRefused(n: nat, upper: seq<bool>, tail: Bytes)
    requires 0xD800 <= n < 0xE000 && |upper| == 4
    ensures ParseChar([BACKSLASH, LETTER_U] + HexDigits(n, upper) + tail) == Err(UnrepresentableCodePoint(n))
  {
    hide HexDigits;
    var digits := HexDigits(n, upper);
    var s := [BACKSLASH, LETTER_U] + digits + tail;
    FourDigits(n, upper);
    assert s[2..] == digits + tail;
    HexPrefixOfDigits(digits, tail);
    assert s[2..][..4] == digits;
  }

  lemma {:induction false} ReadBody(gs: seq<Glyph>, tail: Bytes)
    requires AreGlyphs(gs)
    ensures ParseBody(PrintBody(gs, tail)) == Ok(StringValue(gs), tail)
  {
    hide ParseChar, GlyphText, IsGlyph;
    if gs != [] {
      ReadGlyph(gs[0], PrintBody(gs[1..], tail));
      ReadBody(gs[1..], tail);
    } else {
      assert PrintBody(gs, tail)[1..] == tail;
    }
  }

  lemma {:induction false} SkipGap(gap: Bytes, s: Bytes)
    requires IsGap(gap)
    ensures SkipSpace(gap + s) == SkipSpace(s)
  {
    if gap == [] {
      assert gap + s == s;
    } else {
      SkipGap(gap[1..], s);
      assert (gap + s)[1..] == gap[1..] + s;
    }
  }

  lemma ReadByte(gap: Bytes, b: Byte, s: Bytes)
    requires IsGap(gap) && !IsSpace(b)
    ensures SkipSpace(gap + ([b] + s)) == [b] + s
    ensures Expect(gap + ([b] + s), b) == Ok((), s)
  {
    SkipGap(gap, [b] + s);
    assert ([b] + s)[1..] == s;
  }

  /** A printed string reads back as its characters, behind any white space. */
  lemma ReadString(gap: Bytes, gs: seq<Glyph>, tail: Bytes)
    requires IsGap(gap) && AreGlyphs(gs)
    ensures ParseString(gap + PrintString(gs, tail)) == Ok(StringValue(gs), tail)
    ensures SkipSpace(gap + PrintString(gs, tail)) == PrintString(gs, tail)
  {
    hide ParseBody, PrintBody, StringValue, SkipSpace, Expect;
    ReadByte(gap, QUOTE, PrintBody(gs, tail));
    ReadBody(gs, tail);
  }

  // ----- Values are stepped over -----

  /** The two kinds of bracket `SkipNested` can count. */
  ghost predicate IsBracketPair(open: Byte, close: Byte) {
    || (open == OPEN_BRACKET && close == CLOSE_BRACKET)
    || (open == OPEN_BRACE && close == CLOSE_BRACE)
  }

  /** Bytes that no kind of nesting looks at. */
  ghost predicate IsInert(s: Bytes) {
    forall b :: b in s ==>
      b != QUOTE && b != OPEN_BRACKET && b != CLOSE_BRACKET && b != OPEN_BRACE && b != CLOSE_BRACE
  }

  lemma {:induction false} SkipInert(s: Bytes, depth: nat, open: Byte, close: Byte, tail: Bytes)
    requires IsInert(s) && depth > 0 && IsBracketPair(open, close)
    ensures SkipNested(s + tail, depth, open, close) == SkipNested(tail, depth, open, close)
  {
    if s == [] {
      assert s + tail == tail;
    } else {
      assert s[0] in s && forall b :: b in s[1..] ==> b in s;
      SkipInert(s[1..], depth, open, close, tail);
      assert (s + tail)[1..] == s[1..] + tail;
    }
  }

  lemma SkipNestedByte(b: Byte, depth: nat, open: Byte, close: Byte, tail: Bytes)
    requires depth > 0 && b != QUOTE
    ensures SkipNested([b] + tail, depth, open, close) ==
      SkipNested(tail, if b == open then depth + 1 else if b == close then depth - 1 else depth, open, close)
  {
    assert ([b] + tail)[1..] == tail;
  }

  lemma SkipNestedString(gs: seq<Glyph>, depth: nat, open: Byte, close: Byte, tail: Bytes)
    requires AreGlyphs(gs) && depth > 0 && IsBracketPair(open, close)
    ensures SkipNested(PrintString(gs, tail), depth, open, close) == SkipNested(tail, depth, open, close)
  {
    hide ParseString, PrintBody;
    ReadString([], gs, tail);
    assert [] + PrintString(gs, tail) == PrintString(gs, tail);
  }

  /** From inside any brackets, a whole value passes without a trace on the depth. */
  lemma {:induction false} SkipNestedValue(v: Value, depth: nat, open: Byte, close: Byte, tail: Bytes)
    requires IsValue(v) && depth > 0 && IsBracketPair(open, close)
    ensures SkipNested(PrintValue(v, tail), depth, open, close) == SkipNested(tail, depth, open, close)
    decreases v, 0
  {
    hide SkipNested, PrintString, PrintElements, PrintMembers;
    match v
    case JString(gs) => SkipNestedString(gs, depth, open, close, tail);
    case JLiteral(text) => SkipInert(text, depth, open, close, tail);
    case JArray(gap, es) =>
      var inner := if open == OPEN_BRACKET then depth + 1 else depth;
      var closing := [CLOSE_BRACKET] + tail;
      if es.NoElements? {
        SkipInert(gap, inner, open, close, closing);
        SkipNestedByte(OPEN_BRACKET, depth, open, close, gap + closing);
      } else {
        SkipNestedElements(es, inner, open, close, closing);
        SkipNestedByte(OPEN_BRACKET, depth, open, close, PrintElements(es, closing));
      }
      SkipNestedByte(CLOSE_BRACKET, inner, open, close, tail);
    case JObject(gap, ms) =>
      var inner := if open == OPEN_BRACE then depth + 1 else depth;
      var closing := [CLOSE_BRACE] + tail;
      if ms.NoMembers? {
        SkipInert(gap, inner, open, close, closing);
        SkipNestedByte(OPEN_BRACE, depth, open, close, gap + closing);
      } else {
        SkipNestedMembers(ms, inner, open, close, closing);
        SkipNestedByte(OPEN_BRACE, depth, open, close, PrintMembers(ms, closing));
      }
      SkipNestedByte(CLOSE_BRACE, inner, open, close, tail);
  }

  lemma {:induction false} SkipNestedElements(es: Elements, depth: nat, open: Byte, close: Byte, tail: Bytes)
    requires es.Element? && AreElements(es) && depth > 0 && IsBracketPair(open, close)
    ensures SkipNested(PrintElements(es, tail), depth, open, close) == SkipNested(tail, depth, open, close)
    decreases es, 0
  {
    hide SkipNested, PrintValue, IsValue;
    var behind := MoreElements(es.more, tail);
    SkipInert(es.before, depth, open, close, PrintValue(es.value, es.after + behind));
    SkipNestedValue(es.value, depth, open, close, es.after + behind);
    SkipInert(es.after, depth, open, close, behind);
    if es.more.Element? {
      SkipNestedByte(COMMA, depth, open, close, PrintElements(es.more, tail));
      SkipNestedElements(es.more, depth, open, close, tail);
    }
  }

  lemma {:induction false} SkipNestedMembers(ms: Members, depth: nat, open: Byte, close: Byte, tail: Bytes)
    requires ms.Member? && AreMembers(ms) && depth > 0 && IsBracketPair(open, close)
    ensures SkipNested(PrintMembers(ms, tail), depth, open, close) == SkipNested(tail, depth, open, close)
    decreases ms, 0
  {
    hide SkipNested, PrintValue, PrintString, IsValue, AreGlyphs;
    var behind := MoreMembers(ms.more, tail);
    var value := PrintValue(ms.value, ms.after + behind);
    var colon := [COLON] + (ms.afterColon + value);
    SkipInert(ms.before, depth, open, close, PrintString(ms.key, ms.beforeColon + colon));
    SkipNestedString(ms.key, depth, open, close, ms.beforeColon + colon);
    SkipInert(ms.beforeColon, depth, open, close, colon);
    SkipNestedByte(COLON, depth, open, close, ms.afterColon + value);
    SkipInert(ms.afterColon, depth, open, close, value);
    SkipNestedValue(ms.value, depth, open, close, ms.after + behind);
    SkipInert(ms.after, depth, open, close, behind);
    if ms.more.Member? {
      SkipNestedByte(COMMA, depth, open, close, PrintMembers(ms.more, tail));
      SkipNestedMembers(ms.more, depth, open, close, tail);
    }
  }

  lemma {:induction false} SkipLiteralText(text: Bytes, tail: Bytes)
    requires IsLiteral(text) || text == []
    requires tail == [] || IsDelimiter(tail[0])
    ensures SkipLiteral(text + tail) == tail
  {
    if text == [] {
      assert text + tail == tail;
    } else {
      assert text[0] in text && forall b :: b in text[1..] ==> b in text;
      SkipLiteralText(text[1..], tail);
      assert (text + tail)[1..] == text[1..] + tail;
    }
  }

  lemma FirstByte(v: Value, tail: Bytes)
    requires IsValue(v)
    ensures PrintValue(v, tail) != [] && !IsSpace(PrintValue(v, tail)[0])
    ensures !IsDelimiter(PrintValue(v, tail)[0])
    ensures PrintValue(v, tail)[0] == (match v
      case JString(_) => QUOTE
      case JArray(_, _) => OPEN_BRACKET
      case JObject(_, _) => OPEN_BRACE
      case JLiteral(text) => text[0])
  {
    hide PrintElements, PrintMembers, PrintBody, AreElements, AreMembers, AreGlyphs;
    if v.JLiteral? { assert v.text[0] in v.text; }
  }

  /**
   Stepping over a value ends exactly behind it, although each bracket kind is counted
   alone.  Only a literal needs a delimiter behind it.
   */
  lemma SkipPrintedValue(gap: Bytes, v: Value, tail: Bytes)
    requires IsGap(gap) && IsValue(v)
    requires v.JLiteral? ==> tail == [] || IsDelimiter(tail[0])
    ensures SkipValue(gap + PrintValue(v, tail)) == Ok((), tail)
  {
    SkipGap(gap, PrintValue(v, tail));
    FirstByte(v, tail);
    var at := PrintValue(v, tail);
    assert SkipSpace(at) == at;
    SkipPrintedValueAt(v, tail);
  }

  lemma SkipByFirstByte(at: Bytes)
    requires SkipSpace(at) == at && at != []
    ensures SkipValue(at) ==
      if at[0] == QUOTE then match ParseString(at) case Err(e) => Err(e) case Ok(_, rest) => Ok((), rest)
      else if at[0] == OPEN_BRACKET then SkipNested(at[1..], 1, OPEN_BRACKET, CLOSE_BRACKET)
      else if at[0] == OPEN_BRACE then SkipNested(at[1..], 1, OPEN_BRACE, CLOSE_BRACE)
      else Ok((), SkipLiteral(at))
  {
    hide SkipNested, ParseString, SkipLiteral;
  }

  lemma SkipPrintedValueAt(v: Value, tail: Bytes)
    requires IsValue(v)
    requires v.JLiteral? ==> tail == [] || IsDelimiter(tail[0])
    ensures var at := PrintValue(v, tail);
            SkipSpace(at) == at ==> SkipValue(at) == Ok((), tail)
  {
    hide SkipNested, PrintElements, PrintMembers, PrintBody, SkipLiteral, ParseString, AreElements, AreMembers,
         SkipValue, SkipSpace;
    if SkipSpace(PrintValue(v, tail)) == PrintValue(v, tail) {
      FirstByte(v, tail);
      SkipByFirstByte(PrintValue(v, tail));
    }
    var at := PrintValue(v, tail);
    match v
    case JString(gs) =>
      ReadString([], gs, tail);
      assert [] + at == at;
    case JLiteral(text) =>
      SkipLiteralText(text, tail);
      assert text[0] in text;
    case JArray(gap, es) => SkipArray(gap, es, tail);
    case JObject(gap, ms) => SkipObject(gap, ms, tail);
  }

  lemma SkipArray(gap: Bytes, es: Elements, tail: Bytes)
    requires IsGap(gap) && AreElements(es)
    ensures SkipNested(PrintValue(JArray(gap, es), tail)[1..], 1, OPEN_BRACKET, CLOSE_BRACKET) == Ok((), tail)
  {
    hide PrintElements, AreElements;
    var closing := [CLOSE_BRACKET] + tail;
    SkipNestedByte(CLOSE_BRACKET, 1, OPEN_BRACKET, CLOSE_BRACKET, tail);
    if es.NoElements? {
      SkipInert(gap, 1, OPEN_BRACKET, CLOSE_BRACKET, closing);
    } else {
      SkipNestedElements(es, 1, OPEN_BRACKET, CLOSE_BRACKET, closing);
    }
  }

  lemma SkipObject(gap: Bytes, ms: Members, tail: Bytes)
    requires IsGap(gap) && AreMembers(ms)
    ensures SkipNested(PrintValue(JObject(gap, ms), tail)[1..], 1, OPEN_BRACE, CLOSE_BRACE) == Ok((), tail)
  {
    hide PrintMembers, AreMembers;
    var closing := [CLOSE_BRACE] + tail;
    SkipNestedByte(CLOSE_BRACE, 1, OPEN_BRACE, CLOSE_BRACE, tail);
    if ms.NoMembers? {
      SkipInert(gap, 1, OPEN_BRACE, CLOSE_BRACE, closing);
    } else {
      SkipNestedMembers(ms, 1, OPEN_BRACE, CLOSE_BRACE, closing);
    }
  }

  // ----- Arrays of strings -----

  /** The strings among the elements of an array, in order. */
  function Strings(es: Elements): seq<string>
    requires AreElements(es)
  {
    match es
    case NoElements => []
    case Element(_, v, _, more) => StringIn(v) + Strings(more)
  }

  function StringIn(v: Value): seq<string>
    requires IsValue(v)
  {
    match v
    case JString(gs) => [StringValue(gs)]
    case _ => []
  }

  lemma DelimiterBehind(gap: Bytes, behind: Bytes)
    requires IsGap(gap) && behind != [] && IsDelimiter(behind[0])
    ensures IsDelimiter((gap + behind)[0])
  {
    if gap != [] { assert gap[0] in gap; }
  }

  lemma ReadItem(gap: Bytes, v: Value, tail: Bytes)
    requires IsGap(gap) && IsValue(v) && tail != [] && IsDelimiter(tail[0])
    ensures ParseItem(gap + PrintValue(v, tail)) ==
      Ok(StringIn(v), tail)
  {
    hide SkipSpace, SkipValue, ParseString, PrintElements, PrintMembers, StringValue, AreGlyphs, AreElements,
         AreMembers;
    var at := PrintValue(v, tail);
    FirstByte(v, tail);
    SkipGap(gap, at);
    SkipGap([], at);
    assert [] + at == at;
    SkipSpaceAt(at);
    SkipPrintedValue([], v, tail);
    if v.JString? { ReadString([], v.glyphs, tail); }
  }

  lemma SkipSpaceAt(s: Bytes)
    requires s == [] || !IsSpace(s[0])
    ensures SkipSpace(s) == s
  {
  }

  lemma ReadSeparator(gap: Bytes, b: Byte, close: Byte, tail: Bytes)
    requires IsGap(gap) && !IsSpace(close) && close != COMMA && (b == COMMA || b == close)
    ensures ParseSeparator(gap + ([b] + tail), close) == Ok(b == COMMA, tail)
  {
    hide SkipSpace;
    ReadByte(gap, b, tail);
    assert ([b] + tail)[1..] == tail;
  }

  lemma {:induction false} ReadItems(es: Elements, tail: Bytes)
    requires es.Element? && AreElements(es)
    ensures ParseItems(PrintElements(es, [CLOSE_BRACKET] + tail)) == Ok(Strings(es), tail)
  {
    hide ParseItem, ParseSeparator, PrintValue, IsValue, StringIn, IsGap;
    var closing := [CLOSE_BRACKET] + tail;
    var behind := MoreElements(es.more, closing);
    DelimiterBehind(es.after, behind);
    ReadItem(es.before, es.value, es.after + behind);
    if es.more.Element? {
      ReadSeparator(es.after, COMMA, CLOSE_BRACKET, PrintElements(es.more, closing));
      ReadItems(es.more, tail);
    } else {
      ReadSeparator(es.after, CLOSE_BRACKET, CLOSE_BRACKET, tail);
      assert Strings(es) == StringIn(es.value);
    }
  }

  lemma FirstByteOfElements(es: Elements, tail: Bytes)
    requires es.Element? && AreElements(es)
    ensures var at := SkipSpace(PrintElements(es, tail));
            at != [] && at[0] != CLOSE_BRACKET && ParseItems(at) == ParseItems(PrintElements(es, tail))
  {
    hide PrintValue, IsValue, SkipSpace;
    var value := PrintValue(es.value, es.after + MoreElements(es.more, tail));
    FirstByte(es.value, es.after + MoreElements(es.more, tail));
    SkipGap(es.before, value);
    SkipSpaceAt(value);
  }

  /** An array of anything reads as the strings in it. */
  lemma ReadStringArray(gap: Bytes, inner: Bytes, es: Elements, tail: Bytes)
    requires IsGap(gap) && IsGap(inner) && AreElements(es)
    ensures ParseStringArray(gap + PrintValue(JArray(inner, es), tail)) == Ok(Strings(es), tail)
  {
    hide PrintElements, ParseItems, SkipSpace, AreElements, IsGap;
    var closing := [CLOSE_BRACKET] + tail;
    if es.NoElements? {
      ReadByte(gap, OPEN_BRACKET, inner + closing);
      ReadByte(inner, CLOSE_BRACKET, tail);
      assert closing[1..] == tail;
    } else {
      ReadByte(gap, OPEN_BRACKET, PrintElements(es, closing));
      FirstByteOfElements(es, closing);
      ReadItems(es, tail);
    }
  }

  /** Asked for another kind of value, the reader stops at the first byte. */
  lemma ExpectOther(gap: Bytes, b: Byte, v: Value, tail: Bytes)
    requires IsGap(gap) && IsValue(v) && PrintValue(v, tail) != [] && PrintValue(v, tail)[0] != b
    ensures Expect(gap + PrintValue(v, tail), b) == Err(Expected(b, |PrintValue(v, tail)|))
  {
    hide PrintValue, IsValue, SkipSpace;
    FirstByte(v, tail);
    SkipGap(gap, PrintValue(v, tail));
    SkipSpaceAt(PrintValue(v, tail));
  }
}
