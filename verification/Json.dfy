/**
 The hand-written JSON reader of Pi package manifests (crates/rupi-compat/src/package.rs),
 as functions from the unread bytes to what was read and the bytes behind it.

 The class in `PackageParser` runs the same reader with a cursor; `JsonTree` prints JSON.
 */
module Json {
  import opened Text

  const QUOTE: Byte := 34
  const COMMA: Byte := 44
  const COLON: Byte := 58
  const OPEN_BRACKET: Byte := 91
  const BACKSLASH: Byte := 92
  const CLOSE_BRACKET: Byte := 93
  const LETTER_U: Byte := 117
  const OPEN_BRACE: Byte := 123
  const CLOSE_BRACE: Byte := 125

  /** Why reading stopped.  `left` counts the unread bytes where it did. */
  datatype JsonError =
    | Expected(byte: Byte, left: nat)
    | UnexpectedEnd(byte: Byte)
    | UnterminatedString
    | UnterminatedEscape
    | InvalidUnicodeEscape(left: nat)
    | UnrepresentableCodePoint(codePoint: nat)
    | TruncatedUtf8(left: nat)
    | InvalidUtf8(left: nat)
    | UnterminatedInSkip(open: Byte)
    | EndInValue
    | ExpectedCommaOr(close: Byte, left: nat)
    | UnterminatedList(close: Byte)

  /** What was read and the bytes behind it, or an error. */
  datatype Parsed<+T> = Ok(value: T, rest: Bytes) | Err(error: JsonError)

  datatype ValueKind = KString | KArray | KObject | KNumber | KBool | KNull | KUnknown

  // ----- Characters -----

  predicate IsSpace(b: Byte) {
    b == 32 || b == 9 || b == 10 || b == 13
  }

  predicate IsHexDigit(b: Byte) {
    48 <= b <= 57 || 97 <= b <= 102 || 65 <= b <= 70
  }

  function HexValue(b: Byte): nat
    requires IsHexDigit(b)
  {
    (if b <= 57 then b - 48 else if b <= 70 then b - 55 else b - 87) as nat
  }

  /** Width of a UTF-8 sequence as its first byte announces it; any other byte counts alone. */
  function CharWidth(b: Byte): (w: nat)
    ensures 1 <= w <= 4
  {
    if 0xC0 <= b <= 0xDF then 2 else if 0xE0 <= b <= 0xEF then 3 else if 0xF0 <= b <= 0xF7 then 4 else 1
  }

  predicate IsScalar(codePoint: int) {
    0 <= codePoint < 0xD800 || 0xE000 <= codePoint < 0x11_0000
  }

  predicate IsContinuation(b: Byte) {
    0x80 <= b < 0xC0
  }

  /** The one character a sequence of the announced width encodes, if it is well formed. */
  function DecodeChar(s: Bytes): Option<char>
    requires s != [] && |s| == CharWidth(s[0])
  {
    if |s| == 1 then (if s[0] < 0x80 then Some(s[0] as char) else None)
    else if |s| == 2 then
      DecodeScalar((s[0] as int - 0xC0) * 64, s[1..], 0x80)
    else if |s| == 3 then
      if !IsContinuation(s[1]) then None
      else DecodeScalar((s[0] as int - 0xE0) * 4096 + (s[1] as int - 0x80) * 64, s[2..], 0x800)
    else if !IsContinuation(s[1]) || !IsContinuation(s[2]) then None
    else
      DecodeScalar((s[0] as int - 0xF0) * 262_144 + (s[1] as int - 0x80) * 4096 + (s[2] as int - 0x80) * 64,
                   s[3..], 0x1_0000)
  }

  /** A code point completed by its last byte, unless overlong or not a scalar value. */
  function DecodeScalar(high: int, last: Bytes, least: int): Option<char>
    requires |last| == 1
  {
    var codePoint := high + last[0] as int - 0x80;
    if IsContinuation(last[0]) && least <= codePoint && IsScalar(codePoint) then Some(codePoint as char)
    else None
  }

  /** The character a backslash and a byte stand for; unknown escapes stand for the byte. */
  function EscapeValue(b: Byte): char {
    match b
    case 110 => '\n'
    case 116 => '\t'
    case 114 => '\r'
    case 98 => 8 as char
    case 102 => 12 as char
    case _ => b as char
  }

  // ----- Reading -----

  function SkipSpace(s: Bytes): (rest: Bytes)
    ensures |rest| <= |s|
    ensures rest != [] ==> !IsSpace(rest[0])
  {
    if s != [] && IsSpace(s[0]) then SkipSpace(s[1..]) else s
  }

  function Expect(s: Bytes, b: Byte): (r: Parsed<()>)
    ensures r.Ok? ==> |r.rest| < |s|
  {
    var at := SkipSpace(s);
    if at == [] then Err(UnexpectedEnd(b))
    else if at[0] == b then Ok((), at[1..])
    else Err(Expected(b, |at|))
  }

  /** How many of the first `most` bytes are hexadecimal digits, up to the first that is not. */
  function HexPrefix(s: Bytes, most: nat): (n: nat)
    ensures n <= most && n <= |s|
    ensures forall i :: 0 <= i < n ==> IsHexDigit(s[i])
  {
    if most == 0 || s == [] || !IsHexDigit(s[0]) then 0 else 1 + HexPrefix(s[1..], most - 1)
  }

  function HexCode(s: Bytes): nat
    requires forall b :: b in s ==> IsHexDigit(b)
  {
    if s == [] then 0 else 16 * HexCode(s[..|s| - 1]) + HexValue(s[|s| - 1])
  }

  /** The four digits of a `\u` escape. */
  function ParseHex(s: Bytes): (r: Parsed<char>)
    ensures r.Ok? ==> |r.rest| < |s|
  {
    var n := HexPrefix(s, 4);
    if n < 4 then Err(InvalidUnicodeEscape(|s| - n))
    else
      var code := HexCode(s[..4]);
      if IsScalar(code) then Ok(code as char, s[4..]) else Err(UnrepresentableCodePoint(code))
  }

  /** One character of a string body. */
  function ParseChar(s: Bytes): (r: Parsed<char>)
    requires s != []
    ensures r.Ok? ==> |r.rest| < |s|
  {
    if s[0] == BACKSLASH then
      if |s| == 1 then Err(UnterminatedEscape)
      else if s[1] == LETTER_U then ParseHex(s[2..])
      else Ok(EscapeValue(s[1]), s[2..])
    else
      var width := CharWidth(s[0]);
      if width > |s| then Err(TruncatedUtf8(|s|))
      else
        match DecodeChar(s[..width])
        case None => Err(InvalidUtf8(|s|))
        case Some(c) => Ok(c, s[width..])
  }

  /** A string body behind its opening quote, up to and including the closing one. */
  function ParseBody(s: Bytes): (r: Parsed<string>)
    ensures r.Ok? ==> |r.rest| < |s|
    decreases |s|
  {
    if s == [] then Err(UnterminatedString)
    else if s[0] == QUOTE then Ok("", s[1..])
    else
      match ParseChar(s)
      case Err(e) => Err(e)
      case Ok(c, rest) => Prepend([c], ParseBody(rest))
  }

  function Prepend(text: string, r: Parsed<string>): Parsed<string> {
    match r
    case Ok(tail, rest) => Ok(text + tail, rest)
    case Err(e) => Err(e)
  }

  function ParseString(s: Bytes): (r: Parsed<string>)
    ensures r.Ok? ==> |r.rest| < |s|
  {
    match Expect(s, QUOTE)
    case Err(e) => Err(e)
    case Ok(_, rest) => ParseBody(rest)
  }

  /** Skipping from inside `depth` open brackets of one kind, blind to the other kind. */
  function SkipNested(s: Bytes, depth: nat, open: Byte, close: Byte): (r: Parsed<()>)
    ensures r.Ok? ==> |r.rest| <= |s|
    decreases |s|
  {
    if depth == 0 then Ok((), s)
    else if s == [] then Err(UnterminatedInSkip(open))
    else if s[0] == open then SkipNested(s[1..], depth + 1, open, close)
    else if s[0] == close then SkipNested(s[1..], depth - 1, open, close)
    else if s[0] == QUOTE then
      match ParseString(s)
      case Err(e) => Err(e)
      case Ok(_, rest) => SkipNested(rest, depth, open, close)
    else SkipNested(s[1..], depth, open, close)
  }

  predicate IsDelimiter(b: Byte) {
    b == COMMA || b == CLOSE_BRACE || b == CLOSE_BRACKET || IsSpace(b)
  }

  function SkipLiteral(s: Bytes): (rest: Bytes)
    ensures |rest| <= |s|
  {
    if s != [] && !IsDelimiter(s[0]) then SkipLiteral(s[1..]) else s
  }

  /** Step over one value of any kind without keeping it. */
  function SkipValue(s: Bytes): (r: Parsed<()>)
    ensures r.Ok? ==> |r.rest| <= |s|
  {
    var at := SkipSpace(s);
    if at == [] then Err(EndInValue)
    else if at[0] == QUOTE then
      match ParseString(at)
      case Err(e) => Err(e)
      case Ok(_, rest) => Ok((), rest)
    else if at[0] == OPEN_BRACKET then SkipNested(at[1..], 1, OPEN_BRACKET, CLOSE_BRACKET)
    else if at[0] == OPEN_BRACE then SkipNested(at[1..], 1, OPEN_BRACE, CLOSE_BRACE)
    else Ok((), SkipLiteral(at))
  }

  function KindOfByte(b: Byte): ValueKind {
    if b == QUOTE then KString
    else if b == OPEN_BRACKET then KArray
    else if b == OPEN_BRACE then KObject
    else if b == 116 || b == 102 then KBool
    else if b == 110 then KNull
    else if 48 <= b <= 57 || b == 45 then KNumber
    else KUnknown
  }

  /** The kind of the value ahead, from its first byte. */
  function KindAhead(s: Bytes): ValueKind {
    var at := SkipSpace(s);
    if at == [] then KUnknown else KindOfByte(at[0])
  }

  /** Behind one entry of a list: `true` when it goes on behind a comma. */
  function ParseSeparator(s: Bytes, close: Byte): (r: Parsed<bool>)
    ensures r.Ok? ==> |r.rest| < |s|
  {
    var at := SkipSpace(s);
    if at == [] then Err(UnterminatedList(close))
    else if at[0] == COMMA then Ok(true, at[1..])
    else if at[0] == close then Ok(false, at[1..])
    else Err(ExpectedCommaOr(close, |at|))
  }

  /** One item of an array of strings: the string, or nothing for any other value. */
  function ParseItem(s: Bytes): (r: Parsed<seq<string>>)
    ensures r.Ok? ==> |r.rest| <= |s|
  {
    var at := SkipSpace(s);
    if at != [] && at[0] == QUOTE then
      match ParseString(at)
      case Err(e) => Err(e)
      case Ok(text, rest) => Ok([text], rest)
    else
      match SkipValue(at)
      case Err(e) => Err(e)
      case Ok(_, rest) => Ok([], rest)
  }

  function ParseItems(s: Bytes): (r: Parsed<seq<string>>)
    ensures r.Ok? ==> |r.rest| < |s|
    decreases |s|
  {
    match ParseItem(s)
    case Err(e) => Err(e)
    case Ok(item, behind) =>
      match ParseSeparator(behind, CLOSE_BRACKET)
      case Err(e) => Err(e)
      case Ok(more, rest) => if more then PrependItems(item, ParseItems(rest)) else Ok(item, rest)
  }

  function PrependItems(items: seq<string>, r: Parsed<seq<string>>): Parsed<seq<string>> {
    match r
    case Ok(tail, rest) => Ok(items + tail, rest)
    case Err(e) => Err(e)
  }

  function ParseStringArray(s: Bytes): (r: Parsed<seq<string>>)
    ensures r.Ok? ==> |r.rest| < |s|
  {
    match Expect(s, OPEN_BRACKET)
    case Err(e) => Err(e)
    case Ok(_, behind) =>
      var at := SkipSpace(behind);
      if at != [] && at[0] == CLOSE_BRACKET then Ok([], at[1..]) else ParseItems(at)
  }
}
