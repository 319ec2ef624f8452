/**
 The manifest reader as it runs (crates/rupi-compat/src/package.rs): a cursor over the
 bytes that its methods advance in place, and a report they fill as they go.

 Every method is the function of the same task in `Json` and `Package`, on the bytes behind
 the cursor; on every input each of them ends with the cursor inside the text.
 */
module PackageParser {
  import opened Text
  import opened Json
  import opened Package

  datatype Outcome<+T> = Good(value: T) | Bad(error: JsonError)

  /** A method's answer and the bytes it leaves, against what a function parsed. */
  ghost predicate Matches<T>(o: Outcome<T>, rest: Bytes, parsed: Parsed<T>) {
    match parsed
    case Ok(value, behind) => o == Good(value) && rest == behind
    case Err(e) => o == Bad(e)
  }

  ghost predicate Follows(o: Outcome<()>, report: Report, rest: Bytes, progress: Progress) {
    && report == progress.report
    && match progress
       case Done(_, behind) => o == Good(()) && rest == behind
       case Stopped(_, e) => o == Bad(e)
  }

  /** The manifest and the warnings, filled through a shared reference. */
  class Recorder {
    var report: Report

    constructor ()
      ensures report == EMPTY
    {
      report := EMPTY;
    }
  }

  class Parser {
    const src: Bytes
    var pos: nat

    ghost predicate Valid()
      reads this
    {
      pos <= |src|
    }

    ghost function Rest(): Bytes
      requires Valid()
      reads this
    {
      src[pos..]
    }

    constructor (text: Bytes)
      ensures src == text && Valid() && Rest() == text
    {
      src, pos := text, 0;
    }

    function Peek(): (b: Option<Byte>)
      requires Valid()
      reads this
      ensures b == if Rest() == [] then None else Some(Rest()[0])
    {
      if pos < |src| then Some(src[pos]) else None
    }

    method Advance()
      requires Valid() && pos < |src|
      modifies this
      ensures Valid() && pos == old(pos) + 1 && Rest() == old(Rest())[1..]
    {
      pos := pos + 1;
    }

    method SkipWhitespace()
      requires Valid()
      modifies this
      ensures Valid() && pos >= old(pos) && Rest() == SkipSpace(old(Rest()))
    {
      while pos < |src| && IsSpace(src[pos])
        invariant Valid() && pos >= old(pos)
        invariant SkipSpace(Rest()) == SkipSpace(old(Rest()))
        decreases |src| - pos
      {
        assert Rest()[1..] == src[pos + 1..];
        Advance();
      }
    }

    method ExpectByte(b: Byte) returns (r: Outcome<()>)
      requires Valid()
      modifies this
      ensures Valid() && pos >= old(pos) && (r.Good? ==> pos > old(pos))
      ensures Matches(r, Rest(), Expect(old(Rest()), b))
    {
      hide SkipSpace;
      SkipWhitespace();
      match Peek() {
        case Some(found) =>
          if found == b {
            Advance();
            return Good(());
          }
          return Bad(Expected(b, |src| - pos));
        case None =>
          return Bad(UnexpectedEnd(b));
      }
    }

    /** The digits of a `\u` escape, one at a time. */
    method ReadHex() returns (r: Outcome<char>)
      requires Valid()
      modifies this
      ensures Valid() && pos >= old(pos)
      ensures Matches(r, Rest(), ParseHex(old(Rest())))
    {
      ghost var before := Rest();
      var start := pos;
      var count := 0;
      while count < 4
        invariant Valid() && count <= 4 && pos == start + count
        invariant HexPrefix(before, 4) == count + HexPrefix(Rest(), 4 - count)
      {
        if pos == |src| || !IsHexDigit(src[pos]) {
          return Bad(InvalidUnicodeEscape(|src| - pos));
        }
        assert Rest()[1..] == src[pos + 1..];
        Advance();
        count := count + 1;
      }
      assert src[start..pos] == before[..4] && Rest() == before[4..];
      var code := HexCode(src[start..pos]);
      r := if IsScalar(code) then Good(code as char) else Bad(UnrepresentableCodePoint(code));
    }

    /** One turn of the string loop: an escape, or one UTF-8 character. */
    method ReadChar() returns (r: Outcome<char>)
      requires Valid() && pos < |src|
      modifies this
      ensures Valid() && pos >= old(pos) && (r.Good? ==> pos > old(pos))
      ensures Matches(r, Rest(), ParseChar(old(Rest())))
    {
      hide ParseHex, DecodeChar, EscapeValue, CharWidth;
      ghost var before := Rest();
      if src[pos] == BACKSLASH {
        Advance();
        if pos == |src| {
          return Bad(UnterminatedEscape);
        }
        var b := src[pos];
        Advance();
        assert Rest() == before[2..];
        if b == LETTER_U {
          r := ReadHex();
        } else {
          r := Good(EscapeValue(b));
        }
      } else {
        var start := pos;
        var end := start + CharWidth(src[start]);
        if end > |src| {
          return Bad(TruncatedUtf8(|src| - start));
        }
        assert src[start..end] == before[..CharWidth(src[start])];
        match DecodeChar(src[start..end]) {
          case None => return Bad(InvalidUtf8(|src| - start));
          case Some(c) =>
            pos := end;
            r := Good(c);
        }
      }
    }

    method ParseString() returns (r: Outcome<string>)
      requires Valid()
      modifies this
      ensures Valid() && pos >= old(pos) && (r.Good? ==> pos > old(pos))
      ensures Matches(r, Rest(), Json.ParseString(old(Rest())))
    {
      hide Expect, ParseChar;
      var first := ExpectByte(QUOTE);
      if first.Bad? {
        return Bad(first.error);
      }
      ghost var body := Rest();
      var out := "";
      PrependTwice("", "", ParseBody(body));
      while true
        invariant Valid() && pos > old(pos)
        invariant ParseBody(body) == Prepend(out, ParseBody(Rest()))
        decreases |src| - pos
      {
        if pos == |src| {
          return Bad(UnterminatedString);
        }
        if src[pos] == QUOTE {
          Advance();
          assert out + "" == out;
          return Good(out);
        }
        var c := ReadChar();
        if c.Bad? {
          return Bad(c.error);
        }
        PrependTwice(out, [c.value], ParseBody(Rest()));
        out := out + [c.value];
      }
    }

    static lemma PrependTwice(a: string, b: string, r: Parsed<string>)
      ensures Prepend(a, Prepend(b, r)) == Prepend(a + b, r)
      ensures Prepend("", r) == r
    {
      if r.Ok? { assert a + (b + r.value) == a + b + r.value && [] + r.value == r.value; }
    }

    /** The depth-counting loop behind an opening bracket, for either kind of bracket. */
    method SkipBrackets(open: Byte, close: Byte) returns (r: Outcome<()>)
      requires Valid() && open != QUOTE && close != QUOTE
      modifies this
      ensures Valid() && pos >= old(pos)
      ensures Matches(r, Rest(), SkipNested(old(Rest()), 1, open, close))
    {
      hide Json.ParseString;
      ghost var before := Rest();
      var depth: nat := 1;
      while depth > 0
        invariant Valid() && pos >= old(pos)
        invariant SkipNested(before, 1, open, close) == SkipNested(Rest(), depth, open, close)
        decreases |src| - pos, depth
      {
        if pos == |src| {
          return Bad(UnterminatedInSkip(open));
        }
        var b := src[pos];
        if b == open {
          depth := depth + 1;
          Advance();
        } else if b == close {
          depth := depth - 1;
          Advance();
        } else if b == QUOTE {
          var text := ParseString();
          if text.Bad? {
            return Bad(text.error);
          }
        } else {
          Advance();
        }
      }
      r := Good(());
    }

    method SkipValue() returns (r: Outcome<()>)
      requires Valid()
      modifies this
      ensures Valid() && pos >= old(pos)
      ensures Matches(r, Rest(), Json.SkipValue(old(Rest())))
    {
      hide SkipSpace, SkipNested, Json.ParseString;
      SkipWhitespace();
      match Peek() {
        case None =>
          return Bad(EndInValue);
        case Some(b) =>
          if b == QUOTE {
            var text := ParseString();
            return if text.Good? then Good(()) else Bad(text.error);
          } else if b == OPEN_BRACKET {
            Advance();
            r := SkipBrackets(OPEN_BRACKET, CLOSE_BRACKET);
          } else if b == OPEN_BRACE {
            Advance();
            r := SkipBrackets(OPEN_BRACE, CLOSE_BRACE);
          } else {
            ghost var before := Rest();
            while pos < |src| && !IsDelimiter(src[pos])
              invariant Valid() && pos >= old(pos)
              invariant SkipLiteral(before) == SkipLiteral(Rest())
              decreases |src| - pos
            {
              Advance();
            }
            r := Good(());
          }
      }
    }

    /** The kind of the value ahead, without moving the cursor. */
    method ValueKindAhead() returns (kind: ValueKind)
      requires Valid()
      ensures kind == KindAhead(Rest())
    {
      var i := pos;
      while i < |src| && IsSpace(src[i])
        invariant pos <= i <= |src|
        invariant SkipSpace(Rest()) == SkipSpace(src[i..])
      {
        assert src[i..][1..] == src[i + 1..];
        i := i + 1;
      }
      kind := if i < |src| then KindOfByte(src[i]) else KUnknown;
    }

    method ReadSeparator(close: Byte) returns (more: Outcome<bool>)
      requires Valid()
      modifies this
      ensures Valid() && pos >= old(pos) && (more.Good? ==> pos > old(pos))
      ensures Matches(more, Rest(), ParseSeparator(old(Rest()), close))
    {
      hide SkipSpace;
      SkipWhitespace();
      match Peek() {
        case None =>
          return Bad(UnterminatedList(close));
        case Some(b) =>
          if b != COMMA && b != close {
            return Bad(ExpectedCommaOr(close, |src| - pos));
          }
          Advance();
          return Good(b == COMMA);
      }
    }

    method ReadItem() returns (item: Outcome<seq<string>>)
      requires Valid()
      modifies this
      ensures Valid() && pos >= old(pos)
      ensures Matches(item, Rest(), ParseItem(old(Rest())))
    {
      hide SkipSpace, Json.ParseString, Json.SkipValue;
      SkipWhitespace();
      if Peek() == Some(QUOTE) {
        var text := ParseString();
        item := if text.Good? then Good([text.value]) else Bad(text.error);
      } else {
        var skipped := SkipValue();
        item := if skipped.Good? then Good([]) else Bad(skipped.error);
      }
    }

    method ParseStringArray() returns (r: Outcome<seq<string>>)
      requires Valid()
      modifies this
      ensures Valid() && pos >= old(pos)
      ensures Matches(r, Rest(), Json.ParseStringArray(old(Rest())))
    {
      hide SkipSpace, Expect, ParseItem, ParseSeparator;
      var first := ExpectByte(OPEN_BRACKET);
      if first.Bad? {
        return Bad(first.error);
      }
      SkipWhitespace();
      var items := [];
      if Peek() == Some(CLOSE_BRACKET) {
        Advance();
        return Good(items);
      }
      ghost var before := Rest();
      PrependItemsTwice([], [], ParseItems(before));
      while true
        invariant Valid() && pos >= old(pos)
        invariant ParseItems(before) == PrependItems(items, ParseItems(Rest()))
        decreases |src| - pos
      {
        var item := ReadItem();
        if item.Bad? {
          return Bad(item.error);
        }
        var more := ReadSeparator(CLOSE_BRACKET);
        if more.Bad? {
          return Bad(more.error);
        }
        if !more.value {
          return Good(items + item.value);
        }
        PrependItemsTwice(items, item.value, ParseItems(Rest()));
        items := items + item.value;
      }
    }

    static lemma PrependItemsTwice(a: seq<string>, b: seq<string>, r: Parsed<seq<string>>)
      ensures PrependItems(a, PrependItems(b, r)) == PrependItems(a + b, r)
      ensures PrependItems([], r) == r
    {
      if r.Ok? { assert a + (b + r.value) == a + b + r.value && [] + r.value == r.value; }
    }

    /** The value of one member: the arms of the two `match key` tables. */
    method ParseField(scope: Scope, key: string, recorder: Recorder) returns (r: Outcome<()>)
      requires Valid()
      modifies this, recorder
      ensures Valid() && pos >= old(pos)
      ensures Follows(r, recorder.report, Rest(), ReadField(scope, old(Rest()), key, old(recorder.report)))
      decreases |src| - pos, Nesting(scope), 1
    {
      hide Json.ParseString, Json.ParseStringArray, Json.SkipValue, KindAhead, ReadObject, SetText, SetPaths,
           SetExtensions;
      if scope == TopLevel && IsTextKey(key) {
        var text := ParseString();
        if text.Bad? {
          return Bad(text.error);
        }
        recorder.report := SetText(recorder.report, key, text.value);
      } else if scope == TopLevel && key == "pi" {
        r := ParseObject(PiNamespace, recorder);
        return;
      } else if scope == TopLevel && key == "extensions" {
        r := ParseExtensions(recorder);
        return;
      } else if scope == PiNamespace && IsPathsKey(key) {
        var paths := ParseStringArray();
        if paths.Bad? {
          return Bad(paths.error);
        }
        recorder.report := SetPaths(recorder.report, key, paths.value);
      } else {
        if scope == PiNamespace {
          var kind := ValueKindAhead();
          recorder.report := Warn(recorder.report, UnknownSurface(key, kind));
        }
        var skipped := SkipValue();
        if skipped.Bad? {
          return Bad(skipped.error);
        }
      }
      r := Good(());
    }

    method ParseExtensions(recorder: Recorder) returns (r: Outcome<()>)
      requires Valid()
      modifies this, recorder
      ensures Valid() && pos >= old(pos)
      ensures Follows(r, recorder.report, Rest(), ReadExtensions(old(Rest()), old(recorder.report)))
    {
      hide Json.ParseStringArray, Json.SkipValue, KindAhead;
      var kind := ValueKindAhead();
      var count := 0;
      if kind == KArray {
        var paths := ParseStringArray();
        if paths.Bad? {
          return Bad(paths.error);
        }
        count := |paths.value|;
        recorder.report := recorder.report.(manifest := recorder.report.manifest.(extensionPaths := paths.value));
      } else {
        var skipped := SkipValue();
        if skipped.Bad? {
          return Bad(skipped.error);
        }
      }
      recorder.report := Warn(recorder.report, UnsupportedSurface("extensions", count));
      r := Good(());
    }

    /** One member: its key, the colon, and its value. */
    method ParseMember(scope: Scope, recorder: Recorder) returns (r: Outcome<()>)
      requires Valid()
      modifies this, recorder
      ensures Valid() && pos >= old(pos) && (r.Good? ==> pos > old(pos))
      ensures Follows(r, recorder.report, Rest(), ReadMember(scope, old(Rest()), old(recorder.report)))
      decreases |src| - pos, Nesting(scope), 2
    {
      hide Expect, ReadField, Json.ParseString;
      var key := ParseString();
      if key.Bad? {
        return Bad(key.error);
      }
      var colon := ExpectByte(COLON);
      if colon.Bad? {
        return Bad(colon.error);
      }
      r := ParseField(scope, key.value, recorder);
    }

    /** The member loop, the same for the whole file and for its `pi` object. */
    method ParseObject(scope: Scope, recorder: Recorder) returns (r: Outcome<()>)
      requires Valid()
      modifies this, recorder
      ensures Valid() && pos >= old(pos)
      ensures Follows(r, recorder.report, Rest(), ReadObject(scope, old(Rest()), old(recorder.report)))
      decreases |src| - pos, Nesting(scope), 0
    {
      hide SkipSpace, Expect, ReadMember, ParseSeparator;
      ghost var report := recorder.report;
      var first := ExpectByte(OPEN_BRACE);
      if first.Bad? {
        return Bad(first.error);
      }
      SkipWhitespace();
      if Peek() == Some(CLOSE_BRACE) {
        Advance();
        return Good(());
      }
      ghost var before := Rest();
      while true
        invariant Valid() && pos > old(pos)
        invariant ReadMembers(scope, before, report) == ReadMembers(scope, Rest(), recorder.report)
        decreases |src| - pos
      {
        var member := ParseMember(scope, recorder);
        if member.Bad? {
          return member;
        }
        var more := ReadSeparator(CLOSE_BRACE);
        if more.Bad? {
          return Bad(more.error);
        }
        if !more.value {
          return Good(());
        }
      }
    }
  }

  method ParseText(text: Bytes) returns (report: Report)
    ensures report == Package.ParseText(text)
  {
    hide ReadObject;
    var parser := new Parser(text);
    var recorder := new Recorder();
    var r := parser.ParseObject(TopLevel, recorder);
    if r.Bad? {
      recorder.report := Warn(recorder.report, Malformed(r.error));
    }
    report := recorder.report;
  }
}
