/**
 What the reader makes of a `package.json` (crates/rupi-compat/src/package.rs): the
 manifest and the warnings, on every input and, for printed JSON, what they must be.
 */
module Package {
  import opened Text
  import opened Json
  import opened JsonTree

  datatype Manifest = Manifest(
    name: Option<string>,
    version: Option<string>,
    description: Option<string>,
    skillPaths: seq<string>,
    promptPaths: seq<string>,
    extensionPaths: seq<string>)

  datatype Warning =
    | UnsupportedSurface(surface: string, count: nat)
    | UnknownSurface(key: string, valueKind: ValueKind)
    | Malformed(reason: JsonError)

  datatype Report = Report(manifest: Manifest, warnings: seq<Warning>)

  const EMPTY := Report(Manifest(None, None, None, [], [], []), [])

  /** The two objects the reader looks into. */
  datatype Scope = TopLevel | PiNamespace

  /** A stretch of reading: what was recorded so far, and the unread bytes or an error. */
  datatype Progress = Done(report: Report, rest: Bytes) | Stopped(report: Report, error: JsonError)

  // ----- Recording one field -----

  function Warn(report: Report, warning: Warning): Report {
    report.(warnings := report.warnings + [warning])
  }

  function SetText(report: Report, key: string, text: string): Report {
    var m := report.manifest;
    report.(manifest :=
      if key == "name" then m.(name := Some(text))
      else if key == "version" then m.(version := Some(text))
      else m.(description := Some(text)))
  }

  function SetPaths(report: Report, key: string, paths: seq<string>): Report {
    var m := report.manifest;
    report.(manifest := if key == "skills" then m.(skillPaths := paths) else m.(promptPaths := paths))
  }

  function SetExtensions(report: Report, paths: seq<string>): Report {
    Warn(report.(manifest := report.manifest.(extensionPaths := paths)),
         UnsupportedSurface("extensions", |paths|))
  }

  predicate IsTextKey(key: string) {
    key == "name" || key == "version" || key == "description"
  }

  predicate IsPathsKey(key: string) {
    key == "skills" || key == "prompts"
  }

  // ----- Reading -----

  function ReadText(s: Bytes, key: string, report: Report): (p: Progress)
    ensures p.Done? ==> |p.rest| <= |s|
  {
    match ParseString(s)
    case Err(e) => Stopped(report, e)
    case Ok(text, rest) => Done(SetText(report, key, text), rest)
  }

  function ReadPaths(s: Bytes, key: string, report: Report): (p: Progress)
    ensures p.Done? ==> |p.rest| <= |s|
  {
    match ParseStringArray(s)
    case Err(e) => Stopped(report, e)
    case Ok(paths, rest) => Done(SetPaths(report, key, paths), rest)
  }

  function ReadExtensions(s: Bytes, report: Report): (p: Progress)
    ensures p.Done? ==> |p.rest| <= |s|
  {
    if KindAhead(s) == KArray then
      match ParseStringArray(s)
      case Err(e) => Stopped(report, e)
      case Ok(paths, rest) => Done(SetExtensions(report, paths), rest)
    else
      match SkipValue(s)
      case Err(e) => Stopped(report, e)
      case Ok(_, rest) => Done(Warn(report, UnsupportedSurface("extensions", 0)), rest)
  }

  function ReadOther(s: Bytes, report: Report): (p: Progress)
    ensures p.Done? ==> |p.rest| <= |s|
  {
    match SkipValue(s)
    case Err(e) => Stopped(report, e)
    case Ok(_, rest) => Done(report, rest)
  }

  /** How many of the two objects may still open inside this one. */
  function Nesting(scope: Scope): nat {
    match scope
    case TopLevel => 1
    case PiNamespace => 0
  }

  /** The value of one member, behind its colon. */
  function ReadField(scope: Scope, s: Bytes, key: string, report: Report): (p: Progress)
    ensures p.Done? ==> |p.rest| <= |s|
    decreases |s|, Nesting(scope), 5
  {
    match scope
    case PiNamespace =>
      if IsPathsKey(key) then ReadPaths(s, key, report)
      else ReadOther(s, Warn(report, UnknownSurface(key, KindAhead(s))))
    case TopLevel =>
      if IsTextKey(key) then ReadText(s, key, report)
      else if key == "pi" then ReadObject(PiNamespace, s, report)
      else if key == "extensions" then ReadExtensions(s, report)
      else ReadOther(s, report)
  }

  function ReadMember(scope: Scope, s: Bytes, report: Report): (p: Progress)
    ensures p.Done? ==> |p.rest| < |s|
    decreases |s|, Nesting(scope), 2
  {
    match ParseString(s)
    case Err(e) => Stopped(report, e)
    case Ok(key, afterKey) =>
      match Expect(afterKey, COLON)
      case Err(e) => Stopped(report, e)
      case Ok(_, value) => ReadField(scope, value, key, report)
  }

  function ReadMembers(scope: Scope, s: Bytes, report: Report): (p: Progress)
    ensures p.Done? ==> |p.rest| <= |s|
    decreases |s|, Nesting(scope), 3
  {
    match ReadMember(scope, s, report)
    case Stopped(r, e) => Stopped(r, e)
    case Done(r, behind) =>
      match ParseSeparator(behind, CLOSE_BRACE)
      case Err(e) => Stopped(r, e)
      case Ok(more, rest) => if more then ReadMembers(scope, rest, r) else Done(r, rest)
  }

  function ReadObject(scope: Scope, s: Bytes, report: Report): (p: Progress)
    ensures p.Done? ==> |p.rest| <= |s|
    decreases |s|, Nesting(scope), 4
  {
    match Expect(s, OPEN_BRACE)
    case Err(e) => Stopped(report, e)
    case Ok(_, behind) =>
      var at := SkipSpace(behind);
      if at != [] && at[0] == CLOSE_BRACE then Done(report, at[1..]) else ReadMembers(scope, at, report)
  }

  /** The whole file.  A late error keeps what was recorded before it. */
  function ParseText(text: Bytes): Report {
    match ReadObject(TopLevel, text, EMPTY)
    case Done(report, _) => report
    case Stopped(report, e) => Warn(report, Malformed(e))
  }

  // ----- What a JSON object declares -----

  /** What was declared, and whether every field so far had the type the reader asks for. */
  datatype Declared = Declared(report: Report, wellTyped: bool)

  function Kind(v: Value): ValueKind
    requires IsValue(v)
  {
    match v
    case JString(_) => KString
    case JArray(_, _) => KArray
    case JObject(_, _) => KObject
    case JLiteral(text) => LiteralKind(text[0] as char)
  }

  /** A literal is taken for what its first character can begin: `true`, `false`, `null` or a number. */
  function LiteralKind(c: char): ValueKind {
    if c == 't' || c == 'f' then KBool
    else if c == 'n' then KNull
    else if c == '-' || IsDigit(c) then KNumber
    else KUnknown
  }

  function Declare(scope: Scope, key: string, v: Value, report: Report): Declared
    requires IsValue(v)
    decreases v, 1
  {
    match scope
    case PiNamespace =>
      if IsPathsKey(key) then
        match v
        case JArray(_, es) => Declared(SetPaths(report, key, Strings(es)), true)
        case _ => Declared(report, false)
      else Declared(Warn(report, UnknownSurface(key, Kind(v))), true)
    case TopLevel =>
      if IsTextKey(key) then
        match v
        case JString(gs) => Declared(SetText(report, key, StringValue(gs)), true)
        case _ => Declared(report, false)
      else if key == "pi" then
        match v
        case JObject(_, ms) => DeclareAll(PiNamespace, ms, report)
        case _ => Declared(report, false)
      else if key == "extensions" then
        match v
        case JArray(_, es) => Declared(SetExtensions(report, Strings(es)), true)
        case _ => Declared(Warn(report, UnsupportedSurface("extensions", 0)), true)
      else Declared(report, true)
  }

  /** The members in order, later ones winning, up to the first with the wrong type. */
  function DeclareAll(scope: Scope, ms: Members, report: Report): Declared
    requires AreMembers(ms)
    decreases ms, 0
  {
    match ms
    case NoMembers => Declared(report, true)
    case Member(_, key, _, _, v, _, more) =>
      var first := Declare(scope, StringValue(key), v, report);
      if first.wellTyped then DeclareAll(scope, more, first.report) else first
  }

  // ----- The reader against the declaration -----

  ghost predicate Agrees(p: Progress, d: Declared, tail: Bytes) {
    && p.report == d.report
    && (p.Done? <==> d.wellTyped)
    && (p.Done? ==> p.rest == tail)
  }

  /** Nothing behind a value is taken for more of it: only a literal needs a delimiter there. */
  predicate EndsAt(v: Value, tail: Bytes) {
    v.JLiteral? ==> tail == [] || IsDelimiter(tail[0])
  }

  lemma KindAheadIs(gap: Bytes, v: Value, tail: Bytes)
    requires IsGap(gap) && IsValue(v)
    ensures KindAhead(gap + PrintValue(v, tail)) == Kind(v)
  {
    hide PrintValue, SkipSpace;
    FirstByte(v, tail);
    SkipGap(gap, PrintValue(v, tail));
    SkipSpaceAt(PrintValue(v, tail));
    if v.JLiteral? {
      assert v.text[0] in v.text;
      LiteralKindIs(v.text[0]);
    }
  }

  lemma LiteralKindIs(b: Byte)
    requires b != QUOTE && b != OPEN_BRACKET && b != OPEN_BRACE
    ensures KindOfByte(b) == LiteralKind(b as char)
  {
  }

  lemma FieldAgrees(scope: Scope, gap: Bytes, key: string, v: Value, tail: Bytes, report: Report)
    requires IsGap(gap) && IsValue(v) && EndsAt(v, tail)
    requires !(scope == TopLevel && key == "pi")
    ensures Agrees(ReadField(scope, gap + PrintValue(v, tail), key, report), Declare(scope, key, v, report), tail)
  {
    hide SkipValue, ParseString, ParseStringArray, KindAhead, PrintValue, StringValue, Strings;
    var s := gap + PrintValue(v, tail);
    SkipPrintedValue(gap, v, tail);
    KindAheadIs(gap, v, tail);
    StringOrError(gap, v, tail);
    ArrayOrError(gap, v, tail);
    LiteralIsNoArray(v);
  }

  lemma LiteralIsNoArray(v: Value)
    requires IsValue(v)
    ensures Kind(v) == KArray <==> v.JArray?
  {
    if v.JLiteral? { assert v.text[0] in v.text; }
  }

  lemma StringOrError(gap: Bytes, v: Value, tail: Bytes)
    requires IsGap(gap) && IsValue(v)
    ensures ParseString(gap + PrintValue(v, tail)).Err? <==> !v.JString?
    ensures v.JString? ==> ParseString(gap + PrintValue(v, tail)) == Ok(StringValue(v.glyphs), tail)
  {
    hide Expect, PrintElements, PrintMembers, PrintBody, ParseBody, AreElements, AreMembers, StringValue;
    FirstByte(v, tail);
    match v
    case JString(gs) => ReadString(gap, gs, tail);
    case JLiteral(text) =>
      assert text[0] in text;
      ExpectOther(gap, QUOTE, v, tail);
    case _ => ExpectOther(gap, QUOTE, v, tail);
  }

  lemma ArrayOrError(gap: Bytes, v: Value, tail: Bytes)
    requires IsGap(gap) && IsValue(v)
    ensures ParseStringArray(gap + PrintValue(v, tail)).Err? <==> !v.JArray?
    ensures v.JArray? ==> ParseStringArray(gap + PrintValue(v, tail)) == Ok(Strings(v.elements), tail)
  {
    hide Expect, PrintElements, PrintMembers, PrintBody, ParseItems, AreElements, AreMembers, Strings;
    FirstByte(v, tail);
    match v
    case JArray(inner, es) => ReadStringArray(gap, inner, es, tail);
    case JLiteral(text) =>
      assert text[0] in text;
      ExpectOther(gap, OPEN_BRACKET, v, tail);
    case _ => ExpectOther(gap, OPEN_BRACKET, v, tail);
  }

  /** A printed object is read as what it declares, whatever its other members carry. */
  lemma {:induction false} ObjectAgrees(
    scope: Scope, gap: Bytes, inner: Bytes, ms: Members, tail: Bytes, report: Report)
    requires IsGap(gap) && IsGap(inner) && AreMembers(ms)
    ensures Agrees(ReadObject(scope, gap + PrintValue(JObject(inner, ms), tail), report),
                   DeclareAll(scope, ms, report), tail)
    decreases ms, 2
  {
    hide SkipSpace, PrintMembers, ReadMembers, AreMembers, IsGap, Agrees;
    var closing := [CLOSE_BRACE] + tail;
    if ms.NoMembers? {
      ReadByte(gap, OPEN_BRACE, inner + closing);
      ReadByte(inner, CLOSE_BRACE, tail);
      assert closing[1..] == tail;
      EmptyAgrees(scope, report, tail);
    } else {
      ReadByte(gap, OPEN_BRACE, PrintMembers(ms, closing));
      MembersAgree(scope, ms, tail, report);
      FirstByteOfMembers(scope, ms, closing, report);
    }
  }

  lemma EmptyAgrees(scope: Scope, report: Report, tail: Bytes)
    ensures Agrees(Done(report, tail), DeclareAll(scope, NoMembers, report), tail)
  {
  }

  lemma FirstByteOfMembers(scope: Scope, ms: Members, tail: Bytes, report: Report)
    requires ms.Member? && AreMembers(ms)
    ensures var at := SkipSpace(PrintMembers(ms, tail));
            && at != [] && at[0] != CLOSE_BRACE
            && ReadMembers(scope, at, report) == ReadMembers(scope, PrintMembers(ms, tail), report)
  {
    hide PrintValue, PrintBody, IsValue, SkipSpace, AreGlyphs, ReadField, ParseBody, ParseSeparator;
    var value := PrintValue(ms.value, ms.after + MoreMembers(ms.more, tail));
    var colon := ms.beforeColon + ([COLON] + (ms.afterColon + value));
    var at := PrintString(ms.key, colon);
    SkipGap(ms.before, at);
    SkipSpaceAt(at);
    SameString(PrintMembers(ms, tail), at);
  }

  lemma SameString(s: Bytes, at: Bytes)
    requires SkipSpace(s) == at == SkipSpace(at)
    ensures ParseString(s) == ParseString(at)
  {
  }

  /** What the loop does behind a member: it goes on, ends, or stops. */
  function AfterMember(scope: Scope, behind: Bytes, report: Report): Progress {
    match ParseSeparator(behind, CLOSE_BRACE)
    case Err(e) => Stopped(report, e)
    case Ok(more, rest) => if more then ReadMembers(scope, rest, report) else Done(report, rest)
  }

  /** The last value ends where `end` begins. */
  predicate LastEndsAt(ms: Members, end: Bytes)
    requires ms.Member?
  {
    if ms.more.Member? then LastEndsAt(ms.more, end) else EndsAt(ms.value, ms.after + end)
  }

  /** Whatever stands behind printed members, the reader comes there with what they declare, or stops in them. */
  ghost predicate Continues(p: Progress, d: Declared, scope: Scope, end: Bytes) {
    if d.wellTyped then p == AfterMember(scope, end, d.report) else p.Stopped? && p.report == d.report
  }

  lemma {:induction false} MembersContinue(scope: Scope, ms: Members, end: Bytes, report: Report)
    requires ms.Member? && AreMembers(ms) && LastEndsAt(ms, end)
    ensures Continues(ReadMembers(scope, PrintMembers(ms, end), report), DeclareAll(scope, ms, report), scope, end)
    decreases ms, 0
  {
    hide SkipSpace, ParseString, Expect, ParseSeparator, ReadField, Declare, PrintValue, PrintString,
         IsValue, AreGlyphs, IsGap, StringValue, EndsAt;
    var behind := MoreMembers(ms.more, end);
    var value := PrintValue(ms.value, ms.after + behind);
    var key := StringValue(ms.key);
    ReadString(ms.before, ms.key, ms.beforeColon + ([COLON] + (ms.afterColon + value)));
    ReadByte(ms.beforeColon, COLON, ms.afterColon + value);
    var first := Declare(scope, key, ms.value, report);
    if ms.more.Member? {
      DelimiterBehind(ms.after, behind);
      DelimiterEnds(ms.value, ms.after + behind);
      MemberAgrees(scope, ms, key, ms.after + behind, report);
      ReadSeparator(ms.after, COMMA, CLOSE_BRACE, PrintMembers(ms.more, end));
      MembersContinue(scope, ms.more, end, first.report);
    } else {
      MemberAgrees(scope, ms, key, ms.after + behind, report);
      SeparatorBehind(ms.after, end);
    }
  }

  lemma DelimiterEnds(v: Value, tail: Bytes)
    requires tail != [] && IsDelimiter(tail[0])
    ensures EndsAt(v, tail)
  {
  }

  lemma SeparatorBehind(gap: Bytes, s: Bytes)
    requires IsGap(gap)
    ensures ParseSeparator(gap + s, CLOSE_BRACE) == ParseSeparator(s, CLOSE_BRACE)
  {
    hide SkipSpace;
    SkipGap(gap, s);
  }

  lemma {:induction false} LastEndsAtDelimiter(ms: Members, end: Bytes)
    requires ms.Member? && AreMembers(ms) && end != [] && IsDelimiter(end[0])
    ensures LastEndsAt(ms, end)
  {
    hide IsValue, AreGlyphs, IsDelimiter, IsGap, EndsAt;
    if ms.more.Member? {
      LastEndsAtDelimiter(ms.more, end);
    } else {
      DelimiterBehind(ms.after, end);
      DelimiterEnds(ms.value, ms.after + end);
    }
  }

  lemma {:induction false} MembersAgree(scope: Scope, ms: Members, tail: Bytes, report: Report)
    requires ms.Member? && AreMembers(ms)
    ensures Agrees(ReadMembers(scope, PrintMembers(ms, [CLOSE_BRACE] + tail), report),
                   DeclareAll(scope, ms, report), tail)
    decreases ms, 1
  {
    hide ReadMembers, PrintMembers, DeclareAll, LastEndsAt, ParseSeparator, SkipSpace;
    var closing := [CLOSE_BRACE] + tail;
    LastEndsAtDelimiter(ms, closing);
    MembersContinue(scope, ms, closing, report);
    ReadSeparator([], CLOSE_BRACE, CLOSE_BRACE, tail);
    assert [] + closing == closing;
  }

  lemma {:induction false} MemberAgrees(scope: Scope, ms: Members, key: string, tail: Bytes, report: Report)
    requires ms.Member? && AreMembers(ms) && EndsAt(ms.value, tail)
    ensures Agrees(ReadField(scope, ms.afterColon + PrintValue(ms.value, tail), key, report),
                   Declare(scope, key, ms.value, report), tail)
    decreases ms.value, 2
  {
    var s, v := ms.afterColon + PrintValue(ms.value, tail), ms.value;
    hide ReadObject, PrintValue, DeclareAll, SkipValue, ParseString, ParseStringArray, IsDelimiter;
    if scope == TopLevel && key == "pi" {
      if v.JObject? {
        ObjectAgrees(PiNamespace, ms.afterColon, v.gap, v.members, tail, report);
      } else {
        NoObject(PiNamespace, ms.afterColon, v, tail, report);
      }
    } else {
      FieldAgrees(scope, ms.afterColon, key, v, tail, report);
    }
  }

  /** Where an object is asked for, any other value stops the reader at once. */
  lemma NoObject(scope: Scope, gap: Bytes, v: Value, tail: Bytes, report: Report)
    requires IsGap(gap) && IsValue(v) && !v.JObject?
    ensures ReadObject(scope, gap + PrintValue(v, tail), report)
         == Stopped(report, Expected(OPEN_BRACE, |PrintValue(v, tail)|))
  {
    hide PrintValue, ReadMembers, SkipSpace, AreElements;
    FirstByte(v, tail);
    if v.JLiteral? { assert v.text[0] in v.text; }
    ExpectOther(gap, OPEN_BRACE, v, tail);
  }

  /** `report` is `before` with one `Malformed` warning behind the others. */
  ghost predicate IsMalformed(report: Report, before: Report) {
    && report.manifest == before.manifest
    && |report.warnings| == |before.warnings| + 1
    && report.warnings[..|before.warnings|] == before.warnings
    && report.warnings[|before.warnings|].Malformed?
  }

  /**
   Every printed JSON document, with anything behind it: an object yields exactly what it
   declares, plus one `Malformed` if a field had the wrong type; any other value yields an
   empty manifest and one `Malformed`.
   */
  lemma ParsePrinted(gap: Bytes, v: Value, tail: Bytes)
    requires IsGap(gap) && IsValue(v)
    ensures var report := ParseText(gap + PrintValue(v, tail));
            match v
            case JObject(_, ms) =>
              var declared := DeclareAll(TopLevel, ms, EMPTY);
              if declared.wellTyped then report == declared.report
              else IsMalformed(report, declared.report)
            case _ => report == Warn(EMPTY, Malformed(Expected(OPEN_BRACE, |PrintValue(v, tail)|)))
  {
    hide ReadObject, PrintValue, DeclareAll, IsValue;
    IsValueParts(v);
    match v
    case JObject(inner, ms) =>
      ObjectAgrees(TopLevel, gap, inner, ms, tail, EMPTY);
    case _ => NoObject(TopLevel, gap, v, tail, EMPTY);
  }

  lemma IsValueParts(v: Value)
    requires IsValue(v)
    ensures v.JObject? ==> IsGap(v.gap) && AreMembers(v.members)
  {
  }
}
