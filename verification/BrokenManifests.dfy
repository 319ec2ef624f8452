/**
 Texts that stop being JSON somewhere (crates/rupi-compat/src/package.rs:890-894): printed members,
 and behind them a member that cannot be read at its key, its colon or its value, or no separator;
 in the outer object or in a `pi` object.  What the reader keeps of them, and when that is nothing.
 */
module BrokenManifests {
  import opened Text
  import opened Json
  import opened JsonTree
  import opened Package
  import opened Manifests

  // ----- Where an object can break -----

  /** The value of a member cannot be read. */
  predicate BreaksField(scope: Scope, key: string, value: Bytes) {
    match scope
    case PiNamespace => if IsPathsKey(key) then ParseStringArray(value).Err? else SkipValue(value).Err?
    case TopLevel =>
      if IsTextKey(key) then ParseString(value).Err?
      else if key == "pi" then Expect(value, OPEN_BRACE).Err?
      else if key == "extensions" && KindAhead(value) == KArray then ParseStringArray(value).Err?
      else SkipValue(value).Err?
  }

  /** A member cannot be read: its key, its colon or its value. */
  predicate BreaksMember(scope: Scope, end: Bytes) {
    match ParseString(end)
    case Err(_) => true
    case Ok(key, behind) =>
      match Expect(behind, COLON)
      case Err(_) => true
      case Ok(_, value) => BreaksField(scope, key, value)
  }

  /** What the reader warns of before it gives up: an unknown `pi` key comes in front of its value. */
  function TraceOf(scope: Scope, end: Bytes): seq<Warning> {
    match ParseString(end)
    case Err(_) => []
    case Ok(key, behind) =>
      match Expect(behind, COLON)
      case Err(_) => []
      case Ok(_, value) =>
        if scope == PiNamespace && !IsPathsKey(key) then [UnknownSurface(key, KindAhead(value))] else []
  }

  lemma BrokenFieldStops(scope: Scope, key: string, value: Bytes, report: Report)
    requires BreaksField(scope, key, value)
    ensures IsStopped(ReadField(scope, value, key, report), report,
                      if scope == PiNamespace && !IsPathsKey(key) then [UnknownSurface(key, KindAhead(value))] else [])
  {
    hide ParseString, Expect, ParseStringArray, SkipValue, KindAhead, ReadMembers;
    assert report.(warnings := report.warnings + []) == report;
  }

  lemma BrokenMemberStops(scope: Scope, end: Bytes, report: Report)
    requires BreaksMember(scope, end)
    ensures IsStopped(ReadMember(scope, end, report), report, TraceOf(scope, end))
  {
    hide ParseString, Expect, BreaksField, ReadField, KindAhead;
    assert report.(warnings := report.warnings + []) == report;
    match ParseString(end)
    case Err(_) =>
    case Ok(key, behind) =>
      match Expect(behind, COLON)
      case Err(_) =>
      case Ok(_, value) => BrokenFieldStops(scope, key, value, report);
  }

  /** The reader stopped behind `before`, with these warnings more. */
  ghost predicate IsStopped(p: Progress, before: Report, trace: seq<Warning>) {
    p.Stopped? && p.report == before.(warnings := before.warnings + trace)
  }

  /** Behind whole members, or behind the opening brace, the next one breaks; or it is not separated from the last. */
  datatype Ending = NextMember(end: Bytes) | NoSeparator(end: Bytes)

  predicate IsEnding(scope: Scope, ms: Members, e: Ending) {
    match e
    case NextMember(end) => BreaksMember(scope, end) && (ms.NoMembers? ==> !StartsWith(SkipSpace(end), CLOSE_BRACE))
    case NoSeparator(end) => ms.Member? && LastEndsAt(ms, end) && ParseSeparator(end, CLOSE_BRACE).Err?
  }

  predicate StartsWith(s: Bytes, b: Byte) {
    s != [] && s[0] == b
  }

  function PrintBroken(ms: Members, e: Ending): Bytes
    requires e.NoSeparator? ==> ms.Member?
  {
    match e
    case NextMember(end) => if ms.NoMembers? then end else PrintMembers(ms, [COMMA] + end)
    case NoSeparator(end) => PrintMembers(ms, end)
  }

  function TraceOfEnding(scope: Scope, e: Ending): seq<Warning> {
    if e.NextMember? then TraceOf(scope, e.end) else []
  }

  /** The members are recorded up to the first with the wrong type; without one, up to the break. */
  ghost predicate IsBrokenOff(p: Progress, d: Declared, trace: seq<Warning>) {
    if d.wellTyped then IsStopped(p, d.report, trace) else p.Stopped? && p.report == d.report
  }

  /** Behind the members in front of it the reader comes to `end`, unless one of them has the wrong type. */
  lemma ObjectGoesOn(scope: Scope, gap: Bytes, ms: Members, end: Bytes, report: Report)
    requires IsGap(gap) && AreMembers(ms) && (ms.NoMembers? ==> !StartsWith(SkipSpace(end), CLOSE_BRACE))
    ensures
      var p := ReadObject(scope, gap + ([OPEN_BRACE] + PrintBroken(ms, NextMember(end))), report);
      var d := DeclareAll(scope, ms, report);
      if d.wellTyped then p == ReadMembers(scope, end, d.report) else p.Stopped? && p.report == d.report
  {
    hide ReadMembers, PrintMembers, DeclareAll, SkipSpace, AreMembers, ParseSeparator, IsGap;
    ReadByte(gap, OPEN_BRACE, PrintBroken(ms, NextMember(end)));
    if ms.Member? {
      var behind := [COMMA] + end;
      LastEndsAtDelimiter(ms, behind);
      MembersContinue(scope, ms, behind, report);
      NoGapIsGap();
      ReadSeparator([], COMMA, CLOSE_BRACE, end);
      assert [] + behind == behind;
      FirstByteOfMembers(scope, ms, behind, report);
    } else {
      MembersBehindSpace(scope, end, report);
      NothingDeclared(scope, report);
    }
  }

  lemma NoGapIsGap()
    ensures IsGap([])
  {
  }

  lemma MembersBehindSpace(scope: Scope, s: Bytes, report: Report)
    ensures ReadMembers(scope, SkipSpace(s), report) == ReadMembers(scope, s, report)
  {
    hide ReadField, SkipSpace, ParseString;
    SkipSpaceTwice(s);
    SameString(s, SkipSpace(s));
  }

  lemma StoppedMember(scope: Scope, s: Bytes, report: Report, trace: seq<Warning>)
    requires IsStopped(ReadMember(scope, s, report), report, trace)
    ensures IsStopped(ReadMembers(scope, s, report), report, trace)
  {
    hide ReadMember;
  }

  lemma {:induction false} SkipSpaceTwice(s: Bytes)
    ensures SkipSpace(SkipSpace(s)) == SkipSpace(s)
  {
    if s != [] && IsSpace(s[0]) { SkipSpaceTwice(s[1..]); }
  }

  /** An object that breaks keeps what its members declare. */
  lemma ObjectBreaks(scope: Scope, gap: Bytes, ms: Members, e: Ending, report: Report)
    requires IsGap(gap) && AreMembers(ms) && IsEnding(scope, ms, e)
    ensures IsBrokenOff(ReadObject(scope, gap + ([OPEN_BRACE] + PrintBroken(ms, e)), report),
                        DeclareAll(scope, ms, report), TraceOfEnding(scope, e))
  {
    hide ReadMember, ReadMembers, PrintMembers, DeclareAll, SkipSpace, BreaksMember, TraceOf, AreMembers, LastEndsAt,
         ParseSeparator, IsGap;
    var d := DeclareAll(scope, ms, report);
    match e
    case NextMember(end) =>
      ObjectGoesOn(scope, gap, ms, end, report);
      BrokenMemberStops(scope, end, d.report);
      StoppedMember(scope, end, d.report, TraceOf(scope, end));
    case NoSeparator(end) =>
      ReadByte(gap, OPEN_BRACE, PrintMembers(ms, end));
      MembersContinue(scope, ms, end, report);
      FirstByteOfMembers(scope, ms, end, report);
      assert d.report.(warnings := d.report.warnings + []) == d.report;
  }

  // ----- Whole texts -----

  /** The outer object breaks behind some members, or a `pi` object does that stands behind some. */
  datatype Broken =
    | Outside(ms: Members, ending: Ending)
    | InPi(ms: Members, before: Bytes, key: seq<Glyph>, beforeColon: Bytes, afterColon: Bytes,
           inner: Members, ending: Ending)

  predicate IsBroken(b: Broken) {
    match b
    case Outside(ms, e) => AreMembers(ms) && IsEnding(TopLevel, ms, e)
    case InPi(ms, before, key, beforeColon, afterColon, inner, e) =>
      && AreMembers(ms) && IsGap(before) && AreGlyphs(key) && StringValue(key) == "pi"
      && IsGap(beforeColon) && IsGap(afterColon) && AreMembers(inner) && IsEnding(PiNamespace, inner, e)
  }

  function PiText(b: Broken): Bytes
    requires b.InPi? && IsBroken(b)
  {
    b.before + PrintString(b.key, b.beforeColon + ([COLON] + (b.afterColon +
      ([OPEN_BRACE] + PrintBroken(b.inner, b.ending)))))
  }

  function BrokenText(b: Broken): Bytes
    requires IsBroken(b)
  {
    [OPEN_BRACE] + PrintBroken(b.ms, if b.InPi? then NextMember(PiText(b)) else b.ending)
  }

  /** The facts in front of the break. */
  function FactsBefore(b: Broken): (facts: seq<Fact>)
    requires IsBroken(b)
    ensures AreFacts(facts)
  {
    match b
    case Outside(ms, _) => Facts(TopLevel, ms)
    case InPi(ms, _, _, _, _, inner, _) =>
      AreFactsOfConcat(Facts(TopLevel, ms), Facts(PiNamespace, inner));
      Facts(TopLevel, ms) + Facts(PiNamespace, inner)
  }

  /** What the break itself is warned of. */
  function TraceOfBroken(b: Broken): seq<Warning> {
    TraceOfEnding(if b.InPi? then PiNamespace else TopLevel, b.ending)
  }

  /** What is kept of a text. */
  function Kept(b: Broken): Report
    requires IsBroken(b)
  {
    var facts := FactsBefore(b);
    AreFactsOfFront(facts);
    var report := ReportOf(Front(facts));
    if Front(facts) == facts then report.(warnings := report.warnings + TraceOfBroken(b)) else report
  }

  lemma AreFactsOfFront(facts: seq<Fact>)
    requires AreFacts(facts)
    ensures AreFacts(Front(facts))
  {
    hide IsValue, HasAskedType;
  }

  /** A `pi` member that breaks inside its object. */
  lemma PiMemberIs(b: Broken, report: Report)
    requires b.InPi? && IsBroken(b)
    ensures
      var inside := b.afterColon + ([OPEN_BRACE] + PrintBroken(b.inner, b.ending));
      ReadMember(TopLevel, PiText(b), report) == ReadObject(PiNamespace, inside, report)
    ensures !StartsWith(SkipSpace(PiText(b)), CLOSE_BRACE)
  {
    hide ReadObject, PrintBroken, AreMembers, BreaksMember, LastEndsAt, ParseSeparator, ParseString, Expect, SkipSpace,
         PrintBody, IsGap, AreGlyphs, StringValue;
    var inside := b.afterColon + ([OPEN_BRACE] + PrintBroken(b.inner, b.ending));
    ReadString(b.before, b.key, b.beforeColon + ([COLON] + inside));
    ReadByte(b.beforeColon, COLON, inside);
  }

  lemma PiBreaks(b: Broken, report: Report)
    requires b.InPi? && IsBroken(b)
    ensures IsBrokenOff(ReadMembers(TopLevel, PiText(b), report), DeclareAll(PiNamespace, b.inner, report),
                        TraceOfBroken(b))
  {
    hide ReadObject, ReadMember, PrintBroken, DeclareAll, AreMembers, IsEnding, SkipSpace, IsGap, AreGlyphs,
         StringValue, TraceOfEnding, PiText;
    PiMemberIs(b, report);
    ObjectBreaks(PiNamespace, b.afterColon, b.inner, b.ending, report);
  }

  lemma OutsideIsRead(gap: Bytes, b: Broken)
    requires IsGap(gap) && IsBroken(b) && b.Outside?
    ensures var p := ReadObject(TopLevel, gap + BrokenText(b), EMPTY); p.Stopped? && p.report == Kept(b)
  {
    hide ReadObject, PrintBroken, DeclareAll, AreMembers, IsEnding, IsGap, Facts, Front, TraceOfEnding, ReportOf,
         AreFacts;
    NothingReported();
    ObjectBreaks(TopLevel, gap, b.ms, b.ending, EMPTY);
    NoFacts();
    DeclareAllIs(TopLevel, b.ms, []);
    assert [] + Front(Facts(TopLevel, b.ms)) == Front(Facts(TopLevel, b.ms));
  }

  lemma NoFacts()
    ensures AreFacts([])
  {
  }

  lemma InPiIsRead(gap: Bytes, b: Broken)
    requires IsGap(gap) && IsBroken(b) && b.InPi?
    ensures var p := ReadObject(TopLevel, gap + BrokenText(b), EMPTY); p.Stopped? && p.report == Kept(b)
  {
    hide ReadObject, ReadMembers, PrintBroken, DeclareAll, AreMembers, IsEnding, IsGap, Facts, Front, TraceOfEnding,
         ReportOf, AreFacts, SkipSpace, AreGlyphs, StringValue, PiText;
    var a, inner := Facts(TopLevel, b.ms), Facts(PiNamespace, b.inner);
    NothingReported();
    NoFacts();
    PiMemberIs(b, EMPTY);
    ObjectGoesOn(TopLevel, gap, b.ms, PiText(b), EMPTY);
    DeclareAllIs(TopLevel, b.ms, []);
    assert [] + Front(a) == Front(a);
    FrontOfConcat(a, inner);
    if Front(a) == a {
      PiBreaks(b, ReportOf(a));
      DeclareAllIs(PiNamespace, b.inner, a);
      SameFront(a, inner);
    } else {
      FrontIsShort(a);
    }
  }

  /**
   A text that breaks: the facts in front of the break, up to the first with the wrong type, what the
   break itself is warned of, and one `Malformed`.
   */
  lemma BrokenIsRead(gap: Bytes, b: Broken)
    requires IsGap(gap) && IsBroken(b)
    ensures IsMalformed(ParseText(gap + BrokenText(b)), Kept(b))
  {
    hide ReadObject, BrokenText, Kept, IsBroken, IsGap;
    if b.Outside? { OutsideIsRead(gap, b); } else { InPiIsRead(gap, b); }
  }

  /**
   A text that breaks gives no manifest data and a single warning exactly when nothing in front of
   the break leaves a trace, and the break itself is not an unknown `pi` key.
   */
  lemma BrokenIsEmptyIff(gap: Bytes, b: Broken)
    requires IsGap(gap) && IsBroken(b)
    ensures
      var facts, report := FactsBefore(b), ParseText(gap + BrokenText(b));
      var front := Front(facts);
      AreFacts(front)
      && (report.manifest == EMPTY.manifest && |report.warnings| == 1 <==>
          && AreTraceless(front)
          && PathsIn(Last(front, PiNamespace, "skills")) == []
          && PathsIn(Last(front, PiNamespace, "prompts")) == []
          && (front == facts ==> TraceOfBroken(b) == []))
  {
    hide BrokenText, FactsBefore, IsBroken, IsGap, ParseText, Last, PathsIn, AreTraceless, HasAskedType, ManifestOf,
         WarningsOf, Front, TraceOfBroken, AreFacts;
    BrokenIsRead(gap, b);
    FrontHasTypes(FactsBefore(b));
    AreFactsOfFront(FactsBefore(b));
    EmptyReportIff(Front(FactsBefore(b)));
  }

  lemma FrontHasTypes(facts: seq<Fact>)
    ensures forall i :: 0 <= i < |Front(facts)| ==> HasAskedType(Front(facts)[i])
  {
  }

  // ----- A truncated text, shown -----

  function TruncatedText(): Bytes {
    Ascii("{\"name\":\"a\",")
  }

  function TruncatedMembers(): Members {
    Field("name", JString(Spell("a")), NoMembers)
  }

  lemma TruncatedPieces()
    ensures TruncatedText() == [OPEN_BRACE] + (Ascii("\"name\"") + ([COLON] + (Ascii("\"a\"") + [COMMA])))
  {
    hide Ascii;
    AsciiOfQuote();
    var a, b, c, d, e := "{", "\"name\"", ":", "\"a\"", ",";
    AsciiOfConcat(d, e);
    AsciiOfConcat(c, d + e);
    AsciiOfConcat(b, c + (d + e));
    AsciiOfConcat(a, b + (c + (d + e)));
    assert a + (b + (c + (d + e))) == "{\"name\":\"a\",";
  }

  lemma TruncatedIsPrinted()
    ensures [OPEN_BRACE] + PrintMembers(TruncatedMembers(), [COMMA] + []) == TruncatedText()
  {
    hide Ascii, Spell, PrintString, PrintValue, TruncatedText;
    TruncatedPieces();
    var tail: Bytes := [COMMA] + [];
    assert tail == [COMMA];
    PrintedField("name", JString(Spell("a")), NoMembers, tail);
    PrintedText(Spell("a"), tail);
    AsciiQuoted("a", tail);
    AsciiQuoted("name", [COLON] + PrintString(Spell("a"), tail));
    assert "\"" + "a" + "\"" == "\"a\"";
    assert "\"" + "name" + "\"" == "\"name\"";
  }

  lemma PrintedText(gs: seq<Glyph>, tail: Bytes)
    ensures PrintValue(JString(gs), MoreMembers(NoMembers, tail)) == PrintString(gs, tail)
  {
  }

  lemma NothingBreaks()
    ensures BreaksMember(TopLevel, []) && TraceOf(TopLevel, []) == []
  {
  }

  lemma TruncatedFacts()
    ensures
      var name := Fact(TopLevel, "name", JString(Spell("a")));
      && AreMembers(TruncatedMembers()) && TruncatedMembers().Member?
      && Facts(TopLevel, TruncatedMembers()) == [name] && Front([name]) == [name]
  {
    hide Spell, StringValue, AreGlyphs;
    SpellIs("a");
    SpellIs("name");
    var name := Fact(TopLevel, "name", JString(Spell("a")));
    FrontOfOne(name);
    assert Facts(TopLevel, NoMembers) == [];
  }

  /** The text ends behind a comma: the name read in front of it stays in the manifest. */
  lemma TruncatedKeepsName()
    ensures
      var report := ParseText(TruncatedText());
      report.manifest == EMPTY.manifest.(name := Some("a")) && |report.warnings| == 1 && report.warnings[0].Malformed?
  {
    hide PrintMembers, ParseText, TruncatedText, TruncatedMembers, StringValue, Spell, BreaksMember, TraceOf, Facts,
         Front, IsGap, AreMembers, IsValue;
    var b := Outside(TruncatedMembers(), NextMember([]));
    var name := Fact(TopLevel, "name", JString(Spell("a")));
    TruncatedFacts();
    NothingBreaks();
    NoGapIsGap();
    TruncatedIsPrinted();
    BrokenIsRead([], b);
    assert [] + BrokenText(b) == TruncatedText();
    NameIsKept(name);
    assert Kept(b).warnings == ReportOf([name]).warnings + [];
  }
}
