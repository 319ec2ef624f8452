/**
 What a `package.json` declares, field by field and warning by warning, and that the reader of
 `Package` finds exactly that; with the manifests that come back, and the late errors that leave
 something behind.
 */
module Manifests {
  import opened Text
  import opened Json
  import opened JsonTree
  import opened Package

  // ----- What a document declares, without the reader's order of work -----

  /** A member of the document, or of a `pi` object in it. */
  datatype Fact = Fact(scope: Scope, key: string, value: Value)

  /** All of them in order; a `pi` object stands for its own members. */
  function Facts(scope: Scope, ms: Members): (facts: seq<Fact>)
    requires AreMembers(ms)
    ensures AreFacts(facts)
    decreases ms, 0
  {
    match ms
    case NoMembers => []
    case Member(_, key, _, _, v, _, more) => FactsIn(scope, StringValue(key), v) + Facts(scope, more)
  }

  function FactsIn(scope: Scope, key: string, v: Value): (facts: seq<Fact>)
    requires IsValue(v)
    ensures AreFacts(facts)
    decreases v, 1
  {
    match v
    case JObject(_, ms) => if scope == TopLevel && key == "pi" then Facts(PiNamespace, ms) else [Fact(scope, key, v)]
    case _ => [Fact(scope, key, v)]
  }

  predicate AreFacts(facts: seq<Fact>) {
    forall i :: 0 <= i < |facts| ==> IsValue(facts[i].value)
  }

  /** The value has the type the reader asks for under this key. A `pi` here is one that is no object. */
  predicate HasAskedType(f: Fact) {
    match f.scope
    case TopLevel => f.key != "pi" && (IsTextKey(f.key) ==> f.value.JString?)
    case PiNamespace => IsPathsKey(f.key) ==> f.value.JArray?
  }

  /** The facts in front of the first one with another type. */
  function Front(facts: seq<Fact>): (front: seq<Fact>)
    ensures front <= facts && forall i :: 0 <= i < |front| ==> HasAskedType(front[i])
    ensures |front| < |facts| ==> !HasAskedType(facts[|front|])
  {
    if facts == [] || !HasAskedType(facts[0]) then [] else [facts[0]] + Front(facts[1..])
  }

  /** Whether a fact sets the field of that name; of `extensions` only an array does. */
  predicate Sets(f: Fact, scope: Scope, key: string) {
    f.scope == scope && f.key == key && (scope == TopLevel && key == "extensions" ==> f.value.JArray?)
  }

  /** The value of the last fact that sets a field. */
  function Last(facts: seq<Fact>, scope: Scope, key: string): (r: Option<Value>)
    requires AreFacts(facts)
    ensures r.None? <==> forall i :: 0 <= i < |facts| ==> !Sets(facts[i], scope, key)
    ensures r.Some? ==>
      IsValue(r.value)
      && exists i :: 0 <= i < |facts| && Sets(facts[i], scope, key) && facts[i].value == r.value
                     && forall j :: i < j < |facts| ==> !Sets(facts[j], scope, key)
  {
    if facts == [] then None
    else
      var n := |facts| - 1;
      if Sets(facts[n], scope, key) then Some(facts[n].value) else Last(facts[..n], scope, key)
  }

  function TextIn(v: Option<Value>): Option<string>
    requires v.Some? ==> IsValue(v.value)
  {
    match v
    case Some(JString(gs)) => Some(StringValue(gs))
    case _ => None
  }

  function PathsIn(v: Option<Value>): seq<string>
    requires v.Some? ==> IsValue(v.value)
  {
    match v
    case Some(JArray(_, es)) => Strings(es)
    case _ => []
  }

  /** Every field is what the last member of its key says. */
  function ManifestOf(facts: seq<Fact>): Manifest
    requires AreFacts(facts)
  {
    Manifest(
      TextIn(Last(facts, TopLevel, "name")),
      TextIn(Last(facts, TopLevel, "version")),
      TextIn(Last(facts, TopLevel, "description")),
      PathsIn(Last(facts, PiNamespace, "skills")),
      PathsIn(Last(facts, PiNamespace, "prompts")),
      PathsIn(Last(facts, TopLevel, "extensions")))
  }

  /** One warning for an unknown key of a `pi` object, and one for extensions. */
  function WarningOf(f: Fact): seq<Warning>
    requires IsValue(f.value)
  {
    match f.scope
    case PiNamespace => if IsPathsKey(f.key) then [] else [UnknownSurface(f.key, Kind(f.value))]
    case TopLevel =>
      if f.key == "extensions" then [UnsupportedSurface("extensions", |PathsIn(Some(f.value))|)] else []
  }

  function WarningsOf(facts: seq<Fact>): seq<Warning>
    requires AreFacts(facts)
  {
    if facts == [] then [] else WarningsOf(facts[..|facts| - 1]) + WarningOf(facts[|facts| - 1])
  }

  function ReportOf(facts: seq<Fact>): Report
    requires AreFacts(facts)
  {
    Report(ManifestOf(facts), WarningsOf(facts))
  }

  // ----- The reader records these facts -----

  lemma LastOfSnoc(facts: seq<Fact>, f: Fact, scope: Scope, key: string)
    requires AreFacts(facts) && IsValue(f.value)
    ensures AreFacts(facts + [f])
    ensures Last(facts + [f], scope, key) == if Sets(f, scope, key) then Some(f.value) else Last(facts, scope, key)
  {
    hide Sets, IsValue;
    assert (facts + [f])[..|facts|] == facts;
  }

  lemma ManifestOfSnoc(facts: seq<Fact>, f: Fact)
    requires AreFacts(facts) && IsValue(f.value)
    ensures AreFacts(facts + [f])
    ensures
      var m, all := ManifestOf(facts), ManifestOf(facts + [f]);
      && all.name == (if Sets(f, TopLevel, "name") then TextIn(Some(f.value)) else m.name)
      && all.version == (if Sets(f, TopLevel, "version") then TextIn(Some(f.value)) else m.version)
      && all.description == (if Sets(f, TopLevel, "description") then TextIn(Some(f.value)) else m.description)
      && all.skillPaths == (if Sets(f, PiNamespace, "skills") then PathsIn(Some(f.value)) else m.skillPaths)
      && all.promptPaths == (if Sets(f, PiNamespace, "prompts") then PathsIn(Some(f.value)) else m.promptPaths)
      && all.extensionPaths == (if Sets(f, TopLevel, "extensions") then PathsIn(Some(f.value)) else m.extensionPaths)
  {
    hide Sets, IsValue, Last, TextIn, PathsIn;
    LastOfSnoc(facts, f, TopLevel, "name");
    LastOfSnoc(facts, f, TopLevel, "version");
    LastOfSnoc(facts, f, TopLevel, "description");
    LastOfSnoc(facts, f, PiNamespace, "skills");
    LastOfSnoc(facts, f, PiNamespace, "prompts");
    LastOfSnoc(facts, f, TopLevel, "extensions");
  }

  lemma WarningsOfSnoc(facts: seq<Fact>, f: Fact)
    requires AreFacts(facts) && IsValue(f.value)
    ensures AreFacts(facts + [f]) && WarningsOf(facts + [f]) == WarningsOf(facts) + WarningOf(f)
  {
    hide IsValue, WarningOf;
    assert (facts + [f])[..|facts|] == facts;
  }

  /** Declaring one fact adds it to the report, or stops at it. */
  lemma FactIsDeclared(facts: seq<Fact>, f: Fact)
    requires AreFacts(facts) && IsValue(f.value) && !(f.scope == TopLevel && f.key == "pi" && f.value.JObject?)
    ensures AreFacts(facts + [f])
    ensures Declare(f.scope, f.key, f.value, ReportOf(facts)) ==
            if HasAskedType(f) then Declared(ReportOf(facts + [f]), true) else Declared(ReportOf(facts), false)
  {
    hide IsValue, Last, StringValue, Strings, Kind, ManifestOf, WarningsOf, AreGlyphs;
    assert IsValueOfKind(f.value) by { ValueKinds(f.value); }
    ManifestOfSnoc(facts, f);
    WarningsOfSnoc(facts, f);
    assert WarningsOf(facts) + [] == WarningsOf(facts);
  }

  ghost predicate IsValueOfKind(v: Value) {
    && (v.JString? ==> AreGlyphs(v.glyphs))
    && (v.JArray? ==> AreElements(v.elements))
  }

  lemma ValueKinds(v: Value)
    requires IsValue(v)
    ensures IsValueOfKind(v)
  {
  }

  lemma FrontOfCons(f: Fact, facts: seq<Fact>)
    ensures Front([f] + facts) == if HasAskedType(f) then [f] + Front(facts) else []
  {
    hide HasAskedType;
    assert ([f] + facts)[1..] == facts;
  }

  lemma FrontOfNothing()
    ensures Front([]) == []
  {
  }

  lemma FactsAssoc(a: seq<Fact>, b: seq<Fact>, c: seq<Fact>)
    ensures a + b + c == a + (b + c)
  {
  }

  /** Facts of which none has another type let the front go on behind them. */
  lemma {:induction false} FrontOfConcat(a: seq<Fact>, b: seq<Fact>)
    ensures Front(a) == a ==> Front(a + b) == a + Front(b)
    ensures Front(a) != a ==> Front(a + b) == Front(a)
  {
    hide HasAskedType, Front;
    if a == [] {
      FrontOfNothing();
      assert a + b == b && a + Front(b) == Front(b);
    } else {
      var f, rest := a[0], a[1..];
      assert a == [f] + rest;
      FactsAssoc([f], rest, b);
      FrontOfConcat(rest, b);
      FrontOfCons(f, rest);
      FrontOfCons(f, rest + b);
      FactsAssoc([f], rest, Front(b));
      assert Front(rest) != rest ==> [f] + Front(rest) != [f] + rest by {
        if [f] + Front(rest) == [f] + rest { assert ([f] + Front(rest))[1..] == ([f] + rest)[1..]; }
      }
    }
  }

  lemma AreFactsOfConcat(a: seq<Fact>, b: seq<Fact>)
    requires AreFacts(a) && AreFacts(b)
    ensures AreFacts(a + b) && AreFacts(Front(b)) && AreFacts(a + Front(b))
  {
    hide IsValue;
  }

  /** Behind any facts, the members of an object add theirs, up to the first with another type. */
  lemma {:induction false} DeclareAllIs(scope: Scope, ms: Members, before: seq<Fact>)
    requires AreMembers(ms) && AreFacts(before)
    ensures
      var facts := Facts(scope, ms);
      AreFacts(before + Front(facts))
      && DeclareAll(scope, ms, ReportOf(before)) == Declared(ReportOf(before + Front(facts)), Front(facts) == facts)
    decreases ms, 0
  {
    hide IsValue, AreGlyphs, IsGap, StringValue, ReportOf, Declare, HasAskedType, Front;
    assert before + [] == before;
    match ms
    case NoMembers => FrontOfNothing();
    case Member(_, key, _, _, v, _, more) =>
      var text := StringValue(key);
      AreFactsOfConcat(before, Facts(scope, ms));
      if scope == TopLevel && text == "pi" && v.JObject? {
        PiIsDeclared(v, ReportOf(before));
        DeclareAllIs(PiNamespace, v.members, before);
        JoinFacts(scope, Facts(PiNamespace, v.members), more, before);
      } else {
        var f := Fact(scope, text, v);
        FactIsDeclared(before, f);
        FrontOfOne(f);
        JoinFacts(scope, [f], more, before);
      }
  }

  lemma PiIsDeclared(v: Value, report: Report)
    requires IsValue(v) && v.JObject?
    ensures AreMembers(v.members)
    ensures Declare(TopLevel, "pi", v, report) == DeclareAll(PiNamespace, v.members, report)
  {
  }

  lemma FrontOfOne(f: Fact)
    ensures Front([f]) == if HasAskedType(f) then [f] else []
  {
    hide HasAskedType;
    assert [f][1..] == [];
  }

  lemma FrontIsShort(facts: seq<Fact>)
    ensures Front(facts) != facts ==> |Front(facts)| < |facts|
  {
    hide HasAskedType;
  }

  lemma SameFront(a: seq<Fact>, b: seq<Fact>)
    ensures a + Front(b) == a + b <==> Front(b) == b
  {
    hide Front;
    if a + Front(b) == a + b { assert (a + Front(b))[|a|..] == (a + b)[|a|..]; }
  }

  /** Going on behind the facts of one member. */
  lemma {:induction false} JoinFacts(scope: Scope, first: seq<Fact>, more: Members, before: seq<Fact>)
    requires AreMembers(more) && AreFacts(before) && AreFacts(first)
    ensures
      var rest := Facts(scope, more);
      AreFacts(before + Front(first)) && AreFacts(before + Front(first + rest))
      && (Front(first) == first ==>
            DeclareAll(scope, more, ReportOf(before + first)) ==
            Declared(ReportOf(before + Front(first + rest)), Front(first + rest) == first + rest))
      && (Front(first) != first ==> Front(first + rest) == Front(first) && Front(first + rest) != first + rest)
    decreases more, 1
  {
    hide IsValue, ReportOf, HasAskedType, DeclareAll, Facts, AreFacts, Front;
    var rest := Facts(scope, more);
    AreFactsOfConcat(before, first);
    AreFactsOfConcat(first, rest);
    AreFactsOfConcat(before, first + rest);
    FrontOfConcat(first, rest);
    if Front(first) == first {
      DeclareAllIs(scope, more, before + first);
      assert before + first + Front(rest) == before + (first + Front(rest));
      SameFront(first, rest);
    } else {
      FrontIsShort(first);
    }
  }

  lemma NothingReported()
    ensures ReportOf([]) == EMPTY
  {
  }

  /**
   Every printed object: its facts up to the first with the wrong type, each field set by the last
   of its key, and the warnings one by one in order; and one `Malformed` more when there is such a one.
   */
  lemma ObjectIsRead(gap: Bytes, inner: Bytes, ms: Members, tail: Bytes)
    requires IsGap(gap) && IsGap(inner) && AreMembers(ms)
    ensures
      var facts := Facts(TopLevel, ms);
      var report := ParseText(gap + (Print(JObject(inner, ms)) + tail));
      AreFacts(Front(facts))
      && if Front(facts) == facts then report == ReportOf(facts) else IsMalformed(report, ReportOf(Front(facts)))
  {
    hide ReadObject, PrintValue, Print, DeclareAll, Facts, Front, ParseText, IsMalformed, ReportOf;
    ObjectIsValue(inner, ms);
    PrintBehind(JObject(inner, ms), tail);
    ParsePrinted(gap, JObject(inner, ms), tail);
    NothingReported();
    DeclareAllIs(TopLevel, ms, []);
    assert [] + Front(Facts(TopLevel, ms)) == Front(Facts(TopLevel, ms));
  }

  lemma ObjectIsValue(inner: Bytes, ms: Members)
    requires IsGap(inner) && AreMembers(ms)
    ensures IsValue(JObject(inner, ms))
  {
  }

  /** All values have the types the reader asks for. */
  predicate IsWellTyped(ms: Members)
    requires AreMembers(ms)
  {
    Front(Facts(TopLevel, ms)) == Facts(TopLevel, ms)
  }

  /**
   Any manifest, printed in any order, spelling and white space, with repeated keys, unknown keys and
   any other members, comes back, with exactly the warnings its unknown keys and extensions call for.
   */
  lemma ManifestRoundTrip(m: Manifest, gap: Bytes, inner: Bytes, ms: Members, tail: Bytes)
    requires IsGap(gap) && IsGap(inner) && AreMembers(ms) && IsWellTyped(ms)
    requires ManifestOf(Facts(TopLevel, ms)) == m
    ensures ParseText(gap + (Print(JObject(inner, ms)) + tail)) == Report(m, WarningsOf(Facts(TopLevel, ms)))
  {
    hide Print, Facts, Front, ParseText, ManifestOf, WarningsOf;
    ObjectIsRead(gap, inner, ms, tail);
  }

  // ----- When a late error leaves an empty manifest -----

  /** A fact that leaves no trace in an empty report: no field of text, no warning. */
  predicate IsTraceless(f: Fact) {
    match f.scope
    case TopLevel => !IsTextKey(f.key) && f.key != "extensions"
    case PiNamespace => IsPathsKey(f.key)
  }

  lemma {:induction false} NoWarningsIff(facts: seq<Fact>)
    requires AreFacts(facts)
    ensures WarningsOf(facts) == [] <==> forall i :: 0 <= i < |facts| ==> WarningOf(facts[i]) == []
  {
    hide WarningOf, IsValue;
    if facts != [] {
      NoWarningsIff(facts[..|facts| - 1]);
    }
  }

  lemma TextSetIff(facts: seq<Fact>, key: string)
    requires AreFacts(facts) && IsTextKey(key) && forall i :: 0 <= i < |facts| ==> HasAskedType(facts[i])
    ensures TextIn(Last(facts, TopLevel, key)).None? <==> NoneSets(facts, key)
  {
    hide Last, IsValue;
  }

  lemma TracelessIs(f: Fact)
    requires IsValue(f.value)
    ensures IsTraceless(f) <==>
      WarningOf(f) == []
      && !Sets(f, TopLevel, "name") && !Sets(f, TopLevel, "version") && !Sets(f, TopLevel, "description")
  {
    hide Kind, PathsIn, IsValue;
  }

  ghost predicate AreTraceless(facts: seq<Fact>) {
    forall i :: 0 <= i < |facts| ==> IsTraceless(facts[i])
  }

  ghost predicate NoneSets(facts: seq<Fact>, key: string) {
    forall i :: 0 <= i < |facts| ==> !Sets(facts[i], TopLevel, key)
  }

  lemma TracelessIff(facts: seq<Fact>)
    requires AreFacts(facts)
    ensures AreTraceless(facts) <==>
      WarningsOf(facts) == [] && NoneSets(facts, "name") && NoneSets(facts, "version") && NoneSets(facts, "description")
  {
    hide WarningOf, WarningsOf, Sets, IsTraceless, IsValue;
    NoWarningsIff(facts);
    forall i | 0 <= i < |facts|
      ensures IsTraceless(facts[i]) <==>
        WarningOf(facts[i]) == [] && !Sets(facts[i], TopLevel, "name") && !Sets(facts[i], TopLevel, "version")
        && !Sets(facts[i], TopLevel, "description")
    {
      TracelessIs(facts[i]);
    }
  }

  /** A report of well-typed facts is empty exactly when none leaves a trace and the last lists of paths hold none. */
  lemma EmptyReportIff(facts: seq<Fact>)
    requires AreFacts(facts) && forall i :: 0 <= i < |facts| ==> HasAskedType(facts[i])
    ensures
      ReportOf(facts) == EMPTY <==>
      && AreTraceless(facts)
      && PathsIn(Last(facts, PiNamespace, "skills")) == []
      && PathsIn(Last(facts, PiNamespace, "prompts")) == []
  {
    hide Last, IsValue, WarningsOf, PathsIn, TextIn, HasAskedType, AreTraceless, AreFacts, Sets;
    TracelessIff(facts);
    TextSetIff(facts, "name");
    TextSetIff(facts, "version");
    TextSetIff(facts, "description");
    NoExtensions(facts);
  }

  lemma NoExtensions(facts: seq<Fact>)
    requires AreFacts(facts)
    ensures AreTraceless(facts) ==> PathsIn(Last(facts, TopLevel, "extensions")) == []
  {
    hide IsValue;
  }

  /**
   A printed object with a value of the wrong type gives no manifest data and a single warning
   exactly when nothing in front of that value leaves a trace.
   */
  lemma LateErrorIsEmptyIff(gap: Bytes, inner: Bytes, ms: Members, tail: Bytes)
    requires IsGap(gap) && IsGap(inner) && AreMembers(ms) && !IsWellTyped(ms)
    ensures
      var front := Front(Facts(TopLevel, ms));
      var report := ParseText(gap + (Print(JObject(inner, ms)) + tail));
      AreFacts(front)
      && (report.manifest == EMPTY.manifest && |report.warnings| == 1 <==>
          && AreTraceless(front)
          && PathsIn(Last(front, PiNamespace, "skills")) == []
          && PathsIn(Last(front, PiNamespace, "prompts")) == [])
  {
    hide Print, Facts, ParseText, Last, PathsIn, AreTraceless, HasAskedType, ManifestOf, WarningsOf;
    ObjectIsRead(gap, inner, ms, tail);
    EmptyReportIff(Front(Facts(TopLevel, ms)));
  }

  // ----- Spelling manifests -----

  /** A spelling of a character, escaped where it needs to be. */
  function SpellChar(c: char): Glyph {
    if c == '"' || c == '\\' then Escaped(c) else Raw(c)
  }

  function Spell(text: string): seq<Glyph> {
    if text == "" then [] else [SpellChar(text[0])] + Spell(text[1..])
  }

  lemma SpellCharIs(c: char)
    ensures IsGlyph(SpellChar(c)) && SpellChar(c).c == c
  {
  }

  lemma StringOfCons(g: Glyph, gs: seq<Glyph>)
    requires IsGlyph(g) && AreGlyphs(gs)
    ensures AreGlyphs([g] + gs) && StringValue([g] + gs) == [g.c] + StringValue(gs)
  {
    hide IsGlyph;
    assert ([g] + gs)[1..] == gs;
  }

  lemma {:induction false} SpellIs(text: string)
    ensures AreGlyphs(Spell(text)) && StringValue(Spell(text)) == text
  {
    hide IsGlyph, StringValue, AreGlyphs, SpellChar;
    if text == "" {
      NothingSpelled();
    } else {
      SpellIs(text[1..]);
      SpellCharIs(text[0]);
      StringOfCons(SpellChar(text[0]), Spell(text[1..]));
      assert text == [text[0]] + text[1..];
    }
  }

  lemma NothingSpelled()
    ensures AreGlyphs([]) && StringValue([]) == ""
  {
  }

  function Array(paths: seq<string>): Elements {
    if paths == [] then NoElements else Element([], JString(Spell(paths[0])), [], Array(paths[1..]))
  }

  lemma {:induction false} ArrayIs(paths: seq<string>)
    ensures AreElements(Array(paths)) && Strings(Array(paths)) == paths
  {
    hide Spell, AreGlyphs;
    if paths != [] {
      SpellIs(paths[0]);
      ArrayIs(paths[1..]);
      assert paths == [paths[0]] + paths[1..];
    }
  }

  function Field(key: string, v: Value, more: Members): Members {
    Member([], Spell(key), [], [], v, [], more)
  }

  function TextField(key: string, text: Option<string>, more: Members): Members {
    match text
    case None => more
    case Some(text) => Field(key, JString(Spell(text)), more)
  }

  function PiMembers(m: Manifest): Members {
    Field("skills", JArray([], Array(m.skillPaths)), Field("prompts", JArray([], Array(m.promptPaths)), NoMembers))
  }

  function Surfaces(m: Manifest): Members {
    Field("pi", JObject([], PiMembers(m)), Field("extensions", JArray([], Array(m.extensionPaths)), NoMembers))
  }

  function ManifestMembers(m: Manifest): Members {
    TextField("name", m.name, TextField("version", m.version, TextField("description", m.description, Surfaces(m))))
  }

  predicate IsManifestKey(key: string) {
    IsTextKey(key) || key == "pi" || key == "extensions"
  }

  /** The members the reader cares about. */
  function Related(ms: Members): Members
    requires AreMembers(ms)
  {
    match ms
    case NoMembers => NoMembers
    case Member(before, key, beforeColon, afterColon, v, after, more) =>
      if IsManifestKey(StringValue(key)) then Member(before, key, beforeColon, afterColon, v, after, Related(more))
      else Related(more)
  }

  /** Other members, wherever they stand and whatever they carry, declare nothing. */
  lemma {:induction false} OthersDeclareNothing(ms: Members, report: Report)
    requires AreMembers(ms)
    ensures AreMembers(Related(ms)) && DeclareAll(TopLevel, ms, report) == DeclareAll(TopLevel, Related(ms), report)
    decreases ms
  {
    hide IsValue, AreGlyphs, IsGap, StringValue, SetText, SetExtensions;
    match ms
    case NoMembers =>
    case Member(_, key, _, _, v, _, more) =>
      var first := Declare(TopLevel, StringValue(key), v, report);
      if !IsManifestKey(StringValue(key)) {
        assert first == Declared(report, true);
      }
      OthersDeclareNothing(more, first.report);
  }

  lemma FieldIs(scope: Scope, key: string, v: Value, more: Members, report: Report)
    requires IsValue(v) && AreMembers(more)
    ensures AreMembers(Field(key, v, more))
    ensures
      var first := Declare(scope, key, v, report);
      DeclareAll(scope, Field(key, v, more), report) ==
      if first.wellTyped then DeclareAll(scope, more, first.report) else first
  {
    hide IsValue, Spell, AreGlyphs, Declare, StringValue;
    SpellIs(key);
  }

  lemma TextFieldIs(key: string, text: Option<string>, more: Members, report: Report)
    requires IsTextKey(key) && AreMembers(more)
    ensures AreMembers(TextField(key, text, more))
    ensures DeclareAll(TopLevel, TextField(key, text, more), report) ==
            DeclareAll(TopLevel, more, if text.None? then report else SetText(report, key, text.value))
  {
    hide Spell, AreGlyphs, StringValue, SetText, Field, DeclareAll, IsTextKey;
    match text
    case None =>
    case Some(t) =>
      SpellIs(t);
      FieldIs(TopLevel, key, JString(Spell(t)), more, report);
  }

  lemma PathsFieldIs(key: string, paths: seq<string>, more: Members, report: Report)
    requires IsPathsKey(key) && AreMembers(more)
    ensures AreMembers(Field(key, JArray([], Array(paths)), more))
    ensures DeclareAll(PiNamespace, Field(key, JArray([], Array(paths)), more), report) ==
            DeclareAll(PiNamespace, more, SetPaths(report, key, paths))
  {
    hide Array, AreElements, Strings, SetPaths, Field, DeclareAll, IsPathsKey;
    ArrayIs(paths);
    FieldIs(PiNamespace, key, JArray([], Array(paths)), more, report);
  }

  lemma SurfacesAre(m: Manifest, report: Report)
    ensures AreMembers(Surfaces(m))
    ensures DeclareAll(TopLevel, Surfaces(m), report) ==
            Declared(SetExtensions(SetPaths(SetPaths(report, "skills", m.skillPaths), "prompts", m.promptPaths),
                                   m.extensionPaths), true)
  {
    hide Array, AreElements, Strings, SetPaths, SetExtensions, Field, DeclareAll;
    var skills := SetPaths(report, "skills", m.skillPaths);
    var prompts := SetPaths(skills, "prompts", m.promptPaths);
    NothingDeclared(PiNamespace, prompts);
    PathsFieldIs("prompts", m.promptPaths, NoMembers, skills);
    PathsFieldIs("skills", m.skillPaths, Field("prompts", JArray([], Array(m.promptPaths)), NoMembers), report);
    ArrayIs(m.extensionPaths);
    var extensions := JArray([], Array(m.extensionPaths));
    NothingDeclared(TopLevel, SetExtensions(prompts, m.extensionPaths));
    FieldIs(TopLevel, "extensions", extensions, NoMembers, prompts);
    FieldIs(TopLevel, "pi", JObject([], PiMembers(m)), Field("extensions", extensions, NoMembers), report);
  }

  lemma NothingDeclared(scope: Scope, report: Report)
    ensures AreMembers(NoMembers) && DeclareAll(scope, NoMembers, report) == Declared(report, true)
  {
  }

  lemma ManifestIsDeclared(m: Manifest)
    ensures AreMembers(ManifestMembers(m))
    ensures DeclareAll(TopLevel, ManifestMembers(m), EMPTY) ==
            Declared(Report(m, [UnsupportedSurface("extensions", |m.extensionPaths|)]), true)
  {
    hide Surfaces, TextField, DeclareAll;
    var a := if m.name.None? then EMPTY else SetText(EMPTY, "name", m.name.value);
    var b := if m.version.None? then a else SetText(a, "version", m.version.value);
    var c := if m.description.None? then b else SetText(b, "description", m.description.value);
    SurfacesAre(m, c);
    TextFieldIs("description", m.description, Surfaces(m), b);
    TextFieldIs("version", m.version, TextField("description", m.description, Surfaces(m)), a);
    var behind := TextField("version", m.version, TextField("description", m.description, Surfaces(m)));
    TextFieldIs("name", m.name, behind, EMPTY);
  }

  /** Every manifest is one that some printed object declares. */
  lemma ManifestIsPrintable(m: Manifest)
    ensures
      var ms := ManifestMembers(m);
      && AreMembers(ms) && IsWellTyped(ms) && ManifestOf(Facts(TopLevel, ms)) == m
      && WarningsOf(Facts(TopLevel, ms)) == [UnsupportedSurface("extensions", |m.extensionPaths|)]
  {
    hide DeclareAll, ManifestMembers, Facts, Front, ManifestOf, WarningsOf;
    ManifestIsDeclared(m);
    NothingReported();
    var facts := Facts(TopLevel, ManifestMembers(m));
    DeclareAllIs(TopLevel, ManifestMembers(m), []);
    assert [] + Front(facts) == Front(facts);
  }

  // ----- A late error, shown -----

  function Ascii(text: string): Bytes {
    if text == "" then [] else [AsciiByte(text[0])] + Ascii(text[1..])
  }

  lemma {:induction false} AsciiOfConcat(a: string, b: string)
    ensures Ascii(a + b) == Ascii(a) + Ascii(b)
    decreases |a|
  {
    if a == "" {
      assert a + b == b;
    } else {
      assert (a + b)[1..] == a[1..] + b;
      AsciiOfConcat(a[1..], b);
    }
  }

  predicate IsPlain(text: string) {
    forall i :: 0 <= i < |text| ==> text[i] < 128 as char && text[i] != '"' && text[i] != '\\'
  }

  lemma PlainChar(c: char)
    requires IsPlain([c])
    ensures GlyphText(SpellChar(c)) == Ascii([c])
  {
    assert c == [c][0];
    assert Ascii([c][1..]) == [];
  }

  lemma BodyOfCons(g: Glyph, gs: seq<Glyph>, tail: Bytes)
    ensures PrintBody([g] + gs, tail) == GlyphText(g) + PrintBody(gs, tail)
  {
    hide GlyphText;
    assert ([g] + gs)[1..] == gs;
  }

  lemma {:induction false} PlainBody(text: string, tail: Bytes)
    requires IsPlain(text)
    ensures PrintBody(Spell(text), tail) == Ascii(text) + ([QUOTE] + tail)
  {
    hide GlyphText, PrintBody, SpellChar, Ascii;
    if text == "" {
      NoBody(tail);
    } else {
      PlainBody(text[1..], tail);
      BodyOfCons(SpellChar(text[0]), Spell(text[1..]), tail);
      PlainChar(text[0]);
      AsciiOfConcat([text[0]], text[1..]);
      assert text == [text[0]] + text[1..];
      BytesAssoc(Ascii([text[0]]), Ascii(text[1..]), [QUOTE] + tail);
    }
  }

  lemma NoBody(tail: Bytes)
    ensures PrintBody([], tail) == Ascii("") + ([QUOTE] + tail)
  {
  }

  lemma BytesAssoc(a: Bytes, b: Bytes, c: Bytes)
    ensures a + b + c == a + (b + c)
  {
  }

  lemma AsciiQuoted(text: string, tail: Bytes)
    requires IsPlain(text)
    ensures PrintString(Spell(text), tail) == Ascii("\"" + text + "\"") + tail
  {
    hide PrintBody, Spell, Ascii;
    PlainBody(text, tail);
    AsciiOfConcat("\"" + text, "\"");
    AsciiOfConcat("\"", text);
    AsciiOfQuote();
  }

  lemma AsciiOfQuote()
    ensures Ascii("\"") == [QUOTE] && Ascii(":") == [COLON] && Ascii(",") == [COMMA]
    ensures Ascii("{") == [OPEN_BRACE] && Ascii("1}") == [49, CLOSE_BRACE]
  {
    assert "1}"[1..] == "}";
  }

  function LateErrorMembers(): Members {
    Field("name", JString(Spell("a")), Field("version", JLiteral([49]), NoMembers))
  }

  function LateErrorText(): Bytes {
    Ascii("{\"name\":\"a\",\"version\":1}")
  }

  lemma NoGap(s: Bytes)
    ensures [] + s == s
  {
  }

  lemma PrintedField(key: string, v: Value, more: Members, tail: Bytes)
    ensures PrintMembers(Field(key, v, more), tail) ==
            PrintString(Spell(key), [COLON] + PrintValue(v, MoreMembers(more, tail)))
  {
    hide PrintValue, PrintString, MoreMembers, Spell;
    var value := PrintValue(v, MoreMembers(more, tail));
    NoGap(MoreMembers(more, tail));
    NoGap(value);
    NoGap([COLON] + value);
    NoGap(PrintString(Spell(key), [COLON] + value));
  }

  lemma LateErrorPrint()
    ensures PrintValue(JObject([], LateErrorMembers()), []) ==
            [OPEN_BRACE] + PrintString(Spell("name"), [COLON] + PrintString(Spell("a"), [COMMA] +
              PrintString(Spell("version"), [COLON] + [49, CLOSE_BRACE])))
  {
    hide PrintString, Spell, PrintMembers, Field;
    var version := Field("version", JLiteral([49]), NoMembers);
    var closing := [CLOSE_BRACE] + [];
    FieldIsMember("version", JLiteral([49]), NoMembers);
    FieldIsMember("name", JString(Spell("a")), version);
    PrintedField("version", JLiteral([49]), NoMembers, closing);
    PrintedField("name", JString(Spell("a")), version, closing);
    assert [49] + closing == [49, CLOSE_BRACE];
  }

  lemma FieldIsMember(key: string, v: Value, more: Members)
    ensures Field(key, v, more).Member?
  {
  }

  /** The text in its pieces. */
  lemma LateErrorPieces()
    ensures LateErrorText() ==
      [OPEN_BRACE] + (Ascii("\"name\"") + ([COLON] + (Ascii("\"a\"") + ([COMMA] + (Ascii("\"version\"") +
        ([COLON] + [49, CLOSE_BRACE]))))))
  {
    hide Ascii;
    AsciiOfQuote();
    var a, b, c, d, e, f, g := "{", "\"name\"", ":", "\"a\"", ",", "\"version\"", "1}";
    AsciiOfConcat(c, g);
    AsciiOfConcat(f, c + g);
    AsciiOfConcat(e, f + (c + g));
    AsciiOfConcat(d, e + (f + (c + g)));
    AsciiOfConcat(c, d + (e + (f + (c + g))));
    AsciiOfConcat(b, c + (d + (e + (f + (c + g)))));
    AsciiOfConcat(a, b + (c + (d + (e + (f + (c + g))))));
    assert a + (b + (c + (d + (e + (f + (c + g)))))) == "{\"name\":\"a\",\"version\":1}";
  }

  lemma LateErrorIsPrinted()
    ensures Print(JObject([], LateErrorMembers())) == LateErrorText()
  {
    hide Ascii, Spell, PrintString, PrintValue, LateErrorText;
    LateErrorPrint();
    LateErrorPieces();
    var version := [COLON] + [49, CLOSE_BRACE];
    AsciiQuoted("version", version);
    AsciiQuoted("a", [COMMA] + PrintString(Spell("version"), version));
    AsciiQuoted("name", [COLON] + PrintString(Spell("a"), [COMMA] + PrintString(Spell("version"), version)));
    assert "\"" + "version" + "\"" == "\"version\"";
    assert "\"" + "a" + "\"" == "\"a\"";
    assert "\"" + "name" + "\"" == "\"name\"";
  }

  lemma NameIsKept(name: Fact)
    requires name == Fact(TopLevel, "name", JString(Spell("a")))
    ensures AreFacts([name]) && ReportOf([name]) == EMPTY.(manifest := EMPTY.manifest.(name := Some("a")))
  {
    hide StringValue, Spell;
    SpellIs("a");
    NothingReported();
    assert [] + [name] == [name];
    ManifestOfSnoc([], name);
    WarningsOfSnoc([], name);
  }

  /** The version has the wrong type: the name read in front of it stays in the manifest. */
  lemma LateErrorKeepsName()
    ensures
      var report := ParseText(LateErrorText());
      report.manifest == EMPTY.manifest.(name := Some("a")) && |report.warnings| == 1 && report.warnings[0].Malformed?
  {
    hide PrintValue, ParseText, LateErrorText, StringValue, Spell;
    var ms := LateErrorMembers();
    var name, version := Fact(TopLevel, "name", JString(Spell("a"))), Fact(TopLevel, "version", JLiteral([49]));
    SpellIs("a");
    SpellIs("name");
    SpellIs("version");
    LateErrorIsPrinted();
    assert AreMembers(ms);
    assert Facts(TopLevel, ms) == [name, version];
    assert [name, version][1..] == [version];
    assert Front([name, version]) == [name];
    ObjectIsRead([], [], ms, []);
    assert [] + (Print(JObject([], ms)) + []) == LateErrorText();
    NameIsKept(name);
  }
}
