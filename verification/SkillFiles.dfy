/**
 What a skill file says (`collect` in crates/rupi-compat/src/skill.rs): which fields make a skill,
 what is warned about, and that a file printed with the fields of a skill is found as that skill.
 */
module SkillFiles {
  import opened Text
  import opened Frontmatter
  import opened FrontmatterPrint
  import SkillScan

  // ----- Words -----

  /** White space, and a word behind it. */
  datatype Spaced = Spaced(gap: string, word: string)

  predicate IsWord(word: string) {
    word != "" && forall i :: 0 <= i < |word| ==> !IsWhitespace(word[i])
  }

  predicate IsGap(gap: string) {
    forall i :: 0 <= i < |gap| ==> IsWhitespace(gap[i])
  }

  /** Words with white space between them, in front of them perhaps, and behind them perhaps. */
  predicate AreSpaced(items: seq<Spaced>) {
    forall i :: 0 <= i < |items| ==> IsGap(items[i].gap) && IsWord(items[i].word) && (i > 0 ==> items[i].gap != "")
  }

  function Layout(items: seq<Spaced>): string {
    if items == [] then "" else items[0].gap + (items[0].word + Layout(items[1..]))
  }

  function WordsOf(items: seq<Spaced>): seq<string> {
    if items == [] then [] else [items[0].word] + WordsOf(items[1..])
  }

  function InWord(word: string): seq<string> {
    if word == "" then [] else [word]
  }

  lemma {:induction false} WordsBehindGap(gap: string, text: string, word: string)
    requires IsGap(gap) && gap != ""
    ensures SkillScan.Words(gap + text, word) == InWord(word) + SkillScan.Words(text, "")
  {
    hide IsWhitespace;
    assert (gap + text)[1..] == gap[1..] + text;
    if gap[1..] == "" {
      assert gap[1..] + text == text;
    } else {
      WordsBehindGap(gap[1..], text, "");
    }
  }

  lemma {:induction false} WordsInWord(more: string, text: string, word: string)
    requires forall i :: 0 <= i < |more| ==> !IsWhitespace(more[i])
    ensures SkillScan.Words(more + text, word) == SkillScan.Words(text, word + more)
    decreases |more|
  {
    hide IsWhitespace;
    if more == "" {
      assert more + text == text && word + more == word;
    } else {
      assert (more + text)[1..] == more[1..] + text;
      WordsInWord(more[1..], text, word + [more[0]]);
      assert word + [more[0]] + more[1..] == word + more;
    }
  }

  /** A text reads as the words it is laid out with, whatever the white space. */
  lemma {:induction false} WordsOfLayout(items: seq<Spaced>, end: string, word: string)
    requires AreSpaced(items) && IsGap(end) && (word != "" && items != [] ==> items[0].gap != "")
    ensures SkillScan.Words(Layout(items) + end, word) == InWord(word) + WordsOf(items)
    decreases |items|
  {
    hide IsWhitespace, SkillScan.Words, IsGap;
    if items == [] {
      assert Layout(items) + end == end;
      WordsEnd(end, word);
    } else {
      var rest := Layout(items[1..]) + end;
      assert Layout(items) + end == items[0].gap + (items[0].word + rest);
      if items[0].gap != "" {
        WordsBehindGap(items[0].gap, items[0].word + rest, word);
        WordsInWord(items[0].word, rest, "");
        assert "" + items[0].word == items[0].word;
      } else {
        assert items[0].gap + (items[0].word + rest) == items[0].word + rest;
        WordsInWord(items[0].word, rest, word);
        assert word == "" && word + items[0].word == items[0].word;
      }
      WordsOfLayout(items[1..], end, items[0].word);
    }
  }

  lemma WordsEnd(end: string, word: string)
    requires IsGap(end)
    ensures SkillScan.Words(end, word) == InWord(word)
  {
    hide IsWhitespace;
    if end != "" {
      WordsBehindGap(end, "", word);
      assert end + "" == end;
    }
  }

  lemma GapGrows(items: seq<Spaced>, end: string, c: char) returns (more: seq<Spaced>, behind: string)
    requires AreSpaced(items) && IsGap(end) && IsWhitespace(c)
    ensures AreSpaced(more) && IsGap(behind) && Layout(more) + behind == [c] + (Layout(items) + end)
  {
    hide IsWhitespace;
    if items == [] {
      more, behind := [], [c] + end;
      assert Layout(items) + end == end && Layout(more) + behind == behind;
    } else {
      more, behind := [Spaced([c] + items[0].gap, items[0].word)] + items[1..], end;
      assert more[1..] == items[1..];
      assert Layout(more) == [c] + Layout(items);
    }
  }

  lemma WordGrows(items: seq<Spaced>, end: string, c: char) returns (more: seq<Spaced>)
    requires AreSpaced(items) && IsGap(end) && !IsWhitespace(c)
    ensures AreSpaced(more) && Layout(more) + end == [c] + (Layout(items) + end)
  {
    hide IsWhitespace;
    if items != [] && items[0].gap == "" {
      more := [Spaced("", [c] + items[0].word)] + items[1..];
      assert more[1..] == items[1..];
      assert Layout(more) == [c] + Layout(items);
    } else {
      more := [Spaced("", [c])] + items;
      assert more[1..] == items;
      assert Layout(more) == [c] + Layout(items);
    }
  }

  /** Every text is such a layout, so that no text reads otherwise. */
  lemma {:induction false} LayoutOfText(text: string) returns (items: seq<Spaced>, end: string)
    ensures AreSpaced(items) && IsGap(end) && Layout(items) + end == text
    ensures SkillScan.Words(text, "") == WordsOf(items)
  {
    hide AreSpaced, IsGap, SkillScan.Words, IsWhitespace;
    if text == "" {
      items, end := [], "";
      assert AreSpaced(items) && IsGap(end) by { NothingSpaced(); }
    } else {
      items, end := LayoutOfText(text[1..]);
      if IsWhitespace(text[0]) {
        items, end := GapGrows(items, end, text[0]);
      } else {
        items := WordGrows(items, end, text[0]);
      }
      assert text == [text[0]] + text[1..];
    }
    WordsOfLayout(items, end, "");
  }

  lemma NothingSpaced()
    ensures AreSpaced([]) && IsGap("")
  {
  }

  // ----- Which files are skills -----

  /** The field of that name without the white space around it. */
  function Trimmed(fields: Fields, key: string): string {
    if key in fields then Trim(fields[key]) else ""
  }

  predicate Holds(text: Option<string>, value: string) {
    match text
    case None => value == ""
    case Some(t) => t == value && value != ""
  }

  /** The skill a file declares. */
  predicate IsSkill(s: SkillScan.Skill, fields: Fields, path: SkillScan.Path, origin: SkillScan.Origin) {
    && s.name == Trimmed(fields, "name") && s.description == Trimmed(fields, "description")
    && s.path == path && s.origin == origin
    && Holds(s.license, Trimmed(fields, "license")) && Holds(s.compatibility, Trimmed(fields, "compatibility"))
    && s.allowedTools == (if "allowed-tools" in fields then SkillScan.Words(fields["allowed-tools"], "") else [])
    && (s.disableModelInvocation <==>
          "disable-model-invocation" in fields && fields["disable-model-invocation"] == "true")
  }

  /** What the warnings about a file are, one by one. */
  predicate IsWarned(w: SkillScan.Warning, path: SkillScan.Path, text: Option<string>) {
    match w
    case Unreadable(p) => p == path && text.None?
    case MalformedFrontmatter(p) => p == path && text.Some? && ExtractFrom(text.value).Unterminated?
    case MissingName(p) =>
      && p == path && text.Some? && ExtractFrom(text.value).Found?
      && Trimmed(ExtractFrom(text.value).fields, "name") == ""
    case MissingDescription(p) => p == path && IsNamed(text) && Described(text) == ""
    case DescriptionTooLong(p, name) => p == path && IsNamed(text) && name == NameIn(text) && |Described(text)| > 1_024
    case NameTooLong(_, _) => IsNamed(text) && w in SkillScan.CheckName(path, NameIn(text))
    case InvalidName(_, _, _) => IsNamed(text) && w in SkillScan.CheckName(path, NameIn(text))
    case _ => false
  }

  predicate IsNamed(text: Option<string>) {
    text.Some? && ExtractFrom(text.value).Found? && Trimmed(ExtractFrom(text.value).fields, "name") != ""
  }

  function NameIn(text: Option<string>): string
    requires IsNamed(text)
  {
    Trimmed(ExtractFrom(text.value).fields, "name")
  }

  function Described(text: Option<string>): string
    requires IsNamed(text)
  {
    Trimmed(ExtractFrom(text.value).fields, "description")
  }

  lemma NameWarnings(path: SkillScan.Path, name: string, w: SkillScan.Warning)
    ensures w in SkillScan.CheckName(path, name) ==> w.NameTooLong? || w.InvalidName?
    ensures |SkillScan.CheckName(path, name)| <= 1
  {
    hide SkillScan.HasDoubleHyphen, SkillScan.IsNameChar;
  }

  /** A file is a skill exactly when its block has a name and a description; the warnings are for its faults. */
  lemma FileIs(path: SkillScan.Path, text: Option<string>, origin: SkillScan.Origin, w: SkillScan.Warning)
    ensures
      var (skill, warnings) := SkillScan.Examine(path, text, origin);
      && (skill.Some? <==> IsNamed(text) && Described(text) != "")
      && (skill.Some? ==> IsSkill(skill.value, ExtractFrom(text.value).fields, path, origin))
      && (w in warnings <==> IsWarned(w, path, text)) && |warnings| <= 2
  {
    hide ExtractFrom, Trim, SkillScan.CheckName, SkillScan.Words;
    if IsNamed(text) { NameWarnings(path, NameIn(text), w); }
  }

  /** A file printed with any fields, before any body, is found as the skill they declare. */
  lemma PrintedSkillIsFound(
    values: seq<(string, string)>, body: string, path: SkillScan.Path, origin: SkillScan.Origin)
    requires forall i :: 0 <= i < |values| ==> IsKey(values[i].0)
    ensures
      var fields := MapOfValues(values);
      var skill := SkillScan.Examine(path, Some(Print(Quoted(values), body)), origin).0;
      && (skill.Some? <==> Trimmed(fields, "name") != "" && Trimmed(fields, "description") != "")
      && (skill.Some? ==> IsSkill(skill.value, fields, path, origin))
  {
    hide ExtractFrom, Trimmed, IsSkill, Print, MapOfValues, SkillScan.Examine, IsKey, Strip, IsUnbroken;
    RoundTrip(values, body);
    FileIs(path, Some(Print(Quoted(values), body)), origin, SkillScan.Unreadable(path));
  }

  // ----- A skill found, shown -----

  /** A location with a directory in it that holds a skill file, and one more file that is none. */
  function Disk(text: string): SkillScan.Disk {
    [ SkillScan.Directory(true, [SkillScan.Entry("notes.txt", 3), SkillScan.Entry("greet", 1)]),
      SkillScan.Directory(true, [SkillScan.Entry("SKILL.md", 2)]), SkillScan.File(Some(text)), SkillScan.File(None) ]
  }

  lemma GreetIsVisited(text: string, origin: SkillScan.Origin)
    ensures SkillScan.AllVisits(Disk(text), [SkillScan.Location(0, ["skills"], SkillScan.DotPi, origin)]) ==
            [SkillScan.Candidate(["skills", "greet", "SKILL.md"], Some(text), origin)]
  {
    hide SkillScan.Visits;
    var place := SkillScan.Location(0, ["skills"], SkillScan.DotPi, origin);
    var w := SkillScan.Walk(Disk(text), SkillScan.DotPi, origin);
    GreetIsWalked(text, w);
    assert SkillScan.PlaceVisits(Disk(text), place) == SkillScan.Visits(w, 0, ["skills"], 0);
    assert [place][1..] == [];
    assert SkillScan.AllVisits(Disk(text), []) == [];
  }

  lemma GreetIsWalked(text: string, w: SkillScan.Walk)
    requires w.disk == Disk(text)
    ensures SkillScan.Visits(w, 0, ["skills"], 0) ==
            [SkillScan.Candidate(["skills", "greet", "SKILL.md"], Some(text), w.origin)]
  {
    hide SkillScan.Sorted, SkillScan.EntryVisits;
    var notes, greet := SkillScan.Entry("notes.txt", 3), SkillScan.Entry("greet", 1);
    GreetIsFirst();
    GreetEntries(text, w);
    assert [greet, notes][1..] == [notes] && [notes][1..] == [];
    assert SkillScan.EntriesVisits(w, [notes], ["skills"], 0) == [];
  }

  lemma GreetEntries(text: string, w: SkillScan.Walk)
    requires w.disk == Disk(text)
    ensures SkillScan.EntryVisits(w, SkillScan.Entry("notes.txt", 3), ["skills"], 0) == []
    ensures SkillScan.EntryVisits(w, SkillScan.Entry("greet", 1), ["skills"], 0) ==
            [SkillScan.Candidate(["skills", "greet", "SKILL.md"], Some(text), w.origin)]
  {
    hide SkillScan.Visits;
    assert "notes.txt"[6..][0] == 't';
    assert SkillScan.Find([SkillScan.Entry("SKILL.md", 2)], "SKILL.md") == Some(2);
    assert ["skills"] + ["greet", "SKILL.md"] == ["skills", "greet", "SKILL.md"];
  }

  lemma GreetIsFirst()
    ensures SkillScan.Sorted([SkillScan.Entry("notes.txt", 3), SkillScan.Entry("greet", 1)]) ==
            [SkillScan.Entry("greet", 1), SkillScan.Entry("notes.txt", 3)]
  {
    var notes, greet := SkillScan.Entry("notes.txt", 3), SkillScan.Entry("greet", 1);
    assert [notes, greet][1..] == [greet] && [greet][1..] == [];
    assert SkillScan.Sorted([greet]) == [greet];
    assert !Precedes("notes.txt", "greet");
  }

  const GREETING := [("name", "greet"), ("description", "Say hello")]

  lemma SolidIsTrimmed(text: string)
    requires text != "" && !IsWhitespace(text[0]) && !IsWhitespace(text[|text| - 1])
    ensures Trim(text) == text
  {
  }

  lemma GreetingKeys()
    ensures forall i :: 0 <= i < |GREETING| ==> IsKey(GREETING[i].0)
  {
    hide Trim;
    SolidIsTrimmed("name");
    SolidIsTrimmed("description");
  }

  lemma GreetingIs()
    ensures
      var fields := MapOfValues(GREETING);
      && Trimmed(fields, "name") == "greet" && Trimmed(fields, "description") == "Say hello"
      && Trimmed(fields, "license") == "" && Trimmed(fields, "compatibility") == ""
      && "allowed-tools" !in fields && "disable-model-invocation" !in fields
  {
    hide Trim;
    SolidIsTrimmed("greet");
    SolidIsTrimmed("Say hello");
    assert GREETING[1..] == [("description", "Say hello")] && GREETING[1..][1..] == [];
    assert MapOfValues(GREETING) == map["name" := "greet"] + (map["description" := "Say hello"] + map[]);
  }

  lemma GreetIsStandard(path: SkillScan.Path)
    ensures SkillScan.CheckName(path, "greet") == []
  {
    SkillScan.CheckNameIs(path, "greet");
  }

  lemma NothingIsWarned(path: SkillScan.Path, text: string, origin: SkillScan.Origin)
    requires IsNamed(Some(text)) && NameIn(Some(text)) == "greet" && Described(Some(text)) == "Say hello"
    ensures SkillScan.Examine(path, Some(text), origin).1 == []
  {
    hide SkillScan.Examine, ExtractFrom, SkillScan.CheckName;
    GreetIsStandard(path);
    var warnings := SkillScan.Examine(path, Some(text), origin).1;
    forall w ensures w !in warnings {
      FileIs(path, Some(text), origin, w);
    }
    FirstIsIn(warnings);
  }

  lemma FirstIsIn(warnings: seq<SkillScan.Warning>)
    ensures warnings == [] || warnings[0] in warnings
  {
  }

  lemma OneCandidate(path: SkillScan.Path, text: string, origin: SkillScan.Origin)
    requires SkillScan.Examine(path, Some(text), origin).0.Some?
    ensures
      var scan := SkillScan.Absorbed(SkillScan.EMPTY, [SkillScan.Candidate(path, Some(text), origin)]);
      && scan.skills == [SkillScan.Examine(path, Some(text), origin).0.value]
      && scan.warnings == SkillScan.Examine(path, Some(text), origin).1
  {
    hide SkillScan.Examine;
    SkillScan.AbsorbedOfOne(SkillScan.EMPTY, SkillScan.Candidate(path, Some(text), origin));
  }

  /** A printed skill in its directory is what a scan of the location finds. */
  lemma SkillShown(origin: SkillScan.Origin)
    ensures
      var text := Print(Quoted(GREETING), "Hello");
      var scan := SkillScan.Absorbed(SkillScan.EMPTY, SkillScan.AllVisits(Disk(text), [
        SkillScan.Location(0, ["skills"], SkillScan.DotPi, origin)]));
      && scan.warnings == []
      && scan.skills == [SkillScan.Skill("greet", "Say hello", ["skills", "greet", "SKILL.md"], origin, None, None, [],
                                         false)]
  {
    hide Print, Quoted, SkillScan.Absorbed, SkillScan.AllVisits, SkillScan.Examine, MapOfValues, Trimmed, ExtractFrom,
         IsKey, Strip, IsUnbroken;
    var text, path := Print(Quoted(GREETING), "Hello"), ["skills", "greet", "SKILL.md"];
    GreetIsVisited(text, origin);
    GreetingKeys();
    GreetingIs();
    RoundTrip(GREETING, "Hello");
    PrintedSkillIsFound(GREETING, "Hello", path, origin);
    NothingIsWarned(path, text, origin);
    OneCandidate(path, text, origin);
  }
}
