/**
 Finding skills (crates/rupi-compat/src/skill.rs): a walk over directories that may hold
 links back to themselves, in which the first skill of a name wins.
 */
module SkillScan {
  import opened Text
  import Frontmatter

  const MAX_NAME_CHARS := 64
  const MAX_DESCRIPTION_CHARS := 1024
  const MAX_DEPTH := 8
  const SKILL_FILE := "SKILL.md"

  // ----- What is on disk -----

  type Path = seq<string>

  /** A name in a directory; links are followed, so that it leads to any node. */
  datatype Entry = Entry(name: string, target: nat)

  datatype Node =
    | Directory(readable: bool, entries: seq<Entry>)
    | File(text: Option<string>)
    | Special

  type Disk = seq<Node>

  /** A target that is not there is neither a file nor a directory. */
  function NodeAt(disk: Disk, id: nat): Node {
    if id < |disk| then disk[id] else Special
  }

  function Find(entries: seq<Entry>, name: string): Option<nat> {
    if entries == [] then None
    else if entries[0].name == name then Some(entries[0].target)
    else Find(entries[1..], name)
  }

  /** The text of the skill file of a directory, when it has one. */
  function SkillFile(disk: Disk, node: Node): Option<Option<string>>
    requires node.Directory?
  {
    match Find(node.entries, SKILL_FILE)
    case None => None
    case Some(id) =>
      match NodeAt(disk, id)
      case File(text) => Some(text)
      case _ => None
  }

  // ----- Sorting by name -----

  function Insert(e: Entry, sorted: seq<Entry>): seq<Entry> {
    if sorted == [] || Precedes(e.name, sorted[0].name) then [e] + sorted
    else [sorted[0]] + Insert(e, sorted[1..])
  }

  function Sorted(entries: seq<Entry>): seq<Entry> {
    if entries == [] then [] else Insert(entries[0], Sorted(entries[1..]))
  }

  // ----- Skills and warnings -----

  datatype Source = Global | Project

  datatype Origin = Origin(source: Source, package: Option<string>)

  datatype Skill = Skill(
    name: string, description: string, path: Path, origin: Origin,
    license: Option<string>, compatibility: Option<string>,
    allowedTools: seq<string>, disableModelInvocation: bool)

  datatype NameFault = Spelling | OuterHyphen | DoubleHyphen

  datatype Warning =
    | MissingName(path: Path)
    | MissingDescription(path: Path)
    | MalformedFrontmatter(path: Path)
    | InvalidName(path: Path, name: string, reason: NameFault)
    | NameTooLong(path: Path, name: string)
    | DescriptionTooLong(path: Path, name: string)
    | Duplicate(name: string, kept: Path, ignored: Path)
    | Unreadable(path: Path)
    | TooDeep(path: Path)

  predicate IsNameChar(c: char) {
    'a' <= c <= 'z' || '0' <= c <= '9' || c == '-'
  }

  predicate HasDoubleHyphen(name: string) {
    name != "" && (Starts(name, "--") || HasDoubleHyphen(name[1..]))
  }

  function CheckName(path: Path, name: string): seq<Warning> {
    if |name| > MAX_NAME_CHARS then [NameTooLong(path, name)]
    else if exists i :: 0 <= i < |name| && !IsNameChar(name[i]) then [InvalidName(path, name, Spelling)]
    else if name != "" && (name[0] == '-' || name[|name| - 1] == '-') then [InvalidName(path, name, OuterHyphen)]
    else if HasDoubleHyphen(name) then [InvalidName(path, name, DoubleHyphen)]
    else []
  }

  /** A small letter, a digit or a hyphen, by its number in ASCII. */
  predicate IsStandardChar(c: char) {
    97 <= c as int <= 122 || 48 <= c as int <= 57 || c as int == 45
  }

  /** A name as the standard spells it. */
  ghost predicate IsStandardName(name: string) {
    && |name| <= 64
    && (forall i :: 0 <= i < |name| ==> IsStandardChar(name[i]))
    && (name != "" ==> name[0] != '-' && name[|name| - 1] != '-')
    && forall i :: 0 < i < |name| ==> name[i - 1] != '-' || name[i] != '-'
  }

  lemma {:induction false} DoubleHyphenIs(name: string)
    ensures HasDoubleHyphen(name) <==> exists i :: 0 < i < |name| && name[i - 1] == '-' && name[i] == '-'
  {
    if name != "" {
      var rest := name[1..];
      DoubleHyphenIs(rest);
      if Starts(name, "--") {
        assert name[..2][0] == '-' && name[..2][1] == '-';
        assert name[1 - 1] == '-' && name[1] == '-';
      }
      if i :| 0 < i < |rest| && rest[i - 1] == '-' && rest[i] == '-' {
        assert name[i + 1 - 1] == '-' && name[i + 1] == '-';
      }
      if i :| 0 < i < |name| && name[i - 1] == '-' && name[i] == '-' {
        if i == 1 {
          assert name[..2] == "--";
        } else {
          assert rest[i - 1 - 1] == '-' && rest[i - 1] == '-';
        }
      }
    }
  }

  /** A name is warned about exactly when it is not as the standard spells it, once, and for its first fault. */
  lemma CheckNameIs(path: Path, name: string)
    ensures
      var w := CheckName(path, name);
      var spelled := forall i :: 0 <= i < |name| ==> IsStandardChar(name[i]);
      && (w == [] <==> IsStandardName(name)) && |w| <= 1
      && (w == [NameTooLong(path, name)] <==> |name| > 64)
      && (w == [InvalidName(path, name, Spelling)] <==> |name| <= 64 && !spelled)
      && (w == [InvalidName(path, name, OuterHyphen)] <==>
            |name| <= 64 && spelled && name != "" && (name[0] == '-' || name[|name| - 1] == '-'))
      && (w == [InvalidName(path, name, DoubleHyphen)] <==>
            && |name| <= 64 && spelled && (name != "" ==> name[0] != '-' && name[|name| - 1] != '-')
            && !IsStandardName(name))
  {
    DoubleHyphenIs(name);
    assert forall c :: IsNameChar(c) <==> IsStandardChar(c);
  }

  function Field(fields: Frontmatter.Fields, key: string): string {
    if key in fields then Trim(fields[key]) else ""
  }

  function NonEmpty(text: string): Option<string> {
    if text == "" then None else Some(text)
  }

  /** The words between white space. */
  function Words(text: string, word: string): seq<string> {
    if text == "" then (if word == "" then [] else [word])
    else if IsWhitespace(text[0]) then (if word == "" then [] else [word]) + Words(text[1..], "")
    else Words(text[1..], word + [text[0]])
  }

  function SkillOf(fields: Frontmatter.Fields, path: Path, origin: Origin): Skill {
    Skill(
      Field(fields, "name"), Field(fields, "description"), path, origin,
      NonEmpty(Field(fields, "license")), NonEmpty(Field(fields, "compatibility")),
      if "allowed-tools" in fields then Words(fields["allowed-tools"], "") else [],
      "disable-model-invocation" in fields && fields["disable-model-invocation"] == "true")
  }

  /** What a candidate file holds, whatever was found before it: perhaps a skill, and warnings. */
  function Examine(path: Path, text: Option<string>, origin: Origin): (Option<Skill>, seq<Warning>) {
    match text
    case None => (None, [Unreadable(path)])
    case Some(text) =>
      match Frontmatter.ExtractFrom(text)
      case Absent => (None, [])
      case Unterminated => (None, [MalformedFrontmatter(path)])
      case Found(fields) => ExamineSkill(SkillOf(fields, path, origin))
  }

  function ExamineSkill(skill: Skill): (Option<Skill>, seq<Warning>) {
    if skill.name == "" then (None, [MissingName(skill.path)])
    else
      var warnings := CheckName(skill.path, skill.name);
      if skill.description == "" then (None, warnings + [MissingDescription(skill.path)])
      else if |skill.description| > MAX_DESCRIPTION_CHARS then
        (Some(skill), warnings + [DescriptionTooLong(skill.path, skill.name)])
      else (Some(skill), warnings)
  }

  // ----- The walk -----

  datatype Family = DotPi | Agents

  predicate Accepts(family: Family, atRoot: bool) {
    match family
    case DotPi => atRoot
    case Agents => !atRoot
  }

  /** What a walk comes by, in order. */
  datatype Event =
    | Candidate(path: Path, text: Option<string>, origin: Origin)
    | Closed(path: Path)
    | Bottom(path: Path)

  predicate EndsWithMd(name: string) {
    |name| >= 3 && name[|name| - 3..] == ".md"
  }

  /** The settings a walk hands down. */
  datatype Walk = Walk(disk: Disk, family: Family, origin: Origin)

  function Visits(w: Walk, dir: nat, path: Path, depth: nat): seq<Event>
    decreases MAX_DEPTH + 1 - depth, 2, 0
  {
    if depth > MAX_DEPTH then [Bottom(path)]
    else
      match NodeAt(w.disk, dir)
      case Directory(true, entries) => EntriesVisits(w, Sorted(entries), path, depth)
      case _ => [Closed(path)]
  }

  function EntriesVisits(w: Walk, entries: seq<Entry>, path: Path, depth: nat): seq<Event>
    requires depth <= MAX_DEPTH
    decreases MAX_DEPTH + 1 - depth, 1, |entries|
  {
    if entries == [] then []
    else EntryVisits(w, entries[0], path, depth) + EntriesVisits(w, entries[1..], path, depth)
  }

  function EntryVisits(w: Walk, entry: Entry, path: Path, depth: nat): seq<Event>
    requires depth <= MAX_DEPTH
    decreases MAX_DEPTH + 1 - depth, 0, 0
  {
    var node := NodeAt(w.disk, entry.target);
    match node
    case Directory(_, _) =>
      (match SkillFile(w.disk, node)
       case Some(text) => [Candidate(path + [entry.name, SKILL_FILE], text, w.origin)]
       case None => Visits(w, entry.target, path + [entry.name], depth + 1))
    case File(text) =>
      if entry.name == SKILL_FILE || (EndsWithMd(entry.name) && Accepts(w.family, depth == 0)) then
        [Candidate(path + [entry.name], text, w.origin)]
      else []
    case Special => []
  }

  /** A place the scan looks at: a location that may be missing, or a path that somebody declared. */
  datatype Place =
    | Location(target: nat, path: Path, family: Family, origin: Origin)
    | Declared(target: nat, path: Path, origin: Origin)

  function PlaceVisits(disk: Disk, place: Place): seq<Event> {
    var node := NodeAt(disk, place.target);
    match place
    case Location(target, path, family, origin) =>
      if node.Directory? then Visits(Walk(disk, family, origin), target, path, 0) else []
    case Declared(target, path, origin) =>
      match node
      case Directory(_, _) =>
        (match SkillFile(disk, node)
         case Some(text) => [Candidate(path + [SKILL_FILE], text, origin)]
         case None => Visits(Walk(disk, DotPi, origin), target, path, 0))
      case File(text) => [Candidate(path, text, origin)]
      case Special => [Closed(path)]
  }

  function AllVisits(disk: Disk, places: seq<Place>): seq<Event> {
    if places == [] then [] else PlaceVisits(disk, places[0]) + AllVisits(disk, places[1..])
  }

  // ----- Collecting -----

  datatype Scan = Scan(skills: seq<Skill>, warnings: seq<Warning>, names: set<string>)

  const EMPTY := Scan([], [], {})

  function FirstNamed(skills: seq<Skill>, name: string): Option<Skill> {
    if skills == [] then None
    else if skills[0].name == name then Some(skills[0])
    else FirstNamed(skills[1..], name)
  }

  function PathNamed(skills: seq<Skill>, name: string): Path {
    match FirstNamed(skills, name)
    case Some(skill) => skill.path
    case None => []
  }

  function Collected(scan: Scan, path: Path, text: Option<string>, origin: Origin): Scan {
    var (skill, warnings) := Examine(path, text, origin);
    Added(scan, skill, warnings)
  }

  function Added(scan: Scan, skill: Option<Skill>, warnings: seq<Warning>): Scan {
    match skill
    case None => scan.(warnings := scan.warnings + warnings)
    case Some(s) =>
      if s.name in scan.names then
        scan.(warnings := scan.warnings + warnings + [Duplicate(s.name, PathNamed(scan.skills, s.name), s.path)])
      else
        Scan(scan.skills + [s], scan.warnings + warnings, scan.names + {s.name})
  }

  function Absorb(scan: Scan, event: Event): Scan {
    match event
    case Candidate(path, text, origin) => Collected(scan, path, text, origin)
    case Closed(path) => scan.(warnings := scan.warnings + [Unreadable(path)])
    case Bottom(path) => scan.(warnings := scan.warnings + [TooDeep(path)])
  }

  function Absorbed(scan: Scan, events: seq<Event>): Scan
    decreases |events|
  {
    if events == [] then scan else Absorbed(Absorb(scan, events[0]), events[1..])
  }

  lemma {:induction false} AbsorbedOfConcat(scan: Scan, a: seq<Event>, b: seq<Event>)
    ensures Absorbed(scan, a + b) == Absorbed(Absorbed(scan, a), b)
    decreases |a|
  {
    hide Absorb;
    if a == [] {
      assert a + b == b;
    } else {
      AbsorbedOfConcat(Absorb(scan, a[0]), a[1..], b);
      assert (a + b)[1..] == a[1..] + b;
    }
  }

  lemma AbsorbedOfOne(scan: Scan, event: Event)
    ensures Absorbed(scan, [event]) == Absorb(scan, event)
  {
    hide Absorb;
    assert [event][1..] == [];
    assert Absorbed(Absorb(scan, event), []) == Absorb(scan, event);
  }

  class Scanner {
    var skills: seq<Skill>
    var warnings: seq<Warning>
    var names: set<string>

    constructor ()
      ensures State() == EMPTY
    {
      skills, warnings, names := [], [], {};
    }

    ghost function State(): Scan
      reads this
    {
      Scan(skills, warnings, names)
    }

    method Collect(path: Path, text: Option<string>, origin: Origin)
      modifies this
      ensures State() == Collected(old(State()), path, text, origin)
    {
      hide ExamineSkill, SkillOf, Frontmatter.ExtractFrom;
      if text.None? {
        warnings := warnings + [Unreadable(path)];
        return;
      }
      var extracted := Frontmatter.ExtractText(text.value);
      match extracted
      case Absent =>
        assert State() == Collected(State(), path, text, origin);
      case Unterminated =>
        warnings := warnings + [MalformedFrontmatter(path)];
      case Found(fields) =>
        CollectSkill(SkillOf(fields, path, origin));
    }

    method CollectSkill(skill: Skill)
      modifies this
      ensures State() == Added(old(State()), ExamineSkill(skill).0, ExamineSkill(skill).1)
    {
      hide CheckName, PathNamed;
      if skill.name == "" {
        warnings := warnings + [MissingName(skill.path)];
        return;
      }
      warnings := warnings + CheckName(skill.path, skill.name);
      if skill.description == "" {
        warnings := warnings + [MissingDescription(skill.path)];
        return;
      }
      if |skill.description| > MAX_DESCRIPTION_CHARS {
        warnings := warnings + [DescriptionTooLong(skill.path, skill.name)];
      }
      if skill.name in names {
        warnings := warnings + [Duplicate(skill.name, PathNamed(skills, skill.name), skill.path)];
        return;
      }
      names := names + {skill.name};
      skills := skills + [skill];
    }

    method WalkDirectory(w: Walk, dir: nat, path: Path, depth: nat)
      modifies this
      ensures State() == Absorbed(old(State()), Visits(w, dir, path, depth))
      decreases MAX_DEPTH + 1 - depth, 1
    {
      hide Absorbed, Collected, EntryVisits, Sorted;
      if depth > MAX_DEPTH {
        AbsorbedOfOne(State(), Bottom(path));
        warnings := warnings + [TooDeep(path)];
        return;
      }
      var node := NodeAt(w.disk, dir);
      if !node.Directory? || !node.readable {
        AbsorbedOfOne(State(), Closed(path));
        warnings := warnings + [Unreadable(path)];
        return;
      }
      var entries := Sorted(node.entries);
      ghost var start := State();
      var i := 0;
      assert entries[0..] == entries;
      while i < |entries|
        invariant i <= |entries|
        invariant Absorbed(start, EntriesVisits(w, entries, path, depth)) ==
                  Absorbed(State(), EntriesVisits(w, entries[i..], path, depth))
      {
        EntriesVisitsStep(w, entries, i, path, depth);
        AbsorbedOfConcat(
          State(), EntryVisits(w, entries[i], path, depth), EntriesVisits(w, entries[i + 1..], path, depth));
        WalkEntry(w, entries[i], path, depth);
        i := i + 1;
      }
      AbsorbedOfNothing(State(), w, entries[i..], path, depth);
    }

    method WalkEntry(w: Walk, entry: Entry, path: Path, depth: nat)
      requires depth <= MAX_DEPTH
      modifies this
      ensures State() == Absorbed(old(State()), EntryVisits(w, entry, path, depth))
      decreases MAX_DEPTH + 1 - depth, 0
    {
      hide Absorbed, Collected, Visits;
      var node := NodeAt(w.disk, entry.target);
      match node
      case Directory(_, _) =>
        var skillFile := SkillFile(w.disk, node);
        if skillFile.Some? {
          AbsorbedOfOne(State(), Candidate(path + [entry.name, SKILL_FILE], skillFile.value, w.origin));
          Collect(path + [entry.name, SKILL_FILE], skillFile.value, w.origin);
        } else {
          WalkDirectory(w, entry.target, path + [entry.name], depth + 1);
        }
      case File(text) =>
        if entry.name == SKILL_FILE || (EndsWithMd(entry.name) && Accepts(w.family, depth == 0)) {
          AbsorbedOfOne(State(), Candidate(path + [entry.name], text, w.origin));
          Collect(path + [entry.name], text, w.origin);
        } else {
          AbsorbedOfNone(State());
        }
      case Special =>
        AbsorbedOfNone(State());
    }

    method Visit(disk: Disk, place: Place)
      modifies this
      ensures State() == Absorbed(old(State()), PlaceVisits(disk, place))
    {
      hide Absorbed, Collected, Visits;
      var node := NodeAt(disk, place.target);
      match place
      case Location(target, path, family, origin) =>
        if node.Directory? {
          WalkDirectory(Walk(disk, family, origin), target, path, 0);
        } else {
          AbsorbedOfNone(State());
        }
      case Declared(target, path, origin) =>
        match node
        case Directory(_, _) =>
          var skillFile := SkillFile(disk, node);
          if skillFile.Some? {
            AbsorbedOfOne(State(), Candidate(path + [SKILL_FILE], skillFile.value, origin));
            Collect(path + [SKILL_FILE], skillFile.value, origin);
          } else {
            WalkDirectory(Walk(disk, DotPi, origin), target, path, 0);
          }
        case File(text) =>
          AbsorbedOfOne(State(), Candidate(path, text, origin));
          Collect(path, text, origin);
        case Special =>
          AbsorbedOfOne(State(), Closed(path));
          warnings := warnings + [Unreadable(path)];
    }
  }

  /** Looking at all places in their order. */
  method Discover(disk: Disk, places: seq<Place>) returns (skills: seq<Skill>, warnings: seq<Warning>)
    ensures var scan := Absorbed(EMPTY, AllVisits(disk, places)); skills == scan.skills && warnings == scan.warnings
  {
    hide Absorbed, PlaceVisits;
    var scanner := new Scanner();
    var i := 0;
    assert places[0..] == places;
    while i < |places|
      invariant i <= |places|
      invariant Absorbed(EMPTY, AllVisits(disk, places)) == Absorbed(scanner.State(), AllVisits(disk, places[i..]))
    {
      assert places[i..][1..] == places[i + 1..];
      AbsorbedOfConcat(scanner.State(), PlaceVisits(disk, places[i]), AllVisits(disk, places[i + 1..]));
      scanner.Visit(disk, places[i]);
      i := i + 1;
    }
    assert AllVisits(disk, places[i..]) == [];
    AbsorbedOfNone(scanner.State());
    skills, warnings := scanner.skills, scanner.warnings;
  }

  lemma AbsorbedOfNone(scan: Scan)
    ensures Absorbed(scan, []) == scan
  {
  }

  lemma AbsorbedOfNothing(scan: Scan, w: Walk, entries: seq<Entry>, path: Path, depth: nat)
    requires entries == [] && depth <= MAX_DEPTH
    ensures Absorbed(scan, EntriesVisits(w, entries, path, depth)) == scan
  {
  }

  lemma EntriesVisitsStep(w: Walk, entries: seq<Entry>, i: nat, path: Path, depth: nat)
    requires i < |entries| && depth <= MAX_DEPTH
    ensures EntriesVisits(w, entries[i..], path, depth) ==
            EntryVisits(w, entries[i], path, depth) + EntriesVisits(w, entries[i + 1..], path, depth)
  {
    assert entries[i..][1..] == entries[i + 1..];
  }
}
