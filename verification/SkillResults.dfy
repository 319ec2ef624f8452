/** What a skill scan amounts to: whom it keeps, what it reaches, and what it does not depend on. */
module SkillResults {
  import opened Text
  import opened SkillScan

  // ----- First found wins -----

  /** The skills the candidates hold, in order, before names are compared. */
  function SkillsIn(events: seq<Event>): seq<Skill> {
    if events == [] then [] else SkillsIn(events[..|events| - 1]) + SkillIn(events[|events| - 1])
  }

  function SkillIn(event: Event): seq<Skill> {
    match event
    case Candidate(path, text, origin) =>
      (match Examine(path, text, origin).0
       case Some(skill) => [skill]
       case None => [])
    case _ => []
  }

  ghost predicate HasName(skills: seq<Skill>, name: string) {
    exists i :: 0 <= i < |skills| && skills[i].name == name
  }

  /** The skills nobody in front of which has the same name. */
  ghost function Winners(skills: seq<Skill>): seq<Skill> {
    if skills == [] then []
    else
      var front, last := skills[..|skills| - 1], skills[|skills| - 1];
      Winners(front) + if HasName(front, last.name) then [] else [last]
  }

  /** A warning for each of the others, about itself and the first skill of its name. */
  ghost function Losers(skills: seq<Skill>): seq<Warning> {
    if skills == [] then []
    else
      var front, last := skills[..|skills| - 1], skills[|skills| - 1];
      Losers(front)
      + if HasName(front, last.name) then [Duplicate(last.name, PathNamed(front, last.name), last.path)] else []
  }

  function Duplicates(warnings: seq<Warning>): seq<Warning> {
    if warnings == [] then []
    else
      var last := warnings[|warnings| - 1];
      Duplicates(warnings[..|warnings| - 1]) + if last.Duplicate? then [last] else []
  }

  ghost function NamesOf(skills: seq<Skill>): set<string> {
    set i | 0 <= i < |skills| :: skills[i].name
  }

  lemma FirstNamedIs(skills: seq<Skill>, name: string)
    ensures
      var first := FirstNamed(skills, name);
      && (first.Some? <==> HasName(skills, name))
      && (first.Some? ==> first.value.name == name)
  {
    if skills != [] {
      FirstNamedIs(skills[1..], name);
      if HasName(skills[1..], name) {
        var i :| 0 <= i < |skills[1..]| && skills[1..][i].name == name;
        assert skills[i + 1].name == name;
      }
    }
  }

  lemma {:induction false} FirstNamedOfConcat(a: seq<Skill>, b: seq<Skill>, name: string)
    ensures FirstNamed(a + b, name) ==
            if FirstNamed(a, name).Some? then FirstNamed(a, name) else FirstNamed(b, name)
  {
    if a == [] {
      assert a + b == b;
    } else {
      FirstNamedOfConcat(a[1..], b, name);
      assert (a + b)[1..] == a[1..] + b;
    }
  }

  /** The winner of a name is the first skill that has it. */
  lemma {:induction false} WinnersAreFirst(skills: seq<Skill>, name: string)
    ensures FirstNamed(Winners(skills), name) == FirstNamed(skills, name)
  {
    if skills != [] {
      var front, last := skills[..|skills| - 1], skills[|skills| - 1];
      WinnersAreFirst(front, name);
      FirstNamedOfConcat(Winners(front), if HasName(front, last.name) then [] else [last], name);
      FirstNamedOfConcat(front, [last], name);
      FirstNamedIs(front, name);
      assert skills == front + [last];
    }
  }

  lemma NamesOfSnoc(skills: seq<Skill>, skill: Skill)
    ensures NamesOf(skills + [skill]) == NamesOf(skills) + {skill.name}
    ensures HasName(skills, skill.name) <==> skill.name in NamesOf(skills)
  {
    var all := skills + [skill];
    assert all[|skills|] == skill && forall i :: 0 <= i < |skills| ==> all[i] == skills[i];
  }

  /** Winners have different names, the names there are; and every skill that lost has its warning. */
  lemma {:induction false} WinnersAre(skills: seq<Skill>)
    ensures
      var winners := Winners(skills);
      && (forall i, j :: 0 <= i < j < |winners| ==> winners[i].name != winners[j].name)
      && NamesOf(winners) == NamesOf(skills)
      && |winners| + |Losers(skills)| == |skills|
  {
    if skills != [] {
      var front, last := skills[..|skills| - 1], skills[|skills| - 1];
      WinnersAre(front);
      NamesOfSnoc(front, last);
      NamesOfSnoc(Winners(front), last);
      assert skills == front + [last];
      if HasName(front, last.name) {
        assert Winners(skills) == Winners(front);
        assert NamesOf(front) + {last.name} == NamesOf(front);
      } else {
        var w := Winners(front);
        forall i | 0 <= i < |w| ensures w[i].name != last.name {
          assert w[i].name in NamesOf(w);
        }
      }
    }
  }

  lemma {:induction false} DuplicatesOfConcat(a: seq<Warning>, b: seq<Warning>)
    ensures Duplicates(a + b) == Duplicates(a) + Duplicates(b)
    decreases |b|
  {
    if b == [] {
      assert a + b == a;
    } else {
      var front, last := b[..|b| - 1], b[|b| - 1];
      DuplicatesOfConcat(a, front);
      assert (a + b)[..|a + b| - 1] == a + front;
    }
  }

  lemma DuplicatesOfOne(warning: Warning)
    ensures Duplicates([warning]) == if warning.Duplicate? then [warning] else []
  {
    assert [warning][..0] == [];
  }

  lemma {:induction false} NoDuplicates(warnings: seq<Warning>)
    requires forall i :: 0 <= i < |warnings| ==> !warnings[i].Duplicate?
    ensures Duplicates(warnings) == []
  {
    if warnings != [] { NoDuplicates(warnings[..|warnings| - 1]); }
  }

  lemma ExamineWarnsOfNoDuplicates(path: Path, text: Option<string>, origin: Origin)
    ensures
      var (skill, warnings) := Examine(path, text, origin);
      Duplicates(warnings) == [] && (skill.Some? ==> skill.value.path == path)
  {
    hide Examine, Duplicates;
    ExamineIs(path, text, origin);
    NoDuplicates(Examine(path, text, origin).1);
  }

  lemma ExamineIs(path: Path, text: Option<string>, origin: Origin)
    ensures
      var (skill, warnings) := Examine(path, text, origin);
      && (forall i :: 0 <= i < |warnings| ==> !warnings[i].Duplicate?)
      && (skill.Some? ==> skill.value.path == path)
  {
    hide Frontmatter.ExtractFrom, HasDoubleHyphen, IsNameChar, Field, Words;
  }

  /** Whatever was visited: the skills kept are the winners, and the duplicates warned about the losers. */
  lemma {:induction false} ScanIs(events: seq<Event>)
    ensures
      var scan, skills := Absorbed(EMPTY, events), SkillsIn(events);
      && scan.skills == Winners(skills)
      && scan.names == NamesOf(skills)
      && Duplicates(scan.warnings) == Losers(skills)
  {
    hide Absorbed, Winners, Losers, Absorb, SkillIn, Duplicates;
    if events == [] {
      AbsorbedOfNone(EMPTY);
      NothingWon();
    } else {
      var front, last := events[..|events| - 1], events[|events| - 1];
      ScanIs(front);
      assert events == front + [last];
      AbsorbedOfConcat(EMPTY, front, [last]);
      AbsorbedOfOne(Absorbed(EMPTY, front), last);
      AbsorbIs(Absorbed(EMPTY, front), SkillsIn(front), last);
    }
  }

  lemma NothingWon()
    ensures Winners([]) == [] && Losers([]) == [] && Duplicates([]) == []
  {
  }

  lemma AbsorbIs(scan: Scan, skills: seq<Skill>, event: Event)
    requires scan.skills == Winners(skills) && scan.names == NamesOf(skills)
    requires Duplicates(scan.warnings) == Losers(skills)
    ensures
      var after, all := Absorb(scan, event), skills + SkillIn(event);
      after.skills == Winners(all) && after.names == NamesOf(all) && Duplicates(after.warnings) == Losers(all)
  {
    hide Winners, Losers, Duplicates, Examine, NamesOf, PathNamed, HasName;
    match event
    case Candidate(path, text, origin) =>
      var (skill, warnings) := Examine(path, text, origin);
      ExamineWarnsOfNoDuplicates(path, text, origin);
      DuplicatesOfConcat(scan.warnings, warnings);
      if skill.None? {
        assert skills + [] == skills;
      } else {
        AddedIs(scan, skills, skill.value, warnings);
      }
    case Closed(path) =>
      DuplicatesOfConcat(scan.warnings, [Unreadable(path)]);
      DuplicatesOfOne(Unreadable(path));
      assert skills + [] == skills;
    case Bottom(path) =>
      DuplicatesOfConcat(scan.warnings, [TooDeep(path)]);
      DuplicatesOfOne(TooDeep(path));
      assert skills + [] == skills;
  }

  lemma AddedIs(scan: Scan, skills: seq<Skill>, skill: Skill, warnings: seq<Warning>)
    requires scan.skills == Winners(skills) && scan.names == NamesOf(skills)
    requires Duplicates(scan.warnings) == Losers(skills)
    requires Duplicates(warnings) == []
    ensures
      var after, all := Added(scan, Some(skill), warnings), skills + [skill];
      after.skills == Winners(all) && after.names == NamesOf(all) && Duplicates(after.warnings) == Losers(all)
  {
    hide Duplicates, NamesOf, HasName, FirstNamed;
    var all := skills + [skill];
    assert all[..|skills|] == skills;
    NamesOfSnoc(skills, skill);
    WinnersAreFirst(skills, skill.name);
    DuplicatesOfConcat(scan.warnings, warnings);
    var duplicate := Duplicate(skill.name, PathNamed(skills, skill.name), skill.path);
    DuplicatesOfConcat(scan.warnings + warnings, [duplicate]);
    DuplicatesOfOne(duplicate);
    if skill.name in scan.names {
      assert NamesOf(skills) + {skill.name} == NamesOf(skills);
    }
  }

  /** Whatever the disk looks like, the skills of a scan have different names, exactly those recorded. */
  lemma NamesAreDistinct(disk: Disk, places: seq<Place>)
    ensures
      var scan := Absorbed(EMPTY, AllVisits(disk, places));
      && (forall i, j :: 0 <= i < j < |scan.skills| ==> scan.skills[i].name != scan.skills[j].name)
      && scan.names == NamesOf(scan.skills)
      && |scan.skills| + |Duplicates(scan.warnings)| == |SkillsIn(AllVisits(disk, places))|
  {
    hide Absorbed, AllVisits, SkillsIn, NamesOf, Winners, Losers, Duplicates;
    var events := AllVisits(disk, places);
    ScanIs(events);
    WinnersAre(SkillsIn(events));
  }

  // ----- What a walk reaches -----

  /** A way down from one directory to another, through readable ones that are not skills themselves. */
  ghost predicate Leads(w: Walk, dir: nat, rel: Path, to: nat)
    decreases |rel|
  {
    if rel == [] then dir == to
    else exists e :: LeadsVia(w, dir, e) && e.name == rel[0] && Leads(w, e.target, rel[1..], to)
  }

  predicate LeadsVia(w: Walk, dir: nat, e: Entry) {
    var node, below := NodeAt(w.disk, dir), NodeAt(w.disk, e.target);
    && node.Directory? && node.readable && e in node.entries
    && below.Directory? && SkillFile(w.disk, below).None?
  }

  /** What one directory contributes by itself, at a path and a depth. */
  ghost predicate IsLocal(w: Walk, dir: nat, path: Path, depth: nat, event: Event) {
    if depth > 8 then event == Bottom(path)
    else
      match NodeAt(w.disk, dir)
      case Directory(true, entries) => exists e :: e in entries && IsOffered(w, e, path, depth, event)
      case _ => event == Closed(path)
  }

  /** A candidate file: the skill file of a directory inside, or a file the family accepts here. */
  predicate IsOffered(w: Walk, e: Entry, path: Path, depth: nat, event: Event) {
    var node := NodeAt(w.disk, e.target);
    match node
    case Directory(_, _) =>
      var text := SkillFile(w.disk, node);
      text.Some? && event == Candidate(path + [e.name, "SKILL.md"], text.value, w.origin)
    case File(text) =>
      && (|| e.name == "SKILL.md"
          || (IsMarkdown(e.name) && w.family == if depth == 0 then DotPi else Agents))
      && event == Candidate(path + [e.name], text, w.origin)
    case Special => false
  }

  predicate IsMarkdown(name: string) {
    |name| >= 3 && name[|name| - 3] == '.' && name[|name| - 2] == 'm' && name[|name| - 1] == 'd'
  }

  /** The skill file of a directory: the first entry of that name, when it leads to a file. */
  ghost predicate IsSkillFile(disk: Disk, entries: seq<Entry>, i: nat, text: Option<string>) {
    && i < |entries| && entries[i].name == "SKILL.md" && NodeAt(disk, entries[i].target) == File(text)
    && forall j :: 0 <= j < i ==> entries[j].name != "SKILL.md"
  }

  lemma {:induction false} FoundFirst(entries: seq<Entry>, name: string) returns (i: nat)
    ensures i <= |entries| && forall j :: 0 <= j < i ==> entries[j].name != name
    ensures i < |entries| ==> entries[i].name == name && Find(entries, name) == Some(entries[i].target)
    ensures i == |entries| ==> Find(entries, name) == None
  {
    if entries == [] || entries[0].name == name {
      i := 0;
    } else {
      i := FoundFirst(entries[1..], name);
      i := i + 1;
    }
  }

  /** A directory is a skill exactly when it has such an entry. */
  lemma SkillFileIs(disk: Disk, node: Node)
    requires node.Directory?
    ensures SkillFile(disk, node).Some? ==>
            exists i: nat :: IsSkillFile(disk, node.entries, i, SkillFile(disk, node).value)
    ensures forall i: nat, text :: IsSkillFile(disk, node.entries, i, text) ==> SkillFile(disk, node) == Some(text)
  {
    hide Find;
    var k := FoundFirst(node.entries, "SKILL.md");
    if SkillFile(disk, node).Some? {
      assert IsSkillFile(disk, node.entries, k, SkillFile(disk, node).value);
    }
    forall i: nat, text | IsSkillFile(disk, node.entries, i, text) ensures SkillFile(disk, node) == Some(text) {
      assert i == k;
    }
  }

  ghost predicate IsReached(w: Walk, dir: nat, path: Path, depth: nat, event: Event) {
    exists rel, to :: IsReachedBy(w, dir, path, depth, event, rel, to)
  }

  ghost predicate IsReachedBy(w: Walk, dir: nat, path: Path, depth: nat, event: Event, rel: Path, to: nat) {
    && depth + |rel| <= 9
    && Leads(w, dir, rel, to)
    && IsLocal(w, to, path + rel, depth + |rel|, event)
  }

  lemma {:induction false} InsertedIs(e: Entry, sorted: seq<Entry>)
    ensures multiset(Insert(e, sorted)) == multiset(sorted) + multiset{e}
  {
    if sorted != [] && !Precedes(e.name, sorted[0].name) {
      InsertedIs(e, sorted[1..]);
      assert sorted == [sorted[0]] + sorted[1..];
    }
  }

  lemma {:induction false} SortedIsPermutation(entries: seq<Entry>)
    ensures multiset(Sorted(entries)) == multiset(entries)
  {
    if entries != [] {
      SortedIsPermutation(entries[1..]);
      InsertedIs(entries[0], Sorted(entries[1..]));
      assert entries == [entries[0]] + entries[1..];
    }
  }

  predicate IsAscending(entries: seq<Entry>) {
    forall i :: 0 < i < |entries| ==> Precedes(entries[i - 1].name, entries[i].name)
  }

  lemma {:induction false} SortedIsAscending(entries: seq<Entry>)
    ensures IsAscending(Sorted(entries))
  {
    if entries != [] {
      SortedIsAscending(entries[1..]);
      InsertedIsAscending(entries[0], Sorted(entries[1..]));
    }
  }

  lemma {:induction false} InsertedIsAscending(e: Entry, sorted: seq<Entry>)
    requires IsAscending(sorted)
    ensures
      var all := Insert(e, sorted);
      IsAscending(all) && (sorted != [] ==> all[0] == e || all[0] == sorted[0])
  {
    hide Precedes;
    if sorted != [] && !Precedes(e.name, sorted[0].name) {
      var rest := Insert(e, sorted[1..]);
      assert IsAscending(sorted[1..]);
      InsertedIsAscending(e, sorted[1..]);
      PrecedesIsTotal(e.name, sorted[0].name);
      assert Precedes(sorted[0].name, rest[0].name) by {
        if |sorted| > 1 { assert sorted[1..][0] == sorted[1]; }
      }
    }
  }

  lemma SortedHolds(entries: seq<Entry>, e: Entry)
    ensures e in Sorted(entries) <==> e in entries
  {
    SortedIsPermutation(entries);
    assert e in multiset(entries) <==> e in entries;
    assert e in multiset(Sorted(entries)) <==> e in Sorted(entries);
  }

  lemma {:induction false} InEntriesVisits(w: Walk, entries: seq<Entry>, path: Path, depth: nat, event: Event)
    requires depth <= MAX_DEPTH
    ensures event in EntriesVisits(w, entries, path, depth) <==>
            exists e :: e in entries && event in EntryVisits(w, e, path, depth)
  {
    hide EntryVisits;
    if entries != [] {
      InEntriesVisits(w, entries[1..], path, depth, event);
      assert entries == [entries[0]] + entries[1..];
      assert entries[0] in entries && forall e :: e in entries[1..] ==> e in entries;
      forall e | e in entries && event in EntryVisits(w, e, path, depth)
        ensures event in EntriesVisits(w, entries, path, depth)
      {
        assert e == entries[0] || e in entries[1..];
      }
    }
  }

  /** A walk comes by what the ways down lead to, within the depth bound, and by nothing else. */
  lemma {:induction false} VisitsAreReached(w: Walk, dir: nat, path: Path, depth: nat, event: Event)
    requires depth <= MAX_DEPTH + 1
    ensures event in Visits(w, dir, path, depth) <==> IsReached(w, dir, path, depth, event)
    decreases MAX_DEPTH + 1 - depth
  {
    hide Visits, IsReached;
    if event in Visits(w, dir, path, depth) {
      VisitIsReached(w, dir, path, depth, event);
    }
    if IsReached(w, dir, path, depth, event) {
      ReachedIsVisited(w, dir, path, depth, event);
    }
  }

  lemma ReachedHere(w: Walk, dir: nat, path: Path, depth: nat, event: Event)
    requires depth <= MAX_DEPTH + 1 && IsLocal(w, dir, path, depth, event)
    ensures IsReached(w, dir, path, depth, event)
  {
    hide IsLocal;
    assert path + [] == path;
    assert IsReachedBy(w, dir, path, depth, event, [], dir);
  }

  lemma ReachedThrough(w: Walk, dir: nat, path: Path, depth: nat, event: Event, e: Entry)
    requires depth <= MAX_DEPTH && LeadsVia(w, dir, e)
    requires IsReached(w, e.target, path + [e.name], depth + 1, event)
    ensures IsReached(w, dir, path, depth, event)
  {
    hide IsLocal, LeadsVia;
    var rel, to :| IsReachedBy(w, e.target, path + [e.name], depth + 1, event, rel, to);
    var all := [e.name] + rel;
    assert all[1..] == rel && all[0] == e.name;
    assert Leads(w, dir, all, to);
    assert path + all == path + [e.name] + rel;
    assert IsReachedBy(w, dir, path, depth, event, all, to);
  }

  lemma {:induction false} VisitIsReached(w: Walk, dir: nat, path: Path, depth: nat, event: Event)
    requires depth <= MAX_DEPTH + 1 && event in Visits(w, dir, path, depth)
    ensures IsReached(w, dir, path, depth, event)
    decreases MAX_DEPTH + 1 - depth
  {
    hide IsReached, EntriesVisits, Sorted, SkillFile;
    match NodeAt(w.disk, dir) {
      case Directory(true, entries) =>
        if depth <= MAX_DEPTH {
          InEntriesVisits(w, Sorted(entries), path, depth, event);
          var e :| e in Sorted(entries) && event in EntryVisits(w, e, path, depth);
          SortedHolds(entries, e);
          if LeadsVia(w, dir, e) {
            VisitIsReached(w, e.target, path + [e.name], depth + 1, event);
            ReachedThrough(w, dir, path, depth, event, e);
          } else {
            assert IsOffered(w, e, path, depth, event);
            ReachedHere(w, dir, path, depth, event);
          }
        } else {
          ReachedHere(w, dir, path, depth, event);
        }
      case _ =>
        ReachedHere(w, dir, path, depth, event);
    }
  }

  lemma VisitedThrough(w: Walk, dir: nat, path: Path, depth: nat, event: Event, e: Entry)
    requires depth <= MAX_DEPTH && NodeAt(w.disk, dir).Directory? && NodeAt(w.disk, dir).readable
    requires e in NodeAt(w.disk, dir).entries && event in EntryVisits(w, e, path, depth)
    ensures event in Visits(w, dir, path, depth)
  {
    hide EntryVisits, Sorted;
    var entries := NodeAt(w.disk, dir).entries;
    SortedHolds(entries, e);
    InEntriesVisits(w, Sorted(entries), path, depth, event);
  }

  lemma {:induction false} ReachedIsVisited(w: Walk, dir: nat, path: Path, depth: nat, event: Event)
    requires depth <= MAX_DEPTH + 1 && IsReached(w, dir, path, depth, event)
    ensures event in Visits(w, dir, path, depth)
    decreases MAX_DEPTH + 1 - depth
  {
    hide EntriesVisits, SkillFile;
    var rel, to :| IsReachedBy(w, dir, path, depth, event, rel, to);
    if rel == [] {
      assert path + rel == path;
      LocalIsVisited(w, dir, path, depth, event);
    } else {
      var e :| LeadsVia(w, dir, e) && e.name == rel[0] && Leads(w, e.target, rel[1..], to);
      assert path + rel == path + [e.name] + rel[1..];
      assert IsReachedBy(w, e.target, path + [e.name], depth + 1, event, rel[1..], to);
      ReachedIsVisited(w, e.target, path + [e.name], depth + 1, event);
      VisitedThrough(w, dir, path, depth, event, e);
    }
  }

  lemma LocalIsVisited(w: Walk, dir: nat, path: Path, depth: nat, event: Event)
    requires IsLocal(w, dir, path, depth, event)
    ensures event in Visits(w, dir, path, depth)
  {
    hide EntriesVisits, SkillFile;
    match NodeAt(w.disk, dir) {
      case Directory(true, entries) =>
        if depth <= MAX_DEPTH {
          var e :| e in entries && IsOffered(w, e, path, depth, event);
          VisitedThrough(w, dir, path, depth, event, e);
        }
      case _ =>
    }
  }

  /** A walk says that it stopped exactly when a way down goes one directory past the bound. */
  lemma BottomIsReported(w: Walk, dir: nat, path: Path, end: Path)
    ensures Bottom(end) in Visits(w, dir, path, 0) <==>
            exists rel, to :: |rel| == 9 && Leads(w, dir, rel, to) && end == path + rel
  {
    hide Visits, Leads, SkillFile;
    VisitsAreReached(w, dir, path, 0, Bottom(end));
    if Bottom(end) in Visits(w, dir, path, 0) {
      var rel, to :| IsReachedBy(w, dir, path, 0, Bottom(end), rel, to);
      assert |rel| == 9 && Leads(w, dir, rel, to) && end == path + rel;
    }
    if rel, to :| |rel| == 9 && Leads(w, dir, rel, to) && end == path + rel {
      assert 0 + |rel| > MAX_DEPTH;
      assert IsReachedBy(w, dir, path, 0, Bottom(end), rel, to);
      assert Bottom(end) in Visits(w, dir, path, 0);
    }
  }

  lemma {:induction false} LeadsOn(w: Walk, a: nat, p: Path, b: nat, q: Path, c: nat)
    requires Leads(w, a, p, b) && Leads(w, b, q, c)
    ensures Leads(w, a, p + q, c)
    decreases |p|
  {
    hide LeadsVia;
    if p == [] {
      assert p + q == q;
    } else {
      var e :| LeadsVia(w, a, e) && e.name == p[0] && Leads(w, e.target, p[1..], b);
      LeadsOn(w, e.target, p[1..], b, q, c);
      assert (p + q)[1..] == p[1..] + q;
    }
  }

  lemma {:induction false} LeadsPartly(w: Walk, a: nat, p: Path, b: nat, n: nat)
    requires Leads(w, a, p, b) && n <= |p|
    ensures exists to :: Leads(w, a, p[..n], to)
    decreases |p|
  {
    hide LeadsVia;
    if n == 0 {
      assert Leads(w, a, p[..0], a);
    } else {
      var e :| LeadsVia(w, a, e) && e.name == p[0] && Leads(w, e.target, p[1..], b);
      LeadsPartly(w, e.target, p[1..], b, n - 1);
      var to :| Leads(w, e.target, p[1..][..n - 1], to);
      assert p[..n][1..] == p[1..][..n - 1];
      assert Leads(w, a, p[..n], to);
    }
  }

  lemma {:induction false} LeadsAround(w: Walk, a: nat, loop: Path, n: nat) returns (way: Path)
    requires loop != [] && Leads(w, a, loop, a)
    ensures |way| >= n && Leads(w, a, way, a)
  {
    if n == 0 {
      way := [];
    } else {
      var rest := LeadsAround(w, a, loop, n - 1);
      way := loop + rest;
      LeadsOn(w, a, loop, a, rest, a);
    }
  }

  /** A link back to a directory above ends the walk there with a warning, never without one. */
  lemma CyclesAreReported(w: Walk, dir: nat, path: Path, way: Path, a: nat, loop: Path)
    requires Leads(w, dir, way, a) && loop != [] && Leads(w, a, loop, a)
    ensures exists end :: Bottom(end) in Visits(w, dir, path, 0)
  {
    hide Visits, Leads;
    var around := LeadsAround(w, a, loop, MAX_DEPTH + 1);
    LeadsOn(w, dir, way, a, around, a);
    LeadsPartly(w, dir, way + around, a, MAX_DEPTH + 1);
    var rel := (way + around)[..MAX_DEPTH + 1];
    var to :| Leads(w, dir, rel, to);
    BottomIsReported(w, dir, path, path + rel);
  }

  // ----- All places -----

  /** What a place contributes: a declared path may be a skill itself, and must be there. */
  ghost predicate IsOfPlace(disk: Disk, place: Place, event: Event) {
    match place
    case Location(target, path, family, origin) =>
      NodeAt(disk, target).Directory? && IsReached(Walk(disk, family, origin), target, path, 0, event)
    case Declared(target, path, origin) =>
      match NodeAt(disk, target)
      case Directory(_, _) => IsOfDirectory(Walk(disk, DotPi, origin), target, path, event)
      case File(text) => event == Candidate(path, text, origin)
      case Special => event == Closed(path)
  }

  ghost predicate IsOfDirectory(w: Walk, target: nat, path: Path, event: Event)
    requires NodeAt(w.disk, target).Directory?
  {
    match SkillFile(w.disk, NodeAt(w.disk, target))
    case Some(text) => event == Candidate(path + ["SKILL.md"], text, w.origin)
    case None => IsReached(w, target, path, 0, event)
  }

  lemma PlaceVisitsAre(disk: Disk, place: Place, event: Event)
    ensures event in PlaceVisits(disk, place) <==> IsOfPlace(disk, place, event)
  {
    hide Visits, IsReached, SkillFile;
    match place
    case Location(target, path, family, origin) =>
      VisitsAreReached(Walk(disk, family, origin), target, path, 0, event);
    case Declared(target, path, origin) =>
      VisitsAreReached(Walk(disk, DotPi, origin), target, path, 0, event);
  }

  /** Places are visited in their order, and the entries of a directory in theirs. */
  lemma {:induction false} AllVisitsOfConcat(disk: Disk, a: seq<Place>, b: seq<Place>)
    ensures AllVisits(disk, a + b) == AllVisits(disk, a) + AllVisits(disk, b)
  {
    hide PlaceVisits;
    if a == [] {
      assert a + b == b;
    } else {
      assert (a + b)[1..] == a[1..] + b;
      AllVisitsOfConcat(disk, a[1..], b);
    }
  }

  lemma {:induction false} EntriesVisitsOfConcat(w: Walk, a: seq<Entry>, b: seq<Entry>, path: Path, depth: nat)
    requires depth <= MAX_DEPTH
    ensures EntriesVisits(w, a + b, path, depth) == EntriesVisits(w, a, path, depth) + EntriesVisits(w, b, path, depth)
    decreases |a|
  {
    hide EntryVisits;
    if a == [] {
      assert a + b == b;
    } else {
      assert (a + b)[1..] == a[1..] + b;
      EntriesVisitsOfConcat(w, a[1..], b, path, depth);
    }
  }

  // ----- The order of directory entries -----

  predicate HasDistinctNames(entries: seq<Entry>) {
    forall i, j :: 0 <= i < j < |entries| ==> entries[i].name != entries[j].name
  }

  predicate IsDisk(disk: Disk) {
    forall i :: 0 <= i < |disk| && disk[i].Directory? ==> HasDistinctNames(disk[i].entries)
  }

  predicate SameNode(a: Node, b: Node) {
    match (a, b)
    case (Directory(r, e), Directory(s, f)) => r == s && multiset(e) == multiset(f)
    case _ => a == b
  }

  /** The same files and directories, each directory listed in any order. */
  predicate SameButForOrder(a: Disk, b: Disk) {
    |a| == |b| && forall i :: 0 <= i < |a| ==> SameNode(a[i], b[i])
  }

  lemma {:induction false} InsertsCommute(a: Entry, b: Entry, sorted: seq<Entry>)
    requires a.name != b.name
    ensures Insert(a, Insert(b, sorted)) == Insert(b, Insert(a, sorted))
    decreases |sorted|, 1
  {
    hide Precedes;
    PrecedesIsTotal(a.name, b.name);
    if sorted == [] {
      assert [a, b][1..] == [b] && [b, a][1..] == [a];
    } else {
      InsertsCommuteHere(a, b, sorted);
    }
  }

  lemma {:induction false} InsertsCommuteHere(a: Entry, b: Entry, sorted: seq<Entry>)
    requires a.name != b.name && sorted != []
    ensures Insert(a, Insert(b, sorted)) == Insert(b, Insert(a, sorted))
    decreases |sorted|, 0
  {
    var c, rest := sorted[0], sorted[1..];
    PrecedesIsTotal(a.name, b.name);
    InsertFirst(a, b, sorted);
    InsertFirst(b, a, sorted);
    if Precedes(a.name, c.name) && !Precedes(b.name, c.name) {
      if Precedes(b.name, a.name) { PrecedesIsTransitive(b.name, a.name, c.name); }
    } else if Precedes(b.name, c.name) && !Precedes(a.name, c.name) {
      if Precedes(a.name, b.name) { PrecedesIsTransitive(a.name, b.name, c.name); }
    } else if !Precedes(a.name, c.name) {
      InsertsCommute(a, b, rest);
    }
  }

  lemma InsertFirst(a: Entry, b: Entry, sorted: seq<Entry>)
    requires sorted != []
    ensures Insert(a, Insert(b, sorted)) ==
      if Precedes(b.name, sorted[0].name) then
        if Precedes(a.name, b.name) then [a, b] + sorted else [b] + Insert(a, sorted)
      else if Precedes(a.name, sorted[0].name) then [a] + Insert(b, sorted)
      else [sorted[0]] + Insert(a, Insert(b, sorted[1..]))
  {
    hide Precedes;
    assert ([b] + sorted)[1..] == sorted;
    assert [a] + ([b] + sorted) == [a, b] + sorted;
    assert ([sorted[0]] + Insert(b, sorted[1..]))[1..] == Insert(b, sorted[1..]);
  }

  /** Sorting can take any entry first. */
  lemma {:induction false} SortedFrom(entries: seq<Entry>, i: nat)
    requires i < |entries| && HasDistinctNames(entries)
    ensures Sorted(entries) == Insert(entries[i], Sorted(Without(entries, i)))
  {
    hide Insert;
    if i == 0 {
      assert entries[..0] + entries[1..] == entries[1..];
    } else {
      var without := entries[..i] + entries[i + 1..];
      SortedFrom(entries[1..], i - 1);
      assert entries[1..][..i - 1] + entries[1..][i..] == without[1..];
      InsertsCommute(entries[0], entries[i], Sorted(without[1..]));
    }
  }

  lemma {:induction false} SortedIsUnique(a: seq<Entry>, b: seq<Entry>)
    requires multiset(a) == multiset(b) && HasDistinctNames(a) && HasDistinctNames(b)
    ensures Sorted(a) == Sorted(b)
    decreases |a|
  {
    hide Insert, HasDistinctNames, Without;
    assert |a| == |multiset(a)| == |multiset(b)| == |b|;
    if a == [] {
      assert b == [];
    } else {
      assert a[0] in multiset(b);
      var i :| 0 <= i < |b| && b[i] == a[0];
      WithoutOne(a, 0);
      WithoutOne(b, i);
      SortedFrom(a, 0);
      SortedFrom(b, i);
      SortedIsUnique(Without(a, 0), Without(b, i));
    }
  }

  function Without(entries: seq<Entry>, i: nat): (rest: seq<Entry>)
    requires i < |entries|
    ensures |rest| == |entries| - 1
  {
    entries[..i] + entries[i + 1..]
  }

  lemma WithoutOne(entries: seq<Entry>, i: nat)
    requires i < |entries| && HasDistinctNames(entries)
    ensures multiset(Without(entries, i)) == multiset(entries) - multiset{entries[i]}
    ensures HasDistinctNames(Without(entries, i))
  {
    hide Without, HasDistinctNames;
    EntriesWithout(entries, i);
    DistinctWithout(entries, i);
  }

  lemma EntriesWithout(entries: seq<Entry>, i: nat)
    requires i < |entries|
    ensures multiset(Without(entries, i)) == multiset(entries) - multiset{entries[i]}
  {
    var a, b := entries[..i], entries[i + 1..];
    assert entries == a + ([entries[i]] + b);
    MultisetWithout(a, entries[i], b);
  }

  lemma MultisetWithout(a: seq<Entry>, e: Entry, b: seq<Entry>)
    ensures multiset(a + b) == multiset(a + ([e] + b)) - multiset{e}
  {
  }

  lemma DistinctWithout(entries: seq<Entry>, i: nat)
    requires i < |entries| && HasDistinctNames(entries)
    ensures HasDistinctNames(Without(entries, i))
  {
    var rest := Without(entries, i);
    assert forall k :: 0 <= k < |rest| ==> rest[k] == entries[if k < i then k else k + 1];
  }

  lemma {:induction false} FindIs(entries: seq<Entry>, name: string)
    ensures Find(entries, name).None? <==> forall i :: 0 <= i < |entries| ==> entries[i].name != name
    ensures Find(entries, name).Some? ==> Entry(name, Find(entries, name).value) in entries
  {
    if entries != [] {
      FindIs(entries[1..], name);
      assert entries == [entries[0]] + entries[1..];
    }
  }

  lemma FindIsUnique(a: seq<Entry>, b: seq<Entry>, name: string)
    requires multiset(a) == multiset(b) && HasDistinctNames(a) && HasDistinctNames(b)
    ensures Find(a, name) == Find(b, name)
  {
    FoundInBoth(a, b, name);
    FoundInBoth(b, a, name);
  }

  lemma FoundInBoth(a: seq<Entry>, b: seq<Entry>, name: string)
    requires multiset(a) == multiset(b) && HasDistinctNames(b)
    ensures Find(a, name).Some? ==> Find(b, name) == Find(a, name)
  {
    FindIs(a, name);
    FindIs(b, name);
    if Find(a, name).Some? {
      var e := Entry(name, Find(a, name).value);
      assert e in multiset(a) && e in multiset(b);
      var i :| 0 <= i < |b| && b[i] == e;
      var j :| 0 <= j < |b| && b[j] == Entry(name, Find(b, name).value);
      assert i == j;
    }
  }

  lemma SameNodeAt(a: Disk, b: Disk, id: nat)
    requires IsDisk(a) && IsDisk(b) && SameButForOrder(a, b)
    ensures
      var m, n := NodeAt(a, id), NodeAt(b, id);
      && SameNode(m, n)
      && (m.Directory? ==> n.Directory? && Sorted(m.entries) == Sorted(n.entries)
                           && SkillFile(a, m) == SkillFile(b, n))
  {
    hide Sorted, Find, HasDistinctNames;
    var m, n := NodeAt(a, id), NodeAt(b, id);
    if m.Directory? {
      assert HasDistinctNames(m.entries) && HasDistinctNames(n.entries);
      SortedIsUnique(m.entries, n.entries);
      FindIsUnique(m.entries, n.entries, SKILL_FILE);
    }
  }

  lemma {:induction false} VisitsIgnoreOrder(w: Walk, disk: Disk, dir: nat, path: Path, depth: nat)
    requires IsDisk(w.disk) && IsDisk(disk) && SameButForOrder(w.disk, disk)
    ensures Visits(w, dir, path, depth) == Visits(w.(disk := disk), dir, path, depth)
    decreases MAX_DEPTH + 1 - depth, 1, 0
  {
    hide EntriesVisits, Sorted, IsDisk, SameButForOrder, SkillFile;
    SameNodeAt(w.disk, disk, dir);
    var node := NodeAt(w.disk, dir);
    if depth <= MAX_DEPTH && node.Directory? {
      EntriesVisitsIgnoreOrder(w, disk, Sorted(node.entries), path, depth);
    }
  }

  lemma {:induction false} EntriesVisitsIgnoreOrder(w: Walk, disk: Disk, entries: seq<Entry>, path: Path, depth: nat)
    requires IsDisk(w.disk) && IsDisk(disk) && SameButForOrder(w.disk, disk) && depth <= MAX_DEPTH
    ensures EntriesVisits(w, entries, path, depth) == EntriesVisits(w.(disk := disk), entries, path, depth)
    decreases MAX_DEPTH + 1 - depth, 0, |entries|
  {
    hide Visits, Sorted, IsDisk, SameButForOrder, SkillFile;
    if entries != [] {
      EntriesVisitsIgnoreOrder(w, disk, entries[1..], path, depth);
      SameNodeAt(w.disk, disk, entries[0].target);
      VisitsIgnoreOrder(w, disk, entries[0].target, path + [entries[0].name], depth + 1);
    }
  }

  lemma {:induction false} AllVisitsIgnoreOrder(a: Disk, b: Disk, places: seq<Place>)
    requires IsDisk(a) && IsDisk(b) && SameButForOrder(a, b)
    ensures AllVisits(a, places) == AllVisits(b, places)
  {
    hide Visits, Sorted, IsDisk, SameButForOrder, SkillFile;
    if places != [] {
      AllVisitsIgnoreOrder(a, b, places[1..]);
      SameNodeAt(a, b, places[0].target);
      match places[0]
      case Location(target, path, family, origin) => VisitsIgnoreOrder(Walk(a, family, origin), b, target, path, 0);
      case Declared(target, path, origin) => VisitsIgnoreOrder(Walk(a, DotPi, origin), b, target, path, 0);
    }
  }

  /** The skills, the warnings and their order are the same however each directory lists its entries. */
  lemma ScanIgnoresOrder(a: Disk, b: Disk, places: seq<Place>)
    requires IsDisk(a) && IsDisk(b) && SameButForOrder(a, b)
    ensures Absorbed(EMPTY, AllVisits(a, places)) == Absorbed(EMPTY, AllVisits(b, places))
  {
    AllVisitsIgnoreOrder(a, b, places);
  }
}
