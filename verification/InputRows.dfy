/**
 Painting the rows of the input line (src/interactive.rs:1010-1099): where the classifier's
 runs sit in a line, and which of them the characters of a row belong to.
 Positions count characters.
 */
module InputRows {
  import opened Text

  datatype Role = Prompt | UserText | Operation | Argument | Other(code: nat)

  datatype Segment = Segment(text: string, role: Role)

  datatype Run = Run(start: nat, end: nat, role: Role)

  // ----- Rendered lines -----

  /** A line of segments, each painted in its role. */
  datatype RenderLine = RenderLine(segments: seq<Segment>)

  function TextLine(text: string, role: Role): RenderLine {
    RenderLine([Segment(text, role)])
  }

  function Push(line: RenderLine, text: string, role: Role): RenderLine {
    var n := |line.segments|;
    if text == "" then line
    else if n > 0 && line.segments[n - 1].role == role then
      RenderLine(line.segments[..n - 1] + [Segment(line.segments[n - 1].text + text, role)])
    else RenderLine(line.segments + [Segment(text, role)])
  }

  function Plain(segments: seq<Segment>): string {
    if segments == [] then "" else segments[0].text + Plain(segments[1..])
  }

  /** A character as it is painted. */
  datatype Glyph = Glyph(c: char, role: Role)

  function Tagged(text: string, role: Role): (glyphs: seq<Glyph>)
    ensures |glyphs| == |text|
    ensures forall i :: 0 <= i < |text| ==> glyphs[i] == Glyph(text[i], role)
  {
    seq(|text|, i requires 0 <= i < |text| => Glyph(text[i], role))
  }

  function Painted(segments: seq<Segment>): seq<Glyph> {
    if segments == [] then [] else Tagged(segments[0].text, segments[0].role) + Painted(segments[1..])
  }

  function Chars(glyphs: seq<Glyph>): (text: string)
    ensures |text| == |glyphs|
    ensures forall i :: 0 <= i < |glyphs| ==> text[i] == glyphs[i].c
  {
    seq(|glyphs|, i requires 0 <= i < |glyphs| => glyphs[i].c)
  }

  lemma {:induction false} PaintedOfConcat(a: seq<Segment>, b: seq<Segment>)
    ensures Painted(a + b) == Painted(a) + Painted(b)
    decreases |a|
  {
    hide Tagged;
    if a == [] {
      assert a + b == b;
    } else {
      PaintedOfConcat(a[1..], b);
      assert (a + b)[1..] == a[1..] + b;
    }
  }

  lemma PaintedOne(text: string, role: Role)
    ensures Painted([Segment(text, role)]) == Tagged(text, role)
  {
    hide Tagged;
    assert Painted([Segment(text, role)][1..]) == [];
  }

  /** Merging or not, a push paints its text behind the rest. */
  lemma PushPaints(line: RenderLine, text: string, role: Role)
    ensures Painted(Push(line, text, role).segments) == Painted(line.segments) + Tagged(text, role)
  {
    hide Painted;
    var s, n := line.segments, |line.segments|;
    if text != "" {
      if n > 0 && s[n - 1].role == role {
        assert s == s[..n - 1] + [s[n - 1]];
        PaintedOfConcat(s[..n - 1], [s[n - 1]]);
        PaintedOfConcat(s[..n - 1], [Segment(s[n - 1].text + text, role)]);
        PaintedOne(s[n - 1].text, role);
        PaintedOne(s[n - 1].text + text, role);
        assert Tagged(s[n - 1].text + text, role) == Tagged(s[n - 1].text, role) + Tagged(text, role);
      } else {
        PaintedOfConcat(s, [Segment(text, role)]);
        PaintedOne(text, role);
      }
    }
  }

  /** Neighbours differ in their role, and only the first segment may be empty. */
  predicate IsCompact(line: RenderLine) {
    forall i :: 0 < i < |line.segments| ==>
      line.segments[i].text != "" && line.segments[i].role != line.segments[i - 1].role
  }

  lemma PushKeepsCompact(line: RenderLine, text: string, role: Role)
    requires IsCompact(line)
    ensures IsCompact(Push(line, text, role))
  {
  }

  lemma {:induction false} PlainIsChars(segments: seq<Segment>)
    ensures Plain(segments) == Chars(Painted(segments))
  {
    if segments != [] {
      PlainIsChars(segments[1..]);
      assert Chars(Tagged(segments[0].text, segments[0].role)) == segments[0].text;
    }
  }

  // ----- Where the runs are -----

  /** The first place of a text at or behind a position. */
  function FindFrom(line: string, needle: string, cursor: nat): (r: Option<nat>)
    requires cursor <= |line|
    ensures r.Some? ==> cursor <= r.value && OccursAt(needle, line, r.value)
    ensures forall i :: cursor <= i < (if r.Some? then r.value else |line| + 1) ==> !OccursAt(needle, line, i)
    decreases |line| - cursor
  {
    if OccursAt(needle, line, cursor) then Some(cursor)
    else if cursor == |line| then None
    else FindFrom(line, needle, cursor + 1)
  }

  function RunsFrom(line: string, tokens: seq<Segment>, cursor: nat): Option<seq<Run>>
    requires cursor <= |line|
    decreases |tokens|
  {
    if tokens == [] then Some([])
    else
      match FindFrom(line, tokens[0].text, cursor)
      case None => None
      case Some(start) =>
        var end := start + |tokens[0].text|;
        Behind([Run(start, end, tokens[0].role)], RunsFrom(line, tokens[1..], end))
  }

  function Behind(runs: seq<Run>, rest: Option<seq<Run>>): Option<seq<Run>> {
    match rest
    case None => None
    case Some(rest) => Some(runs + rest)
  }

  lemma BehindNothing(rest: Option<seq<Run>>)
    ensures Behind([], rest) == rest
  {
    if rest.Some? { assert [] + rest.value == rest.value; }
  }

  lemma BehindOne(runs: seq<Run>, run: Run, rest: Option<seq<Run>>)
    ensures Behind(runs, Behind([run], rest)) == Behind(runs + [run], rest)
  {
    if rest.Some? { assert runs + ([run] + rest.value) == runs + [run] + rest.value; }
  }

  /** No runs at all when one token cannot be found. */
  function Classified(line: string, tokens: seq<Segment>): seq<Run> {
    match RunsFrom(line, tokens, 0)
    case None => []
    case Some(runs) => runs
  }

  method Classify(line: string, tokens: seq<Segment>) returns (runs: seq<Run>)
    ensures runs == Classified(line, tokens)
  {
    hide FindFrom, OccursAt, Behind;
    runs := [];
    var cursor, i := 0, 0;
    BehindNothing(RunsFrom(line, tokens, 0));
    assert tokens[0..] == tokens;
    while i < |tokens|
      invariant i <= |tokens| && 0 <= cursor <= |line|
      invariant RunsFrom(line, tokens, 0) == Behind(runs, RunsFrom(line, tokens[i..], cursor))
    {
      assert tokens[i..][0] == tokens[i] && tokens[i..][1..] == tokens[i + 1..];
      var found := FindFrom(line, tokens[i].text, cursor);
      if found.None? {
        assert Behind(runs, None) == None by { BehindNone(runs); }
        return [];
      }
      FoundIsInside(line, tokens[i].text, cursor);
      var end := found.value + |tokens[i].text|;
      BehindOne(runs, Run(found.value, end, tokens[i].role), RunsFrom(line, tokens[i + 1..], end));
      runs := runs + [Run(found.value, end, tokens[i].role)];
      cursor := end;
      i := i + 1;
    }
    assert RunsFrom(line, tokens, 0) == Some(runs) by { BehindLast(runs); }
  }

  lemma BehindNone(runs: seq<Run>)
    ensures Behind(runs, None) == None
  {
  }

  lemma BehindLast(runs: seq<Run>)
    ensures Behind(runs, Some([])) == Some(runs)
  {
    assert runs + [] == runs;
  }

  lemma FoundIsInside(line: string, needle: string, cursor: nat)
    requires cursor <= |line| && FindFrom(line, needle, cursor).Some?
    ensures var at := FindFrom(line, needle, cursor).value;
      cursor <= at <= |line| - |needle| && line[at..at + |needle|] == needle
  {
  }

  /** Runs in order, none over another, all inside the line. */
  predicate AreRuns(runs: seq<Run>, from: nat, length: nat) {
    && (forall i :: 0 <= i < |runs| ==> from <= runs[i].start <= runs[i].end <= length)
    && (forall i, j :: 0 <= i < j < |runs| ==> runs[i].end <= runs[j].start)
  }

  /** The runs are in order and apart, and each holds the text of its token. */
  predicate AreRunsOf(runs: seq<Run>, line: string, tokens: seq<Segment>, from: nat) {
    && |runs| == |tokens|
    && AreRuns(runs, from, |line|)
    && forall i :: 0 <= i < |tokens| ==> IsRunOf(runs[i], line, tokens[i])
  }

  predicate IsRunOf(run: Run, line: string, token: Segment) {
    run.start <= run.end <= |line| && line[run.start..run.end] == token.text && run.role == token.role
  }

  lemma RunsOfCons(run: Run, rest: seq<Run>, line: string, tokens: seq<Segment>, from: nat)
    requires tokens != [] && from <= run.start && IsRunOf(run, line, tokens[0])
    requires AreRunsOf(rest, line, tokens[1..], run.end)
    ensures AreRunsOf([run] + rest, line, tokens, from)
  {
    hide IsRunOf;
    assert run.start <= run.end <= |line| by { RunOfIs(run, line, tokens[0]); }
    var runs := [run] + rest;
    forall i | 0 <= i < |tokens| ensures IsRunOf(runs[i], line, tokens[i]) {
      if i > 0 { assert IsRunOf(rest[i - 1], line, tokens[1..][i - 1]); }
    }
  }

  lemma RunOfIs(run: Run, line: string, token: Segment)
    requires IsRunOf(run, line, token)
    ensures run.start <= run.end <= |line|
  {
  }

  lemma {:induction false} RunsAreRuns(line: string, tokens: seq<Segment>, cursor: nat)
    requires cursor <= |line|
    ensures
      var runs := RunsFrom(line, tokens, cursor);
      runs.Some? ==> AreRunsOf(runs.value, line, tokens, cursor)
    decreases |tokens|
  {
    hide FindFrom, AreRunsOf;
    if tokens == [] {
      assert AreRunsOf([], line, [], cursor) by { NoRuns(line, cursor); }
    } else {
      var found := FindFrom(line, tokens[0].text, cursor);
      if found.Some? {
        FoundIsInside(line, tokens[0].text, cursor);
        var end := found.value + |tokens[0].text|;
        RunsAreRuns(line, tokens[1..], end);
        var rest := RunsFrom(line, tokens[1..], end);
        if rest.Some? { RunsOfCons(Run(found.value, end, tokens[0].role), rest.value, line, tokens, cursor); }
      }
    }
  }

  lemma NoRuns(line: string, cursor: nat)
    ensures AreRunsOf([], line, [], cursor)
  {
  }

  /** Whatever tokens there are: the runs are in order and apart, and each holds the text of its token. */
  lemma ClassifiedAreRuns(line: string, tokens: seq<Segment>)
    ensures
      var runs := Classified(line, tokens);
      AreRuns(runs, 0, |line|) && (runs != [] ==> AreRunsOf(runs, line, tokens, 0))
  {
    RunsAreRuns(line, tokens, 0);
  }

  // ----- Tokens with white space between them -----

  predicate IsBlank(text: string) {
    forall i :: 0 <= i < |text| ==> IsWhitespace(text[i])
  }

  predicate IsToken(s: Segment) {
    s.text != "" && !IsWhitespace(s.text[0])
  }

  /** A line made of tokens, with a gap in front of each and one behind the last. */
  function Spaced(gaps: seq<string>, tokens: seq<Segment>): string
    requires |gaps| == |tokens| + 1
  {
    if tokens == [] then gaps[0] else gaps[0] + (tokens[0].text + Spaced(gaps[1..], tokens[1..]))
  }

  /** Where the tokens really are in it. */
  function TrueRuns(gaps: seq<string>, tokens: seq<Segment>, from: nat): seq<Run>
    requires |gaps| == |tokens| + 1
  {
    if tokens == [] then []
    else
      var start := from + |gaps[0]|;
      var end := start + |tokens[0].text|;
      [Run(start, end, tokens[0].role)] + TrueRuns(gaps[1..], tokens[1..], end)
  }

  /** A token is not found inside the blanks in front of it. */
  lemma {:induction false} FoundBehindBlanks(before: string, gap: string, token: string, rest: string, cursor: nat)
    requires IsBlank(gap) && token != "" && !IsWhitespace(token[0])
    requires |before| <= cursor <= |before| + |gap|
    ensures FindFrom(before + (gap + (token + rest)), token, cursor) == Some(|before| + |gap|)
    decreases |before| + |gap| - cursor
  {
    var line, at := before + (gap + (token + rest)), |before| + |gap|;
    if cursor < at {
      FoundBehindBlanks(before, gap, token, rest, cursor + 1);
      assert line[cursor] == gap[cursor - |before|];
      FirstOfOccurrence(token, line, cursor);
    } else {
      assert line[at..at + |token|] == token;
    }
  }

  lemma FirstOfOccurrence(needle: string, text: string, i: nat)
    requires needle != "" && i < |text|
    ensures OccursAt(needle, text, i) ==> text[i] == needle[0]
  {
    if OccursAt(needle, text, i) { OccursAcrossFirst(needle, text, i); }
  }

  lemma OccursAcrossFirst(needle: string, text: string, i: nat)
    requires needle != "" && OccursAt(needle, text, i)
    ensures text[i] == needle[0]
  {
    assert text[i..i + |needle|][0] == text[i];
  }

  lemma {:induction false} RunsFromIsExact(before: string, gaps: seq<string>, tokens: seq<Segment>)
    requires |gaps| == |tokens| + 1
    requires forall i :: 0 <= i < |gaps| ==> IsBlank(gaps[i])
    requires forall i :: 0 <= i < |tokens| ==> IsToken(tokens[i])
    ensures RunsFrom(before + Spaced(gaps, tokens), tokens, |before|) == Some(TrueRuns(gaps, tokens, |before|))
    decreases |tokens|
  {
    hide RunsFrom, IsBlank, IsToken, Behind, Spaced;
    if tokens == [] {
      NothingToFind(before + Spaced(gaps, tokens), |before|);
    } else {
      var next := before + gaps[0] + tokens[0].text;
      assert IsBlank(gaps[0]) && IsToken(tokens[0]);
      FirstIsExact(before, gaps, tokens);
      RunsFromIsExact(next, gaps[1..], tokens[1..]);
      BehindIs(Run(|before| + |gaps[0]|, |next|, tokens[0].role), TrueRuns(gaps[1..], tokens[1..], |next|));
    }
  }

  lemma NothingToFind(line: string, cursor: nat)
    requires cursor <= |line|
    ensures RunsFrom(line, [], cursor) == Some([])
  {
  }

  lemma FirstIsExact(before: string, gaps: seq<string>, tokens: seq<Segment>)
    requires |gaps| == |tokens| + 1 && tokens != [] && IsBlank(gaps[0]) && IsToken(tokens[0])
    ensures
      var next := before + gaps[0] + tokens[0].text;
      RunsFrom(before + Spaced(gaps, tokens), tokens, |before|) ==
      Behind([Run(|before| + |gaps[0]|, |next|, tokens[0].role)],
             RunsFrom(next + Spaced(gaps[1..], tokens[1..]), tokens[1..], |next|))
  {
    hide FindFrom, IsBlank, IsToken, Behind;
    var gap, token, rest := gaps[0], tokens[0].text, Spaced(gaps[1..], tokens[1..]);
    TokenIs(tokens[0]);
    FoundBehindBlanks(before, gap, token, rest, |before|);
    assert before + gap + token + rest == before + (gap + (token + rest));
  }

  lemma TokenIs(s: Segment)
    requires IsToken(s)
    ensures s.text != "" && !IsWhitespace(s.text[0])
  {
  }

  lemma BehindIs(run: Run, rest: seq<Run>)
    ensures Behind([run], Some(rest)) == Some([run] + rest)
  {
  }

  /** Searching puts every token back where it was, as long as only blanks lie between them. */
  lemma ClassifyIsExact(gaps: seq<string>, tokens: seq<Segment>)
    requires |gaps| == |tokens| + 1
    requires forall i :: 0 <= i < |gaps| ==> IsBlank(gaps[i])
    requires forall i :: 0 <= i < |tokens| ==> IsToken(tokens[i])
    ensures Classified(Spaced(gaps, tokens), tokens) == TrueRuns(gaps, tokens, 0)
  {
    hide IsBlank, IsToken, RunsFrom;
    RunsFromIsExact("", gaps, tokens);
    assert "" + Spaced(gaps, tokens) == Spaced(gaps, tokens);
  }

  // ----- One row -----

  /** The role of the run over a position, or that of plain text. */
  function RoleAt(runs: seq<Run>, k: nat): Role {
    if runs == [] then UserText
    else if runs[0].start <= k < runs[0].end then runs[0].role
    else RoleAt(runs[1..], k)
  }

  /** A stretch of a line, each character in its role. */
  function Glyphs(line: string, start: nat, end: nat, runs: seq<Run>): (glyphs: seq<Glyph>)
    requires start <= end <= |line|
    ensures |glyphs| == end - start
    ensures forall i :: 0 <= i < end - start ==> glyphs[i] == Glyph(line[start + i], RoleAt(runs, start + i))
  {
    seq(end - start, i requires 0 <= i < end - start => Glyph(line[start + i], RoleAt(runs, start + i)))
  }

  predicate Covers(run: Run, k: nat) {
    run.start <= k < run.end
  }

  lemma {:induction false} RoleOfRun(runs: seq<Run>, i: nat, k: nat, length: nat)
    requires AreRuns(runs, 0, length) && i < |runs| && Covers(runs[i], k)
    ensures RoleAt(runs, k) == runs[i].role
  {
    if i > 0 {
      assert runs[0].end <= runs[i].start;
      RoleOfRun(runs[1..], i - 1, k, length);
    }
  }

  lemma {:induction false} RoleOfGap(runs: seq<Run>, k: nat)
    requires forall i :: 0 <= i < |runs| ==> !Covers(runs[i], k)
    ensures RoleAt(runs, k) == UserText
  {
    if runs != [] {
      assert !Covers(runs[0], k);
      RoleOfGap(runs[1..], k);
    }
  }

  lemma GlyphsOfRun(line: string, start: nat, end: nat, runs: seq<Run>, i: nat)
    requires start <= end <= |line| && AreRuns(runs, 0, |line|) && i < |runs|
    requires runs[i].start <= start && end <= runs[i].end
    ensures Glyphs(line, start, end, runs) == Tagged(line[start..end], runs[i].role)
  {
    forall k | start <= k < end ensures RoleAt(runs, k) == runs[i].role { RoleOfRun(runs, i, k, |line|); }
  }

  lemma GlyphsOfGap(line: string, start: nat, end: nat, runs: seq<Run>)
    requires start <= end <= |line|
    requires forall i :: 0 <= i < |runs| ==>
               runs[i].end <= start || end <= runs[i].start || runs[i].start == runs[i].end
    ensures Glyphs(line, start, end, runs) == Tagged(line[start..end], UserText)
  {
    forall k | start <= k < end ensures RoleAt(runs, k) == UserText { RoleOfGap(runs, k); }
  }

  lemma GlyphsJoin(line: string, a: nat, b: nat, c: nat, runs: seq<Run>)
    requires a <= b <= c <= |line|
    ensures Glyphs(line, a, c, runs) == Glyphs(line, a, b, runs) + Glyphs(line, b, c, runs)
  {
  }

  /** Where the loop over the runs has come to, behind the first `i` of them. */
  predicate IsBehind(runs: seq<Run>, i: nat, start: nat, end: nat, cursor: nat) {
    && start <= cursor <= end && i <= |runs|
    && (cursor == end
        || forall j :: 0 <= j < i ==> runs[j].end <= cursor || end <= runs[j].start || runs[j].start == runs[j].end)
    && (cursor == start || exists j :: 0 <= j < i && cursor <= runs[j].end && runs[j].start < runs[j].end)
  }

  method SegmentRow(decoration: string, line: string, start: nat, end: nat, runs: seq<Run>) returns (out: RenderLine)
    requires start <= end <= |line| && AreRuns(runs, 0, |line|)
    ensures IsCompact(out)
    ensures Painted(out.segments) == Tagged(decoration, Prompt) + Glyphs(line, start, end, runs)
  {
    hide Painted, Push, Tagged, Glyphs, AreRuns, IsBehind, IsCompact;
    out := TextLine(decoration, Prompt);
    PaintedOne(decoration, Prompt);
    TextLineIsCompact(decoration, Prompt);
    var cursor: nat, i := start, 0;
    NoGlyphs(line, start, runs);
    StartIsBehind(runs, start, end);
    while i < |runs|
      invariant start <= cursor <= end && i <= |runs|
      invariant IsBehind(runs, i, start, end, cursor)
      invariant IsCompact(out)
      invariant Painted(out.segments) == Tagged(decoration, Prompt) + Glyphs(line, start, cursor, runs)
    {
      var run := runs[i];
      RunIsInside(runs, i, |line|);
      var from, to := Max(run.start, start), Min(run.end, end);
      if from < to {
        RunIsAhead(runs, i, start, end, cursor, |line|);
        if cursor < from {
          GlyphsOfGap(line, cursor, from, runs);
          PushGlyphs(out, decoration, line, start, cursor, from, runs, UserText);
          out := Push(out, line[cursor..from], UserText);
        }
        GlyphsOfRun(line, from, to, runs, i);
        PushGlyphs(out, decoration, line, start, from, to, runs, run.role);
        out := Push(out, line[from..to], run.role);
        cursor := to;
      } else {
        RunIsAside(runs, i, start, end, cursor);
      }
      i := i + 1;
    }
    if cursor < end {
      RunsAreBehind(runs, start, end, cursor);
      GlyphsOfGap(line, cursor, end, runs);
      PushGlyphs(out, decoration, line, start, cursor, end, runs, UserText);
      out := Push(out, line[cursor..end], UserText);
    }
  }

  lemma TextLineIsCompact(text: string, role: Role)
    ensures IsCompact(TextLine(text, role))
  {
  }

  lemma NoGlyphs(line: string, start: nat, runs: seq<Run>)
    requires start <= |line|
    ensures Glyphs(line, start, start, runs) == []
  {
  }

  lemma PushGlyphs(
    out: RenderLine, decoration: string, line: string, start: nat, from: nat, to: nat, runs: seq<Run>, role: Role)
    requires start <= from <= to <= |line|
    requires Painted(out.segments) == Tagged(decoration, Prompt) + Glyphs(line, start, from, runs)
    requires Glyphs(line, from, to, runs) == Tagged(line[from..to], role)
    requires IsCompact(out)
    ensures Painted(Push(out, line[from..to], role).segments) ==
            Tagged(decoration, Prompt) + Glyphs(line, start, to, runs)
    ensures IsCompact(Push(out, line[from..to], role))
  {
    hide Painted, Push, Tagged, Glyphs, IsCompact;
    PushKeepsCompact(out, line[from..to], role);
    PushPaints(out, line[from..to], role);
    GlyphsJoin(line, start, from, to, runs);
  }

  lemma RunIsAhead(runs: seq<Run>, i: nat, start: nat, end: nat, cursor: nat, length: nat)
    requires AreRuns(runs, 0, length) && IsBehind(runs, i, start, end, cursor) && i < |runs|
    requires Max(runs[i].start, start) < Min(runs[i].end, end)
    ensures cursor <= Max(runs[i].start, start)
    ensures cursor < Max(runs[i].start, start) ==>
              forall j :: 0 <= j < |runs| ==>
                runs[j].end <= cursor || Max(runs[i].start, start) <= runs[j].start || runs[j].start == runs[j].end
    ensures IsBehind(runs, i + 1, start, end, Min(runs[i].end, end))
  {
  }

  lemma RunIsInside(runs: seq<Run>, i: nat, length: nat)
    requires AreRuns(runs, 0, length) && i < |runs|
    ensures runs[i].start <= runs[i].end <= length
  {
  }

  lemma StartIsBehind(runs: seq<Run>, start: nat, end: nat)
    requires start <= end
    ensures IsBehind(runs, 0, start, end, start)
  {
  }

  lemma RunsAreBehind(runs: seq<Run>, start: nat, end: nat, cursor: nat)
    requires IsBehind(runs, |runs|, start, end, cursor) && cursor < end
    ensures forall j :: 0 <= j < |runs| ==>
              runs[j].end <= cursor || end <= runs[j].start || runs[j].start == runs[j].end
  {
  }

  lemma RunIsAside(runs: seq<Run>, i: nat, start: nat, end: nat, cursor: nat)
    requires IsBehind(runs, i, start, end, cursor) && i < |runs| && runs[i].start <= runs[i].end
    requires Max(runs[i].start, start) >= Min(runs[i].end, end)
    ensures IsBehind(runs, i + 1, start, end, cursor)
  {
  }

  function Max(a: nat, b: nat): nat {
    if a <= b then b else a
  }

  function Min(a: nat, b: nat): nat {
    if a <= b then a else b
  }

  // ----- All rows -----

  /** What stands in front of a row: the prompt, or blanks under it. */
  function Decoration(prefix: string, width: nat, index: nat): string {
    if index == 0 then prefix else seq(width, _ => ' ')
  }

  /** The first row has the prompt, and every other one as many spaces as the prompt is wide. */
  lemma DecorationIs(prefix: string, width: nat, index: nat)
    ensures Decoration(prefix, width, 0) == prefix
    ensures
      var blanks := Decoration(prefix, width, index + 1);
      |blanks| == width && forall k :: 0 <= k < width ==> blanks[k] == ' '
  {
  }

  /** A row without its decoration, or all of it when it does not start with that. */
  function Content(row: string, decoration: string): string {
    if Starts(row, decoration) then row[|decoration|..] else row
  }

  function Contents(rows: seq<string>, prefix: string, width: nat): (contents: seq<string>)
    ensures |contents| == |rows|
    ensures forall i :: 0 <= i < |rows| ==> contents[i] == Content(rows[i], Decoration(prefix, width, i))
  {
    seq(|rows|, i requires 0 <= i < |rows| => Content(rows[i], Decoration(prefix, width, i)))
  }

  /** Where the walk over the buffer stands: in a line, behind so many of its characters. */
  datatype Place = Place(line: nat, taken: nat)

  /** What a row is matched with. */
  datatype Match = At(place: Place) | Nowhere

  predicate IsPlace(lines: seq<string>, p: Place) {
    p.line < |lines| && p.taken <= |lines[p.line]|
  }

  predicate Fits(lines: seq<string>, p: Place, content: string)
    requires IsPlace(lines, p)
  {
    Starts(lines[p.line][p.taken..], content)
  }

  /** A row the current line cannot account for is tried at the start of the next line, once. */
  function Tried(lines: seq<string>, p: Place, content: string): (q: Place)
    requires IsPlace(lines, p)
    ensures IsPlace(lines, q)
  {
    if !Fits(lines, p, content) && p.line + 1 < |lines| then Place(p.line + 1, 0) else p
  }

  function MatchOf(lines: seq<string>, p: Place, content: string): Match
    requires IsPlace(lines, p)
  {
    var q := Tried(lines, p, content);
    if Fits(lines, q, content) then At(q) else Nowhere
  }

  function Next(lines: seq<string>, p: Place, content: string): (r: Place)
    requires IsPlace(lines, p)
    ensures IsPlace(lines, r)
  {
    var q := Tried(lines, p, content);
    if Fits(lines, q, content) then Place(q.line, q.taken + |content|) else q
  }

  function Matches(lines: seq<string>, p: Place, contents: seq<string>): (r: seq<Match>)
    requires IsPlace(lines, p)
    ensures |r| == |contents|
    ensures forall i :: 0 <= i < |r| && r[i].At? ==> IsPlace(lines, r[i].place) && Fits(lines, r[i].place, contents[i])
    decreases |contents|
  {
    if contents == [] then []
    else [MatchOf(lines, p, contents[0])] + Matches(lines, Next(lines, p, contents[0]), contents[1..])
  }

  /** How a row is painted, given what it is matched with. */
  function RowGlyphs(
    lines: seq<string>, tokens: string -> seq<Segment>, decoration: string, content: string, m: Match): seq<Glyph>
    requires m.At? ==> IsPlace(lines, m.place) && Fits(lines, m.place, content)
  {
    Tagged(decoration, Prompt)
    + match m
      case Nowhere => Tagged(content, UserText)
      case At(Place(line, taken)) =>
        Glyphs(lines[line], taken, taken + |content|, Classified(lines[line], tokens(lines[line])))
  }

  /** What the walk matches the rows of a buffer with. */
  function RowMatches(rows: seq<string>, prefix: string, width: nat, buffer: string): (r: seq<Match>)
    ensures |r| == |rows|
    ensures forall i :: 0 <= i < |r| && r[i].At? ==>
              IsPlace(Split(buffer, '\n'), r[i].place)
              && Fits(Split(buffer, '\n'), r[i].place, Contents(rows, prefix, width)[i])
  {
    Matches(Split(buffer, '\n'), Place(0, 0), Contents(rows, prefix, width))
  }

  predicate IsRow(
    out: RenderLine, lines: seq<string>, tokens: string -> seq<Segment>, decoration: string, content: string, m: Match)
    requires m.At? ==> IsPlace(lines, m.place) && Fits(lines, m.place, content)
  {
    IsCompact(out) && Painted(out.segments) == RowGlyphs(lines, tokens, decoration, content, m)
  }

  method PaintRow(
    lines: seq<string>, tokens: string -> seq<Segment>, decoration: string, content: string, m: Match, runs: seq<Run>)
    returns (out: RenderLine)
    requires m.At? ==> IsPlace(lines, m.place) && Fits(lines, m.place, content)
    requires m.At? ==> runs == Classified(lines[m.place.line], tokens(lines[m.place.line]))
    ensures IsRow(out, lines, tokens, decoration, content, m)
  {
    hide Painted, Classified, Tagged, Glyphs, AreRuns, AreRunsOf, IsCompact, Push;
    match m
    case At(Place(line, taken)) =>
      ClassifiedAreRuns(lines[line], tokens(lines[line]));
      out := SegmentRow(decoration, lines[line], taken, taken + |content|, runs);
    case Nowhere =>
      out := TextLine(decoration, Prompt);
      PaintedOne(decoration, Prompt);
      TextLineIsCompact(decoration, Prompt);
      PushPaints(out, content, UserText);
      PushKeepsCompact(out, content, UserText);
      out := Push(out, content, UserText);
  }

  /** One turn of the loop over the rows. */
  method TakeRow(
    lines: seq<string>, tokens: string -> seq<Segment>, decoration: string, content: string,
    place: Place, runs: seq<Run>)
    returns (out: RenderLine, next: Place, nextRuns: seq<Run>)
    requires IsPlace(lines, place) && runs == Classified(lines[place.line], tokens(lines[place.line]))
    ensures IsRow(out, lines, tokens, decoration, content, MatchOf(lines, place, content))
    ensures next == Next(lines, place, content)
    ensures nextRuns == Classified(lines[next.line], tokens(lines[next.line]))
  {
    hide Classified, IsRow, Fits;
    var tried := place;
    nextRuns := runs;
    if !Fits(lines, place, content) && place.line + 1 < |lines| {
      tried := Place(place.line + 1, 0);
      nextRuns := Classify(lines[tried.line], tokens(lines[tried.line]));
    }
    if Fits(lines, tried, content) {
      out := PaintRow(lines, tokens, decoration, content, At(tried), nextRuns);
      next := Place(tried.line, tried.taken + |content|);
    } else {
      out := PaintRow(lines, tokens, decoration, content, Nowhere, nextRuns);
      next := tried;
    }
  }

  method InputRows(rows: seq<string>, prefix: string, width: nat, buffer: string, tokens: string -> seq<Segment>)
    returns (out: seq<RenderLine>)
    ensures |out| == |rows|
    ensures
      var lines, contents := Split(buffer, '\n'), Contents(rows, prefix, width);
      var matches := RowMatches(rows, prefix, width, buffer);
      forall i :: 0 <= i < |rows| ==>
        IsRow(out[i], lines, tokens, Decoration(prefix, width, i), contents[i], matches[i])
  {
    hide Classified, IsRow, Fits, Decoration, Content, Next, Matches, MatchOf;
    var lines := Split(buffer, '\n');
    ghost var contents := Contents(rows, prefix, width);
    ghost var matches := Matches(lines, Place(0, 0), contents);
    var place := Place(0, 0);
    var runs := Classify(lines[0], tokens(lines[0]));
    out := [];
    assert contents[0..] == contents && matches[0..] == matches;
    while |out| < |rows|
      invariant |out| <= |rows| && IsPlace(lines, place)
      invariant runs == Classified(lines[place.line], tokens(lines[place.line]))
      invariant matches[|out|..] == Matches(lines, place, contents[|out|..])
      invariant forall i :: 0 <= i < |out| ==>
                  IsRow(out[i], lines, tokens, Decoration(prefix, width, i), contents[i], matches[i])
    {
      var decoration := Decoration(prefix, width, |out|);
      var content := Content(rows[|out|], decoration);
      MatchesStep(lines, place, contents, |out|, matches);
      var line;
      line, place, runs := TakeRow(lines, tokens, decoration, content, place, runs);
      out := out + [line];
    }
  }

  lemma MatchesStep(lines: seq<string>, p: Place, contents: seq<string>, k: nat, matches: seq<Match>)
    requires IsPlace(lines, p) && k < |contents| == |matches| && matches[k..] == Matches(lines, p, contents[k..])
    ensures matches[k] == MatchOf(lines, p, contents[k])
    ensures matches[k + 1..] == Matches(lines, Next(lines, p, contents[k]), contents[k + 1..])
  {
    hide MatchOf, Next;
    assert contents[k..][1..] == contents[k + 1..];
    assert matches[k] == matches[k..][0] && matches[k + 1..] == matches[k..][1..];
  }

  lemma CharsOfRow(
    lines: seq<string>, tokens: string -> seq<Segment>, decoration: string, content: string, m: Match)
    requires m.At? ==> IsPlace(lines, m.place) && Fits(lines, m.place, content)
    ensures Chars(RowGlyphs(lines, tokens, decoration, content, m)) == decoration + content
  {
    hide Classified;
    match m
    case Nowhere =>
    case At(Place(line, taken)) =>
      assert lines[line][taken..][..|content|] == content;
      assert forall k :: 0 <= k < |content| ==> lines[line][taken + k] == content[k];
  }

  /**
   Whatever the classifier reports, a painted row reads as its decoration and its content, and
   that is the row itself exactly when the row starts with its decoration.
   */
  lemma RowIsKept(
    out: RenderLine, row: string, lines: seq<string>, tokens: string -> seq<Segment>, decoration: string, m: Match)
    requires m.At? ==> IsPlace(lines, m.place) && Fits(lines, m.place, Content(row, decoration))
    requires IsRow(out, lines, tokens, decoration, Content(row, decoration), m)
    ensures Plain(out.segments) == decoration + Content(row, decoration)
    ensures Plain(out.segments) == row <==> Starts(row, decoration)
  {
    hide Painted, RowGlyphs, Fits, IsCompact;
    PlainIsChars(out.segments);
    CharsOfRow(lines, tokens, decoration, Content(row, decoration), m);
    if Starts(row, decoration) {
      assert row == row[..|decoration|] + row[|decoration|..];
    } else {
      assert decoration != "";
      assert |decoration + row| > |row|;
    }
  }

  // ----- Rows of a displayed buffer -----

  predicate Before(a: Place, b: Place) {
    a.line < b.line || (a.line == b.line && a.taken <= b.taken)
  }

  lemma {:induction false} MatchesFollow(lines: seq<string>, p: Place, contents: seq<string>, i: nat)
    requires IsPlace(lines, p) && i < |contents|
    ensures Matches(lines, p, contents)[i].At? ==> Before(p, Matches(lines, p, contents)[i].place)
    decreases i
  {
    hide Fits;
    if i > 0 { MatchesFollow(lines, Next(lines, p, contents[0]), contents[1..], i - 1); }
  }

  /** Matched rows follow the buffer in order, and no character is painted twice. */
  lemma {:induction false} MatchesAdvance(lines: seq<string>, p: Place, contents: seq<string>, i: nat, j: nat)
    requires IsPlace(lines, p) && i < j < |contents|
    requires Matches(lines, p, contents)[i].At? && Matches(lines, p, contents)[j].At?
    ensures
      var a, b := Matches(lines, p, contents)[i].place, Matches(lines, p, contents)[j].place;
      Before(Place(a.line, a.taken + |contents[i]|), b)
    decreases i
  {
    hide Fits;
    if i == 0 {
      MatchesFollow(lines, Next(lines, p, contents[0]), contents[1..], j - 1);
    } else {
      MatchesAdvance(lines, Next(lines, p, contents[0]), contents[1..], i - 1, j - 1);
    }
  }

  /** A line shown in rows: cut where the width says, an empty line as one empty row. */
  predicate IsCut(line: string, rows: seq<string>) {
    && Concat(rows) == line
    && (if line == "" then rows == [""] else forall i :: 0 <= i < |rows| ==> rows[i] != "")
  }

  predicate AreCuts(lines: seq<string>, cuts: seq<seq<string>>) {
    |cuts| == |lines| && forall i :: 0 <= i < |lines| ==> IsCut(lines[i], cuts[i])
  }

  function Flat(cuts: seq<seq<string>>): seq<string> {
    if cuts == [] then [] else cuts[0] + Flat(cuts[1..])
  }

  /** Where the rows of one line, and of all lines, really come from. */
  function LinePlaces(line: nat, taken: nat, rows: seq<string>): (r: seq<Match>)
    ensures |r| == |rows|
    decreases |rows|
  {
    if rows == [] then [] else [At(Place(line, taken))] + LinePlaces(line, taken + |rows[0]|, rows[1..])
  }

  function TruePlaces(line: nat, cuts: seq<seq<string>>): (r: seq<Match>)
    ensures |r| == |Flat(cuts)|
    decreases |cuts|
  {
    if cuts == [] then [] else LinePlaces(line, 0, cuts[0]) + TruePlaces(line + 1, cuts[1..])
  }

  /** The same match for every row that shows something. */
  predicate Agree(contents: seq<string>, a: seq<Match>, b: seq<Match>) {
    |a| == |b| == |contents| && forall i :: 0 <= i < |contents| && contents[i] != "" ==> a[i] == b[i]
  }

  lemma AgreeOfConcat(c: seq<string>, d: seq<string>, p: seq<Match>, q: seq<Match>, t: seq<Match>, u: seq<Match>)
    requires |c| == |p| == |t| && |d| == |q| == |u|
    ensures Agree(c + d, p + q, t + u) <==> Agree(c, p, t) && Agree(d, q, u)
  {
    if Agree(c + d, p + q, t + u) {
      forall i | 0 <= i < |c| && c[i] != "" ensures p[i] == t[i] { assert (c + d)[i] == c[i]; }
      forall i | 0 <= i < |d| && d[i] != "" ensures q[i] == u[i] {
        assert (c + d)[|c| + i] == d[i] && (p + q)[|c| + i] == q[i] && (t + u)[|c| + i] == u[i];
      }
    }
  }

  function PlaceBehind(lines: seq<string>, p: Place, contents: seq<string>): (q: Place)
    requires IsPlace(lines, p)
    ensures IsPlace(lines, q)
    decreases |contents|
  {
    if contents == [] then p else PlaceBehind(lines, Next(lines, p, contents[0]), contents[1..])
  }

  lemma {:induction false} MatchesOfConcat(lines: seq<string>, p: Place, a: seq<string>, b: seq<string>)
    requires IsPlace(lines, p)
    ensures Matches(lines, p, a + b) == Matches(lines, p, a) + Matches(lines, PlaceBehind(lines, p, a), b)
    decreases |a|
  {
    hide MatchOf, Next, IsPlace;
    if a == [] {
      assert a + b == b;
    } else {
      assert (a + b)[1..] == a[1..] + b;
      MatchesOfConcat(lines, Next(lines, p, a[0]), a[1..], b);
    }
  }

  /** The rows of one line are matched where they come from, once its first row is. */
  lemma {:induction false} LineIsMatched(lines: seq<string>, p: Place, rows: seq<string>)
    requires IsPlace(lines, p) && Concat(rows) == lines[p.line][p.taken..]
    ensures Matches(lines, p, rows) == LinePlaces(p.line, p.taken, rows)
    ensures PlaceBehind(lines, p, rows) == Place(p.line, |lines[p.line]|)
    decreases |rows|
  {
    var rest := lines[p.line][p.taken..];
    if rows == [] {
      assert |rest| == 0;
    } else {
      assert rest == rows[0] + Concat(rows[1..]);
      assert rest[..|rows[0]|] == rows[0];
      assert Fits(lines, p, rows[0]);
      assert Next(lines, p, rows[0]) == Place(p.line, p.taken + |rows[0]|);
      assert lines[p.line][p.taken + |rows[0]|..] == rest[|rows[0]|..] == Concat(rows[1..]);
      LineIsMatched(lines, Next(lines, p, rows[0]), rows[1..]);
    }
  }

  /** The rows of a line that is not empty, coming from the end of the one in front of it. */
  lemma NextLineIsMatched(lines: seq<string>, j: nat, rows: seq<string>)
    requires j + 1 < |lines| && lines[j + 1] != "" && IsCut(lines[j + 1], rows)
    ensures
      var p := Place(j, |lines[j]|);
      && Matches(lines, p, rows) == LinePlaces(j + 1, 0, rows)
      && PlaceBehind(lines, p, rows) == Place(j + 1, |lines[j + 1]|)
  {
    var p, q := Place(j, |lines[j]|), Place(j + 1, 0);
    assert rows != [] && rows[0] != "";
    assert !Fits(lines, p, rows[0]);
    assert lines[j + 1][0..] == lines[j + 1];
    LineIsMatched(lines, q, rows);
    assert Fits(lines, q, rows[0]) by { FirstFits(lines[j + 1], rows); }
    assert Tried(lines, p, rows[0]) == Tried(lines, q, rows[0]) == q;
  }

  lemma FirstFits(line: string, rows: seq<string>)
    requires rows != [] && Concat(rows) == line
    ensures Starts(line[0..], rows[0])
  {
    assert line == rows[0] + Concat(rows[1..]);
    assert line[0..] == line;
  }

  /** From line `from` on, nothing is behind an empty line but empty lines. */
  predicate IsFull(lines: seq<string>, from: nat) {
    forall j, k :: from <= j < k < |lines| && lines[j] == "" ==> lines[k] == ""
  }

  lemma {:induction false} AllEmpty(lines: seq<string>, cuts: seq<seq<string>>, m: nat, i: nat)
    requires AreCuts(lines, cuts) && m <= |lines| && forall k :: m <= k < |lines| ==> lines[k] == ""
    requires i < |Flat(cuts[m..])|
    ensures Flat(cuts[m..])[i] == ""
    decreases |lines| - m
  {
    if m < |lines| {
      assert IsCut(lines[m], cuts[m]);
      assert cuts[m..][1..] == cuts[m + 1..];
      if i > 0 { AllEmpty(lines, cuts, m + 1, i - 1); }
    }
  }

  lemma FlatStep(cuts: seq<seq<string>>, m: nat)
    requires m < |cuts|
    ensures Flat(cuts[m..]) == cuts[m] + Flat(cuts[m + 1..])
    ensures TruePlaces(m, cuts[m..]) == LinePlaces(m, 0, cuts[m]) + TruePlaces(m + 1, cuts[m + 1..])
  {
    assert cuts[m..][1..] == cuts[m + 1..];
  }

  /** Behind an empty line the walk stays where it is, and the next row that shows something is lost. */
  lemma {:induction false} LostBehindEmptyLine(lines: seq<string>, cuts: seq<seq<string>>, j: nat, m: nat, k: nat)
    requires AreCuts(lines, cuts) && j + 1 < |lines| && lines[j + 1] == ""
    requires j + 1 <= m <= k < |lines| && lines[k] != ""
    ensures
      var p, contents := Place(j, |lines[j]|), Flat(cuts[m..]);
      !Agree(contents, Matches(lines, p, contents), TruePlaces(m, cuts[m..]))
    decreases k - m
  {
    hide Flat, TruePlaces, Agree, AreCuts;
    CutsAre(lines, cuts, m);
    var p, rest := Place(j, |lines[j]|), Flat(cuts[m + 1..]);
    FlatStep(cuts, m);
    MatchesOfConcat(lines, p, cuts[m], rest);
    var first := Matches(lines, p, cuts[m]);
    AgreeOfConcat(cuts[m], rest, first, Matches(lines, PlaceBehind(lines, p, cuts[m]), rest),
                  LinePlaces(m, 0, cuts[m]), TruePlaces(m + 1, cuts[m + 1..]));
    if lines[m] == "" {
      StaysAtEmpty(lines, p);
      LostBehindEmptyLine(lines, cuts, j, m + 1, k);
    } else {
      assert cuts[m] != [] && cuts[m][0] != "";
      assert first[0] == Nowhere by { LostRow(lines, j, cuts[m][0]); }
      Disagree(cuts[m], first, LinePlaces(m, 0, cuts[m]));
    }
  }

  lemma CutsAre(lines: seq<string>, cuts: seq<seq<string>>, m: nat)
    requires AreCuts(lines, cuts) && m < |lines|
    ensures IsCut(lines[m], cuts[m]) && |cuts| == |lines|
  {
  }

  lemma Disagree(contents: seq<string>, a: seq<Match>, b: seq<Match>)
    requires |contents| == |a| == |b| > 0 && contents[0] != "" && a[0] != b[0]
    ensures !Agree(contents, a, b)
  {
  }

  lemma StaysAtEmpty(lines: seq<string>, p: Place)
    requires IsPlace(lines, p)
    ensures PlaceBehind(lines, p, [""]) == p
  {
    assert Fits(lines, p, "");
    assert Next(lines, p, "") == p;
  }

  lemma LostRow(lines: seq<string>, j: nat, content: string)
    requires j + 1 < |lines| && lines[j + 1] == "" && content != ""
    ensures MatchOf(lines, Place(j, |lines[j]|), content) == Nowhere
  {
  }

  /** The rows behind a line that has been used up. */
  lemma {:induction false} RestIsMatchedIff(lines: seq<string>, cuts: seq<seq<string>>, j: nat)
    requires AreCuts(lines, cuts) && j < |lines|
    ensures
      var p, contents := Place(j, |lines[j]|), Flat(cuts[j + 1..]);
      Agree(contents, Matches(lines, p, contents), TruePlaces(j + 1, cuts[j + 1..])) <==> IsFull(lines, j + 1)
    decreases |lines| - j
  {
    hide Flat, TruePlaces, Agree, AreCuts, Matches, PlaceBehind, LinePlaces;
    var p, m := Place(j, |lines[j]|), j + 1;
    CutsAre(lines, cuts, j);
    var contents := Flat(cuts[m..]);
    if m == |lines| {
      assert contents == [] by { FlatOfNothing(cuts[m..]); }
      NothingToAgree(contents, Matches(lines, p, contents), TruePlaces(m, cuts[m..]));
    } else if lines[m] != "" {
      CutsAre(lines, cuts, m);
      NextLineIsMatched(lines, j, cuts[m]);
      var rest, q := Flat(cuts[m + 1..]), Place(m, |lines[m]|);
      FlatStep(cuts, m);
      MatchesOfConcat(lines, p, cuts[m], rest);
      AgreeOfConcat(cuts[m], rest, LinePlaces(m, 0, cuts[m]), Matches(lines, q, rest),
                    LinePlaces(m, 0, cuts[m]), TruePlaces(m + 1, cuts[m + 1..]));
      AgreesWithItself(cuts[m], LinePlaces(m, 0, cuts[m]));
      RestIsMatchedIff(lines, cuts, m);
    } else if k :| m < k < |lines| && lines[k] != "" {
      LostBehindEmptyLine(lines, cuts, j, m, k);
    } else {
      forall i | 0 <= i < |contents| ensures contents[i] == "" { AllEmpty(lines, cuts, m, i); }
      NothingToAgree(contents, Matches(lines, p, contents), TruePlaces(m, cuts[m..]));
    }
  }

  lemma FlatOfNothing(cuts: seq<seq<string>>)
    requires cuts == []
    ensures Flat(cuts) == []
  {
  }

  lemma NothingToAgree(contents: seq<string>, a: seq<Match>, b: seq<Match>)
    requires |contents| == |a| == |b| && forall i :: 0 <= i < |contents| ==> contents[i] == ""
    ensures Agree(contents, a, b)
  {
  }

  lemma AgreesWithItself(contents: seq<string>, a: seq<Match>)
    requires |contents| == |a|
    ensures Agree(contents, a, a)
  {
  }

  /** The same for all lines. */
  lemma LinesAreMatchedIff(lines: seq<string>, cuts: seq<seq<string>>)
    requires lines != [] && AreCuts(lines, cuts)
    ensures
      var contents := Flat(cuts);
      Agree(contents, Matches(lines, Place(0, 0), contents), TruePlaces(0, cuts)) <==> IsFull(lines, 1)
  {
    hide Flat, TruePlaces, Agree, AreCuts, Matches, PlaceBehind, LinePlaces, IsFull;
    CutsAre(lines, cuts, 0);
    var p, rest := Place(0, 0), Flat(cuts[1..]);
    assert lines[0][0..] == lines[0] && cuts[0..] == cuts;
    LineIsMatched(lines, p, cuts[0]);
    FlatStep(cuts, 0);
    MatchesOfConcat(lines, p, cuts[0], rest);
    AgreeOfConcat(cuts[0], rest, LinePlaces(0, 0, cuts[0]), Matches(lines, Place(0, |lines[0]|), rest),
                  LinePlaces(0, 0, cuts[0]), TruePlaces(1, cuts[1..]));
    AgreesWithItself(cuts[0], LinePlaces(0, 0, cuts[0]));
    RestIsMatchedIff(lines, cuts, 0);
  }

  /** The rows as they are displayed, decorated. */
  function Displayed(contents: seq<string>, prefix: string, width: nat): (rows: seq<string>)
    ensures |rows| == |contents|
    ensures forall i :: 0 <= i < |rows| ==> rows[i] == Decoration(prefix, width, i) + contents[i]
  {
    seq(|contents|, i requires 0 <= i < |contents| => Decoration(prefix, width, i) + contents[i])
  }

  lemma ContentsOfDisplayed(contents: seq<string>, prefix: string, width: nat)
    ensures Contents(Displayed(contents, prefix, width), prefix, width) == contents
  {
    hide Decoration;
    var rows := Displayed(contents, prefix, width);
    forall i | 0 <= i < |contents| ensures Content(rows[i], Decoration(prefix, width, i)) == contents[i] {
      var d := Decoration(prefix, width, i);
      assert rows[i][..|d|] == d && rows[i][|d|..] == contents[i];
    }
  }

  /**
   The rows a buffer is displayed in, decorated, are all matched with the characters they show exactly
   when no empty line of the buffer, but for the very first, has a line with text somewhere behind it.
   */
  lemma DisplayIsMatchedIff(buffer: string, cuts: seq<seq<string>>, prefix: string, width: nat)
    requires AreCuts(Split(buffer, '\n'), cuts)
    ensures
      var rows := Displayed(Flat(cuts), prefix, width);
      Agree(Flat(cuts), RowMatches(rows, prefix, width, buffer), TruePlaces(0, cuts))
      <==> IsFull(Split(buffer, '\n'), 1)
  {
    hide Flat, TruePlaces, Agree, AreCuts, Matches, IsFull, Split;
    ContentsOfDisplayed(Flat(cuts), prefix, width);
    LinesAreMatchedIff(Split(buffer, '\n'), cuts);
  }

  /** How the rows of a displayed buffer are painted when each is matched where it comes from. */
  lemma DisplayIsPaintedTruly(
    buffer: string, cuts: seq<seq<string>>, prefix: string, width: nat, tokens: string -> seq<Segment>,
    out: seq<RenderLine>, i: nat)
    requires AreCuts(Split(buffer, '\n'), cuts) && IsFull(Split(buffer, '\n'), 1)
    requires i < |Flat(cuts)| == |out| && Flat(cuts)[i] != ""
    requires
      var rows := Displayed(Flat(cuts), prefix, width);
      IsRow(out[i], Split(buffer, '\n'), tokens, Decoration(prefix, width, i), Contents(rows, prefix, width)[i],
            RowMatches(rows, prefix, width, buffer)[i])
    ensures
      var m, content := TruePlaces(0, cuts)[i], Flat(cuts)[i];
      && m.At? && IsPlace(Split(buffer, '\n'), m.place) && Fits(Split(buffer, '\n'), m.place, content)
      && IsRow(out[i], Split(buffer, '\n'), tokens, Decoration(prefix, width, i), content, m)
  {
    hide Flat, AreCuts, Matches, IsFull, Split, IsRow, Fits, IsPlace;
    DisplayIsMatchedIff(buffer, cuts, prefix, width);
    ContentsOfDisplayed(Flat(cuts), prefix, width);
    PlaceIsReal(0, cuts, i);
  }

  lemma {:induction false} PlaceIsReal(line: nat, cuts: seq<seq<string>>, i: nat)
    requires i < |Flat(cuts)|
    ensures TruePlaces(line, cuts)[i].At?
    decreases |cuts|
  {
    hide LinePlaces;
    LinePlacesAreReal(line, 0, cuts[0]);
    if i >= |cuts[0]| { PlaceIsReal(line + 1, cuts[1..], i - |cuts[0]|); }
  }

  lemma {:induction false} LinePlacesAreReal(line: nat, taken: nat, rows: seq<string>)
    ensures forall i :: 0 <= i < |rows| ==> LinePlaces(line, taken, rows)[i].At?
    decreases |rows|
  {
    if rows != [] { LinePlacesAreReal(line, taken + |rows[0]|, rows[1..]); }
  }

  lemma ExampleIsCut()
    ensures AreCuts(["a", "", "b"], [["a"], [""], ["b"]]) && Flat([["a"], [""], ["b"]]) == ["a", "", "b"]
  {
    hide Concat;
    ConcatOne("a");
    ConcatOne("b");
    ConcatOne("");
    FlatOfThree(["a"], [""], ["b"]);
  }

  /** Three lines, the middle one empty: the row of the last one keeps its text and loses its roles. */
  lemma EmptyLineLosesRow(prefix: string, width: nat)
    ensures
      var rows := Displayed(["a", "", "b"], prefix, width);
      && RowMatches(rows, prefix, width, "a\n\nb") == [At(Place(0, 0)), At(Place(0, 1)), Nowhere]
      && AreCuts(Split("a\n\nb", '\n'), [["a"], [""], ["b"]]) && Flat([["a"], [""], ["b"]]) == ["a", "", "b"]
  {
    hide Split, Matches, AreCuts, Flat, Contents, Displayed;
    ExampleSplits();
    ExampleMatches();
    ExampleIsCut();
    ContentsOfDisplayed(["a", "", "b"], prefix, width);
  }

  lemma ConcatOne(text: string)
    ensures Concat([text]) == text
  {
    assert [text][1..] == [];
  }

  lemma FlatOfThree(a: seq<string>, b: seq<string>, c: seq<string>)
    ensures Flat([a, b, c]) == a + b + c
  {
    assert [a, b, c][1..] == [b, c] && [b, c][1..] == [c] && [c][1..] == [];
    assert Flat([c]) == c + Flat([]) == c;
    assert Flat([b, c]) == b + c;
    assert Flat([a, b, c]) == a + (b + c);
  }

  lemma ExampleSplits()
    ensures Split("a\n\nb", '\n') == ["a", "", "b"]
  {
    assert "a\n\nb" == "a" + ['\n'] + "\nb" && "\nb" == "" + ['\n'] + "b";
    SplitAt("a", '\n', "\nb");
    SplitAt("", '\n', "b");
    assert Split("b", '\n') == ["b"] by { assert '\n' !in "b"; }
  }

  lemma ExampleMatches()
    ensures Matches(["a", "", "b"], Place(0, 0), ["a", "", "b"]) == [At(Place(0, 0)), At(Place(0, 1)), Nowhere]
  {
    hide Fits, Matches;
    var lines := ["a", "", "b"];
    var p, q := Place(0, 0), Place(0, 1);
    ExampleFits();
    MatchesCons(lines, p, "a", ["", "b"]);
    MatchesCons(lines, q, "", ["b"]);
    MatchesCons(lines, q, "b", []);
    assert ["a"] + ["", "b"] == ["a", "", "b"] && [""] + ["b"] == ["", "b"] && ["b"] + [] == ["b"];
  }

  lemma ExampleFits()
    ensures var lines := ["a", "", "b"];
      && Fits(lines, Place(0, 0), "a") && Fits(lines, Place(0, 1), "")
      && !Fits(lines, Place(0, 1), "b") && !Fits(lines, Place(1, 0), "b")
  {
    assert "a"[0..] == "a" && "a"[1..] == "" && ""[0..] == "";
  }

  lemma MatchesCons(lines: seq<string>, p: Place, content: string, rest: seq<string>)
    requires IsPlace(lines, p)
    ensures Matches(lines, p, [content] + rest) ==
            [MatchOf(lines, p, content)] + Matches(lines, Next(lines, p, content), rest)
  {
    hide MatchOf, Next;
    assert ([content] + rest)[1..] == rest;
  }
}
