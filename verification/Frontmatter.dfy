/**
 The `---` block in front of a skill or prompt file (crates/rupi-compat/src/frontmatter.rs):
 `extract` reads its fields, `strip` takes it off.
 */
module Frontmatter {
  import opened Text
  import opened Scalars

  const FENCE := "---"
  const BOM: char := '\U{FEFF}'

  function DropBom(text: string): string {
    if text != [] && text[0] == BOM then text[1..] else text
  }

  /** A line without its line break, which may be a carriage return and a line feed. */
  function LineText(line: string): string {
    if line != [] && line[|line| - 1] == '\n' then
      var body := line[..|line| - 1];
      if body != [] && body[|body| - 1] == '\r' then body[..|body| - 1] else body
    else line
  }

  function LineTexts(lines: seq<string>): (texts: seq<string>)
    ensures |texts| == |lines|
    ensures forall i :: 0 <= i < |lines| ==> texts[i] == LineText(lines[i])
  {
    if lines == [] then [] else [LineText(lines[0])] + LineTexts(lines[1..])
  }

  // ----- Reading the block -----

  type Fields = map<string, string>

  datatype Extract = Found(fields: Fields) | Absent | Unterminated

  datatype Reading = Reading(fields: Fields, pending: Option<(string, BlockScalar)>)

  function Close(r: Reading): Reading {
    match r.pending
    case None => r
    case Some((key, block)) => Reading(r.fields[key := Value(block)], None)
  }

  predicate IsIndented(line: string) {
    line != [] && (line[0] == ' ' || line[0] == '\t')
  }

  /** A bar or an arrow, with a minus or nothing behind it. */
  predicate OpensBlock(raw: string) {
    raw != "" && (raw[0] == '|' || raw[0] == '>') && (Trim(raw[1..]) == "" || Trim(raw[1..]) == "-")
  }

  /** A `key: value` line at column zero. */
  function ReadPair(r: Reading, trimmed: string): Reading {
    match Cut(trimmed, ':')
    case None => r
    case Some((before, after)) =>
      var key, raw := Trim(before), Trim(after);
      if key == "" then r
      else if OpensBlock(raw) then
        r.(pending := Some((key, BlockScalar(raw[0] == '>', Trim(raw[1..]) == "", []))))
      else r.(fields := r.fields[key := Unquote(raw)])
  }

  /** One line that does not close the block. */
  function ReadLine(r: Reading, line: string): Reading {
    var trimmed := TrimEnd(line);
    if r.pending.Some? && (trimmed == "" || IsIndented(line)) then
      var (key, block) := r.pending.value;
      r.(pending := Some((key, block.(lines := block.lines + [trimmed]))))
    else if trimmed == "" || trimmed[0] == '#' || IsIndented(line) then Close(r)
    else ReadPair(Close(r), trimmed)
  }

  function ReadBlock(lines: seq<string>, r: Reading): Extract {
    if lines == [] then Unterminated
    else if TrimEnd(lines[0]) == FENCE then Found(Close(r).fields)
    else ReadBlock(lines[1..], ReadLine(r, lines[0]))
  }

  function ExtractFrom(text: string): Extract {
    var lines := LineTexts(SplitInclusive(DropBom(text)));
    if lines == [] || TrimEnd(lines[0]) != FENCE then Absent
    else ReadBlock(lines[1..], Reading(map[], None))
  }

  method CloseBlock(pending: Option<(string, BlockScalar)>, fields: Fields) returns (r: Fields)
    ensures r == Close(Reading(fields, pending)).fields
  {
    if pending.Some? {
      var text := BlockValue(pending.value.1);
      r := fields[pending.value.0 := text];
    } else {
      r := fields;
    }
  }

  method TakePair(fields: Fields, trimmed: string) returns (r: Fields, pending: Option<(string, BlockScalar)>)
    ensures Reading(r, pending) == ReadPair(Reading(fields, None), trimmed)
  {
    hide Unquote, Trim;
    r, pending := fields, None;
    match Cut(trimmed, ':')
    case None => return;
    case Some((before, after)) =>
      var key, raw := Trim(before), Trim(after);
      if key == "" {
        return;
      }
      if raw != "" && (raw[0] == '|' || raw[0] == '>') {
        var chomp := Trim(raw[1..]);
        if chomp == "" || chomp == "-" {
          pending := Some((key, BlockScalar(raw[0] == '>', chomp == "", [])));
          return;
        }
      }
      var value := UnquoteText(raw);
      r := fields[key := value];
  }

  method ExtractText(text: string) returns (r: Extract)
    ensures r == ExtractFrom(text)
  {
    hide ReadPair, Value, TrimEnd, SplitInclusive, LineTexts;
    var lines := LineTexts(SplitInclusive(DropBom(text)));
    if lines == [] || TrimEnd(lines[0]) != FENCE {
      return Absent;
    }
    var fields: Fields, pending, i := map[], None, 1;
    while i < |lines|
      invariant 1 <= i <= |lines|
      invariant ReadBlock(lines[1..], Reading(map[], None)) == ReadBlock(lines[i..], Reading(fields, pending))
    {
      var line := lines[i];
      var trimmed := TrimEnd(line);
      ReadBlockStep(lines, i, Reading(fields, pending));
      if trimmed == FENCE {
        fields := CloseBlock(pending, fields);
        return Found(fields);
      }
      if pending.Some? && (trimmed == "" || IsIndented(line)) {
        var (key, block) := pending.value;
        pending := Some((key, block.(lines := block.lines + [trimmed])));
      } else {
        fields := CloseBlock(pending, fields);
        pending := None;
        if trimmed != "" && trimmed[0] != '#' && !IsIndented(line) {
          fields, pending := TakePair(fields, trimmed);
        }
      }
      i := i + 1;
    }
    r := Unterminated;
  }

  lemma ReadBlockStep(lines: seq<string>, i: nat, r: Reading)
    requires i < |lines|
    ensures ReadBlock(lines[i..], r) ==
      if TrimEnd(lines[i]) == FENCE then Found(Close(r).fields) else ReadBlock(lines[i + 1..], ReadLine(r, lines[i]))
  {
    hide ReadLine, TrimEnd, Close;
    assert lines[i..][1..] == lines[i + 1..];
  }

  // ----- Taking the block off -----

  /** The body behind the block, or nothing when there is no block to take off. */
  function BodyBehind(lines: seq<string>): Option<string> {
    if lines == [] then None
    else if Trim(lines[0]) == FENCE then Some(DropLeadingBreaks(Concat(lines[1..])))
    else BodyBehind(lines[1..])
  }

  function DropLeadingBreaks(text: string): string {
    if text != [] && (text[0] == '\r' || text[0] == '\n') then DropLeadingBreaks(text[1..]) else text
  }

  function Removed(text: string): Option<string> {
    var lines := SplitInclusive(DropBom(text));
    if lines == [] || Trim(lines[0]) != FENCE then None else BodyBehind(lines[1..])
  }

  function Strip(text: string): string {
    match Removed(text)
    case Some(body) => body
    case None => DropBom(text)
  }

  method StripText(input: string) returns (body: string)
    ensures body == Strip(input)
  {
    hide Concat, Trim, BodyBehind, SplitInclusive, DropLeadingBreaks;
    var text := DropBom(input);
    var lines := SplitInclusive(text);
    SplitInclusiveIsLines(text);
    if lines == [] || Trim(lines[0]) != FENCE {
      return text;
    }
    var offset, i := |lines[0]|, 1;
    ConcatStep(lines, 0);
    while i < |lines|
      invariant 1 <= i <= |lines|
      invariant 0 <= offset <= |text|
      invariant text[offset..] == Concat(lines[i..])
      invariant BodyBehind(lines[1..]) == BodyBehind(lines[i..])
    {
      var line := lines[i];
      ConcatStep(lines, i);
      BodyStep(lines, i);
      assert |text[offset..]| >= |line|;
      assert text[offset + |line|..] == text[offset..][|line|..];
      if Trim(line) == FENCE {
        return DropLeadingBreaks(text[offset + |line|..]);
      }
      offset := offset + |line|;
      i := i + 1;
    }
    BodyBehindNothing(lines[i..]);
    body := text;
  }

  lemma ConcatStep(lines: seq<string>, i: nat)
    requires i < |lines|
    ensures Concat(lines[i..]) == lines[i] + Concat(lines[i + 1..])
    ensures i == 0 ==> Concat(lines) == lines[0] + Concat(lines[1..])
  {
    assert lines[i..][1..] == lines[i + 1..];
  }

  lemma BodyStep(lines: seq<string>, i: nat)
    requires i < |lines|
    ensures BodyBehind(lines[i..]) ==
      if Trim(lines[i]) == FENCE then Some(DropLeadingBreaks(Concat(lines[i + 1..]))) else BodyBehind(lines[i + 1..])
  {
    assert lines[i..][1..] == lines[i + 1..];
  }

  lemma BodyBehindNothing(lines: seq<string>)
    requires lines == []
    ensures BodyBehind(lines) == None
  {
  }

  // ----- Where each of them sees a block -----

  /** The first line that is a fence; `extract` wants it at column zero, `strip` does not. */
  function FenceAt(lines: seq<string>, indented: bool): (r: Option<nat>)
    ensures r.Some? ==> r.value < |lines| && IsFence(lines[r.value], indented)
    ensures forall i :: 0 <= i < (if r.Some? then r.value else |lines|) ==> !IsFence(lines[i], indented)
  {
    if lines == [] then None
    else if IsFence(lines[0], indented) then Some(0)
    else
      match FenceAt(lines[1..], indented)
      case None => None
      case Some(i) => Some(i + 1)
  }

  predicate IsFence(line: string, indented: bool) {
    if indented then Trim(line) == FENCE else TrimEnd(line) == FENCE
  }

  predicate IsIndentedFence(line: string) {
    IsFence(line, true) && !IsFence(line, false)
  }

  /** The lines `strip` and `extract` both go over, with their line breaks. */
  function LinesOf(text: string): seq<string> {
    SplitInclusive(DropBom(text))
  }

  /** The reading behind some lines. */
  function ReadLines(lines: seq<string>, r: Reading): Reading {
    if lines == [] then r else ReadLines(lines[1..], ReadLine(r, LineText(lines[0])))
  }

  lemma FenceIsLoose(line: string)
    requires IsFence(line, false)
    ensures IsFence(line, true)
  {
    assert TrimStart(FENCE) == FENCE;
  }

  /** A line break at the end is white space. */
  lemma TrimOfLineText(line: string)
    ensures TrimEnd(LineText(line)) == TrimEnd(line)
  {
  }

  /** `extract` reads the lines in front of the first fence at column zero. */
  lemma {:induction false} BlockIs(lines: seq<string>, r: Reading)
    ensures ReadBlock(LineTexts(lines), r) ==
      match FenceAt(lines, false)
      case None => Unterminated
      case Some(k) => Found(Close(ReadLines(lines[..k], r)).fields)
  {
    hide ReadLine, TrimEnd, Close, LineText;
    if lines != [] {
      TrimOfLineText(lines[0]);
      assert LineTexts(lines)[1..] == LineTexts(lines[1..]);
      if IsFence(lines[0], false) {
        assert lines[..0] == [];
      } else {
        BlockIs(lines[1..], ReadLine(r, LineText(lines[0])));
        var k := FenceAt(lines, false);
        if k.Some? { assert lines[..k.value][1..] == lines[1..][..k.value - 1]; }
      }
    }
  }

  /** `strip` keeps the lines behind the first fence, indented or not. */
  lemma {:induction false} BodyIs(lines: seq<string>)
    ensures BodyBehind(lines) ==
      match FenceAt(lines, true)
      case None => None
      case Some(k) => Some(DropLeadingBreaks(Concat(lines[k + 1..])))
  {
    hide Trim, Concat, DropLeadingBreaks;
    if lines != [] && !IsFence(lines[0], true) {
      BodyIs(lines[1..]);
      var k := FenceAt(lines, true);
      if k.Some? { assert lines[1..][k.value..] == lines[k.value + 1..]; }
    }
  }

  lemma FenceAtStart(lines: seq<string>, indented: bool)
    ensures FenceAt(lines, indented) == Some(0) <==> lines != [] && IsFence(lines[0], indented)
  {
    hide IsFence;
  }

  /** What `extract` does with the lines of a text. */
  function Extracted(lines: seq<string>): Extract {
    if FenceAt(lines, false) != Some(0) then Absent
    else
      match FenceAt(lines[1..], false)
      case None => Unterminated
      case Some(k) => Found(Close(ReadLines(lines[1..k + 1], Reading(map[], None))).fields)
  }

  /** What `extract` finds, whatever block scalars are open. */
  lemma ExtractIs(text: string)
    ensures ExtractFrom(text) == Extracted(LinesOf(text))
  {
    hide ReadLines, Close, SplitInclusive, TrimEnd, Trim, ReadBlock, LineText, FenceAt, LineTexts, DropBom;
    var lines := LinesOf(text);
    FenceAtStart(lines, false);
    if lines != [] {
      TrimOfLineText(lines[0]);
      assert LineTexts(lines)[0] == LineText(lines[0]) && LineTexts(lines)[1..] == LineTexts(lines[1..]) by {
        LineTextsCons(lines);
      }
      BlockIs(lines[1..], Reading(map[], None));
      var k := FenceAt(lines[1..], false);
      if k.Some? { assert lines[1..k.value + 1] == lines[1..][..k.value]; }
    } else {
      assert LineTexts(lines) == [];
    }
  }

  lemma LineTextsCons(lines: seq<string>)
    requires lines != []
    ensures LineTexts(lines)[1..] == LineTexts(lines[1..])
  {
    hide LineText;
  }

  /** What `strip` takes off. */
  lemma RemovedIs(text: string)
    ensures
      var lines := LinesOf(text);
      Removed(text) ==
      if FenceAt(lines, true) != Some(0) then None
      else
        match FenceAt(lines[1..], true)
        case None => None
        case Some(k) => Some(DropLeadingBreaks(Concat(lines[k + 2..])))
  {
    hide DropLeadingBreaks, SplitInclusive, Trim, Concat;
    var lines := LinesOf(text);
    if lines != [] {
      BodyIs(lines[1..]);
      var k := FenceAt(lines[1..], true);
      if k.Some? { assert lines[1..][k.value + 1..] == lines[k.value + 2..]; }
    }
  }

  // ----- Lines that say nothing -----

  /** A line break of either kind is no part of a line. */
  lemma LineTextIs(line: string)
    requires '\n' !in line
    ensures LineText(line + "\r\n") == line && LineText(line) == line
    ensures line == "" || line[|line| - 1] != '\r' ==> LineText(line + "\n") == line
  {
    assert (line + "\r\n")[..|line| + 1] == line + "\r" && (line + "\r")[..|line|] == line;
    assert (line + "\n")[..|line|] == line;
  }

  /** A byte order mark in front of a file changes nothing. */
  lemma BomIsIgnored(text: string)
    requires text == "" || text[0] != '\U{FEFF}'
    ensures ExtractFrom(['\U{FEFF}'] + text) == ExtractFrom(text) && Strip(['\U{FEFF}'] + text) == Strip(text)
  {
    hide SplitInclusive, ReadBlock, BodyBehind, LineTexts;
    assert (['\U{FEFF}'] + text)[1..] == text;
  }

  /** A space or a tab stands in front. */
  lemma IndentedIs(line: string)
    ensures IsIndented(line) <==> line != "" && line[0] as int in {9, 32}
  {
  }

  /** A comment, a stray indented or blank line, a line without a colon, or nothing in front of its colon. */
  predicate SaysNothing(line: string) {
    var text := TrimEnd(line);
    text == "" || text[0] == '#' || IsIndented(line) || NamesNothing(text)
  }

  predicate NamesNothing(text: string) {
    ':' !in text || exists k :: 0 <= k < |text| && text[k] == ':' && ':' !in text[..k] && Trim(text[..k]) == ""
  }

  /** Such a line sets no field; it ends what was open, unless it belongs to it. */
  lemma NothingIsSaid(r: Reading, line: string)
    requires SaysNothing(line) && (r.pending.Some? ==> TrimEnd(line) != "" && !IsIndented(line))
    ensures ReadLine(r, line) == Close(r)
  {
    hide TrimEnd, Value, ReadPair, NamesNothing;
    if NamesNothing(TrimEnd(line)) { NoPair(Close(r), TrimEnd(line)); }
  }

  lemma NoPair(r: Reading, text: string)
    requires NamesNothing(text)
    ensures ReadPair(r, text) == r
  {
    hide Trim, OpensBlock, Unquote, Cut;
    if k :| 0 <= k < |text| && text[k] == ':' && ':' !in text[..k] && Trim(text[..k]) == "" {
      CutAt(text[..k], ':', text[k + 1..]);
      assert text == text[..k] + [':'] + text[k + 1..];
    }
  }

  /** `body` is `text` without the run of line breaks in front. */
  predicate IsUnbroken(text: string, body: string) {
    && |body| <= |text| && body == text[|text| - |body|..]
    && (forall k :: 0 <= k < |text| - |body| ==> text[k] in "\r\n")
    && (body != "" ==> body[0] !in "\r\n")
  }

  lemma {:induction false} BreaksAreDropped(text: string)
    ensures IsUnbroken(text, DropLeadingBreaks(text))
  {
    if text != "" && text[0] in "\r\n" {
      BreaksAreDropped(text[1..]);
      var body := DropLeadingBreaks(text[1..]);
      forall k | 0 <= k < |text| - |body| ensures text[k] in "\r\n" {
        if k > 0 { assert text[k] == text[1..][k - 1]; }
      }
    }
  }

  lemma UnbrokenIsUnique(text: string, a: string, b: string)
    requires IsUnbroken(text, a) && IsUnbroken(text, b)
    ensures a == b
  {
    assert a != "" ==> a[0] == text[|text| - |a|];
    assert b != "" ==> b[0] == text[|text| - |b|];
  }

  /** What `strip` gives: what is behind the second fence but for line breaks in front, or all of the text. */
  lemma StripIs(text: string)
    ensures
      var lines := LinesOf(text);
      if FenceAt(lines, true) == Some(0) && FenceAt(lines[1..], true).Some? then
        IsUnbroken(Concat(lines[FenceAt(lines[1..], true).value + 2..]), Strip(text))
      else Strip(text) == DropBom(text)
  {
    hide DropLeadingBreaks, SplitInclusive, Removed, Concat, IsFence, IsUnbroken, DropBom;
    RemovedIs(text);
    var lines := LinesOf(text);
    if FenceAt(lines, true) == Some(0) && FenceAt(lines[1..], true).Some? {
      BreaksAreDropped(Concat(lines[FenceAt(lines[1..], true).value + 2..]));
    }
  }

  lemma BlankLineLines()
    ensures LinesOf("---\n" + ("name: a\n" + ("---\n" + ("\n" + "Body")))) ==
            ["---\n", "name: a\n", "---\n", "\n", "Body"]
  {
    hide AreLines, Concat, SplitInclusive;
    var a, b, c, d, e := "---\n", "name: a\n", "---\n", "\n", "Body";
    assert "---" + "\n" == a && "name: a" + "\n" == b && "" + "\n" == d;
    OneLine(e);
    ConsLine("", [e]);
    assert [d] + [e] == [d, e];
    ConsLine("---", [d, e]);
    assert [c] + [d, e] == [c, d, e];
    ConsLine("name: a", [c, d, e]);
    assert [b] + [c, d, e] == [b, c, d, e];
    ConsLine("---", [b, c, d, e]);
    assert [a] + [b, c, d, e] == [a, b, c, d, e];
    SplitInclusiveOfConcat([a, b, c, d, e]);
  }

  lemma BlankLineFences()
    ensures
      var lines := ["name: a\n", "---\n", "\n", "Body"];
      FenceAt(["---\n"] + lines, true) == Some(0) && FenceAt(lines, true) == Some(1)
  {
    hide IsFence;
    FenceSamples();
    var lines := ["name: a\n", "---\n", "\n", "Body"];
    assert lines[1..] == ["---\n", "\n", "Body"];
  }

  /** A blank line behind the block is not part of the body. */
  lemma BlankLineIsDropped()
    ensures Strip("---\n" + ("name: a\n" + ("---\n" + ("\n" + "Body")))) == "Body"
  {
    hide Strip, AreLines, Concat, FenceAt, IsUnbroken, LinesOf, DropBom;
    var text, lines := "---\n" + ("name: a\n" + ("---\n" + ("\n" + "Body"))), ["name: a\n", "---\n", "\n", "Body"];
    BlankLineLines();
    BlankLineFences();
    assert LinesOf(text) == ["---\n"] + lines && LinesOf(text)[1..] == lines && LinesOf(text)[3..] == ["\n", "Body"];
    StripIs(text);
    BlankLineBody();
    UnbrokenIsUnique("\nBody", Strip(text), "Body");
  }

  lemma BlankLineBody()
    ensures Concat(["\n", "Body"]) == "\nBody" && IsUnbroken("\nBody", "Body")
  {
    assert Concat(["Body"]) == "Body" && ["\n", "Body"][1..] == ["Body"];
    assert "\nBody"[1..] == "Body";
  }

  lemma OneLine(line: string)
    requires line != "" && '\n' !in line
    ensures AreLines([line]) && Concat([line]) == line
  {
  }

  /** A block that `extract` finds is one that `strip` removes. */
  lemma FoundIsRemoved(text: string)
    requires ExtractFrom(text).Found?
    ensures Removed(text).Some?
  {
    hide IsFence, SplitInclusive, ReadLines, Concat, DropLeadingBreaks, Removed, ExtractFrom;
    ExtractIs(text);
    RemovedIs(text);
    var lines := LinesOf(text);
    FenceIsLoose(lines[0]);
    FenceIsLoose(lines[1..][FenceAt(lines[1..], false).value]);
  }

  ghost predicate SomeIndentedFence(lines: seq<string>) {
    exists i :: 0 <= i < |lines| && IsIndentedFence(lines[i])
  }

  /** Without an indented fence, `strip` removes a block exactly when `extract` finds one. */
  lemma AgreeWithoutIndentedFences(text: string)
    requires !SomeIndentedFence(LinesOf(text))
    ensures Removed(text).Some? <==> ExtractFrom(text).Found?
  {
    hide IsFence, SplitInclusive, ReadLines, Concat, DropLeadingBreaks, Removed, ExtractFrom;
    ExtractIs(text);
    RemovedIs(text);
    var lines := LinesOf(text);
    if Removed(text).Some? {
      assert !IsIndentedFence(lines[0]);
      var k := FenceAt(lines[1..], true).value;
      assert !IsIndentedFence(lines[k + 1]);
    }
    if ExtractFrom(text).Found? { FoundIsRemoved(text); }
  }

  /**
   With indented fences they part exactly when the first line is one, or when every fence
   behind the first line is one and there is at least one.
   */
  lemma AgreeExactly(text: string)
    requires Removed(text).Some?
    ensures
      var lines := LinesOf(text);
      !ExtractFrom(text).Found? <==>
      IsIndentedFence(lines[0])
      || forall i :: 1 <= i < |lines| && IsFence(lines[i], true) ==> IsIndentedFence(lines[i])
  {
    hide IsFence, SplitInclusive, ReadLines, Concat, DropLeadingBreaks, Removed, ExtractFrom;
    ExtractIs(text);
    RemovedIs(text);
    var lines := LinesOf(text);
    match FenceAt(lines[1..], false)
    case Some(k) => FenceIsLoose(lines[k + 1]);
    case None =>
      forall i | 1 <= i < |lines| && IsFence(lines[i], true)
        ensures IsIndentedFence(lines[i])
      {
        assert lines[i] == lines[1..][i - 1];
      }
  }

  /** When both see a block, they close it at the same line exactly when none above is an indented fence. */
  lemma SameClosingLine(text: string)
    requires ExtractFrom(text).Found?
    ensures
      var lines := LinesOf(text);
      var strict, loose := FenceAt(lines[1..], false), FenceAt(lines[1..], true);
      && strict.Some? && loose.Some? && loose.value <= strict.value
      && (strict == loose <==> !SomeIndentedFence(lines[1..][..strict.value]))
  {
    hide IsFence, SplitInclusive, ReadLines, Concat, DropLeadingBreaks, Removed, ExtractFrom;
    ExtractIs(text);
    FoundIsRemoved(text);
    RemovedIs(text);
    var lines := LinesOf(text)[1..];
    var strict, loose := FenceAt(lines, false).value, FenceAt(lines, true).value;
    FenceIsLoose(lines[strict]);
    if loose < strict {
      assert IsIndentedFence(lines[..strict][loose]);
    }
  }

  lemma ConsLine(line: string, lines: seq<string>)
    requires '\n' !in line
    ensures AreLines(lines) ==> AreLines([line + "\n"] + lines)
    ensures Concat([line + "\n"] + lines) == line + "\n" + Concat(lines)
  {
    assert (line + "\n")[..|line|] == line;
    assert ([line + "\n"] + lines)[1..] == lines;
  }

  /** The file closes its block with an indented line: `strip` goes by it, `extract` does not. */
  lemma IndentedFenceParts()
    ensures
      var text := "---\n" + ("a: b\n" + ("  ---\n" + "c"));
      Removed(text) == Some("c") && ExtractFrom(text) == Unterminated
  {
    hide ReadLine, Close, Trim, TrimEnd, SplitInclusive, IsFence, ReadLines, Removed, ExtractFrom;
    var a, b, c, d := "---\n", "a: b\n", "  ---\n", "c";
    var text := a + (b + (c + d));
    var lines := [a, b, c, d];
    assert Concat([d]) == d && AreLines([d]);
    ConsLine("  ---", [d]);
    ConsLine("a: b", [c, d]);
    ConsLine("---", [b, c, d]);
    SplitInclusiveOfConcat(lines);
    assert DropBom(text) == text;
    FenceSamples();
    assert lines[1..] == [b, c, d] && [b, c, d][1..] == [c, d] && [c, d][1..] == [d] && lines[3..] == [d];
    assert DropLeadingBreaks("c") == "c";
    RemovedIs(text);
    ExtractIs(text);
  }

  lemma FenceSamples()
    ensures IsFence("---\n", false) && IsFence("---\n", true)
    ensures !IsFence("a: b\n", false) && !IsFence("a: b\n", true)
    ensures !IsFence("  ---\n", false) && IsFence("  ---\n", true)
    ensures !IsFence("c", false) && !IsFence("c", true)
    ensures !IsFence("name: a\n", true)
  {
    assert "---\n"[..3] == "---" && "a: b\n"[..4] == "a: b" && "  ---\n"[..5] == "  ---";
    assert "name: a\n"[..7] == "name: a";
    assert TrimStart("  ---") == TrimStart(" ---") == TrimStart("---") == "---" by {
      assert "  ---"[1..] == " ---" && " ---"[1..] == "---";
    }
    assert Trim("c") == "c";
  }
}
