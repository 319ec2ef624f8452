/**
 Frontmatter files as they are written, and what `extract` and `strip` make of them: every field is
 the value its line spells or its block holds, and the body comes back.
 */
module FrontmatterPrint {
  import opened Text
  import opened Scalars
  import opened Frontmatter

  // ----- What may be written -----

  /** A field: its value on one line, or in the lines below it. */
  datatype Field =
    | Line(key: string, raw: string)
    | Block(key: string, fold: bool, keepTrailing: bool, lines: seq<string>)

  predicate IsKey(key: string) {
    key != "" && Trim(key) == key && ':' !in key && '\n' !in key && key[0] != '#'
  }

  /** A line a block owns: blank, or indented. */
  predicate IsBlockLine(line: string) {
    '\n' !in line && (TrimEnd(line) == "" || IsIndented(line))
  }

  predicate AreBlockLines(lines: seq<string>) {
    forall i :: 0 <= i < |lines| ==> IsBlockLine(lines[i])
  }

  /** Any text that is not itself the sign of a block stands on a line. */
  predicate IsRaw(raw: string) {
    Trim(raw) == raw && '\n' !in raw && !OpensBlock(raw)
  }

  predicate IsField(f: Field) {
    match f
    case Line(key, raw) => IsKey(key) && IsRaw(raw)
    case Block(key, _, _, lines) => IsKey(key) && AreBlockLines(lines)
  }

  predicate AreFields(fields: seq<Field>) {
    forall i :: 0 <= i < |fields| ==> IsField(fields[i])
  }

  function Sign(fold: bool, keepTrailing: bool): string {
    [if fold then '>' else '|'] + if keepTrailing then "" else "-"
  }

  /** What stands behind the key and its colon. */
  function RawOf(f: Field): string {
    match f
    case Line(_, raw) => raw
    case Block(_, fold, keepTrailing, _) => Sign(fold, keepTrailing)
  }

  function HeadText(f: Field): string {
    f.key + [':'] + (" " + RawOf(f))
  }

  /** Lines with their breaks. */
  function Broken(lines: seq<string>): (r: seq<string>)
    ensures |r| == |lines|
  {
    if lines == [] then [] else [lines[0] + "\n"] + Broken(lines[1..])
  }

  function Below(f: Field): seq<string> {
    match f
    case Line(_, _) => []
    case Block(_, _, _, lines) => lines
  }

  function FieldLines(f: Field): seq<string> {
    Broken([HeadText(f)] + Below(f))
  }

  function AllLines(fields: seq<Field>): seq<string> {
    if fields == [] then [] else FieldLines(fields[0]) + AllLines(fields[1..])
  }

  function Trimmed(lines: seq<string>): (r: seq<string>)
    ensures |r| == |lines|
  {
    if lines == [] then [] else [TrimEnd(lines[0])] + Trimmed(lines[1..])
  }

  /** The value a field stands for. */
  function ValueOf(f: Field): string {
    match f
    case Line(_, raw) => Unquote(raw)
    case Block(_, fold, keepTrailing, lines) => Value(BlockScalar(fold, keepTrailing, Trimmed(lines)))
  }

  /** A later field with the same key wins. */
  function MapOf(fields: seq<Field>): Fields {
    if fields == [] then map[] else map[fields[0].key := ValueOf(fields[0])] + MapOf(fields[1..])
  }

  function PrintLines(fields: seq<Field>, body: string): seq<string> {
    [FENCE + "\n"] + (AllLines(fields) + ([FENCE + "\n"] + SplitInclusive(body)))
  }

  function Print(fields: seq<Field>, body: string): string {
    FENCE + "\n" + (Concat(AllLines(fields)) + (FENCE + "\n" + body))
  }

  // ----- One line -----

  lemma {:induction false} TrimmedStart(text: string)
    ensures var r := TrimStart(text); r == "" || !IsWhitespace(r[0])
    decreases |text|
  {
    hide IsWhitespace;
    if text != "" && IsWhitespace(text[0]) { TrimmedStart(text[1..]); }
  }

  /** A trimmed text begins and ends with something to see. */
  lemma TrimmedIsSolid(text: string)
    requires Trim(text) == text && text != ""
    ensures !IsWhitespace(text[0]) && EndsSolid(text)
  {
    hide IsWhitespace;
    TrimmedStart(TrimEnd(text));
    TrimFromStart(text);
    TrimEndEnds(TrimStart(text));
  }

  lemma KeyStart(key: string)
    requires IsKey(key)
    ensures key != "" && !IsWhitespace(key[0]) && key[0] != '#' && key[0] != '\n'
  {
    TrimmedIsSolid(key);
  }

  /** Behind the colon, trimmed from the end: nothing, or a space and the text. */
  lemma TrimOfTail(front: string, raw: string)
    requires front != "" && EndsSolid(front) && Trim(raw) == raw
    ensures TrimEnd(front + (" " + raw)) == if raw == "" then front else front + (" " + raw)
  {
    if raw == "" {
      assert (front + (" " + raw))[..|front|] == front;
    } else {
      TrimmedIsSolid(raw);
      SolidEndStays(front + (" " + raw));
    }
  }

  lemma TrimOfSpaced(raw: string)
    requires Trim(raw) == raw
    ensures Trim(" " + raw) == raw
  {
    hide IsWhitespace;
    TrimFromStart(" " + raw);
    TrimFromStart(raw);
    assert (" " + raw)[1..] == raw;
    assert IsWhitespace(' ') by { SpaceIsWhite(); }
    assert TrimStart(raw) == raw by { if raw != "" { TrimmedIsSolid(raw); } }
  }

  lemma SpaceIsWhite()
    ensures IsWhitespace(' ') && !IsWhitespace(':')
  {
  }

  /** The line of a key, trimmed, cuts into the key and what stands behind. */
  lemma HeadSplits(key: string, raw: string)
    requires IsKey(key) && Trim(raw) == raw
    ensures
      var trimmed := TrimEnd(key + [':'] + (" " + raw));
      && trimmed != "" && trimmed[0] == key[0]
      && Cut(trimmed, ':').Some?
      && Trim(Cut(trimmed, ':').value.0) == key && Trim(Cut(trimmed, ':').value.1) == raw
  {
    hide IsWhitespace, Trim, TrimEnd, Cut;
    KeyStart(key);
    SpaceIsWhite();
    TrimOfTail(key + [':'], raw);
    if raw == "" {
      CutAt(key, ':', "");
      assert key + [':'] + "" == key + [':'];
      assert Trim("") == "" by { TrimOfNothing(); }
    } else {
      CutAt(key, ':', " " + raw);
      TrimOfSpaced(raw);
    }
  }

  lemma TrimOfNothing()
    ensures Trim("") == ""
  {
  }

  /** At column zero a key line closes what is open, and is read by itself. */
  lemma HeadIsRead(r: Reading, key: string, raw: string)
    requires IsKey(key) && Trim(raw) == raw && '\n' !in raw
    ensures ReadLine(r, LineText(key + [':'] + (" " + raw) + "\n")) ==
      if OpensBlock(raw) then
        Reading(Close(r).fields, Some((key, BlockScalar(raw[0] == '>', Trim(raw[1..]) == "", []))))
      else Reading(Close(r).fields[key := Unquote(raw)], None)
  {
    hide IsWhitespace, Trim, TrimEnd, Cut, OpensBlock, Unquote, Value;
    var text := key + [':'] + (" " + raw);
    KeyStart(key);
    TextOfHead(key, raw);
    HeadSplits(key, raw);
    assert !IsIndented(LineText(text + "\n")) by { SpacesAreWhite(); }
  }

  lemma SpacesAreWhite()
    ensures IsWhitespace(' ') && IsWhitespace('\t')
  {
  }

  lemma TextOfHead(key: string, raw: string)
    requires IsKey(key) && Trim(raw) == raw
    ensures
      var text := key + [':'] + (" " + raw);
      LineText(text + "\n") == text && text[0] == key[0]
  {
    hide Trim, IsWhitespace;
    var text := key + [':'] + (" " + raw);
    assert (text + "\n")[..|text|] == text;
    assert text[|text| - 1] != '\r' by {
      if raw != "" {
        TrimmedIsSolid(raw);
        ReturnIsWhite();
      }
    }
  }

  lemma ReturnIsWhite()
    ensures IsWhitespace('\r')
  {
  }

  /** The signs of a block, and of which kind. */
  lemma SignIs(fold: bool, keepTrailing: bool)
    ensures
      var sign := Sign(fold, keepTrailing);
      && OpensBlock(sign) && Trim(sign) == sign && '\n' !in sign
      && (sign[0] == '>') == fold && (Trim(sign[1..]) == "") == keepTrailing
  {
    var sign := Sign(fold, keepTrailing);
    assert sign[1..] == if keepTrailing then "" else "-";
    assert Trim("-") == "-" && Trim("") == "";
    assert Trim(sign) == sign;
  }

  /** A text opens a block exactly when it is one of those signs, with space before its minus or not. */
  lemma OpensBlockIff(raw: string)
    requires Trim(raw) == raw
    ensures OpensBlock(raw) <==>
      raw == "|" || raw == ">" || exists gap, fold :: IsBlank(gap) && raw == Sign(fold, true) + gap + "-"
  {
    hide Trim, IsWhitespace;
    if OpensBlock(raw) {
      var fold := raw[0] == '>';
      assert raw == Sign(fold, true) + raw[1..];
      TrimmedIsSolid(raw);
      if Trim(raw[1..]) == "" {
        assert raw[1..] == "" by { if raw[1..] != "" { SolidTail(raw[1..]); } }
      } else {
        assert raw[1..] != "" by { TrimOfNothing(); }
        var gap := MinusAtEnd(raw[1..]);
        assert Sign(fold, true) + gap + "-" == raw;
      }
    }
    if raw == "|" || raw == ">" {
      assert raw[1..] == "";
      TrimOfNothing();
    }
    if gap, fold :| IsBlank(gap) && raw == Sign(fold, true) + gap + "-" {
      assert raw[1..] == gap + "-";
      BlankBeforeMinus(gap);
    }
  }

  lemma SolidTail(text: string)
    requires EndsSolid(text)
    ensures Trim(text) != ""
  {
    BlankIsSpace(text);
  }

  lemma MinusAtEnd(text: string) returns (gap: string)
    requires Trim(text) == "-" && EndsSolid(text)
    ensures IsBlank(gap) && text == gap + "-"
  {
    TrimFromStart(text);
    TrimStartIsSuffix(text);
    var solid := TrimStart(text);
    SolidEndStays(solid);
    gap := text[..|text| - |solid|];
    assert text == gap + solid;
    StartIsBlank(text);
  }

  lemma {:induction false} StartIsBlank(text: string)
    ensures |TrimStart(text)| <= |text| && IsBlank(text[..|text| - |TrimStart(text)|])
    decreases |text|
  {
    hide IsWhitespace, Trim;
    if text != "" && IsWhitespace(text[0]) {
      StartIsBlank(text[1..]);
      var n := |text| - |TrimStart(text)|;
      assert text[..n] == [text[0]] + text[1..][..n - 1];
      BlankIsSpace(text[1..][..n - 1]);
      BlankIsSpace(text[..n]);
    } else {
      assert text[..0] == "";
      BlankIsSpace("");
    }
  }

  lemma {:induction false} BlankBeforeMinus(gap: string)
    requires IsBlank(gap)
    ensures Trim(gap + "-") == "-"
    decreases |gap|
  {
    hide IsWhitespace, Trim;
    TrimFromStart(gap + "-");
    BlankIsSpace(gap);
    StartOfBlankAndMinus(gap);
    SolidEndStays("-") by { assert !IsWhitespace('-') by { MinusIsSolid(); } }
  }

  lemma MinusIsSolid()
    ensures !IsWhitespace('-')
  {
  }

  lemma {:induction false} StartOfBlankAndMinus(gap: string)
    requires forall i :: 0 <= i < |gap| ==> IsWhitespace(gap[i])
    ensures TrimStart(gap + "-") == "-"
  {
    if gap == "" {
      assert gap + "-" == "-";
    } else {
      assert (gap + "-")[1..] == gap[1..] + "-";
      StartOfBlankAndMinus(gap[1..]);
    }
  }

  // ----- One field -----

  /** A line the open block owns goes into it. */
  lemma BlockLineIsRead(r: Reading, line: string)
    requires IsBlockLine(line) && r.pending.Some?
    ensures
      var (key, block) := r.pending.value;
      ReadLine(r, LineText(line + "\n")) == r.(pending := Some((key, block.(lines := block.lines + [TrimEnd(line)]))))
  {
    hide IsWhitespace;
    var whole := line + "\n";
    assert whole[..|line|] == line;
    TrimOfLineText(whole);
    TrimOfBroken(line);
    assert IsIndented(line) && TrimEnd(line) != "" ==> IsIndented(LineText(whole)) by { ReturnIsWhite(); }
  }

  lemma TrimOfBroken(line: string)
    ensures TrimEnd(line + "\n") == TrimEnd(line)
  {
    assert (line + "\n")[..|line|] == line;
  }

  lemma BrokenCons(line: string, lines: seq<string>)
    ensures Broken([line] + lines) == [line + "\n"] + Broken(lines)
  {
    assert ([line] + lines)[1..] == lines;
  }

  lemma ReadLinesCons(line: string, lines: seq<string>, r: Reading)
    ensures ReadLines([line] + lines, r) == ReadLines(lines, ReadLine(r, LineText(line)))
  {
    hide ReadLine, LineText;
    assert ([line] + lines)[1..] == lines;
  }

  lemma TrimmedCons(line: string, lines: seq<string>)
    ensures Trimmed([line] + lines) == [TrimEnd(line)] + Trimmed(lines)
  {
    hide TrimEnd;
    assert ([line] + lines)[1..] == lines;
  }

  /** A reading with a block open. */
  function Within(fields: Fields, key: string, block: BlockScalar, lines: seq<string>): Reading {
    Reading(fields, Some((key, block.(lines := block.lines + lines))))
  }

  lemma BlockGrows(fields: Fields, key: string, block: BlockScalar, lines: seq<string>, line: string)
    requires IsBlockLine(line)
    ensures ReadLine(Within(fields, key, block, lines), LineText(line + "\n")) ==
            Within(fields, key, block, lines + [TrimEnd(line)])
  {
    hide ReadLine, TrimEnd, IsBlockLine, LineText;
    BlockLineIsRead(Within(fields, key, block, lines), line);
    LinesAssoc(block.lines, lines, [TrimEnd(line)]);
  }

  lemma {:induction false} BlockLinesAreRead(
    fields: Fields, key: string, block: BlockScalar, before: seq<string>, lines: seq<string>)
    requires AreBlockLines(lines)
    ensures ReadLines(Broken(lines), Within(fields, key, block, before)) ==
            Within(fields, key, block, before + Trimmed(lines))
    decreases |lines|
  {
    hide ReadLine, TrimEnd, IsBlockLine, LineText, Within, ReadLines, Broken, Trimmed;
    if lines == [] {
      NothingBelow(Within(fields, key, block, before));
      assert before + [] == before;
      NothingTrimmed();
    } else {
      var line, rest := lines[0], lines[1..];
      assert lines == [line] + rest;
      BlockGrows(fields, key, block, before, line);
      BrokenCons(line, rest);
      TrimmedCons(line, rest);
      ReadLinesCons(line + "\n", Broken(rest), Within(fields, key, block, before));
      BlockLinesAreRead(fields, key, block, before + [TrimEnd(line)], rest);
      LinesAssoc(before, [TrimEnd(line)], Trimmed(rest));
    }
  }

  lemma NothingTrimmed()
    ensures Trimmed([]) == []
  {
  }

  lemma {:induction false} ReadLinesOfConcat(a: seq<string>, b: seq<string>, r: Reading)
    ensures ReadLines(a + b, r) == ReadLines(b, ReadLines(a, r))
    decreases |a|
  {
    hide ReadLine, LineText;
    if a == [] {
      assert a + b == b;
    } else {
      assert (a + b)[1..] == a[1..] + b;
      ReadLinesOfConcat(a[1..], b, ReadLine(r, LineText(a[0])));
    }
  }

  /** Closed, the reading behind a field is the one in front of it with the field's value set. */
  lemma FieldIsRead(r: Reading, f: Field)
    requires IsField(f)
    ensures Close(ReadLines(FieldLines(f), r)) == Reading(Close(r).fields[f.key := ValueOf(f)], None)
  {
    hide IsKey, IsRaw, AreBlockLines, ReadLine, LineText, Unquote, Value, ReadLines, Broken, Trimmed, HeadText,
         OpensBlock, Trim;
    assert Trim(RawOf(f)) == RawOf(f) && '\n' !in RawOf(f) && (OpensBlock(RawOf(f)) <==> f.Block?) by { RawIs(f); }
    HeadIsRead(r, f.key, RawOf(f));
    HeadIs(f);
    BrokenCons(HeadText(f), Below(f));
    ReadLinesCons(HeadText(f) + "\n", Broken(Below(f)), r);
    var next := ReadLine(r, LineText(HeadText(f) + "\n"));
    match f
    case Line(_, raw) => NothingBelow(next);
    case Block(key, fold, keepTrailing, lines) =>
      SignIs(fold, keepTrailing);
      var block := BlockScalar(fold, keepTrailing, []);
      assert block.lines + [] == block.lines;
      BlockLinesAreRead(Close(r).fields, key, block, [], lines);
      assert [] + Trimmed(lines) == Trimmed(lines);
  }

  lemma RawIs(f: Field)
    requires IsField(f)
    ensures Trim(RawOf(f)) == RawOf(f) && '\n' !in RawOf(f) && (OpensBlock(RawOf(f)) <==> f.Block?)
  {
    hide OpensBlock, Trim;
    if f.Block? { SignIs(f.fold, f.keepTrailing); }
  }

  lemma HeadIs(f: Field)
    ensures HeadText(f) == f.key + [':'] + (" " + RawOf(f))
  {
  }

  lemma NothingBelow(r: Reading)
    ensures ReadLines(Broken([]), r) == r
  {
  }

  /** All fields, behind any reading. */
  lemma {:induction false} FieldsAreRead(fields: seq<Field>, r: Reading)
    requires AreFields(fields)
    ensures Close(ReadLines(AllLines(fields), r)) == Reading(Close(r).fields + MapOf(fields), None)
    decreases |fields|
  {
    hide FieldLines, IsField, ReadLines, ValueOf, Value;
    if fields == [] {
      NothingBelowAll(r);
      assert Close(r).fields + map[] == Close(r).fields;
    } else {
      var f, next := fields[0], ReadLines(FieldLines(fields[0]), r);
      FieldIsRead(r, f);
      ReadLinesOfConcat(FieldLines(f), AllLines(fields[1..]), r);
      FieldsAreRead(fields[1..], next);
      MergeCons(Close(r).fields, f.key, ValueOf(f), MapOf(fields[1..]));
    }
  }

  lemma NothingBelowAll(r: Reading)
    ensures ReadLines([], r) == r
  {
  }

  lemma MergeCons(a: Fields, key: string, value: string, b: Fields)
    ensures a[key := value] + b == a + (map[key := value] + b)
  {
  }

  // ----- The whole file -----

  lemma {:induction false} BrokenAreLines(lines: seq<string>, rest: seq<string>)
    requires (forall i :: 0 <= i < |lines| ==> '\n' !in lines[i]) && AreLines(rest)
    ensures AreLines(Broken(lines) + rest)
    decreases |lines|
  {
    hide AreLines;
    if lines == [] {
      assert Broken(lines) + rest == rest;
    } else {
      BrokenAreLines(lines[1..], rest);
      ConsLine(lines[0], Broken(lines[1..]) + rest);
      LinesAssoc([lines[0] + "\n"], Broken(lines[1..]), rest);
    }
  }

  lemma FieldHasNoBreaks(f: Field)
    requires IsField(f)
    ensures var lines := [HeadText(f)] + Below(f); forall i :: 0 <= i < |lines| ==> '\n' !in lines[i]
  {
    hide Trim;
    RawIs(f);
  }

  lemma {:induction false} AllAreLines(fields: seq<Field>, rest: seq<string>)
    requires AreFields(fields) && AreLines(rest)
    ensures AreLines(AllLines(fields) + rest)
    decreases |fields|
  {
    hide AreLines, FieldLines, IsField;
    if fields == [] {
      assert AllLines(fields) + rest == rest;
    } else {
      AllAreLines(fields[1..], rest);
      LinesAssoc(FieldLines(fields[0]), AllLines(fields[1..]), rest);
      FieldHasNoBreaks(fields[0]);
      FieldLinesAre(fields[0]);
      BrokenAreLines([HeadText(fields[0])] + Below(fields[0]), AllLines(fields[1..]) + rest);
    }
  }

  lemma FieldLinesAre(f: Field)
    ensures FieldLines(f) == Broken([HeadText(f)] + Below(f))
  {
  }

  lemma {:induction false} ConcatOfLines(a: seq<string>, b: seq<string>)
    ensures Concat(a + b) == Concat(a) + Concat(b)
    decreases |a|
  {
    hide Concat;
    if a == [] {
      assert a + b == b;
      ConcatIs(a);
    } else {
      ConcatOfLines(a[1..], b);
      ConcatIs(a);
      ConcatIs(a + b);
      assert (a + b)[1..] == a[1..] + b;
      Assoc(a[0], Concat(a[1..]), Concat(b));
    }
  }

  lemma ConcatIs(parts: seq<string>)
    ensures Concat(parts) == if parts == [] then "" else parts[0] + Concat(parts[1..])
  {
  }

  lemma PrintSplits(fields: seq<Field>, body: string)
    requires AreFields(fields)
    ensures LinesOf(Print(fields, body)) == PrintLines(fields, body)
  {
    hide AreFields, AllLines, AreLines, Concat, SplitInclusive;
    SplitInclusiveIsLines(body);
    ConsLine(FENCE, SplitInclusive(body));
    var behind := [FENCE + "\n"] + SplitInclusive(body);
    AllAreLines(fields, behind);
    ConsLine(FENCE, AllLines(fields) + behind);
    ConcatOfLines(AllLines(fields), behind);
    SplitInclusiveOfConcat(PrintLines(fields, body));
    assert Print(fields, body)[0] == '-';
  }

  // ----- Fences -----

  /** A line of a block that `strip` takes for a fence. */
  predicate HidesFence(f: Field) {
    exists i :: 0 <= i < |Below(f)| && Trim(Below(f)[i]) == FENCE
  }

  lemma HeadIsNoFence(f: Field, indented: bool)
    requires IsField(f)
    ensures !IsFence(HeadText(f) + "\n", indented)
  {
    hide Trim, IsWhitespace, IsKey;
    RawIs(f);
    assert IsKey(f.key) by { FieldKey(f); }
    var head := HeadText(f);
    TrimOfBroken(head);
    KeyStart(f.key);
    SpaceIsWhite();
    TrimOfTail(f.key + [':'], RawOf(f));
    TrimFromStart(head + "\n");
    var trimmed := TrimEnd(head);
    assert ':' in trimmed && trimmed[0] == f.key[0] by { ColonStays(f.key, RawOf(f)); }
    assert TrimStart(trimmed) == trimmed;
    assert Trim(head + "\n") == trimmed by { TrimIs(head + "\n"); }
    assert ':' !in FENCE;
  }

  lemma TrimIs(text: string)
    ensures Trim(text) == TrimStart(TrimEnd(text))
  {
  }

  lemma FieldKey(f: Field)
    requires IsField(f)
    ensures IsKey(f.key)
  {
  }

  lemma ColonStays(key: string, raw: string)
    requires key != ""
    requires TrimEnd(key + [':'] + (" " + raw)) == if raw == "" then key + [':'] else key + [':'] + (" " + raw)
    ensures var trimmed := TrimEnd(key + [':'] + (" " + raw)); ':' in trimmed && trimmed[0] == key[0]
  {
    hide TrimEnd;
    assert (key + [':'])[|key|] == ':';
  }

  lemma BlockLineIsNoFence(line: string, indented: bool)
    requires IsBlockLine(line) && (indented ==> Trim(line) != FENCE)
    ensures !IsFence(line + "\n", indented)
  {
    hide IsWhitespace;
    TrimOfBroken(line);
    SpacesAreWhite();
    if TrimEnd(line) == FENCE { FenceIsAtStart(line); }
  }

  lemma {:induction false} FenceIsAtStart(line: string)
    requires line != "" && TrimEnd(line) != ""
    ensures TrimEnd(line)[0] == line[0]
    decreases |line|
  {
    if IsWhitespace(line[|line| - 1]) { FenceIsAtStart(line[..|line| - 1]); }
  }

  lemma {:induction false} FenceBehindLines(lines: seq<string>, rest: seq<string>, indented: bool)
    requires forall i :: 0 <= i < |lines| ==> !IsFence(lines[i], indented)
    requires FenceAt(rest, indented).Some?
    ensures FenceAt(lines + rest, indented) == Some(|lines| + FenceAt(rest, indented).value)
    decreases |lines|
  {
    hide IsFence;
    if lines == [] {
      assert lines + rest == rest;
    } else {
      assert (lines + rest)[1..] == lines[1..] + rest;
      FenceBehindLines(lines[1..], rest, indented);
    }
  }

  lemma {:induction false} BrokenAt(lines: seq<string>, i: nat)
    requires i < |lines|
    ensures Broken(lines)[i] == lines[i] + "\n"
  {
    if i > 0 { BrokenAt(lines[1..], i - 1); }
  }

  lemma FieldIsNoFence(f: Field, indented: bool, i: nat)
    requires IsField(f) && (indented ==> !HidesFence(f)) && i < |FieldLines(f)|
    ensures !IsFence(FieldLines(f)[i], indented)
  {
    hide IsFence, Trim, IsBlockLine;
    var lines := [HeadText(f)] + Below(f);
    BrokenAt(lines, i);
    if i == 0 {
      HeadIsNoFence(f, indented);
    } else {
      assert lines[i] == Below(f)[i - 1];
      BlockLineIsNoFence(lines[i], indented);
    }
  }

  lemma {:induction false} FenceBehindFields(fields: seq<Field>, rest: seq<string>, indented: bool)
    requires AreFields(fields) && FenceAt(rest, indented) == Some(0)
    requires indented ==> forall i :: 0 <= i < |fields| ==> !HidesFence(fields[i])
    ensures FenceAt(AllLines(fields) + rest, indented) == Some(|AllLines(fields)|)
    decreases |fields|
  {
    hide IsFence, FieldLines, IsField, HidesFence, FenceAt;
    if fields == [] {
      assert AllLines(fields) + rest == rest;
    } else {
      var first := FieldLines(fields[0]);
      FenceBehindFields(fields[1..], rest, indented);
      forall i | 0 <= i < |first| ensures !IsFence(first[i], indented) { FieldIsNoFence(fields[0], indented, i); }
      LinesAssoc(first, AllLines(fields[1..]), rest);
      FenceBehindLines(first, AllLines(fields[1..]) + rest, indented);
    }
  }

  lemma PrintedFence(fields: seq<Field>, body: string, indented: bool)
    requires AreFields(fields) && (indented ==> forall i :: 0 <= i < |fields| ==> !HidesFence(fields[i]))
    ensures
      var lines := PrintLines(fields, body);
      FenceAt(lines, indented) == Some(0) && FenceAt(lines[1..], indented) == Some(|AllLines(fields)|)
  {
    hide AllLines, AreFields, SplitInclusive, IsFence, HidesFence;
    FenceSamples();
    var lines, rest := PrintLines(fields, body), [FENCE + "\n"] + SplitInclusive(body);
    assert FENCE + "\n" == "---\n";
    assert lines[0] == rest[0] == "---\n" && lines[1..] == AllLines(fields) + rest;
    FenceBehindFields(fields, rest, indented);
  }

  lemma PrintedParts(fields: seq<Field>, body: string)
    ensures
      var lines, n := PrintLines(fields, body), |AllLines(fields)|;
      |lines| >= n + 2 && lines[1..n + 1] == AllLines(fields) && lines[n + 2..] == SplitInclusive(body)
  {
    hide AllLines, SplitInclusive;
  }

  /** `extract` finds every field with its value, on a line or in a block, the later of two winning. */
  lemma {:induction false} PrintedIsFound(fields: seq<Field>, body: string)
    requires AreFields(fields)
    ensures ExtractFrom(Print(fields, body)) == Found(MapOf(fields))
  {
    hide AreFields, AllLines, FenceAt, SplitInclusive, ReadLines, ExtractFrom, Print, PrintLines, LinesOf, MapOf, Close;
    ExtractIs(Print(fields, body));
    PrintSplits(fields, body);
    PrintedParts(fields, body);
    PrintedFence(fields, body, false);
    FieldsAreRead(fields, Reading(map[], None));
    NothingOpen();
    assert map[] + MapOf(fields) == MapOf(fields);
  }

  lemma NothingOpen()
    ensures Close(Reading(map[], None)) == Reading(map[], None)
  {
  }

  /** `strip` gives the body, but for breaks in front, when no block holds a line that looks like a fence. */
  lemma {:induction false} PrintedIsRemoved(fields: seq<Field>, body: string)
    requires AreFields(fields) && forall i :: 0 <= i < |fields| ==> !HidesFence(fields[i])
    ensures Removed(Print(fields, body)) == Some(DropLeadingBreaks(body))
  {
    hide AreFields, AllLines, FenceAt, SplitInclusive, Concat, DropLeadingBreaks, Removed, Print, PrintLines,
         LinesOf, HidesFence;
    RemovedIs(Print(fields, body));
    PrintSplits(fields, body);
    PrintedParts(fields, body);
    PrintedFence(fields, body, true);
    SplitInclusiveIsLines(body);
  }

  lemma HiddenInField(f: Field, i: nat)
    requires i < |Below(f)| && Trim(Below(f)[i]) == FENCE
    ensures i + 1 < |FieldLines(f)| && IsFence(FieldLines(f)[i + 1], true)
  {
    hide Trim;
    BrokenAt([HeadText(f)] + Below(f), i + 1);
    TrimIs(Below(f)[i]);
    TrimIs(Below(f)[i] + "\n");
    TrimOfBroken(Below(f)[i]);
  }

  lemma {:induction false} HiddenInAll(fields: seq<Field>, i: nat) returns (j: nat)
    requires i < |fields| && HidesFence(fields[i])
    ensures j < |AllLines(fields)| && IsFence(AllLines(fields)[j], true)
    decreases |fields|
  {
    hide IsFence, FieldLines, Trim, Below;
    if i == 0 {
      var k :| 0 <= k < |Below(fields[0])| && Trim(Below(fields[0])[k]) == FENCE;
      HiddenInField(fields[0], k);
      j := k + 1;
    } else {
      j := HiddenInAll(fields[1..], i - 1);
      j := j + |FieldLines(fields[0])|;
    }
  }

  /** Dropping breaks stops at the latest where something else begins. */
  lemma {:induction false} BreaksStop(a: string, b: string)
    requires b != "" && b[0] != '\r' && b[0] != '\n'
    ensures |DropLeadingBreaks(a + b)| >= |b|
    decreases |a|
  {
    if a == "" {
      assert a + b == b;
    } else if a[0] == '\r' || a[0] == '\n' {
      assert (a + b)[1..] == a[1..] + b;
      BreaksStop(a[1..], b);
    }
  }

  lemma {:induction false} BreaksShorten(text: string)
    ensures |DropLeadingBreaks(text)| <= |text|
  {
    if text != "" { BreaksShorten(text[1..]); }
  }

  /** Behind a fence in a block, more than the body is left. */
  lemma HiddenFenceLeavesMore(fields: seq<Field>, body: string, k: nat)
    requires k < |AllLines(fields)|
    ensures DropLeadingBreaks(Concat(PrintLines(fields, body)[k + 2..])) != DropLeadingBreaks(body)
  {
    hide AllLines, SplitInclusive, Concat, DropLeadingBreaks, AreLines;
    var front := AllLines(fields)[k + 1..];
    var behind := [FENCE + "\n"] + SplitInclusive(body);
    assert PrintLines(fields, body)[k + 2..] == front + behind;
    ConcatOfLines(front, behind);
    SplitInclusiveIsLines(body);
    ConsLine(FENCE, SplitInclusive(body));
    BreaksStop(Concat(front), FENCE + "\n" + body);
    BreaksShorten(body);
  }

  /** `strip` gives the body, but for breaks in front, exactly when no block holds a line that looks like a fence. */
  lemma {:induction false} PrintedIsRemovedIff(fields: seq<Field>, body: string)
    requires AreFields(fields)
    ensures Removed(Print(fields, body)).Some? && IsUnbroken(body, Removed(Print(fields, body)).value) <==>
            forall i :: 0 <= i < |fields| ==> !HidesFence(fields[i])
  {
    hide AreFields, AllLines, FenceAt, SplitInclusive, Concat, DropLeadingBreaks, Removed, Print, PrintLines, LinesOf,
         HidesFence, IsFence, IsUnbroken;
    BreaksAreDropped(body);
    if i :| 0 <= i < |fields| && HidesFence(fields[i]) {
      var lines := PrintLines(fields, body);
      var j := HiddenInAll(fields, i);
      RemovedIs(Print(fields, body));
      PrintSplits(fields, body);
      PrintedParts(fields, body);
      FenceIsFound(lines[1..], j);
      HiddenFenceLeavesMore(fields, body, FenceAt(lines[1..], true).value);
      if Removed(Print(fields, body)).Some? && IsUnbroken(body, Removed(Print(fields, body)).value) {
        UnbrokenIsUnique(body, DropLeadingBreaks(body), Removed(Print(fields, body)).value);
      }
    } else {
      PrintedIsRemoved(fields, body);
    }
  }

  lemma FenceIsFound(lines: seq<string>, j: nat)
    requires j < |lines| && IsFence(lines[j], true)
    ensures FenceAt(lines, true).Some? && FenceAt(lines, true).value <= j
  {
    hide IsFence;
  }

  /** A literal block that holds an indented fence: `extract` reads it, and `strip` ends the block there. */
  lemma HiddenFenceShown()
    ensures
      var text := "---\n" + ("a: |\n" + ("  ---\n" + ("---\n" + "b")));
      && ExtractFrom(text) == Found(map["a" := "---\n"])
      && Removed(text) == Some("---\nb")
  {
    hide ExtractFrom, Removed, IsFence, DropLeadingBreaks, FenceAt, ReadLines, LineText, LinesOf;
    var a, b, c, d, e := "---\n", "a: |\n", "  ---\n", "---\n", "b";
    var text, lines := a + (b + (c + (d + e))), [a, b, c, d, e];
    HiddenFenceLines();
    FenceSamples();
    HeadNoFence();
    assert lines[1..] == [b, c, d, e] && lines[1..3] == [b, c] && lines[3..] == [d, e];
    HiddenFenceAt();
    RemovedIs(text);
    ExtractIs(text);
    HiddenFenceReads();
    DropNothing();
    assert Concat([d, e]) == "---\nb" by { ConcatIs([d, e]); ConcatIs([e]); ConcatIs([]); }
  }

  lemma DropNothing()
    ensures DropLeadingBreaks("---\nb") == "---\nb"
  {
  }

  lemma HeadNoFence()
    ensures !IsFence("a: |\n", false) && !IsFence("a: |\n", true)
  {
    assert "a: |\n"[..4] == "a: |";
  }

  lemma HiddenFenceLines()
    ensures
      var text := "---\n" + ("a: |\n" + ("  ---\n" + ("---\n" + "b")));
      LinesOf(text) == ["---\n", "a: |\n", "  ---\n", "---\n", "b"]
  {
    hide AreLines, Concat, SplitInclusive;
    assert AreLines(["b"]) && Concat(["b"]) == "b" by { OneLine("b"); }
    var a, b, c, d, e := "---\n", "a: |\n", "  ---\n", "---\n", "b";
    assert "---" + "\n" == d && "  ---" + "\n" == c && "a: |" + "\n" == b;
    ConsLine("---", [e]);
    assert [d] + [e] == [d, e];
    ConsLine("  ---", [d, e]);
    assert [c] + [d, e] == [c, d, e];
    ConsLine("a: |", [c, d, e]);
    assert [b] + [c, d, e] == [b, c, d, e];
    ConsLine("---", [b, c, d, e]);
    assert [a] + [b, c, d, e] == [a, b, c, d, e];
    SplitInclusiveOfConcat([a, b, c, d, e]);
  }

  lemma HiddenFenceAt()
    ensures
      var lines := ["a: |\n", "  ---\n", "---\n", "b"];
      FenceAt(lines, false) == Some(2) && FenceAt(lines, true) == Some(1)
    ensures
      var lines := ["---\n", "a: |\n", "  ---\n", "---\n", "b"];
      FenceAt(lines, false) == Some(0) && FenceAt(lines, true) == Some(0)
  {
    hide IsFence;
    FenceSamples();
    HeadNoFence();
    var lines := ["a: |\n", "  ---\n", "---\n", "b"];
    assert lines[1..] == ["  ---\n", "---\n", "b"] && lines[1..][1..] == ["---\n", "b"];
  }

  lemma HiddenFenceReads()
    ensures Close(ReadLines(["a: |\n", "  ---\n"], Reading(map[], None))).fields == map["a" := "---\n"]
  {
    hide IsField, ReadLines, LineText;
    var f := Block("a", false, true, ["  ---"]);
    assert IsField(f) by { HiddenFieldIs(f); }
    FieldIsRead(Reading(map[], None), f);
    HiddenFieldLines(f);
    assert ValueOf(f) == "---\n" by { HiddenValue(f); }
  }

  lemma HiddenFieldIs(f: Field)
    requires f == Block("a", false, true, ["  ---"])
    ensures IsField(f)
  {
  }

  lemma HiddenFieldLines(f: Field)
    requires f == Block("a", false, true, ["  ---"])
    ensures FieldLines(f) == ["a: |\n", "  ---\n"]
  {
    assert HeadText(f) == "a: |" by { assert "a" + [':'] + (" " + Sign(false, true)) == "a: |"; }
    assert [HeadText(f)] + Below(f) == ["a: |", "  ---"];
    var a, b := "a: |", "  ---";
    assert [a, b][1..] == [b] && [b][1..] == [];
    assert Broken([b]) == [b + "\n"] && Broken([a, b]) == [a + "\n"] + [b + "\n"];
    assert a + "\n" == "a: |\n" && b + "\n" == "  ---\n";
  }

  lemma HiddenValue(f: Field)
    requires f == Block("a", false, true, ["  ---"])
    ensures ValueOf(f) == "---\n"
  {
    hide Value, IsWhitespace;
    assert !IsWhitespace('-') by { MinusIsSolid(); }
    assert Trimmed(["  ---"]) == ["  ---"] by { assert ["  ---"][1..] == []; SolidEndStays("  ---"); }
    assert Indented("---", 2) == "  ---";
    LiteralBlock(["---"], 2, true, ["  ---"], 0);
    assert JoinLines(["---"]) == "---";
  }

  // ----- Any values -----

  /** Fields between double quotes. */
  function Quoted(values: seq<(string, string)>): (fields: seq<Field>)
    ensures |fields| == |values|
    ensures forall i :: 0 <= i < |fields| ==> fields[i] == Line(values[i].0, "\"" + Escape(values[i].1) + "\"")
  {
    if values == [] then [] else [Line(values[0].0, "\"" + Escape(values[0].1) + "\"")] + Quoted(values[1..])
  }

  function MapOfValues(values: seq<(string, string)>): Fields {
    if values == [] then map[] else map[values[0].0 := values[0].1] + MapOfValues(values[1..])
  }

  lemma {:induction false} MapOfQuoted(values: seq<(string, string)>)
    ensures MapOf(Quoted(values)) == MapOfValues(values)
  {
    hide Unquote, Escape;
    if values != [] {
      assert Quoted(values)[1..] == Quoted(values[1..]);
      MapOfQuoted(values[1..]);
      UnquoteReads(values[0].1);
    }
  }

  lemma QuotedIsRaw(value: string)
    ensures IsRaw("\"" + Escape(value) + "\"")
  {
    hide Escape;
    EscapeIsRead(value);
    var raw := "\"" + Escape(value) + "\"";
    SolidEndStays(raw);
  }

  /** Any fields come back, and any body, but for line breaks in front of it. */
  lemma {:induction false} RoundTrip(values: seq<(string, string)>, body: string)
    requires forall i :: 0 <= i < |values| ==> IsKey(values[i].0)
    ensures
      var text := Print(Quoted(values), body);
      && ExtractFrom(text) == Found(MapOfValues(values)) && IsUnbroken(body, Strip(text))
      && (body == "" || body[0] !in "\r\n" ==> Strip(text) == body)
  {
    hide IsKey, IsRaw, Print, Escape, ExtractFrom, Removed, MapOf, MapOfValues;
    BreaksAreDropped(body);
    var fields := Quoted(values);
    forall i | 0 <= i < |fields| ensures IsField(fields[i]) && !HidesFence(fields[i]) { QuotedIsRaw(values[i].1); }
    PrintedIsFound(fields, body);
    PrintedIsRemoved(fields, body);
    MapOfQuoted(values);
  }
}
