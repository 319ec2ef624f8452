/**
 The values of frontmatter fields (`BlockScalar` and `unquote` in
 crates/rupi-compat/src/frontmatter.rs): block scalars, folded or literal, and quoted text.
 */
module Scalars {
  import opened Text

  /** A value written over several lines, still collecting them. */
  datatype BlockScalar = BlockScalar(fold: bool, keepTrailing: bool, lines: seq<string>)

  predicate IsBlank(line: string) {
    Trim(line) == ""
  }

  /** The text behind its first `n` bytes, where those end at a character. */
  function DropBytes(text: string, n: nat): Option<string> {
    if n == 0 then Some(text)
    else if text == "" || CharBytes(text[0]) > n then None
    else DropBytes(text[1..], n - CharBytes(text[0]))
  }

  /** The indentation of the first line that is not blank, in bytes. */
  function Indent(lines: seq<string>): nat {
    if lines == [] then 0
    else if IsBlank(lines[0]) then Indent(lines[1..])
    else IndentOf(lines[0])
  }

  function IndentOf(line: string): nat {
    if line != [] && IsWhitespace(line[0]) then CharBytes(line[0]) + IndentOf(line[1..]) else 0
  }

  function Unindented(line: string, indent: nat): string {
    match DropBytes(line, indent)
    case Some(rest) => rest
    case None => TrimStart(line)
  }

  function AllUnindented(lines: seq<string>, indent: nat): (r: seq<string>)
    ensures |r| == |lines|
    ensures forall i :: 0 <= i < |lines| ==> r[i] == Unindented(lines[i], indent)
  {
    if lines == [] then [] else [Unindented(lines[0], indent)] + AllUnindented(lines[1..], indent)
  }

  function JoinLines(lines: seq<string>): string {
    if lines == [] then "" else if |lines| == 1 then lines[0] else lines[0] + "\n" + JoinLines(lines[1..])
  }

  function Breaks(n: nat): string {
    seq(n, _ => '\n')
  }

  /** What stands between two folded lines with `blanks` blank ones between them. */
  function Joint(blanks: nat, sawText: bool): string {
    if !sawText then "" else if blanks == 0 then " " else Breaks(blanks)
  }

  /** Folding, from a place behind `blanks` blank lines, with text in front of them or not. */
  function Folded(lines: seq<string>, blanks: nat, sawText: bool): string {
    if lines == [] then ""
    else if IsBlank(lines[0]) then Folded(lines[1..], blanks + 1, sawText)
    else Joint(blanks, sawText) + (Trim(lines[0]) + Folded(lines[1..], 0, true))
  }

  function DropBreaks(text: string): string {
    if text != [] && text[|text| - 1] == '\n' then DropBreaks(text[..|text| - 1]) else text
  }

  function Value(b: BlockScalar): string {
    var stripped := AllUnindented(b.lines, Indent(b.lines));
    var text := DropBreaks(if b.fold then Folded(stripped, 0, false) else JoinLines(stripped));
    if b.keepTrailing && text != "" then text + "\n" else text
  }

  /** The folding loop. */
  method FoldLines(lines: seq<string>) returns (folded: string)
    ensures folded == Folded(lines, 0, false)
  {
    hide IsBlank, Folded, Trim;
    folded := "";
    var blanks, sawText, i := 0, false, 0;
    assert lines[0..] == lines;
    while i < |lines|
      invariant i <= |lines|
      invariant Folded(lines, 0, false) == folded + Folded(lines[i..], blanks, sawText)
    {
      FoldedStep(lines, i, blanks, sawText);
      if IsBlank(lines[i]) {
        blanks := blanks + 1;
      } else {
        ghost var before, rest := folded, Folded(lines[i + 1..], 0, true);
        if sawText {
          folded := folded + if blanks == 0 then " " else Breaks(blanks);
        }
        Assoc(before, Joint(blanks, sawText), Trim(lines[i]) + rest);
        Assoc(folded, Trim(lines[i]), rest);
        folded := folded + Trim(lines[i]);
        sawText, blanks := true, 0;
      }
      i := i + 1;
    }
    FoldedOfNothing(lines[i..], blanks, sawText);
  }

  lemma FoldedOfNothing(lines: seq<string>, blanks: nat, sawText: bool)
    requires lines == []
    ensures Folded(lines, blanks, sawText) == ""
  {
  }

  lemma FoldedStep(lines: seq<string>, i: nat, blanks: nat, sawText: bool)
    requires i < |lines|
    ensures Folded(lines[i..], blanks, sawText) ==
      if IsBlank(lines[i]) then Folded(lines[i + 1..], blanks + 1, sawText)
      else Joint(blanks, sawText) + (Trim(lines[i]) + Folded(lines[i + 1..], 0, true))
  {
    hide IsBlank, Trim, Joint;
    assert lines[i..][1..] == lines[i + 1..];
  }

  method BlockValue(b: BlockScalar) returns (text: string)
    ensures text == Value(b)
  {
    hide Folded, AllUnindented, Indent, JoinLines;
    var stripped := AllUnindented(b.lines, Indent(b.lines));
    if b.fold {
      text := FoldLines(stripped);
    } else {
      text := JoinLines(stripped);
    }
    ghost var whole := text;
    while text != "" && text[|text| - 1] == '\n'
      invariant DropBreaks(text) == DropBreaks(whole)
      decreases |text|
    {
      text := text[..|text| - 1];
    }
    if b.keepTrailing && text != "" {
      text := text + "\n";
    }
  }

  // ----- What folding makes of lines -----

  /** A line with something on it, and the blank lines in front of it. */
  datatype Piece = Piece(blanks: seq<string>, line: string)

  predicate AreBlank(lines: seq<string>) {
    forall i :: 0 <= i < |lines| ==> IsBlank(lines[i])
  }

  predicate ArePieces(pieces: seq<Piece>) {
    forall i :: 0 <= i < |pieces| ==> AreBlank(pieces[i].blanks) && !IsBlank(pieces[i].line)
  }

  function LaidOut(pieces: seq<Piece>): seq<string> {
    if pieces == [] then [] else pieces[0].blanks + ([pieces[0].line] + LaidOut(pieces[1..]))
  }

  /** The lines joined: by a space, or by a break for each blank line between them. */
  function Sentence(pieces: seq<Piece>): string {
    if pieces == [] then ""
    else if |pieces| == 1 then Trim(pieces[0].line)
    else
      var k := |pieces[1].blanks|;
      Trim(pieces[0].line) + ((if k == 0 then " " else seq(k, _ => '\n')) + Sentence(pieces[1..]))
  }

  lemma {:induction false} FoldedBlanks(blanks: seq<string>, rest: seq<string>, before: nat, sawText: bool)
    requires AreBlank(blanks)
    ensures Folded(blanks + rest, before, sawText) == Folded(rest, before + |blanks|, sawText)
    decreases |blanks|
  {
    hide IsBlank, Joint;
    if blanks == [] {
      assert blanks + rest == rest;
    } else {
      assert (blanks + rest)[1..] == blanks[1..] + rest;
      FoldedBlanks(blanks[1..], rest, before + 1, sawText);
    }
  }

  lemma FoldedLine(line: string, rest: seq<string>, before: nat, sawText: bool)
    requires !IsBlank(line)
    ensures Folded([line] + rest, before, sawText) == Joint(before, sawText) + (Trim(line) + Folded(rest, 0, true))
  {
    hide IsBlank, Joint, Trim;
    assert ([line] + rest)[1..] == rest;
  }

  lemma LinesAssoc(a: seq<string>, b: seq<string>, c: seq<string>)
    ensures a + b + c == a + (b + c)
  {
  }

  /** The first piece, and what follows it. */
  lemma FoldedPiece(piece: Piece, rest: seq<string>, sawText: bool)
    requires AreBlank(piece.blanks) && !IsBlank(piece.line)
    ensures Folded(piece.blanks + ([piece.line] + rest), 0, sawText) ==
            Joint(|piece.blanks|, sawText) + (Trim(piece.line) + Folded(rest, 0, true))
  {
    hide Folded, IsBlank, Joint, Trim;
    FoldedBlanks(piece.blanks, [piece.line] + rest, 0, sawText);
    FoldedLine(piece.line, rest, |piece.blanks|, sawText);
  }

  lemma {:induction false} FoldedPieces(pieces: seq<Piece>, trail: seq<string>, sawText: bool)
    requires ArePieces(pieces) && AreBlank(trail)
    ensures Folded(LaidOut(pieces) + trail, 0, sawText) ==
      if pieces == [] then "" else Joint(|pieces[0].blanks|, sawText) + Sentence(pieces)
    decreases |pieces|
  {
    hide Folded, IsBlank, Joint, Trim, AreBlank;
    if pieces == [] {
      FoldedBlanks(trail, [], 0, sawText);
      FoldedOfNothing([], |trail|, sawText);
      assert LaidOut(pieces) + trail == trail + [];
    } else {
      var piece, rest := pieces[0], LaidOut(pieces[1..]) + trail;
      FoldedPieces(pieces[1..], trail, true);
      FoldedPiece(piece, rest, sawText);
      LinesAssoc([piece.line], LaidOut(pieces[1..]), trail);
      LinesAssoc(piece.blanks, [piece.line] + LaidOut(pieces[1..]), trail);
      if |pieces| == 1 {
        assert Trim(piece.line) + "" == Trim(piece.line);
      } else {
        JointBehindText(|pieces[1].blanks|);
      }
    }
  }

  lemma JointBehindText(k: nat)
    ensures Joint(k, true) == if k == 0 then " " else seq(k, _ => '\n')
  {
  }

  /** Every sequence of lines is laid out in one such way. */
  lemma {:induction false} LayoutExists(lines: seq<string>) returns (pieces: seq<Piece>, trail: seq<string>)
    ensures ArePieces(pieces) && AreBlank(trail) && lines == LaidOut(pieces) + trail
  {
    hide IsBlank;
    if lines == [] {
      pieces, trail := [], [];
    } else {
      var line, rest := lines[0], lines[1..];
      assert lines == [line] + rest;
      pieces, trail := LayoutExists(rest);
      if !IsBlank(line) {
        pieces := [Piece([], line)] + pieces;
        NewPiece(line, rest, pieces, trail);
      } else if pieces == [] {
        trail := [line] + trail;
      } else {
        WiderPiece(line, pieces, trail);
        pieces := [pieces[0].(blanks := [line] + pieces[0].blanks)] + pieces[1..];
      }
    }
  }

  lemma NewPiece(line: string, rest: seq<string>, pieces: seq<Piece>, trail: seq<string>)
    requires pieces != [] && pieces[0] == Piece([], line) && rest == LaidOut(pieces[1..]) + trail
    ensures LaidOut(pieces) + trail == [line] + rest
  {
    LinesAssoc([line], LaidOut(pieces[1..]), trail);
    assert LaidOut(pieces) == [line] + LaidOut(pieces[1..]);
  }

  lemma WiderPiece(line: string, pieces: seq<Piece>, trail: seq<string>)
    requires pieces != []
    ensures
      var wider := [pieces[0].(blanks := [line] + pieces[0].blanks)] + pieces[1..];
      LaidOut(wider) + trail == [line] + (LaidOut(pieces) + trail)
  {
    var wider := [pieces[0].(blanks := [line] + pieces[0].blanks)] + pieces[1..];
    assert wider[1..] == pieces[1..];
    var tail := [pieces[0].line] + LaidOut(pieces[1..]);
    LinesAssoc([line], pieces[0].blanks, tail);
    LinesAssoc([line], pieces[0].blanks + tail, trail);
  }

  lemma {:induction false} SentenceEnds(pieces: seq<Piece>)
    requires ArePieces(pieces) && pieces != []
    ensures EndsSolid(Sentence(pieces))
    decreases |pieces|
  {
    hide Trim, IsWhitespace;
    if |pieces| == 1 {
      TrimEndsSolid(pieces[0].line);
    } else {
      SentenceEnds(pieces[1..]);
    }
  }

  lemma TrimEndsSolid(line: string)
    requires !IsBlank(line)
    ensures EndsSolid(Trim(line))
  {
    TrimEndEnds(line);
    TrimStartIsSuffix(TrimEnd(line));
  }

  lemma {:induction false} TrimEndEnds(text: string)
    ensures TrimEnd(text) == "" || EndsSolid(TrimEnd(text))
    decreases |text|
  {
    hide IsWhitespace;
    if text != "" && IsWhitespace(text[|text| - 1]) { TrimEndEnds(text[..|text| - 1]); }
  }

  lemma {:induction false} TrimStartIsSuffix(text: string)
    ensures |TrimStart(text)| <= |text| && TrimStart(text) == text[|text| - |TrimStart(text)|..]
    decreases |text|
  {
    hide IsWhitespace;
    if text != "" && IsWhitespace(text[0]) { TrimStartIsSuffix(text[1..]); }
  }

  /**
   A folded block: its lines, without the blank ones around them, joined by a space, or by as many
   breaks as there are blank lines between them.
   */
  lemma FoldedBlock(b: BlockScalar, pieces: seq<Piece>, trail: seq<string>)
    requires b.fold && ArePieces(pieces) && AreBlank(trail)
    requires AllUnindented(b.lines, Indent(b.lines)) == LaidOut(pieces) + trail
    ensures Value(b) == Sentence(pieces) + if b.keepTrailing && pieces != [] then "\n" else ""
  {
    hide Folded, AllUnindented, Indent, Sentence, LaidOut, ArePieces, AreBlank, DropBreaks, EndsSolid;
    FoldedPieces(pieces, trail, false);
    if pieces == [] {
      NoSentence();
    } else {
      NoJoint(|pieces[0].blanks|, Sentence(pieces));
      SentenceEnds(pieces);
      SolidEndStays(Sentence(pieces));
      assert Sentence(pieces) != "" by { SolidIsSomething(Sentence(pieces)); }
    }
  }

  lemma NoSentence()
    ensures Sentence([]) == "" && DropBreaks("") == ""
  {
  }

  lemma NoJoint(k: nat, text: string)
    ensures Joint(k, false) + text == text
  {
  }

  lemma SolidIsSomething(text: string)
    requires EndsSolid(text)
    ensures text != ""
  {
  }

  // ----- What taking off the indentation loses -----

  /** The indentation of a line is what trimming its front takes off, in bytes. */
  lemma {:induction false} IndentOfIs(line: string)
    ensures IndentOf(line) + ByteLength(TrimStart(line)) == ByteLength(line)
  {
    if line != "" { IndentOfIs(line[1..]); }
  }

  /** A block is measured by its first line that is not blank. */
  lemma {:induction false} IndentIs(blanks: seq<string>, line: string, rest: seq<string>)
    requires AreBlank(blanks) && !IsBlank(line)
    ensures Indent(blanks + ([line] + rest)) == IndentOf(line) && Indent(blanks) == 0
    decreases |blanks|
  {
    hide IsBlank, IndentOf;
    if blanks == [] {
      assert blanks + ([line] + rest) == [line] + rest;
    } else {
      assert (blanks + ([line] + rest))[1..] == blanks[1..] + ([line] + rest);
      IndentIs(blanks[1..], line, rest);
    }
  }

  lemma {:induction false} DroppedIsFront(line: string, n: nat)
    requires DropBytes(line, n).Some?
    ensures
      var rest := DropBytes(line, n).value;
      |rest| <= |line| && rest == line[|line| - |rest|..]
  {
    if n > 0 {
      DroppedIsFront(line[1..], n - CharBytes(line[0]));
    }
  }

  lemma {:induction false} DroppedSpace(line: string, n: nat)
    requires DropBytes(line, n).Some? && n <= IndentOf(line)
    ensures TrimStart(DropBytes(line, n).value) == TrimStart(line)
  {
    if n > 0 { DroppedSpace(line[1..], n - CharBytes(line[0])); }
  }

  lemma {:induction false} DroppedText(line: string, n: nat)
    requires DropBytes(line, n).Some? && n > IndentOf(line) && TrimStart(line) != ""
    ensures |DropBytes(line, n).value| < |TrimStart(line)|
  {
    if IsWhitespace(line[0]) {
      DroppedText(line[1..], n - CharBytes(line[0]));
    } else {
      DroppedIsFront(line[1..], n - CharBytes(line[0]));
    }
  }

  /** Trimming from either side first makes no difference. */
  lemma {:induction false} TrimFromStart(line: string)
    ensures Trim(line) == TrimEnd(TrimStart(line))
    decreases |line|
  {
    if line != "" {
      var n := |line| - 1;
      if IsWhitespace(line[0]) {
        TrimFromStart(line[1..]);
        TrimEndOfCons(line);
      } else {
        TrimEndKeepsStart(line);
      }
    }
  }

  lemma {:induction false} TrimEndOfCons(line: string)
    requires line != "" && IsWhitespace(line[0])
    ensures TrimStart(TrimEnd(line)) == TrimStart(TrimEnd(line[1..]))
    decreases |line|
  {
    var n := |line| - 1;
    if IsWhitespace(line[n]) {
      if n > 0 {
        assert line[..n][1..] == line[1..][..n - 1];
        TrimEndOfCons(line[..n]);
      }
    } else {
      assert TrimEnd(line) == line && TrimEnd(line[1..]) == line[1..];
    }
  }

  lemma {:induction false} TrimEndKeepsStart(line: string)
    requires line != "" && !IsWhitespace(line[0])
    ensures TrimEnd(line) != "" && TrimEnd(line)[0] == line[0] && TrimStart(TrimEnd(line)) == TrimEnd(line)
    decreases |line|
  {
    var n := |line| - 1;
    if IsWhitespace(line[n]) { TrimEndKeepsStart(line[..n]); }
  }

  /** The text of a line survives exactly when the indentation that goes is its own, or cannot be cut there. */
  lemma UnindentedKeepsTextIff(line: string, n: nat)
    ensures Trim(Unindented(line, n)) == Trim(line) <==>
            IsBlank(line) || n <= IndentOf(line) || DropBytes(line, n).None?
  {
    hide DropBytes, IndentOf, Trim;
    TrimFromStart(line);
    match DropBytes(line, n)
    case None =>
      TrimStartTwice(line);
      TrimFromStart(TrimStart(line));
    case Some(rest) =>
      TrimFromStart(rest);
      if n <= IndentOf(line) {
        DroppedSpace(line, n);
      } else if IsBlank(line) {
        DroppedIsFront(line, n);
        BlankSuffix(line, |line| - |rest|);
      } else {
        LostText(line, n);
      }
  }

  lemma TrimStartTwice(line: string)
    ensures TrimStart(TrimStart(line)) == TrimStart(line)
  {
  }

  lemma {:induction false} BlankIsSpace(line: string)
    ensures IsBlank(line) <==> forall i :: 0 <= i < |line| ==> IsWhitespace(line[i])
    decreases |line|
  {
    hide IsWhitespace;
    TrimFromStart(line);
    if line != "" {
      if IsWhitespace(line[0]) {
        BlankIsSpace(line[1..]);
        TrimFromStart(line[1..]);
        assert line == [line[0]] + line[1..];
      } else {
        TrimEndKeepsStart(line);
      }
    }
  }

  lemma BlankSuffix(line: string, i: nat)
    requires IsBlank(line) && i <= |line|
    ensures IsBlank(line[i..])
  {
    BlankIsSpace(line);
    BlankIsSpace(line[i..]);
  }

  lemma {:induction false} TrimEndIsPrefix(text: string)
    ensures |TrimEnd(text)| <= |text|
    decreases |text|
  {
    hide IsWhitespace;
    if text != "" && IsWhitespace(text[|text| - 1]) { TrimEndIsPrefix(text[..|text| - 1]); }
  }

  lemma {:induction false} TrimEndOfSuffix(text: string, k: nat)
    requires k <= |text|
    ensures |TrimEnd(text[k..])| <= if |TrimEnd(text)| <= k then 0 else |TrimEnd(text)| - k
    decreases |text|
  {
    if k < |text| && IsWhitespace(text[|text| - 1]) {
      TrimEndOfSuffix(text[..|text| - 1], k);
      assert text[k..][..|text| - k - 1] == text[..|text| - 1][k..];
    } else if k < |text| {
      TrimEndIsPrefix(text[k..]);
    }
  }

  lemma LostText(line: string, n: nat)
    requires DropBytes(line, n).Some? && n > IndentOf(line) && !IsBlank(line)
    ensures Trim(DropBytes(line, n).value) != Trim(line)
  {
    hide DropBytes, IndentOf, TrimEnd;
    var rest, solid := DropBytes(line, n).value, TrimStart(line);
    TrimFromStart(line);
    SolidLine(line);
    DroppedIsFront(line, n);
    DroppedText(line, n);
    TrimStartIsSuffix(line);
    var k := |solid| - |rest|;
    assert rest == solid[k..];
    TrimEndOfSuffix(solid, k);
    TrimStartIsSuffix(TrimEnd(rest));
  }

  lemma SolidLine(line: string)
    requires !IsBlank(line)
    ensures TrimStart(line) != "" && TrimEnd(TrimStart(line)) != ""
  {
    TrimFromStart(line);
  }

  /** Of a block whose first line stands further in than another, the other loses its text. */
  lemma ShallowLineLosesText()
    ensures Value(BlockScalar(false, false, ["    a", "  bcd"])) == "a\nd"
  {
    var a, b := "    a", "  bcd";
    assert !IsBlank(a) && IndentOf(a) == 4 by { ExampleIndent(); }
    assert Indent([a, b]) == 4;
    assert DropBytes(a, 4) == Some("a") && DropBytes(b, 4) == Some("d") by { ExampleDrop(); }
    var stripped := AllUnindented([a, b], 4);
    assert stripped == ["a", "d"];
    assert ["a", "d"][1..] == ["d"];
    assert JoinLines(["a", "d"]) == "a\nd";
  }

  lemma ExampleIndent()
    ensures !IsBlank("    a") && IndentOf("    a") == 4
  {
    assert "    a"[1..] == "   a" && "   a"[1..] == "  a" && "  a"[1..] == " a" && " a"[1..] == "a";
    TrimFromStart("    a");
    assert TrimStart("    a") == TrimStart("   a") == TrimStart("  a") == TrimStart(" a") == "a";
  }

  lemma ExampleDrop()
    ensures DropBytes("    a", 4) == Some("a") && DropBytes("  bcd", 4) == Some("d")
  {
    assert "    a"[1..] == "   a" && "   a"[1..] == "  a" && "  a"[1..] == " a" && " a"[1..] == "a";
    assert DropBytes("   a", 3) == DropBytes("  a", 2) == DropBytes(" a", 1) == DropBytes("a", 0) == Some("a");
    assert "  bcd"[1..] == " bcd" && " bcd"[1..] == "bcd" && "bcd"[1..] == "cd" && "cd"[1..] == "d";
    assert DropBytes(" bcd", 3) == DropBytes("bcd", 2) == DropBytes("cd", 1) == DropBytes("d", 0) == Some("d");
  }

  // ----- Literal blocks -----

  function Spaces(n: nat): string {
    seq(n, _ => ' ')
  }

  /** A line of a block, `n` spaces in; empty lines stay empty. */
  function Indented(line: string, n: nat): string {
    if line == "" then "" else Spaces(n) + line
  }

  lemma {:induction false} SpacesAreDropped(line: string, n: nat)
    ensures DropBytes(Spaces(n) + line, n) == Some(line)
    ensures line != "" && !IsWhitespace(line[0]) ==> IndentOf(Spaces(n) + line) == n
  {
    if n > 0 {
      SpacesAreDropped(line, n - 1);
      assert (Spaces(n) + line)[1..] == Spaces(n - 1) + line;
    } else {
      assert Spaces(n) + line == line;
    }
  }

  lemma {:induction false} JoinLinesEnd(lines: seq<string>)
    requires lines != [] && lines[|lines| - 1] != ""
    ensures
      var text, last := JoinLines(lines), lines[|lines| - 1];
      text != "" && text[|text| - 1] == last[|last| - 1]
  {
    if |lines| > 1 { JoinLinesEnd(lines[1..]); }
  }

  /** A line that ends in something to see. */
  predicate EndsSolid(line: string) {
    line != "" && !IsWhitespace(line[|line| - 1])
  }

  lemma SolidEndStays(text: string)
    requires EndsSolid(text)
    ensures DropBreaks(text) == text && TrimEnd(text) == text
  {
  }

  lemma {:induction false} AllLinesBare(lines: seq<string>, n: nat, written: seq<string>)
    requires |written| == |lines| && forall i :: 0 <= i < |lines| ==> written[i] == Indented(lines[i], n)
    ensures AllUnindented(written, n) == lines
  {
    hide Indented, Unindented, AllUnindented;
    var stripped := AllUnindented(written, n);
    forall i | 0 <= i < |lines| ensures stripped[i] == lines[i] { LiteralLine(lines[i], n); }
  }

  lemma LiteralText(lines: seq<string>)
    requires lines != [] && EndsSolid(lines[|lines| - 1])
    ensures DropBreaks(JoinLines(lines)) == JoinLines(lines) != ""
  {
    hide JoinLines, DropBreaks;
    JoinLinesEnd(lines);
    SolidEndStays(JoinLines(lines));
  }

  lemma LiteralValue(b: BlockScalar, all: seq<string>, lines: seq<string>)
    requires !b.fold && AllUnindented(b.lines, Indent(b.lines)) == all
    requires DropBreaks(JoinLines(all)) == JoinLines(lines) != ""
    ensures Value(b) == JoinLines(lines) + if b.keepTrailing then "\n" else ""
  {
    hide JoinLines, DropBreaks, AllUnindented, Indent;
  }

  /** Lines as they are written in a block: indented, with empty ones behind them. */
  predicate IsWritten(written: seq<string>, lines: seq<string>, n: nat) {
    && |lines| <= |written|
    && (forall i :: 0 <= i < |lines| ==> written[i] == Indented(lines[i], n))
    && forall i :: |lines| <= i < |written| ==> written[i] == ""
  }

  /** Empty lines behind the others are breaks at the end, and go. */
  lemma {:induction false} TrailIsDropped(lines: seq<string>, trail: seq<string>)
    requires lines != [] && EndsSolid(lines[|lines| - 1]) && forall i :: 0 <= i < |trail| ==> trail[i] == ""
    ensures DropBreaks(JoinLines(lines + trail)) == JoinLines(lines) != ""
    decreases |trail|
  {
    hide DropBreaks, EndsSolid;
    if trail == [] {
      assert lines + trail == lines;
      LiteralText(lines);
    } else {
      var less := trail[..|trail| - 1];
      TrailIsDropped(lines, less);
      assert lines + trail == (lines + less) + [""] by { assert trail == less + [""]; }
      JoinEmpty(lines + less);
      OneBreakIsDropped(JoinLines(lines + less));
    }
  }

  lemma {:induction false} JoinEmpty(lines: seq<string>)
    requires lines != []
    ensures JoinLines(lines + [""]) == JoinLines(lines) + "\n"
  {
    assert (lines + [""])[1..] == lines[1..] + [""];
    if |lines| > 1 {
      JoinEmpty(lines[1..]);
    } else {
      assert lines[1..] + [""] == [""];
      assert lines[0] + "\n" + "" == lines[0] + "\n";
    }
  }

  lemma OneBreakIsDropped(text: string)
    ensures DropBreaks(text + "\n") == DropBreaks(text)
  {
    assert (text + "\n")[..|text|] == text;
  }

  /** The whole indentation of a literal block goes, and of its lines nothing but empty ones at the end. */
  lemma LiteralBlock(lines: seq<string>, n: nat, keepTrailing: bool, written: seq<string>, f: nat)
    requires f < |lines| && EndsSolid(lines[f]) && !IsWhitespace(lines[f][0]) && EndsSolid(lines[|lines| - 1])
    requires (forall i :: 0 <= i < f ==> lines[i] == "") && IsWritten(written, lines, n)
    ensures Value(BlockScalar(false, keepTrailing, written)) == JoinLines(lines) + if keepTrailing then "\n" else ""
  {
    hide JoinLines, Folded, Indented, DropBytes, Trim, IndentOf, Value, AllUnindented, DropBreaks, Indent;
    var trail := written[|lines|..];
    assert written[f] == Indented(lines[f], n);
    forall i | 0 <= i < f ensures written[i] == "" { EmptyIsEmpty(n); }
    LiteralIndent(lines[f], n, written, f);
    forall i | 0 <= i < |written| ensures written[i] == Indented((lines + trail)[i], n) { EmptyIsEmpty(n); }
    AllLinesBare(lines + trail, n, written);
    TrailIsDropped(lines, trail);
    LiteralValue(BlockScalar(false, keepTrailing, written), lines + trail, lines);
  }

  lemma EmptyIsEmpty(n: nat)
    ensures Indented("", n) == ""
  {
  }

  lemma {:induction false} LiteralIndent(line: string, n: nat, written: seq<string>, f: nat)
    requires line != "" && !IsWhitespace(line[0]) && !IsWhitespace(line[|line| - 1])
    requires f < |written| && written[f] == Indented(line, n) && forall i :: 0 <= i < f ==> written[i] == ""
    ensures Indent(written) == n
    decreases f
  {
    if f == 0 {
      FirstIndent(line, n, written);
    } else {
      assert IsBlank(written[0]);
      LiteralIndent(line, n, written[1..], f - 1);
    }
  }

  lemma FirstIndent(line: string, n: nat, written: seq<string>)
    requires line != "" && !IsWhitespace(line[0]) && !IsWhitespace(line[|line| - 1])
    requires written != [] && written[0] == Indented(line, n)
    ensures Indent(written) == n
  {
    SpacesAreDropped(line, n);
    assert TrimEnd(Spaces(n) + line) == Spaces(n) + line;
    assert !IsBlank(Spaces(n) + line) by { SolidIsNotBlank(line, n); }
  }

  lemma {:induction false} SolidIsNotBlank(line: string, n: nat)
    requires line != "" && !IsWhitespace(line[0])
    ensures TrimStart(Spaces(n) + line) == line
  {
    if n > 0 {
      SolidIsNotBlank(line, n - 1);
      assert (Spaces(n) + line)[1..] == Spaces(n - 1) + line;
    } else {
      assert Spaces(n) + line == line;
    }
  }

  lemma LiteralLine(line: string, n: nat)
    ensures Unindented(Indented(line, n), n) == line
  {
    SpacesAreDropped(line, n);
  }

  /** What the escapes of a double-quoted scalar stand for. */
  function Unescape(body: string): string {
    if body == "" then ""
    else if body[0] != '\\' then [body[0]] + Unescape(body[1..])
    else if |body| == 1 then ""
    else [EscapeValue(body[1])] + Unescape(body[2..])
  }

  function EscapeValue(c: char): char {
    if c == 'n' then '\n' else if c == 't' then '\t' else c
  }

  method UnescapeLoop(body: string) returns (out: string)
    ensures out == Unescape(body)
  {
    hide Unescape, EscapeValue;
    out := "";
    var escape, i := false, 0;
    assert body[0..] == body;
    while i < |body|
      invariant i <= |body|
      invariant escape ==> 0 < i && body[i - 1] == '\\'
      invariant Unescape(body) == out + Unescape(body[if escape then i - 1 else i..])
    {
      var c := body[i];
      UnescapeStep(body, i, escape);
      if escape {
        Assoc(out, [EscapeValue(c)], Unescape(body[i + 1..]));
        out, escape := out + [EscapeValue(c)], false;
      } else if c == '\\' {
        escape := true;
      } else {
        Assoc(out, [c], Unescape(body[i + 1..]));
        out := out + [c];
      }
      i := i + 1;
    }
    UnescapeEnd(body[if escape then i - 1 else i..]);
  }

  /** A backslash at the very end stands for nothing. */
  lemma UnescapeEnd(body: string)
    requires body == "" || body == "\\"
    ensures Unescape(body) == ""
  {
  }

  lemma UnescapeStep(body: string, i: nat, escape: bool)
    requires i < |body| && (escape ==> 0 < i && body[i - 1] == '\\')
    ensures escape ==> Unescape(body[i - 1..]) == [EscapeValue(body[i])] + Unescape(body[i + 1..])
    ensures !escape && body[i] != '\\' ==> Unescape(body[i..]) == [body[i]] + Unescape(body[i + 1..])
  {
    hide EscapeValue;
    if escape {
      assert body[i - 1..][2..] == body[i + 1..];
    } else {
      assert body[i..][1..] == body[i + 1..];
    }
  }

  /** A character as it is written, behind a backslash by its letter, or behind one by itself. */
  datatype Letter = Bare(c: char) | ByLetter(c: char) | ByItself(c: char)

  predicate IsLetter(l: Letter) {
    match l
    case Bare(c) => c != '\\'
    case ByLetter(c) => c == '\n' || c == '\t'
    case ByItself(c) => c != 'n' && c != 't'
  }

  function LetterText(l: Letter): string {
    match l
    case Bare(c) => [c]
    case ByLetter(c) => if c == '\n' then "\\n" else "\\t"
    case ByItself(c) => ['\\', c]
  }

  function Spelling(letters: seq<Letter>): string {
    if letters == [] then "" else LetterText(letters[0]) + Spelling(letters[1..])
  }

  function Spelled(letters: seq<Letter>): string {
    if letters == [] then "" else [letters[0].c] + Spelled(letters[1..])
  }

  lemma LetterIsRead(l: Letter, rest: string)
    requires IsLetter(l)
    ensures Unescape(LetterText(l) + rest) == [l.c] + Unescape(rest)
  {
    var text := LetterText(l);
    assert (text + rest)[|text|..] == rest;
  }

  /** However characters are spelled between double quotes, they are read; a backslash at the end is nothing. */
  lemma {:induction false} SpellingIsRead(letters: seq<Letter>, end: string)
    requires (forall i :: 0 <= i < |letters| ==> IsLetter(letters[i])) && (end == "" || end == "\\")
    ensures Unescape(Spelling(letters) + end) == Spelled(letters)
  {
    hide Unescape, IsLetter, LetterText;
    if letters == [] {
      assert Spelling(letters) + end == end;
      UnescapeEnd(end);
    } else {
      SpellingIsRead(letters[1..], end);
      LetterIsRead(letters[0], Spelling(letters[1..]) + end);
      Assoc(LetterText(letters[0]), Spelling(letters[1..]), end);
    }
  }

  /** The first letter of a text. */
  function FirstLetter(body: string): (l: Letter)
    requires body != "" && body != "\\"
    ensures IsLetter(l) && LetterText(l) <= body
  {
    if body[0] != '\\' then Bare(body[0])
    else if body[1] == 'n' then ByLetter('\n')
    else if body[1] == 't' then ByLetter('\t')
    else ByItself(body[1])
  }

  /** Every text is such a spelling. */
  lemma {:induction false} SpellingExists(body: string) returns (letters: seq<Letter>, end: string)
    ensures (forall i :: 0 <= i < |letters| ==> IsLetter(letters[i])) && (end == "" || end == "\\")
    ensures Spelling(letters) + end == body
  {
    hide IsLetter, FirstLetter;
    if body == "" || body == "\\" {
      letters, end := [], body;
      assert Spelling(letters) + end == end;
    } else {
      var l := FirstLetter(body);
      var n := |LetterText(l)|;
      assert n > 0 && body == LetterText(l) + body[n..];
      letters, end := SpellingExists(body[n..]);
      SpellingCons(l, letters, end);
      letters := [l] + letters;
    }
  }

  lemma SpellingCons(l: Letter, letters: seq<Letter>, end: string)
    ensures Spelling([l] + letters) + end == LetterText(l) + (Spelling(letters) + end)
  {
    hide LetterText;
    assert ([l] + letters)[1..] == letters;
  }

  /** `''` inside single quotes stands for one. */
  function Unquoted(body: string): string {
    if body == "" then ""
    else if Starts(body, "''") then "'" + Unquoted(body[2..])
    else [body[0]] + Unquoted(body[1..])
  }

  predicate IsBetween(raw: string, quote: char) {
    |raw| >= 2 && raw[0] == quote && raw[|raw| - 1] == quote
  }

  function Unquote(raw: string): string {
    if IsBetween(raw, '"') then Unescape(raw[1..|raw| - 1])
    else if IsBetween(raw, '\'') then Unquoted(raw[1..|raw| - 1])
    else raw
  }

  /** Doubling every single quote. */
  function Doubled(value: string): string {
    if value == "" then "" else (if value[0] == '\'' then "''" else [value[0]]) + Doubled(value[1..])
  }

  lemma {:induction false} DoubledIsRead(value: string)
    ensures Unquoted(Doubled(value)) == value
  {
    if value != "" {
      DoubledIsRead(value[1..]);
      var rest := Doubled(value[1..]);
      assert value == [value[0]] + value[1..];
      if value[0] == '\'' {
        assert ("''" + rest)[..2] == "''" && ("''" + rest)[2..] == rest;
      } else {
        StartsWithFirst([value[0]] + rest, "''");
        assert ([value[0]] + rest)[1..] == rest;
      }
    }
  }

  /** A spelling of a value between double quotes. */
  function Escape(value: string): string {
    if value == "" then "" else EscapedChar(value[0]) + Escape(value[1..])
  }

  function EscapedChar(c: char): string {
    if c == '\n' then "\\n" else if c == '\t' then "\\t" else if c == '"' || c == '\\' then ['\\', c] else [c]
  }

  lemma EscapedCharIsRead(c: char, rest: string)
    ensures Unescape(EscapedChar(c) + rest) == [c] + Unescape(rest)
    ensures '\n' !in EscapedChar(c)
  {
    var e := EscapedChar(c);
    assert (e + rest)[|e|..] == rest;
  }

  lemma {:induction false} EscapeIsRead(value: string)
    ensures Unescape(Escape(value)) == value && '\n' !in Escape(value)
  {
    hide Unescape, EscapedChar;
    if value == "" {
      UnescapeEnd("");
    } else {
      EscapeIsRead(value[1..]);
      EscapedCharIsRead(value[0], Escape(value[1..]));
      assert value == [value[0]] + value[1..];
    }
  }

  /** Any value comes back from double quotes and from single ones, and text without quotes is itself. */
  lemma UnquoteReads(value: string)
    ensures Unquote("\"" + Escape(value) + "\"") == value
    ensures Unquote("'" + Doubled(value) + "'") == value
    ensures !IsBetween(value, '"') && !IsBetween(value, '\'') ==> Unquote(value) == value
  {
    hide Unescape, Unquoted, Escape, Doubled;
    EscapeIsRead(value);
    DoubledIsRead(value);
    var double, single := "\"" + Escape(value) + "\"", "'" + Doubled(value) + "'";
    assert double[1..|double| - 1] == Escape(value);
    assert single[1..|single| - 1] == Doubled(value);
  }

  method UnquoteText(raw: string) returns (value: string)
    ensures value == Unquote(raw)
  {
    if IsBetween(raw, '"') {
      value := UnescapeLoop(raw[1..|raw| - 1]);
    } else if IsBetween(raw, '\'') {
      value := Unquoted(raw[1..|raw| - 1]);
    } else {
      value := raw;
    }
  }
}
