/**
 Private key blocks withheld line by line (`redact_private_keys` in
 crates/rupi-core/src/redact.rs).
 */
module PrivateKeys {
  import opened Text
  import Redact

  predicate Contains(text: string, needle: string) {
    exists i {:trigger OccursAt(needle, text, i)} :: 0 <= i <= |text| && OccursAt(needle, text, i)
  }

  predicate IsBegin(line: string) {
    var trimmed := Trim(line);
    Starts(trimmed, "-----BEGIN") && Contains(trimmed, "PRIVATE KEY")
  }

  predicate IsEnd(line: string) {
    Contains(Trim(line), "-----END")
  }

  function MarkerLine(): string {
    Redact.Marker(Redact.PrivateKey) + "\n"
  }

  // ----- Which lines begin and end a key -----

  /** A text that neither starts nor ends with white space is in a line exactly when it is in what trimming leaves. */
  lemma OccursInTrimmed(needle: string, line: string)
    requires needle != "" && !IsWhitespace(needle[0]) && !IsWhitespace(needle[|needle| - 1])
    ensures Contains(Trim(line), needle) <==> Occurs(needle, line)
  {
    hide IsWhitespace, Trim, AllWhitespace, OccursAt;
    var front, back := TrimTakesOff(line);
    var trimmed := Trim(line);
    assert line[|front|..|front| + |trimmed|] == trimmed;
    if Contains(trimmed, needle) { OccursInPart(needle, line, |front|, |front| + |trimmed|); }
    if i :| OccursAt(needle, line, i) { OccursInMiddle(needle, line, front, trimmed, back, i); }
  }

  lemma OccursInMiddle(needle: string, line: string, front: string, middle: string, back: string, i: int)
    requires needle != "" && !IsWhitespace(needle[0]) && !IsWhitespace(needle[|needle| - 1])
    requires line == front + (middle + back) && AllWhitespace(front) && AllWhitespace(back) && OccursAt(needle, line, i)
    ensures Contains(middle, needle)
  {
    hide IsWhitespace, AllWhitespace;
    var n := |needle|;
    EndsAt(needle, line, i);
    assert line[..|front|] == front && line[|front|..|front| + |middle|] == middle;
    BehindSpace(line, |front|, i);
    BeforeBack(line, front, middle, back, i + n - 1);
    SliceOfSlice(line, |front|, |front| + |middle|, i - |front|, i - |front| + n);
    assert OccursAt(needle, middle, i - |front|);
  }

  lemma EndsAt(needle: string, line: string, i: int)
    requires needle != "" && OccursAt(needle, line, i)
    ensures line[i] == needle[0] && line[i + |needle| - 1] == needle[|needle| - 1]
  {
    var found := line[i..i + |needle|];
    assert found[0] == line[i] && found[|needle| - 1] == line[i + |needle| - 1];
  }

  lemma BeforeBack(line: string, front: string, middle: string, back: string, k: nat)
    requires line == front + (middle + back) && AllWhitespace(back) && k < |line| && !IsWhitespace(line[k])
    ensures k < |front| + |middle|
  {
    hide IsWhitespace;
    var n := |front| + |middle|;
    forall j | n <= j < |line| ensures IsWhitespace(line[j]) { assert line[j] == back[j - n]; }
  }

  lemma BehindSpace(line: string, k: nat, i: int)
    requires k <= |line| && AllWhitespace(line[..k]) && 0 <= i < |line| && !IsWhitespace(line[i])
    ensures i >= k
  {
    hide IsWhitespace;
    forall j | 0 <= j < k ensures IsWhitespace(line[j]) { assert line[..k][j] == line[j]; }
  }

  /** Behind white space alone a line starts with that text. */
  ghost predicate Opens(line: string, needle: string) {
    exists k {:trigger line[k..]} :: 0 <= k <= |line| && AllWhitespace(line[..k]) && Starts(line[k..], needle)
  }

  /** A line begins a key when it starts so, white space aside, and names a private key. */
  lemma BeginIs(line: string)
    ensures IsBegin(line) <==> Opens(line, "-----BEGIN") && Occurs("PRIVATE KEY", line)
  {
    hide Trim;
    OccursInTrimmed("PRIVATE KEY", line);
    StartsTrimmed(line, "-----BEGIN");
  }

  lemma StartsTrimmed(line: string, needle: string)
    requires needle != "" && !IsWhitespace(needle[0]) && !IsWhitespace(needle[|needle| - 1])
    ensures Starts(Trim(line), needle) <==> Opens(line, needle)
  {
    hide IsWhitespace, Trim;
    var front, back := TrimTakesOff(line);
    var trimmed, n := Trim(line), |needle|;
    assert line[..|front|] == front && line[|front|..] == trimmed + back;
    if Starts(trimmed, needle) {
      assert (trimmed + back)[..n] == trimmed[..n];
      assert Starts(line[|front|..], needle);
    }
    if k :| 0 <= k <= |line| && AllWhitespace(line[..k]) && Starts(line[k..], needle) {
      var found := line[k..][..n];
      assert line[k] == found[0] == needle[0] && line[k + n - 1] == found[n - 1] == needle[n - 1];
      BehindSpace(line, |front|, k);
      BeforeBack(line, front, trimmed, back, k + n - 1);
      assert line[|front|] == trimmed[0];
      BehindSpace(line, k, |front|);
      assert trimmed[..n] == line[k..][..n];
    }
  }

  /** A line ends one when it says so anywhere. */
  lemma EndIs(line: string)
    ensures IsEnd(line) <==> Occurs("-----END", line)
  {
    hide Trim;
    OccursInTrimmed("-----END", line);
  }

  // ----- Blocks -----

  /** A line that stays, or a block that is withheld, terminated or not. */
  datatype Block = Kept(line: string) | Withheld(lines: seq<string>)

  /** Lines of one block: it begins with a BEGIN line and ends at the first END line behind it. */
  predicate IsBlock(b: Block) {
    match b
    case Kept(line) => !IsBegin(line)
    case Withheld(lines) =>
      && lines != [] && IsBegin(lines[0])
      && forall i :: 0 < i < |lines| - 1 ==> !IsEnd(lines[i])
  }

  predicate IsTerminated(b: Block) {
    b.Withheld? && |b.lines| > 1 && IsEnd(b.lines[|b.lines| - 1])
  }

  /** Only the last block of a text may lack its END line. */
  predicate AreBlocks(bs: seq<Block>) {
    bs != [] ==>
      && IsBlock(bs[0])
      && (|bs| > 1 ==> bs[0].Kept? || IsTerminated(bs[0]))
      && AreBlocks(bs[1..])
  }

  function LinesOf(b: Block): seq<string> {
    match b
    case Kept(line) => [line]
    case Withheld(lines) => lines
  }

  function AllLines(bs: seq<Block>): seq<string> {
    if bs == [] then [] else LinesOf(bs[0]) + AllLines(bs[1..])
  }

  function Shown(b: Block): string {
    match b
    case Kept(line) => line
    case Withheld(_) => MarkerLine()
  }

  function ShownLines(bs: seq<Block>): seq<string> {
    if bs == [] then [] else [Shown(bs[0])] + ShownLines(bs[1..])
  }

  function WithheldCount(bs: seq<Block>): nat {
    if bs == [] then 0 else (if bs[0].Withheld? then 1 else 0) + WithheldCount(bs[1..])
  }

  /** The blocks of lines that go on inside the lines of an open block, if there are any. */
  function Blocks(open: seq<string>, lines: seq<string>): seq<Block>
    decreases |lines|
  {
    if lines == [] then (if open == [] then [] else [Withheld(open)])
    else if open == [] then
      if IsBegin(lines[0]) then Blocks([lines[0]], lines[1..])
      else [Kept(lines[0])] + Blocks([], lines[1..])
    else if IsEnd(lines[0]) then [Withheld(open + [lines[0]])] + Blocks([], lines[1..])
    else Blocks(open + [lines[0]], lines[1..])
  }

  /** The lines of a block still open. */
  ghost predicate IsOpen(lines: seq<string>) {
    lines != [] ==> IsBegin(lines[0]) && forall i :: 0 < i < |lines| ==> !IsEnd(lines[i])
  }

  lemma AreBlocksCons(b: Block, bs: seq<Block>)
    requires IsBlock(b) && (b.Kept? || IsTerminated(b)) && AreBlocks(bs)
    ensures AreBlocks([b] + bs) && AllLines([b] + bs) == LinesOf(b) + AllLines(bs)
  {
    hide IsBlock, IsTerminated;
    assert ([b] + bs)[1..] == bs;
  }

  lemma CloseBlock(open: seq<string>, line: string)
    requires open != [] && IsOpen(open) && IsEnd(line)
    ensures IsBlock(Withheld(open + [line])) && IsTerminated(Withheld(open + [line]))
  {
    hide IsBegin, IsEnd;
  }

  /** The blocks are blocks; they lose no line and keep the order. */
  lemma {:induction false} BlocksAre(open: seq<string>, lines: seq<string>)
    requires IsOpen(open)
    ensures AreBlocks(Blocks(open, lines)) && AllLines(Blocks(open, lines)) == open + lines
    decreases |lines|
  {
    hide IsBegin, IsEnd, AllLines, AreBlocks;
    if lines == [] {
      OpenIsBlock(open);
    } else {
      var line, rest := lines[0], lines[1..];
      assert lines == [line] + rest;
      assert open + [line] + rest == open + lines;
      if open == [] {
        if IsBegin(line) {
          BlocksAre([line], rest);
        } else {
          BlocksAre([], rest);
          AreBlocksCons(Kept(line), Blocks([], rest));
        }
      } else if IsEnd(line) {
        BlocksAre([], rest);
        CloseBlock(open, line);
        AreBlocksCons(Withheld(open + [line]), Blocks([], rest));
      } else {
        BlocksAre(open + [line], rest);
      }
    }
  }

  lemma OpenIsBlock(open: seq<string>)
    requires IsOpen(open)
    ensures var bs := if open == [] then [] else [Withheld(open)];
            AreBlocks(bs) && AllLines(bs) == open
  {
    hide IsBegin, IsEnd;
    if open != [] {
      assert [Withheld(open)][1..] == [];
      assert open + [] == open;
    }
  }

  function AllKept(lines: seq<string>): seq<Block> {
    if lines == [] then [] else [Kept(lines[0])] + AllKept(lines[1..])
  }

  /** In front of the first key lines stay; the key goes up to its first END line; behind it all starts anew. */
  lemma {:induction false} FirstKeyIsWithheld(front: seq<string>, key: seq<string>, behind: seq<string>)
    requires forall i :: 0 <= i < |front| ==> !IsBegin(front[i])
    requires |key| > 1 && IsBegin(key[0]) && IsEnd(key[|key| - 1]) && IsOpen(key[..|key| - 1])
    ensures Blocks([], front + (key + behind)) == AllKept(front) + ([Withheld(key)] + Blocks([], behind))
    decreases |front|
  {
    hide IsBegin, IsEnd;
    if front == [] {
      assert front + (key + behind) == key + behind && (key + behind)[1..] == key[1..] + behind;
      InsideKey([key[0]], key[1..], behind);
      assert [key[0]] + key[1..] == key;
    } else {
      assert (front + (key + behind))[1..] == front[1..] + (key + behind);
      FirstKeyIsWithheld(front[1..], key, behind);
    }
  }

  lemma {:induction false} InsideKey(open: seq<string>, rest: seq<string>, behind: seq<string>)
    requires open != [] && rest != [] && IsEnd(rest[|rest| - 1])
    requires forall i :: 0 <= i < |rest| - 1 ==> !IsEnd(rest[i])
    ensures Blocks(open, rest + behind) == [Withheld(open + rest)] + Blocks([], behind)
    decreases |rest|
  {
    hide IsBegin, IsEnd;
    assert (rest + behind)[1..] == rest[1..] + behind;
    if |rest| == 1 {
      assert rest[1..] + behind == behind && open + [rest[0]] == open + rest;
    } else {
      InsideKey(open + [rest[0]], rest[1..], behind);
      assert open + [rest[0]] + rest[1..] == open + rest;
    }
  }

  // ----- The pass -----

  function Redacted(text: string): string {
    Concat(ShownLines(Blocks([], SplitInclusive(text))))
  }

  function Count(text: string): nat {
    WithheldCount(Blocks([], SplitInclusive(text)))
  }

  lemma ShownCons(b: Block, bs: seq<Block>)
    ensures Concat(ShownLines([b] + bs)) == Shown(b) + Concat(ShownLines(bs))
    ensures WithheldCount([b] + bs) == (if b.Withheld? then 1 else 0) + WithheldCount(bs)
  {
    hide Shown;
    assert ([b] + bs)[1..] == bs;
    assert ([Shown(b)] + ShownLines(bs))[1..] == ShownLines(bs);
  }

  /** One line of the loop: what is shown for it, whether a block is open behind it, and the count. */
  lemma BlocksStep(open: seq<string>, lines: seq<string>, i: nat)
    requires i < |lines|
    ensures var line, rest := lines[i], lines[i + 1..];
            var all := Blocks(open, lines[i..]);
            if open == [] && !IsBegin(line) then
              Concat(ShownLines(all)) == line + Concat(ShownLines(Blocks([], rest)))
              && WithheldCount(all) == WithheldCount(Blocks([], rest))
            else if open != [] && IsEnd(line) then
              Concat(ShownLines(all)) == MarkerLine() + Concat(ShownLines(Blocks([], rest)))
              && WithheldCount(all) == 1 + WithheldCount(Blocks([], rest))
            else all == Blocks(open + [line], rest)
  {
    hide IsBegin, IsEnd, Shown, ShownLines, WithheldCount, MarkerLine;
    assert lines[i..][1..] == lines[i + 1..];
    assert [] + [lines[i]] == [lines[i]];
    ShownCons(Kept(lines[i]), Blocks([], lines[i + 1..]));
    ShownCons(Withheld(open + [lines[i]]), Blocks([], lines[i + 1..]));
    ShownOf(lines[i], open + [lines[i]]);
  }

  lemma ShownOf(line: string, lines: seq<string>)
    ensures Shown(Kept(line)) == line && Shown(Withheld(lines)) == MarkerLine()
  {
  }

  lemma ShownEnd(open: seq<string>)
    ensures Concat(ShownLines(Blocks(open, []))) == if open == [] then "" else MarkerLine()
    ensures WithheldCount(Blocks(open, [])) == if open == [] then 0 else 1
  {
    hide MarkerLine;
    if open != [] {
      ShownCons(Withheld(open), []);
      assert [Withheld(open)] + [] == [Withheld(open)];
      assert MarkerLine() + "" == MarkerLine();
    }
  }

  method RedactPrivateKeys(text: string) returns (out: string, replacements: nat)
    ensures out == Redacted(text) && replacements == Count(text)
  {
    hide IsBegin, IsEnd, Blocks, MarkerLine, WithheldCount, ShownLines, Concat, SplitInclusive;
    var lines := SplitInclusive(text);
    out, replacements := "", 0;
    var skipping, i := false, 0;
    ghost var open: seq<string>, front := [], "";
    assert lines[0..] == lines;
    while i < |lines|
      invariant i <= |lines|
      invariant skipping <==> open != []
      invariant out == front + if skipping then MarkerLine() else ""
      invariant Redacted(text) == front + Concat(ShownLines(Blocks(open, lines[i..])))
      invariant Count(text) == replacements + WithheldCount(Blocks(open, lines[i..]))
    {
      var line := lines[i];
      BlocksStep(open, lines, i);
      Assoc(front, if skipping then MarkerLine() else line, Concat(ShownLines(Blocks([], lines[i + 1..]))));
      if !skipping && IsBegin(line) {
        skipping, out, open := true, out + MarkerLine(), open + [line];
      } else if skipping {
        if IsEnd(line) {
          skipping, replacements, front, open := false, replacements + 1, out, [];
        } else {
          open := open + [line];
        }
      } else {
        out := out + line;
        front := out;
      }
      i := i + 1;
    }
    assert lines[i..] == [];
    ShownEnd(open);
    if skipping {
      replacements := replacements + 1;
    }
  }

  // ----- What the pass writes -----

  lemma {:induction false} KeptAreShown(lines: seq<string>, more: seq<Block>)
    ensures Concat(ShownLines(AllKept(lines) + more)) == Concat(lines) + Concat(ShownLines(more))
    ensures WithheldCount(AllKept(lines) + more) == WithheldCount(more)
  {
    hide Shown, Concat, ShownLines, WithheldCount;
    if lines == [] {
      assert AllKept(lines) + more == more;
      ConcatOfNone(more);
    } else {
      var rest := AllKept(lines[1..]) + more;
      KeptAreShown(lines[1..], more);
      assert AllKept(lines) + more == [Kept(lines[0])] + rest;
      ShownCons(Kept(lines[0]), rest);
      ShownOf(lines[0], []);
      ConcatStep(lines);
      Assoc(lines[0], Concat(lines[1..]), Concat(ShownLines(more)));
    }
  }

  lemma ConcatOfNone(more: seq<Block>)
    ensures Concat([]) + Concat(ShownLines(more)) == Concat(ShownLines(more))
  {
  }

  lemma ConcatStep(lines: seq<string>)
    requires lines != []
    ensures Concat(lines) == lines[0] + Concat(lines[1..])
  {
  }

  /** Lines of text, a key over some lines, and more lines: the key becomes one marker line, and counts one. */
  lemma KeyIsShown(front: seq<string>, key: seq<string>, behind: seq<string>)
    requires forall i :: 0 <= i < |front| ==> !IsBegin(front[i])
    requires |key| > 1 && IsBegin(key[0]) && IsEnd(key[|key| - 1]) && IsOpen(key[..|key| - 1])
    ensures
      var all, rest := Blocks([], front + (key + behind)), Blocks([], behind);
      && Concat(ShownLines(all)) == Concat(front) + ("[redacted:pkey]\n" + Concat(ShownLines(rest)))
      && WithheldCount(all) == 1 + WithheldCount(rest)
  {
    hide IsBegin, IsEnd, Blocks, Concat, ShownLines, WithheldCount, AllKept, IsOpen;
    var rest := Blocks([], behind);
    FirstKeyIsWithheld(front, key, behind);
    KeptAreShown(front, [Withheld(key)] + rest);
    ShownCons(Withheld(key), rest);
    Redact.MarkersAre();
    assert Shown(Withheld(key)) == "[redacted:pkey]\n";
  }

  /** Without the beginning of a key the text stays; a key that never ends goes to the end of the text. */
  lemma RestIsShown(front: seq<string>, key: seq<string>)
    requires forall i :: 0 <= i < |front| ==> !IsBegin(front[i])
    requires IsOpen(key)
    ensures
      var all := Blocks([], front + key);
      && Concat(ShownLines(all)) == Concat(front) + (if key == [] then "" else "[redacted:pkey]\n")
      && WithheldCount(all) == if key == [] then 0 else 1
  {
    hide IsBegin, IsEnd, Concat, ShownLines, WithheldCount;
    var open := if key == [] then [] else [Withheld(key)];
    OpenAtEnd(front, key);
    KeptAreShown(front, open);
    ShownEnd(key);
    Redact.MarkersAre();
    assert Blocks(key, []) == open;
  }

  lemma {:induction false} OpenAtEnd(front: seq<string>, key: seq<string>)
    requires (forall i :: 0 <= i < |front| ==> !IsBegin(front[i])) && IsOpen(key)
    ensures Blocks([], front + key) == AllKept(front) + if key == [] then [] else [Withheld(key)]
    decreases |front|
  {
    hide IsBegin, IsEnd;
    if front != [] {
      assert (front + key)[1..] == front[1..] + key;
      OpenAtEnd(front[1..], key);
    } else {
      assert front + key == key;
      if key != [] {
        NeverEnds([key[0]], key[1..]);
        assert [key[0]] + key[1..] == key;
      }
    }
  }

  lemma {:induction false} NeverEnds(open: seq<string>, rest: seq<string>)
    requires open != [] && forall i :: 0 <= i < |rest| ==> !IsEnd(rest[i])
    ensures Blocks(open, rest) == [Withheld(open + rest)]
    decreases |rest|
  {
    hide IsBegin, IsEnd;
    if rest == [] {
      assert open + rest == open;
    } else {
      NeverEnds(open + [rest[0]], rest[1..]);
      assert open + [rest[0]] + rest[1..] == open + rest;
    }
  }

  // ----- The pass finds nothing in its own output -----

  lemma MarkerLineIsKept()
    ensures !IsBegin(MarkerLine())
    ensures AreLines([MarkerLine()]) && MarkerLine()[|MarkerLine()| - 1] == '\n'
  {
    var marker := Redact.Marker(Redact.PrivateKey);
    assert marker == "[redacted:pkey]";
    assert MarkerLine()[..|marker|] == marker;
    assert TrimEnd(marker) == marker;
    assert TrimEnd(MarkerLine()) == TrimEnd(marker);
    assert Trim(MarkerLine()) == marker;
    StartsWithFirst(marker, "-----BEGIN");
  }

  lemma {:induction false} AreLinesBehind(front: seq<string>, lines: seq<string>)
    requires AreLines(front + lines)
    ensures AreLines(lines)
  {
    if front == [] {
      assert front + lines == lines;
    } else {
      assert (front + lines)[1..] == front[1..] + lines;
      AreLinesBehind(front[1..], lines);
    }
  }

  lemma AreLinesCons(line: string, lines: seq<string>)
    requires AreLines([line]) && AreLines(lines)
    requires lines != [] ==> line[|line| - 1] == '\n'
    ensures AreLines([line] + lines)
  {
    assert ([line] + lines)[1..] == lines;
  }

  lemma {:induction false} ShownAreLines(bs: seq<Block>)
    requires AreBlocks(bs) && AreLines(AllLines(bs))
    ensures AreLines(ShownLines(bs))
    ensures forall l :: l in ShownLines(bs) ==> !IsBegin(l)
  {
    hide IsBegin, IsEnd, AreLines, MarkerLine;
    if bs != [] {
      MarkerLineIsKept();
      AreLinesBehind(LinesOf(bs[0]), AllLines(bs[1..]));
      ShownAreLines(bs[1..]);
      FirstLineEnds(LinesOf(bs[0]), AllLines(bs[1..]));
      if bs[1..] != [] { AllLinesNonEmpty(bs[1..]); }
      AreLinesCons(Shown(bs[0]), ShownLines(bs[1..]));
    }
  }

  lemma AllLinesNonEmpty(bs: seq<Block>)
    requires bs != [] && AreBlocks(bs)
    ensures AllLines(bs) != []
  {
    hide IsBegin, IsEnd;
    assert LinesOf(bs[0]) != [];
  }

  lemma FirstLineEnds(front: seq<string>, lines: seq<string>)
    requires front != [] && AreLines(front + lines)
    ensures front[0] != [] && AreLines([front[0]])
    ensures |front| == 1 && lines != [] ==> front[0][|front[0]| - 1] == '\n'
  {
    assert [front[0]][1..] == [];
  }

  lemma {:induction false} NothingWithheld(lines: seq<string>)
    requires forall l :: l in lines ==> !IsBegin(l)
    ensures ShownLines(Blocks([], lines)) == lines && WithheldCount(Blocks([], lines)) == 0
  {
    hide IsBegin, IsEnd;
    if lines != [] {
      assert lines[0] in lines && forall l :: l in lines[1..] ==> l in lines;
      NothingWithheld(lines[1..]);
      var bs := Blocks([], lines[1..]);
      assert ([Kept(lines[0])] + bs)[1..] == bs;
      assert lines == [lines[0]] + lines[1..];
    }
  }

  /** A second pass changes nothing and counts nothing, even behind an unterminated block. */
  lemma RedactTwice(text: string)
    ensures Redacted(Redacted(text)) == Redacted(text) && Count(Redacted(text)) == 0
  {
    hide Blocks, ShownLines, WithheldCount, IsBegin, AreLines;
    var bs := Blocks([], SplitInclusive(text));
    SplitInclusiveIsLines(text);
    BlocksAre([], SplitInclusive(text));
    assert [] + SplitInclusive(text) == SplitInclusive(text);
    ShownAreLines(bs);
    SplitInclusiveOfConcat(ShownLines(bs));
    NothingWithheld(ShownLines(bs));
  }
}
