/**
 Arguments substituted into a prompt template (crates/rupi-compat/src/substitute.rs).

 The scanner is stated as the code runs it.  Beside it stands the grammar: a template is a
 sequence of pieces, every text is the print of exactly one well-formed sequence, and
 substituting is evaluating the pieces one by one, so nothing is scanned twice.
 */
module Substitute {
  import opened Text

  const USIZE_MAX: nat := 0xffff_ffff_ffff_ffff
  const WORD := "ARGUMENTS"

  // ----- The scanner -----

  function Join(args: seq<string>): string {
    if args == [] then "" else if |args| == 1 then args[0] else args[0] + " " + Join(args[1..])
  }

  /** Position `index`, 1-indexed; the subtraction stops at zero. */
  function Positional(args: seq<string>, index: nat): string {
    var at := if index == 0 then 0 else index - 1;
    if at < |args| then args[at] else ""
  }

  function ParseUsize(text: string): (r: Option<nat>)
    ensures r.Some? ==> text != [] && ':' !in text && '}' !in text && text[0] != '-'
  {
    match ParseInteger(text, 0, USIZE_MAX)
    case None => None
    case Some(n) => ParsedAreDigits(text); Some(n)
  }

  lemma ParsedAreDigits(text: string)
    requires ParseInteger(text, 0, USIZE_MAX).Some?
    ensures text != [] && ':' !in text && '}' !in text && text[0] != '-'
    ensures ParseInteger(text, 0, USIZE_MAX).value >= 0
  {
    assert text == [text[0]] + text[1..];
  }

  function Min(a: nat, b: nat): nat {
    if a < b then a else b
  }

  /** `N`, or `N:L`, applied to the arguments. */
  function SliceFrom(args: seq<string>, spec: string): Option<string> {
    var (first, length) := match Cut(spec, ':')
                           case None => (spec, None)
                           case Some((a, b)) => (a, Some(b));
    match ParseUsize(first)
    case None => None
    case Some(start) =>
      if start == 0 then None
      else
        var from := args[Min(start - 1, |args|)..];
        match length
        case None => Some(Join(from))
        case Some(text) =>
          match ParseUsize(text)
          case None => None
          case Some(n) => Some(Join(from[..Min(n, |from|)]))
  }

  function Verbatim(inner: string): string {
    "${" + inner + "}"
  }

  predicate IsDigits(text: string) {
    text != [] && AllDigits(text)
  }

  /** A target that names all arguments. */
  predicate IsAll(target: string) {
    target == "@" || target == WORD
  }

  /** The inside of `${...}`. */
  function Braced(inner: string, args: seq<string>): string {
    var (target, spec) := match Cut(inner, ':')
                          case None => (inner, None)
                          case Some((a, b)) => (a, Some(b));
    var all := IsAll(target);
    if !all && !IsDigits(target) then Verbatim(inner)
    else
      var index := if all then 0 else match ParseUsize(target) case None => 0 case Some(n) => n;
      var value := if all then Join(args) else Positional(args, index);
      match spec
      case None => value
      case Some(text) =>
        if text != [] && text[0] == '-' then (if value == [] then text[1..] else value)
        else if all then
          match SliceFrom(args, text)
          case Some(slice) => slice
          case None => Verbatim(inner)
        else Verbatim(inner)
  }

  /** The longest run of digits in front. */
  function DigitRun(text: string): (run: string)
    ensures |run| <= |text| && text[..|run|] == run && AllDigits(run)
    ensures |run| < |text| ==> !IsDigit(text[|run|])
  {
    if text == [] || !IsDigit(text[0]) then "" else [text[0]] + DigitRun(text[1..])
  }

  predicate IsWordChar(c: char) {
    IsDigit(c) || 'a' <= c <= 'z' || 'A' <= c <= 'Z' || c == '_'
  }

  predicate StartsWord(text: string) {
    text != [] && IsWordChar(text[0])
  }

  /** The placeholder behind a `$`: what it becomes, and how much of `after` it takes. */
  function ExpandAt(after: string, args: seq<string>): (r: Option<(string, nat)>)
    ensures r.Some? ==> r.value.1 <= |after|
  {
    if after == [] then None
    else if after[0] == '{' then
      match Cut(after[1..], '}')
      case None => None
      case Some((inner, _)) => Some((Braced(inner, args), |inner| + 2))
    else if after[0] == '@' then Some((Join(args), 1))
    else if IsDigit(after[0]) then
      var run := DigitRun(after);
      match ParseUsize(run)
      case None => None
      case Some(index) => Some((Positional(args, index), |run|))
    else if WORD <= after && !StartsWord(after[|WORD|..]) then Some((Join(args), |WORD|))
    else None
  }

  /** One pass over the text. */
  function Substitute(body: string, args: seq<string>): string {
    if body == [] then ""
    else if body[0] != '$' then [body[0]] + Substitute(body[1..], args)
    else
      match ExpandAt(body[1..], args)
      case None => [body[0]] + Substitute(body[1..], args)
      case Some((replacement, taken)) => replacement + Substitute(body[1 + taken..], args)
  }

  lemma NothingToSubstitute(args: seq<string>)
    ensures Substitute("", args) == ""
  {
  }

  lemma SubstituteStep(body: string, i: nat, args: seq<string>)
    requires i < |body|
    ensures Substitute(body[i..], args) ==
      var expanded := if body[i] == '$' then ExpandAt(body[i + 1..], args) else None;
      match expanded
      case None => [body[i]] + Substitute(body[i + 1..], args)
      case Some((replacement, taken)) => replacement + Substitute(body[i + 1 + taken..], args)
  {
    hide ExpandAt;
    assert body[i..][1..] == body[i + 1..];
    if body[i] == '$' && ExpandAt(body[i + 1..], args).Some? {
      var taken := ExpandAt(body[i + 1..], args).value.1;
      assert body[i..][1 + taken..] == body[i + 1 + taken..];
    }
  }

  /** The scanning loop of the code: an index that only moves forward. */
  method SubstituteLoop(body: string, args: seq<string>) returns (out: string)
    ensures out == Substitute(body, args)
  {
    hide ExpandAt, Substitute;
    out := "";
    var i: nat := 0;
    assert body[0..] == body;
    while i < |body|
      invariant i <= |body|
      invariant Substitute(body, args) == out + Substitute(body[i..], args)
    {
      SubstituteStep(body, i, args);
      var text, next := [body[i]], i + 1;
      if body[i] == '$' {
        match ExpandAt(body[i + 1..], args) {
          case Some((replacement, taken)) => text, next := replacement, i + 1 + taken;
          case None =>
        }
      }
      Assoc(out, text, Substitute(body[next..], args));
      out, i := out + text, next;
    }
    NothingToSubstitute(args);
    assert body[i..] == "" && out + "" == out;
  }

  // ----- Arguments joined -----

  /** Where argument `k` begins when all are joined. */
  function Offset(args: seq<string>, k: nat): nat
    requires k <= |args|
  {
    if k == 0 then 0 else |args[0]| + 1 + Offset(args[1..], k - 1)
  }

  /** Joined, each argument stands at its place, a space in front of all but the first, and nothing else is there. */
  lemma {:induction false} JoinIsLayout(args: seq<string>, k: nat)
    requires k < |args|
    ensures |Join(args)| == Offset(args, |args|) - 1
    ensures Offset(args, k) + |args[k]| <= |Join(args)|
    ensures Join(args)[Offset(args, k)..Offset(args, k) + |args[k]|] == args[k]
    ensures k > 0 ==> Offset(args, k) > 0 && Join(args)[Offset(args, k) - 1] == ' '
    decreases |args|
  {
    if |args| > 1 {
      var rest := args[1..];
      var n := |args[0]| + 1;
      JoinIsLayout(rest, if k == 0 then 0 else k - 1);
      assert Join(args)[n..] == Join(rest);
      if k > 0 {
        var at := Offset(rest, k - 1);
        SliceBehind(Join(args), n, at, at + |args[k]|);
        assert args[k] == rest[k - 1];
        if k > 1 { assert Join(args)[n..][at - 1] == Join(args)[n + at - 1]; }
      }
    }
  }

  lemma SliceBehind(text: string, n: nat, i: nat, j: nat)
    requires n <= |text| && i <= j <= |text| - n
    ensures text[n..][i..j] == text[n + i..n + j]
  {
  }

  /** The characters that go on with a word, by number: digits, capitals, the underscore, small letters. */
  lemma WordCharsAre(c: char)
    ensures
      var n := c as int;
      IsWordChar(c) <==> 48 <= n <= 57 || 65 <= n <= 90 || n == 95 || 97 <= n <= 122
  {
  }

  // ----- The grammar -----

  datatype Target = AllTarget(spelledOut: bool) | ArgTarget(digits: string)

  datatype Piece =
    | Plain(c: char)
    | Lone
    | Position(digits: string)
    | AtSign
    | Word
    | Whole(target: Target)
    | Default(target: Target, default: string)
    | Slice(spelledOut: bool, start: string)
    | SliceLength(spelledOut: bool, start: string, length: string)
    | Unread(inner: string)

  function TargetText(t: Target): string {
    match t
    case AllTarget(spelledOut) => if spelledOut then "ARGUMENTS" else "@"
    case ArgTarget(digits) => digits
  }

  predicate IsTarget(t: Target) {
    t.ArgTarget? ==> IsDigits(t.digits)
  }

  predicate IsBraced(p: Piece) {
    p.Whole? || p.Default? || p.Slice? || p.SliceLength? || p.Unread?
  }

  function InnerText(p: Piece): string
    requires IsBraced(p)
  {
    match p
    case Whole(t) => TargetText(t)
    case Default(t, default) => TargetText(t) + [':'] + ("-" + default)
    case Slice(spelledOut, start) => TargetText(AllTarget(spelledOut)) + [':'] + start
    case SliceLength(spelledOut, start, length) =>
      TargetText(AllTarget(spelledOut)) + [':'] + (start + [':'] + length)
    case Unread(inner) => inner
  }

  function Print(p: Piece): (text: string)
    ensures text != []
  {
    match p
    case Plain(c) => [c]
    case Lone => "$"
    case Position(digits) => "$" + digits
    case AtSign => "$@"
    case Word => "$" + "ARGUMENTS"
    case _ => "${" + InnerText(p) + "}"
  }

  function PrintAll(ps: seq<Piece>): string {
    if ps == [] then "" else Print(ps[0]) + PrintAll(ps[1..])
  }

  predicate IsPositive(text: string) {
    ParseUsize(text).Some? && ParseUsize(text).value > 0
  }

  /** The inside of braces as a piece. */
  function ReadInner(inner: string): (p: Piece)
    ensures IsBraced(p)
  {
    match Cut(inner, ':')
    case None =>
      (match ReadTarget(inner)
       case None => Unread(inner)
       case Some(t) => Whole(t))
    case Some((text, spec)) =>
      match ReadTarget(text)
      case None => Unread(inner)
      case Some(t) =>
        if spec != [] && spec[0] == '-' then Default(t, spec[1..])
        else if t.ArgTarget? then Unread(inner)
        else ReadSlice(inner, t.spelledOut, spec)
  }

  function ReadTarget(text: string): Option<Target> {
    if text == "@" then Some(AllTarget(false))
    else if text == WORD then Some(AllTarget(true))
    else if IsDigits(text) then Some(ArgTarget(text))
    else None
  }

  function ReadSlice(inner: string, spelledOut: bool, spec: string): (p: Piece)
    ensures IsBraced(p)
  {
    match Cut(spec, ':')
    case None => if IsPositive(spec) then Slice(spelledOut, spec) else Unread(inner)
    case Some((start, length)) =>
      if IsPositive(start) && ParseUsize(length).Some? then SliceLength(spelledOut, start, length)
      else Unread(inner)
  }

  predicate IsPiece(p: Piece) {
    match p
    case Plain(c) => c != '$'
    case Position(digits) => IsDigits(digits) && ParseUsize(digits).Some?
    case Whole(t) => IsTarget(t)
    case Default(t, default) => IsTarget(t) && '}' !in default
    case Slice(_, start) => IsPositive(start)
    case SliceLength(_, start, length) => IsPositive(start) && ParseUsize(length).Some?
    case Unread(inner) => '}' !in inner && ReadInner(inner) == p
    case _ => true
  }

  /** Whether a `$` in front of this text starts a placeholder. */
  predicate StartsPlaceholder(after: string) {
    after != [] &&
    ((after[0] == '{' && '}' in after[1..])
     || after[0] == '@'
     || (IsDigit(after[0]) && ParseUsize(DigitRun(after)).Some?)
     || (WORD <= after && !StartsWord(after[|WORD|..])))
  }

  /** Whether a piece keeps its reading with this text behind it. */
  predicate Stands(p: Piece, behind: string) {
    match p
    case Lone => !StartsPlaceholder(behind)
    case Position(_) => behind == [] || !IsDigit(behind[0])
    case Word => !StartsWord(behind)
    case _ => true
  }

  predicate IsTemplate(ps: seq<Piece>) {
    ps != [] ==> IsPiece(ps[0]) && Stands(ps[0], PrintAll(ps[1..])) && IsTemplate(ps[1..])
  }

  // ----- What a piece means -----

  /** The argument a position names: position 0, and one too large to read, name the first. */
  function Selected(args: seq<string>, digits: string): string
    requires AllDigits(digits)
  {
    var n := DigitsValue(digits);
    var position := if n == 0 || n > USIZE_MAX then 1 else n;
    if position <= |args| then args[position - 1] else ""
  }

  function Value(t: Target, args: seq<string>): string
    requires IsTarget(t)
  {
    match t
    case AllTarget(_) => Join(args)
    case ArgTarget(digits) => Selected(args, digits)
  }

  /** The arguments at positions `from` up to, not including, `until`, counted from `here`. */
  function Between(args: seq<string>, here: nat, from: nat, until: nat): seq<string> {
    if args == [] then []
    else (if from <= here < until then [args[0]] else []) + Between(args[1..], here + 1, from, until)
  }

  function Eval(p: Piece, args: seq<string>): string
    requires IsPiece(p)
  {
    match p
    case Plain(c) => [c]
    case Position(digits) => Selected(args, digits)
    case AtSign => Join(args)
    case Word => Join(args)
    case Whole(t) => Value(t, args)
    case Default(t, default) => if Value(t, args) != [] then Value(t, args) else default
    case Slice(_, start) =>
      var from := ParseUsize(start).value;
      Join(Between(args, 1, from, from + |args|))
    case SliceLength(_, start, length) =>
      var from := ParseUsize(start).value;
      Join(Between(args, 1, from, from + ParseUsize(length).value))
    case Lone => Print(p)
    case Unread(_) => Print(p)
  }

  function EvalAll(ps: seq<Piece>, args: seq<string>): string
    requires forall p :: p in ps ==> IsPiece(p)
  {
    if ps == [] then "" else Eval(ps[0], args) + EvalAll(ps[1..], args)
  }

  // ----- Every text is the print of one template -----

  /** The first piece of a text. */
  function FirstPiece(body: string): Piece
    requires body != []
  {
    if body[0] != '$' then Plain(body[0])
    else
      var after := body[1..];
      if !StartsPlaceholder(after) then Lone
      else if after[0] == '{' then ReadInner(Cut(after[1..], '}').value.0)
      else if after[0] == '@' then AtSign
      else if IsDigit(after[0]) then Position(DigitRun(after))
      else Word
  }

  lemma ReadInnerPrints(inner: string)
    requires '}' !in inner
    ensures IsPiece(ReadInner(inner)) && InnerText(ReadInner(inner)) == inner
  {
    hide ParseUsize, AllDigits;
    match Cut(inner, ':')
    case None =>
    case Some((text, spec)) =>
      assert '}' !in spec;
      if spec != [] && spec[0] == '-' {
        assert spec == "-" + spec[1..];
        assert '}' !in spec[1..];
      }
  }

  lemma ReadDefault(t: Target, default: string)
    requires IsTarget(t) && '}' !in default
    ensures var inner := InnerText(Default(t, default)); '}' !in inner && ReadInner(inner) == Default(t, default)
  {
    hide ReadTarget, TargetText, IsTarget, ReadSlice;
    TargetReads(t);
    CutAt(TargetText(t), ':', "-" + default);
    assert ("-" + default)[1..] == default;
  }

  /** Behind `@` or the word, what is no default is read as a slice. */
  lemma ReadBehindAll(spelledOut: bool, spec: string)
    requires spec == [] || spec[0] != '-'
    ensures
      var inner := TargetText(AllTarget(spelledOut)) + [':'] + spec;
      ReadInner(inner) == ReadSlice(inner, spelledOut, spec)
  {
    hide ReadTarget, TargetText, ReadSlice;
    TargetReads(AllTarget(spelledOut));
    CutAt(TargetText(AllTarget(spelledOut)), ':', spec);
  }

  lemma ReadStart(spelledOut: bool, start: string)
    requires IsPositive(start)
    ensures
      var inner := InnerText(Slice(spelledOut, start));
      '}' !in inner && ReadInner(inner) == Slice(spelledOut, start)
  {
    hide ParseUsize, ReadTarget, TargetText, ReadInner;
    TargetReads(AllTarget(spelledOut));
    ReadBehindAll(spelledOut, start);
  }

  lemma ReadStartAndLength(spelledOut: bool, start: string, length: string)
    requires IsPositive(start) && ParseUsize(length).Some?
    ensures
      var inner := InnerText(SliceLength(spelledOut, start, length));
      '}' !in inner && ReadInner(inner) == SliceLength(spelledOut, start, length)
  {
    hide ParseUsize, ReadTarget, TargetText, ReadInner;
    TargetReads(AllTarget(spelledOut));
    CutAt(start, ':', length);
    ReadBehindAll(spelledOut, start + [':'] + length);
  }

  /** The print of a braced piece reads back as the piece. */
  lemma ReadInnerOfPrint(p: Piece)
    requires IsPiece(p) && IsBraced(p)
    ensures '}' !in InnerText(p) && ReadInner(InnerText(p)) == p
  {
    hide ParseUsize, AllDigits, ReadSlice;
    match p
    case Whole(t) => TargetReads(t);
    case Default(t, default) => ReadDefault(t, default);
    case Slice(spelledOut, start) => ReadStart(spelledOut, start);
    case SliceLength(spelledOut, start, length) => ReadStartAndLength(spelledOut, start, length);
    case Unread(inner) =>
  }

  lemma TargetReads(t: Target)
    requires IsTarget(t)
    ensures ReadTarget(TargetText(t)) == Some(t) && ':' !in TargetText(t) && '}' !in TargetText(t)
  {
    if t.ArgTarget? {
      assert IsDigit(t.digits[0]);
      assert WORD[0] == 'A';
    }
  }

  /** Braces that read as nothing are those no other piece is spelled like. */
  lemma UnreadMeansNoSpelling(inner: string)
    requires '}' !in inner
    ensures ReadInner(inner).Unread? <==>
      forall p :: IsPiece(p) && IsBraced(p) && !p.Unread? ==> InnerText(p) != inner
  {
    ReadInnerPrints(inner);
    forall p | IsPiece(p) && IsBraced(p) && InnerText(p) == inner
      ensures p == ReadInner(inner)
    {
      ReadInnerOfPrint(p);
    }
  }

  lemma {:induction false} DigitRunOf(digits: string, behind: string)
    requires AllDigits(digits) && (behind == [] || !IsDigit(behind[0]))
    ensures DigitRun(digits + behind) == digits
  {
    if digits == [] {
      assert digits + behind == behind;
    } else {
      DigitRunOf(digits[1..], behind);
      assert (digits + behind)[1..] == digits[1..] + behind;
    }
  }

  /** A text as the print of a piece and what is behind it. */
  ghost predicate IsSplit(body: string, p: Piece) {
    |Print(p)| <= |body| && body[..|Print(p)|] == Print(p)
  }

  lemma BracesSplit(body: string)
    requires |body| >= 2 && body[0] == '$' && body[1] == '{' && '}' in body[2..]
    ensures var inner := Cut(body[2..], '}').value.0;
            '}' !in inner && IsPiece(ReadInner(inner)) && IsSplit(body, ReadInner(inner))
  {
    hide ReadInner, IsPiece, InnerText;
    var (inner, behind) := Cut(body[2..], '}').value;
    ReadInnerPrints(inner);
    assert body == "${" + inner + "}" + behind;
  }

  lemma DigitsSplit(body: string)
    requires |body| >= 2 && body[0] == '$'
    ensures var run := DigitRun(body[1..]);
            && IsSplit(body, Position(run))
            && Stands(Position(run), body[|run| + 1..])
  {
    var after := body[1..];
    var run := DigitRun(after);
    assert body == "$" + run + after[|run|..];
    assert body[|run| + 1..] == after[|run|..];
  }

  lemma WordSplit(body: string)
    requires |body| >= 2 && body[0] == '$' && WORD <= body[1..] && !StartsWord(body[1..][|WORD|..])
    ensures IsSplit(body, Word) && Stands(Word, body[|Print(Word)|..])
  {
    var after := body[1..];
    assert body == "$" + WORD + after[|WORD|..];
    assert body[|WORD| + 1..] == after[|WORD|..];
  }

  /** The first piece is well formed, stands where it is, and is spelled as the text begins. */
  lemma FirstPieceSplits(body: string)
    requires body != []
    ensures var p := FirstPiece(body);
            IsPiece(p) && IsSplit(body, p) && Stands(p, body[|Print(p)|..])
  {
    hide ReadInner, ParseUsize, InnerText, DigitRun, StartsWord;
    if body[0] == '$' && StartsPlaceholder(body[1..]) {
      assert body[1..][1..] == body[2..];
      if body[1] == '{' {
        BracesSplit(body);
      } else if IsDigit(body[1]) {
        DigitsSplit(body);
        assert DigitRun(body[1..]) != [];
      } else if body[1] != '@' {
        WordSplit(body);
      }
    }
  }

  lemma PositionOfPrint(digits: string, behind: string)
    requires IsPiece(Position(digits)) && Stands(Position(digits), behind)
    ensures FirstPiece(Print(Position(digits)) + behind) == Position(digits)
  {
    hide ParseUsize;
    var after := (Print(Position(digits)) + behind)[1..];
    assert after == digits + behind;
    assert IsDigit(after[0]);
    DigitRunOf(digits, behind);
  }

  lemma WordOfPrint(behind: string)
    requires Stands(Word, behind)
    ensures FirstPiece(Print(Word) + behind) == Word
  {
    hide ParseUsize, DigitRun, StartsWord;
    var after := (Print(Word) + behind)[1..];
    assert after == WORD + behind;
    assert WORD[0] == 'A' && after[|WORD|..] == behind;
  }

  lemma BracesOfPrint(p: Piece, behind: string)
    requires IsPiece(p) && IsBraced(p)
    ensures FirstPiece(Print(p) + behind) == p
  {
    hide ReadInner, InnerText, IsPiece;
    ReadInnerOfPrint(p);
    var after := (Print(p) + behind)[1..];
    assert after[1..] == InnerText(p) + ['}'] + behind;
    CutAt(InnerText(p), '}', behind);
  }

  /** With a text behind it that lets it stand, a printed piece is the first piece. */
  lemma FirstPieceOfPrint(p: Piece, behind: string)
    requires IsPiece(p) && Stands(p, behind)
    ensures FirstPiece(Print(p) + behind) == p
  {
    hide ReadInner, ParseUsize, InnerText, DigitRun, StartsWord;
    match p
    case Position(digits) => PositionOfPrint(digits, behind);
    case Word => WordOfPrint(behind);
    case Plain(c) =>
    case Lone => assert (Print(p) + behind)[1..] == behind;
    case AtSign =>
    case _ => BracesOfPrint(p, behind);
  }

  /** The template a text is. */
  function Parse(body: string): seq<Piece>
    decreases |body|
  {
    if body == [] then []
    else
      FirstPieceSplits(body);
      [FirstPiece(body)] + Parse(body[|Print(FirstPiece(body))|..])
  }

  /** Every text is the print of the template it parses to, character for character. */
  lemma {:induction false} ParsePrints(body: string)
    ensures IsTemplate(Parse(body)) && PrintAll(Parse(body)) == body
    ensures forall p :: p in Parse(body) ==> IsPiece(p)
    decreases |body|
  {
    hide Print, FirstPiece, Stands, IsPiece;
    if body != [] {
      FirstPieceSplits(body);
      var n := |Print(FirstPiece(body))|;
      ParsePrints(body[n..]);
      assert body == body[..n] + body[n..];
    }
  }

  /** And of no other template. */
  lemma {:induction false} ParseOfPrint(ps: seq<Piece>)
    requires IsTemplate(ps)
    ensures Parse(PrintAll(ps)) == ps
  {
    hide Print, FirstPiece, Stands, IsPiece;
    if ps != [] {
      var behind := PrintAll(ps[1..]);
      FirstPieceOfPrint(ps[0], behind);
      ParseOfPrint(ps[1..]);
      assert PrintAll(ps)[|Print(ps[0])|..] == behind;
    }
  }

  // ----- Substituting is evaluating -----

  lemma BetweenCons(args: seq<string>, here: nat, from: nat, until: nat)
    requires args != []
    ensures Between(args, here, from, until) ==
            (if from <= here < until then [args[0]] else []) + Between(args[1..], here + 1, from, until)
  {
  }

  lemma BetweenNone(here: nat, from: nat, until: nat)
    ensures Between([], here, from, until) == []
  {
  }

  /** From the first position on. */
  lemma {:induction false} BetweenIsPrefix(args: seq<string>, here: nat, until: nat)
    requires here <= until
    ensures Between(args, here, here, until) == args[..Min(until - here, |args|)]
  {
    hide Between;
    if args == [] {
      BetweenNone(here, here, until);
    } else if here == until {
      BetweenIsEmpty(args, here, until);
    } else {
      BetweenCons(args, here, here, until);
      BetweenMoves(args[1..], here + 1, here);
      BetweenIsPrefix(args[1..], here + 1, until);
      var n := Min(until - here, |args|);
      assert args[..n] == [args[0]] + args[1..][..n - 1];
    }
  }

  /** From a later position on. */
  lemma {:induction false} BetweenIsSlice(args: seq<string>, here: nat, from: nat, until: nat)
    requires here <= from <= until
    ensures Between(args, here, from, until) == args[Min(from - here, |args|)..Min(until - here, |args|)]
  {
    hide Between;
    var low, high := Min(from - here, |args|), Min(until - here, |args|);
    if args == [] {
      BetweenNone(here, from, until);
    } else if here == from {
      BetweenIsPrefix(args, here, until);
      assert args[0..high] == args[..high];
    } else {
      BetweenCons(args, here, from, until);
      BetweenIsSlice(args[1..], here + 1, from, until);
      assert args[1..][low - 1..high - 1] == args[low..high];
    }
  }

  lemma {:induction false} BetweenMoves(args: seq<string>, here: nat, from: nat)
    requires from < here
    ensures forall until: nat :: Between(args, here, from, until) == Between(args, here, from + 1, until)
  {
    if args != [] { BetweenMoves(args[1..], here + 1, from); }
  }

  lemma {:induction false} BetweenIsEmpty(args: seq<string>, here: nat, bound: nat)
    requires bound <= here
    ensures Between(args, here, bound, bound) == []
  {
    if args != [] { BetweenIsEmpty(args[1..], here + 1, bound); }
  }

  /** The slice without a length, and the one with it, as positions. */
  lemma RestIsBetween(args: seq<string>, from: nat)
    requires from > 0
    ensures args[Min(from - 1, |args|)..] == Between(args, 1, from, from + |args|)
  {
    hide Between;
    BetweenIsSlice(args, 1, from, from + |args|);
    assert args[Min(from - 1, |args|)..] == args[Min(from - 1, |args|)..|args|];
  }

  lemma PartIsBetween(args: seq<string>, from: nat, length: nat)
    requires from > 0
    ensures
      var rest := args[Min(from - 1, |args|)..];
      rest[..Min(length, |rest|)] == Between(args, 1, from, from + length)
  {
    hide Between;
    BetweenIsSlice(args, 1, from, from + length);
    var low, rest := Min(from - 1, |args|), args[Min(from - 1, |args|)..];
    assert rest[..Min(length, |rest|)] == args[low..low + Min(length, |rest|)];
  }

  lemma SliceIsEval(inner: string, spelledOut: bool, spec: string, args: seq<string>)
    requires IsPiece(ReadSlice(inner, spelledOut, spec))
    ensures Eval(ReadSlice(inner, spelledOut, spec), args) ==
      match SliceFrom(args, spec) case Some(slice) => slice case None => Verbatim(inner)
  {
    hide ParseUsize, Between, Join, ReadInner, Min;
    var start := match Cut(spec, ':') case None => spec case Some((a, _)) => a;
    if IsPositive(start) {
      var from := ParseUsize(start).value;
      RestIsBetween(args, from);
      if Cut(spec, ':').Some? && ParseUsize(Cut(spec, ':').value.1).Some? {
        PartIsBetween(args, from, ParseUsize(Cut(spec, ':').value.1).value);
      }
    }
  }

  lemma UsizeOfDigits(digits: string)
    requires IsDigits(digits)
    ensures ParseUsize(digits) == if DigitsValue(digits) <= USIZE_MAX then Some(DigitsValue(digits)) else None
  {
    assert IsDigit(digits[0]);
  }

  lemma TargetIsValue(text: string, args: seq<string>)
    ensures
      match ReadTarget(text)
      case None => !IsAll(text) && !IsDigits(text)
      case Some(t) =>
        IsTarget(t)
        && Value(t, args) ==
           if IsAll(text) then Join(args)
           else Positional(args, match ParseUsize(text) case None => 0 case Some(n) => n)
  {
    hide ParseUsize, Join;
    if IsDigits(text) { UsizeOfDigits(text); }
  }

  lemma BracedWithSpec(inner: string, text: string, spec: string, args: seq<string>)
    requires Cut(inner, ':') == Some((text, spec))
    ensures Braced(inner, args) ==
      var all := IsAll(text);
      if !all && !IsDigits(text) then Verbatim(inner)
      else
        var index := if all then 0 else match ParseUsize(text) case None => 0 case Some(n) => n;
        var value := if all then Join(args) else Positional(args, index);
        if spec != [] && spec[0] == '-' then (if value == [] then spec[1..] else value)
        else if all then match SliceFrom(args, spec) case Some(slice) => slice case None => Verbatim(inner)
        else Verbatim(inner)
  {
    hide ParseUsize, SliceFrom, Join, Positional, IsDigits, Cut, Verbatim, IsAll;
  }

  lemma ReadWithSpec(inner: string, text: string, spec: string)
    requires Cut(inner, ':') == Some((text, spec))
    ensures ReadInner(inner) ==
      match ReadTarget(text)
      case None => Unread(inner)
      case Some(t) =>
        if spec != [] && spec[0] == '-' then Default(t, spec[1..])
        else if t.ArgTarget? then Unread(inner)
        else ReadSlice(inner, t.spelledOut, spec)
  {
    hide ReadTarget, ReadSlice, Cut;
  }

  /** Braces behind whose target there is a colon. */
  lemma SpecIsEval(inner: string, text: string, spec: string, args: seq<string>)
    requires '}' !in inner && Cut(inner, ':') == Some((text, spec))
    ensures IsPiece(ReadInner(inner)) && Braced(inner, args) == Eval(ReadInner(inner), args)
  {
    hide ReadInner, Braced, ReadTarget, IsPiece, Cut, ParseUsize, SliceFrom, ReadSlice, Join, Positional, IsDigits,
         Value,
         Between, Print, Verbatim, Selected, Eval, IsAll, IsTarget;
    TargetKind(text);
    TargetIsValue(text, args);
    BracedWithSpec(inner, text, spec, args);
    ReadWithSpec(inner, text, spec);
    ReadInnerPrints(inner);
    var p := ReadInner(inner);
    if ReadTarget(text).Some? && spec != [] && spec[0] == '-' {
      DefaultMeans(p, args);
    } else if p == Unread(inner) && (ReadTarget(text).None? || ReadTarget(text).value.ArgTarget?) {
      UnreadMeans(p, args);
    } else {
      SliceIsEval(inner, ReadTarget(text).value.spelledOut, spec, args);
    }
  }

  lemma DefaultMeans(p: Piece, args: seq<string>)
    requires p.Default? && IsPiece(p)
    ensures IsTarget(p.target)
    ensures Eval(p, args) == if Value(p.target, args) != [] then Value(p.target, args) else p.default
  {
    hide Value;
  }

  lemma UnreadMeans(p: Piece, args: seq<string>)
    requires p.Unread? && IsPiece(p)
    ensures Eval(p, args) == Verbatim(p.inner)
  {
    hide ReadInner;
  }

  lemma TargetKind(text: string)
    ensures ReadTarget(text).Some? && ReadTarget(text).value.AllTarget? <==> IsAll(text)
    ensures ReadTarget(text).None? <==> !IsAll(text) && !IsDigits(text)
  {
  }

  lemma BracedIsEval(inner: string, args: seq<string>)
    requires '}' !in inner
    ensures IsPiece(ReadInner(inner)) && Braced(inner, args) == Eval(ReadInner(inner), args)
  {
    match Cut(inner, ':')
    case None => WholeIsEval(inner, args);
    case Some((text, spec)) => SpecIsEval(inner, text, spec, args);
  }

  lemma WholeIsEval(inner: string, args: seq<string>)
    requires '}' !in inner && Cut(inner, ':') == None
    ensures IsPiece(ReadInner(inner)) && Braced(inner, args) == Eval(ReadInner(inner), args)
  {
    hide ParseUsize, SliceFrom, ReadSlice, Join, Selected, Positional, IsDigits;
    ReadInnerPrints(inner);
    TargetIsValue(inner, args);
    TargetKind(inner);
  }

  /** What a placeholder expands to is its piece's meaning, and it takes the piece's print. */
  lemma ExpandIsEval(body: string, args: seq<string>)
    requires |body| >= 2 && body[0] == '$' && StartsPlaceholder(body[1..])
    ensures var p := FirstPiece(body);
            IsPiece(p) && ExpandAt(body[1..], args) == Some((Eval(p, args), |Print(p)| - 1))
  {
    hide ParseUsize, Braced, ReadInner, Join, DigitsValue, Between, InnerText, Selected;
    FirstPieceSplits(body);
    var after := body[1..];
    if after[0] == '{' {
      var inner := Cut(after[1..], '}').value.0;
      BracedIsEval(inner, args);
      ReadInnerPrints(inner);
    } else if IsDigit(after[0]) {
      PositionIsEval(DigitRun(after), args);
    }
  }

  lemma PositionIsEval(digits: string, args: seq<string>)
    requires IsDigits(digits) && ParseUsize(digits).Some?
    ensures Positional(args, ParseUsize(digits).value) == Selected(args, digits)
  {
    UsizeOfDigits(digits);
  }

  /** One step of the scanner is the evaluation of the first piece. */
  lemma StepIsEval(body: string, args: seq<string>)
    requires body != []
    ensures var p := FirstPiece(body);
            && IsPiece(p) && |Print(p)| <= |body|
            && Substitute(body, args) == Eval(p, args) + Substitute(body[|Print(p)|..], args)
  {
    FirstPieceSplits(body);
    hide ReadInner, DigitRun, StartsWord, InnerText;
    SubstituteStep(body, 0, args);
    assert body[0..] == body;
    if body[0] == '$' {
      if StartsPlaceholder(body[1..]) {
        ExpandIsEval(body, args);
      } else {
        NoPlaceholder(body[1..], args);
      }
    }
  }

  lemma NoPlaceholder(after: string, args: seq<string>)
    ensures !StartsPlaceholder(after) ==> ExpandAt(after, args) == None
  {
    hide ParseUsize, Braced, Join, StartsWord;
  }

  /**
   Substituting is evaluating the pieces of the template the text is.  The text an argument
   contributes is behind the scanner when it is written, whatever characters it holds.
   */
  lemma {:induction false} SubstituteIsEval(body: string, args: seq<string>)
    ensures forall p :: p in Parse(body) ==> IsPiece(p)
    ensures Substitute(body, args) == EvalAll(Parse(body), args)
    decreases |body|
  {
    hide Substitute, Print, FirstPiece, IsPiece, Eval;
    ParsePrints(body);
    if body == [] {
      NothingToSubstitute(args);
    } else {
      StepIsEval(body, args);
      SubstituteIsEval(body[|Print(FirstPiece(body))|..], args);
    }
  }

  /** For every well-formed template: its print substitutes to what the template means. */
  lemma SubstitutePrinted(ps: seq<Piece>, args: seq<string>)
    requires IsTemplate(ps)
    ensures forall p :: p in ps ==> IsPiece(p)
    ensures Substitute(PrintAll(ps), args) == EvalAll(ps, args)
  {
    ParseOfPrint(ps);
    SubstituteIsEval(PrintAll(ps), args);
  }

  /**
   A position names the argument of that number exactly when it is at least 1 and fits the
   machine word, or reading the first argument instead makes no difference.
   */
  lemma PositionMeansArgument(args: seq<string>, digits: string)
    requires IsDigits(digits) && |args| <= 18_446_744_073_709_551_615
    ensures var n := DigitsValue(digits);
            var documented := if 1 <= n <= |args| then args[n - 1] else "";
            Selected(args, digits) == documented <==>
            1 <= n <= 18_446_744_073_709_551_615 || args == [] || args[0] == ""
  {
  }

  /** A template of one piece that stands by itself. */
  lemma OnePiece(p: Piece, args: seq<string>)
    requires IsPiece(p) && Stands(p, "")
    ensures Substitute(Print(p), args) == Eval(p, args)
  {
    hide Substitute, Eval, IsPiece, Stands, Print;
    var ps := [p];
    assert ps[1..] == [];
    assert PrintAll(ps) == Print(p);
    SubstitutePrinted(ps, args);
    assert EvalAll(ps, args) == Eval(p, args);
  }

  /** Position 0 reads the first argument. */
  lemma ZeroReadsFirst()
    ensures Substitute("$0", ["a"]) == "a"
  {
    hide Substitute, ParseUsize;
    assert DigitsValue("0") == 0 by { assert "0"[..0] == ""; }
    UsizeOfDigits("0");
    OnePiece(Position("0"), ["a"]);
    assert Print(Position("0")) == "$0";
  }

  /** Digits with a one in front are at least the power of ten of their number. */
  lemma {:induction false} LeadingOne(digits: string)
    requires IsDigits(digits) && digits[0] == '1'
    ensures DigitsValue(digits) >= Power10(|digits| - 1)
  {
    if |digits| > 1 { LeadingOne(digits[..|digits| - 1]); }
  }

  /** Twenty-one digits do not fit the machine word, and read the first argument too. */
  lemma TooLargeReadsFirst()
    ensures Substitute("${100000000000000000000}", ["a"]) == "a"
  {
    hide Substitute, ParseUsize, DigitsValue, AllDigits;
    var digits := "100000000000000000000";
    var body := "${" + digits + "}";
    assert body == "${100000000000000000000}";
    assert AllDigits(digits) by { TwentyOneDigits(); }
    assert DigitsValue(digits) > USIZE_MAX by { LeadingOne(digits); TwentyZeros(); }
    UsizeOfDigits(digits);
    BracesStep(digits, ["a"]);
  }

  lemma TwentyOneDigits()
    ensures AllDigits("100000000000000000000")
  {
  }

  lemma TwentyZeros()
    ensures Power10(20) == 100_000_000_000_000_000_000
  {
    assert Power10(5) == 100_000;
    assert Power10(10) == 10_000_000_000;
    assert Power10(15) == 1_000_000_000_000_000;
  }

  /** A position in braces is the argument it selects. */
  lemma BracesStep(digits: string, args: seq<string>)
    requires IsDigits(digits)
    ensures Substitute("${" + digits + "}", args) == Selected(args, digits)
  {
    hide Substitute, ParseUsize, DigitsValue, Selected;
    OnePiece(Whole(ArgTarget(digits)), args);
  }
}
