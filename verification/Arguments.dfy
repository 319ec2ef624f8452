/** Splitting a typed argument string (crates/rupi-compat/src/prompt.rs:363-393). */
module Arguments {
  import opened Text

  predicate IsQuote(c: char) {
    c == '"' || c == '\''
  }

  /** The two quotation marks of ASCII. */
  lemma QuotesAre(c: char)
    ensures IsQuote(c) <==> c as int == 34 || c as int == 39
  {
  }

  function Flushed(current: string): seq<string> {
    if current == "" then [] else [current]
  }

  /** The arguments from here on, behind the start of one and perhaps inside a quote. */
  function ParseFrom(text: string, current: string, quote: Option<char>): seq<string> {
    if text == "" then Flushed(current)
    else
      var c, rest := text[0], text[1..];
      match quote
      case Some(closing) =>
        if c == closing then ParseFrom(rest, current, None) else ParseFrom(rest, current + [c], quote)
      case None =>
        if IsQuote(c) then ParseFrom(rest, current, Some(c))
        else if IsWhitespace(c) then Flushed(current) + ParseFrom(rest, "", None)
        else ParseFrom(rest, current + [c], None)
  }

  method ParseArguments(text: string) returns (out: seq<string>)
    ensures out == ParseFrom(text, "", None)
  {
    hide IsWhitespace, ParseFrom;
    out := [];
    var current, quote: Option<char>, i := "", None, 0;
    assert text[0..] == text;
    while i < |text|
      invariant i <= |text|
      invariant ParseFrom(text, "", None) == out + ParseFrom(text[i..], current, quote)
    {
      var c := text[i];
      ParseStep(text, i, current, quote);
      match quote {
        case Some(closing) =>
          if c == closing {
            quote := None;
          } else {
            current := current + [c];
          }
        case None =>
          if IsQuote(c) {
            quote := Some(c);
          } else if IsWhitespace(c) {
            ghost var rest := ParseFrom(text[i + 1..], "", None);
            assert out + (Flushed(current) + rest) == out + Flushed(current) + rest;
            if current != "" {
              out, current := out + [current], "";
            }
          } else {
            current := current + [c];
          }
      }
      i := i + 1;
    }
    ParseEnd(text[i..], current, quote);
    if current != "" {
      out := out + [current];
    }
  }

  lemma ParseStep(text: string, i: nat, current: string, quote: Option<char>)
    requires i < |text|
    ensures
      var c, rest := text[i], text[i + 1..];
      ParseFrom(text[i..], current, quote) ==
      match quote
      case Some(closing) =>
        if c == closing then ParseFrom(rest, current, None) else ParseFrom(rest, current + [c], quote)
      case None =>
        if IsQuote(c) then ParseFrom(rest, current, Some(c))
        else if IsWhitespace(c) then Flushed(current) + ParseFrom(rest, "", None)
        else ParseFrom(rest, current + [c], None)
  {
    hide IsWhitespace;
    assert text[i..][1..] == text[i + 1..];
  }

  lemma ParseEnd(text: string, current: string, quote: Option<char>)
    requires text == ""
    ensures ParseFrom(text, current, quote) == Flushed(current)
  {
  }

  // ----- What an argument string is made of -----

  /** A piece of it. A quote that nothing closes takes the rest. */
  datatype Item =
    | Space(c: char)
    | Bare(c: char)
    | Quoted(quote: char, body: string)
    | Unclosed(quote: char, body: string)

  predicate IsItem(item: Item) {
    match item
    case Space(c) => IsWhitespace(c) && !IsQuote(c)
    case Bare(c) => !IsWhitespace(c) && !IsQuote(c)
    case Quoted(quote, body) => IsQuote(quote) && quote !in body
    case Unclosed(quote, body) => IsQuote(quote) && quote !in body
  }

  /** Only the last item may be one that takes the rest. */
  predicate AreItems(items: seq<Item>) {
    forall i :: 0 <= i < |items| ==> IsItem(items[i]) && (items[i].Unclosed? ==> i == |items| - 1)
  }

  function PrintItem(item: Item): string {
    match item
    case Space(c) => [c]
    case Bare(c) => [c]
    case Quoted(quote, body) => [quote] + body + [quote]
    case Unclosed(quote, body) => [quote] + body
  }

  function Print(items: seq<Item>): string {
    if items == [] then "" else PrintItem(items[0]) + Print(items[1..])
  }

  function ReadItem(text: string): (Item, string)
    requires text != ""
  {
    var c, rest := text[0], text[1..];
    if IsQuote(c) then
      match Cut(rest, c)
      case None => (Unclosed(c, rest), "")
      case Some((body, behind)) => (Quoted(c, body), behind)
    else if IsWhitespace(c) then (Space(c), rest)
    else (Bare(c), rest)
  }

  predicate IsReadAs(text: string, item: Item, rest: string) {
    && IsItem(item) && text == PrintItem(item) + rest && |rest| < |text|
    && (item.Unclosed? ==> rest == "")
  }

  lemma ReadItemIs(text: string)
    requires text != ""
    ensures IsReadAs(text, ReadItem(text).0, ReadItem(text).1)
  {
    hide IsWhitespace, IsReadAs, IsQuote;
    if IsQuote(text[0]) {
      ReadQuoted(text);
    } else {
      ReadOne(text);
    }
  }

  lemma ReadQuoted(text: string)
    requires text != "" && IsQuote(text[0])
    ensures IsReadAs(text, ReadItem(text).0, ReadItem(text).1)
  {
    hide IsQuote, IsWhitespace;
    var c, rest := text[0], text[1..];
    assert text == [c] + rest;
    match Cut(rest, c)
    case None => assert PrintItem(Unclosed(c, rest)) + "" == text;
    case Some((body, behind)) => PrintedQuoted(c, body, behind);
  }

  lemma PrintedQuoted(quote: char, body: string, behind: string)
    ensures PrintItem(Quoted(quote, body)) + behind == [quote] + (body + [quote] + behind)
  {
  }

  lemma ReadOne(text: string)
    requires text != "" && !IsQuote(text[0])
    ensures IsReadAs(text, ReadItem(text).0, ReadItem(text).1)
  {
    hide IsQuote, IsWhitespace;
    assert text == [text[0]] + text[1..];
  }

  lemma ReadItemOfPrint(item: Item, rest: string)
    requires IsItem(item) && (item.Unclosed? ==> rest == "")
    ensures PrintItem(item) + rest != "" && ReadItem(PrintItem(item) + rest) == (item, rest)
  {
    hide IsWhitespace, IsQuote;
    match item
    case Space(c) => assert ([c] + rest)[1..] == rest;
    case Bare(c) => assert ([c] + rest)[1..] == rest;
    case Quoted(quote, body) => ReadPrintedQuote(quote, body, rest);
    case Unclosed(quote, body) => assert ([quote] + body + "")[1..] == body;
  }

  lemma ReadPrintedQuote(quote: char, body: string, rest: string)
    requires IsQuote(quote) && quote !in body
    ensures
      var text := PrintItem(Quoted(quote, body)) + rest;
      text != "" && ReadItem(text) == (Quoted(quote, body), rest)
  {
    hide IsWhitespace, IsQuote;
    PrintedQuoted(quote, body, rest);
    var inner := body + [quote] + rest;
    assert ([quote] + inner)[1..] == inner;
    CutAt(body, quote, rest);
  }

  function Read(text: string): seq<Item>
    decreases |text|
  {
    if text == "" then []
    else
      var (item, rest) := ReadItem(text);
      ReadItemIs(text);
      [item] + Read(rest)
  }

  /** Every string is made of items, */
  lemma {:induction false} ReadPrints(text: string)
    ensures AreItems(Read(text)) && Print(Read(text)) == text
    decreases |text|
  {
    hide ReadItem, IsItem, PrintItem;
    if text != "" {
      var (item, rest) := ReadItem(text);
      ReadItemIs(text);
      ReadPrints(rest);
      var items := Read(rest);
      assert Read(text)[1..] == items;
      if item.Unclosed? { assert items == []; }
    }
  }

  /** in one way. */
  lemma {:induction false} ReadOfPrint(items: seq<Item>)
    requires AreItems(items)
    ensures Read(Print(items)) == items
  {
    hide ReadItem, IsItem, PrintItem;
    if items != [] {
      assert AreItems(items[1..]);
      ReadOfPrint(items[1..]);
      if items[0].Unclosed? { assert items[1..] == []; }
      ReadItemOfPrint(items[0], Print(items[1..]));
    }
  }

  // ----- What it means -----

  /** What an item adds to an argument. */
  function Value(item: Item): string {
    match item
    case Space(_) => ""
    case Bare(c) => [c]
    case Quoted(_, body) => body
    case Unclosed(_, body) => body
  }

  /** The arguments: the values between spaces, put together, but for empty ones. */
  function Eval(items: seq<Item>, current: string): seq<string> {
    if items == [] then Flushed(current)
    else if items[0].Space? then Flushed(current) + Eval(items[1..], "")
    else Eval(items[1..], current + Value(items[0]))
  }

  lemma {:induction false} ParseInQuote(body: string, quote: char, behind: string, current: string)
    requires quote !in body
    ensures ParseFrom(body + [quote] + behind, current, Some(quote)) == ParseFrom(behind, current + body, None)
  {
    var text := body + [quote] + behind;
    if body == "" {
      assert text[1..] == behind && current + body == current;
    } else {
      assert body[0] in body && quote !in body[1..];
      ParseInQuote(body[1..], quote, behind, current + [body[0]]);
      assert text[1..] == body[1..] + [quote] + behind;
      assert current + [body[0]] + body[1..] == current + body;
    }
  }

  lemma {:induction false} ParseUnclosed(body: string, quote: char, current: string)
    requires quote !in body
    ensures ParseFrom(body, current, Some(quote)) == Flushed(current + body)
  {
    if body == "" {
      assert current + body == current;
    } else {
      assert body[0] in body && quote !in body[1..];
      ParseUnclosed(body[1..], quote, current + [body[0]]);
      assert current + [body[0]] + body[1..] == current + body;
    }
  }

  /** The character machine computes what the items mean. */
  lemma {:induction false} ParseIsEval(text: string, current: string)
    ensures ParseFrom(text, current, None) == Eval(Read(text), current)
    decreases |text|
  {
    hide IsWhitespace, ReadItem, ParseFrom;
    if text == "" {
      ParseItem(text, current);
    } else {
      var (item, rest) := ReadItem(text);
      ReadItemIs(text);
      ParseItem(text, current);
      ParseIsEval(rest, if item.Space? then "" else current + Value(item));
      assert Read(text)[0] == item && Read(text)[1..] == Read(rest);
    }
  }

  lemma ParseItem(text: string, current: string)
    ensures text == "" ==> ParseFrom(text, current, None) == Flushed(current)
    ensures text != "" ==>
      (var (item, rest) := ReadItem(text);
       ParseFrom(text, current, None) ==
       if item.Space? then Flushed(current) + ParseFrom(rest, "", None)
       else ParseFrom(rest, current + Value(item), None))
  {
    hide IsWhitespace;
    if text != "" && IsQuote(text[0]) {
      match Cut(text[1..], text[0])
      case None => ParseUnclosed(text[1..], text[0], current);
      case Some((body, behind)) => ParseInQuote(body, text[0], behind, current);
    }
  }

  predicate NoneIsEmpty(arguments: seq<string>) {
    forall i :: 0 <= i < |arguments| ==> arguments[i] != ""
  }

  function Values(items: seq<Item>): string {
    if items == [] then "" else Value(items[0]) + Values(items[1..])
  }

  lemma {:induction false} ConcatOfConcat(a: seq<string>, b: seq<string>)
    ensures Concat(a + b) == Concat(a) + Concat(b)
    decreases |a|
  {
    hide Concat;
    if a == [] {
      assert a + b == b;
      ConcatStep([]);
    } else {
      ConcatOfConcat(a[1..], b);
      ConcatStep(a);
      ConcatStep(a + b);
      assert (a + b)[1..] == a[1..] + b;
      Assoc(a[0], Concat(a[1..]), Concat(b));
    }
  }

  lemma ConcatStep(parts: seq<string>)
    ensures Concat(parts) == if parts == [] then "" else parts[0] + Concat(parts[1..])
  {
  }

  lemma ConcatOfFlushed(current: string)
    ensures Concat(Flushed(current)) == current && NoneIsEmpty(Flushed(current))
  {
    if current != "" { assert Concat([current][1..]) == ""; }
  }

  lemma {:induction false} EvalKeepsValues(items: seq<Item>, current: string)
    ensures Concat(Eval(items, current)) == current + Values(items) && NoneIsEmpty(Eval(items, current))
    decreases |items|
  {
    hide Concat, Flushed;
    ConcatOfFlushed(current);
    if items != [] {
      if items[0].Space? {
        EvalKeepsValues(items[1..], "");
        ConcatOfConcat(Flushed(current), Eval(items[1..], ""));
      } else {
        EvalKeepsValues(items[1..], current + Value(items[0]));
        Assoc(current, Value(items[0]), Values(items[1..]));
      }
    }
  }

  /** No argument is empty, and none loses a character but for quoting marks and the space outside them. */
  lemma ArgumentsKeepText(text: string)
    ensures
      var out := ParseFrom(text, "", None);
      NoneIsEmpty(out) && Concat(out) == Values(Read(text))
  {
    hide NoneIsEmpty, Concat;
    ParseIsEval(text, "");
    EvalKeepsValues(Read(text), "");
  }

  // ----- Spelling arguments -----

  /** Items that spell one argument, bare or quoted as they like. */
  predicate AreWord(items: seq<Item>) {
    forall i :: 0 <= i < |items| ==> IsItem(items[i]) && (items[i].Bare? || items[i].Quoted?)
  }

  predicate AreSpaces(items: seq<Item>) {
    items != [] && forall i :: 0 <= i < |items| ==> IsItem(items[i]) && items[i].Space?
  }

  /** A word, and the spaces behind it. */
  datatype Word = Word(items: seq<Item>, spaces: seq<Item>)

  predicate AreWords(words: seq<Word>) {
    forall i :: 0 <= i < |words| ==> AreWord(words[i].items) && AreSpaces(words[i].spaces)
  }

  function ItemsOf(words: seq<Word>, last: seq<Item>): seq<Item> {
    if words == [] then last else words[0].items + (words[0].spaces + ItemsOf(words[1..], last))
  }

  /** The arguments words stand for; one that is quoted and empty stands for none. */
  function Meant(words: seq<Word>, last: seq<Item>): seq<string> {
    if words == [] then Flushed(Values(last)) else Flushed(Values(words[0].items)) + Meant(words[1..], last)
  }

  lemma {:induction false} EvalOfWord(word: seq<Item>, rest: seq<Item>, current: string)
    requires AreWord(word)
    ensures Eval(word + rest, current) == Eval(rest, current + Values(word))
    decreases |word|
  {
    hide IsItem;
    if word == [] {
      assert word + rest == rest && current + "" == current;
    } else {
      assert (word + rest)[1..] == word[1..] + rest;
      EvalOfWord(word[1..], rest, current + Value(word[0]));
      Assoc(current, Value(word[0]), Values(word[1..]));
    }
  }

  lemma {:induction false} EvalOfSpaces(spaces: seq<Item>, rest: seq<Item>, current: string)
    requires AreSpaces(spaces)
    ensures Eval(spaces + rest, current) == Flushed(current) + Eval(rest, "")
    decreases |spaces|
  {
    hide IsItem;
    assert (spaces + rest)[1..] == spaces[1..] + rest;
    if |spaces| == 1 {
      assert spaces[1..] + rest == rest;
    } else {
      EvalOfSpaces(spaces[1..], rest, "");
      assert Flushed("") == [];
    }
  }

  lemma {:induction false} EvalOfWords(words: seq<Word>, last: seq<Item>)
    requires AreWords(words) && AreWord(last)
    ensures Eval(ItemsOf(words, last), "") == Meant(words, last)
    decreases |words|
  {
    hide AreWord, AreSpaces, Eval;
    if words == [] {
      EvalOfWord(last, [], "");
      assert last + [] == last && "" + Values(last) == Values(last);
      EvalOfNothing(Values(last));
    } else {
      var w, rest := words[0], ItemsOf(words[1..], last);
      EvalOfWord(w.items, w.spaces + rest, "");
      assert "" + Values(w.items) == Values(w.items);
      EvalOfSpaces(w.spaces, rest, Values(w.items));
      EvalOfWords(words[1..], last);
    }
  }

  lemma EvalOfNothing(current: string)
    ensures Eval([], current) == Flushed(current)
  {
  }

  predicate AreClosed(items: seq<Item>) {
    forall i :: 0 <= i < |items| ==> IsItem(items[i]) && !items[i].Unclosed?
  }

  lemma ClosedOfConcat(a: seq<Item>, b: seq<Item>)
    requires AreClosed(a) && AreClosed(b)
    ensures AreClosed(a + b)
  {
    hide IsItem;
  }

  lemma WordIsClosed(items: seq<Item>)
    requires AreWord(items) || AreSpaces(items)
    ensures AreClosed(items)
  {
    hide IsItem;
  }

  lemma ClosedAreItems(items: seq<Item>)
    requires AreClosed(items)
    ensures AreItems(items)
  {
    hide IsItem;
  }

  lemma {:induction false} WordsAreItems(words: seq<Word>, last: seq<Item>)
    requires AreWords(words) && AreWord(last)
    ensures AreClosed(ItemsOf(words, last))
    decreases |words|
  {
    hide AreWord, AreSpaces, AreClosed;
    if words == [] {
      WordIsClosed(last);
    } else {
      var w, rest := words[0], ItemsOf(words[1..], last);
      WordsAreItems(words[1..], last);
      WordIsClosed(w.items);
      WordIsClosed(w.spaces);
      ClosedOfConcat(w.spaces, rest);
      ClosedOfConcat(w.items, w.spaces + rest);
    }
  }

  /** However arguments are spelled, with at least one space between them, they come back. */
  lemma SpelledAreRead(words: seq<Word>, last: seq<Item>)
    requires AreWords(words) && AreWord(last)
    ensures ParseFrom(Print(ItemsOf(words, last)), "", None) == Meant(words, last)
  {
    hide ParseFrom, AreWords, AreWord, AreClosed, AreItems;
    var items := ItemsOf(words, last);
    WordsAreItems(words, last);
    ClosedAreItems(items);
    ReadOfPrint(items);
    ParseIsEval(Print(items), "");
    EvalOfWords(words, last);
  }

  /** A spelling of any argument: each character in a pair of quotes it does not close. */
  function Spelling(argument: string): seq<Item> {
    if argument == "" then []
    else [Quoted(if argument[0] == '"' then '\'' else '"', [argument[0]])] + Spelling(argument[1..])
  }

  lemma {:induction false} SpellingIs(argument: string)
    ensures AreWord(Spelling(argument)) && Values(Spelling(argument)) == argument
  {
    if argument != "" {
      SpellingIs(argument[1..]);
      var items := Spelling(argument);
      assert items[1..] == Spelling(argument[1..]);
      assert argument == [argument[0]] + argument[1..];
      assert forall i :: 1 <= i < |items| ==> items[i] == items[1..][i - 1];
    }
  }

  function Spelled(arguments: seq<string>): (words: seq<Word>)
    ensures |words| == |arguments|
  {
    if arguments == [] then [] else [Word(Spelling(arguments[0]), [Space(' ')])] + Spelled(arguments[1..])
  }

  lemma {:induction false} SpelledAre(arguments: seq<string>)
    requires NoneIsEmpty(arguments)
    ensures AreWords(Spelled(arguments)) && Meant(Spelled(arguments), []) == arguments
  {
    hide AreWord, AreSpaces;
    if arguments != [] {
      var words := Spelled(arguments);
      SpelledAre(arguments[1..]);
      SpellingIs(arguments[0]);
      assert AreSpaces([Space(' ')]) by { OneSpace(); }
      assert words[1..] == Spelled(arguments[1..]);
      assert forall i :: 1 <= i < |words| ==> words[i] == words[1..][i - 1];
      assert arguments == [arguments[0]] + arguments[1..];
    }
  }

  lemma OneSpace()
    ensures AreSpaces([Space(' ')])
  {
  }

  /** Every list of arguments, none of them empty, is what some string reads as. */
  lemma RoundTrip(arguments: seq<string>)
    requires NoneIsEmpty(arguments)
    ensures ParseFrom(Print(ItemsOf(Spelled(arguments), [])), "", None) == arguments
  {
    hide ParseFrom, AreWords;
    SpelledAre(arguments);
    SpelledAreRead(Spelled(arguments), []);
  }
}
