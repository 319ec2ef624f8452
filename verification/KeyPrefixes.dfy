/**
 Provider keys recognised by their public prefix (`redact_key_prefixes` in
 crates/rupi-core/src/redact.rs).  The scan is over maximal runs of token characters.
 */
module KeyPrefixes {
  import opened Text

  datatype Prefix = Prefix(text: string, minTail: nat)

  function KeyPrefixList(): seq<Prefix> {
    [
      Prefix("sk-ant-", 12), Prefix("github_pat_", 12), Prefix("ghp_", 12), Prefix("gho_", 12),
      Prefix("ghs_", 12), Prefix("glpat-", 12), Prefix("dckr_pat_", 12), Prefix("ya29.", 8),
      Prefix("AKIA", 8), Prefix("AIza", 8), Prefix("sk-", 12), Prefix("xox", 10), Prefix("npm_", 12),
      Prefix("pypi-", 12), Prefix("hf_", 12), Prefix("xai-", 12), Prefix("sgkey-", 12)
    ]
  }

  predicate IsTokenChar(c: char) {
    IsDigit(c) || 'a' <= c <= 'z' || 'A' <= c <= 'Z'
    || c == '-' || c == '_' || c == '+' || c == '/' || c == '.' || c == ':'
  }

  predicate IsKey(token: string, p: Prefix, minSecretLen: nat) {
    Starts(token, p.text) && (if p.minTail > minSecretLen then p.minTail else minSecretLen) <= |token| - |p.text|
  }

  /** The first listed prefix that makes the token a key. */
  function MatchingPrefix(token: string, minSecretLen: nat): Option<string> {
    FirstMatch(token, minSecretLen, KeyPrefixList())
  }

  function FirstMatch(token: string, minSecretLen: nat, prefixes: seq<Prefix>): (r: Option<string>)
    ensures r.None? <==> forall p :: p in prefixes ==> !IsKey(token, p, minSecretLen)
    ensures r.Some? ==> exists p :: p in prefixes && p.text == r.value && IsKey(token, p, minSecretLen)
  {
    if prefixes == [] then None
    else if IsKey(token, prefixes[0], minSecretLen) then Some(prefixes[0].text)
    else FirstMatch(token, minSecretLen, prefixes[1..])
  }

  function KeyMarker(prefix: string): string {
    "[redacted:key " + prefix + "]"
  }

  /** A token is a key under a prefix when enough stands behind it. */
  lemma KeyIs(token: string, p: Prefix, min: nat)
    ensures IsKey(token, p, min) <==>
            p.text <= token && |token[|p.text|..]| >= p.minTail && |token[|p.text|..]| >= min
  {
  }

  /** The characters of tokens: the ASCII letters and digits, and six marks. */
  lemma TokenCharsAre(c: char)
    ensures
      var n := c as int;
      IsTokenChar(c) <==> 48 <= n <= 57 || 65 <= n <= 90 || 97 <= n <= 122 || c in "-_+/.:"
  {
  }

  /** The listed prefixes by the number of characters they ask for behind them. */
  lemma ListedAre(p: Prefix)
    ensures p in KeyPrefixList() <==>
      || (p.minTail == 12
          && p.text in ["sk-ant-", "github_pat_", "ghp_", "gho_", "ghs_", "glpat-", "dckr_pat_", "sk-", "npm_", "pypi-",
                        "hf_", "xai-", "sgkey-"])
      || (p.minTail == 8 && p.text in ["ya29.", "AKIA", "AIza"])
      || (p.minTail == 10 && p.text == "xox")
  {
  }

  // ----- The longest prefix -----

  /** The place of the first prefix that makes the token a key. */
  lemma {:induction false} FirstMatchIs(token: string, min: nat, prefixes: seq<Prefix>) returns (i: nat)
    requires FirstMatch(token, min, prefixes).Some?
    ensures i < |prefixes| && IsKey(token, prefixes[i], min)
    ensures FirstMatch(token, min, prefixes) == Some(prefixes[i].text)
    ensures forall j :: 0 <= j < i ==> !IsKey(token, prefixes[j], min)
  {
    hide IsKey;
    if IsKey(token, prefixes[0], min) {
      i := 0;
    } else {
      i := FirstMatchIs(token, min, prefixes[1..]);
      i := i + 1;
    }
  }

  /** The first three characters as one number. */
  function Head(text: string): int
    requires |text| >= 3
  {
    text[0] as int * 0x1_0000 + text[1] as int * 0x100 + text[2] as int
  }

  function HeadOf(i: nat): int
    requires i < 17
  {
    match i
    case 0 => 0x736B2D case 1 => 0x676974 case 2 => 0x676870 case 3 => 0x67686F
    case 4 => 0x676873 case 5 => 0x676C70 case 6 => 0x64636B case 7 => 0x796132
    case 8 => 0x414B49 case 9 => 0x41497A case 10 => 0x736B2D case 11 => 0x786F78
    case 12 => 0x6E706D case 13 => 0x707970 case 14 => 0x68665F case 15 => 0x786169
    case _ => 0x73676B
  }

  lemma HeadIs(i: nat)
    requires i < |KeyPrefixList()|
    ensures i < 17 && |KeyPrefixList()[i].text| >= 3 && Head(KeyPrefixList()[i].text) == HeadOf(i)
    ensures (i == 0 ==> |KeyPrefixList()[i].text| == 7) && (i == 10 ==> |KeyPrefixList()[i].text| == 3)
  {
  }

  lemma SameHead(a: string, b: string)
    ensures |a| >= 3 && a <= b ==> |b| >= 3 && Head(a) == Head(b)
  {
  }

  /** No prefix of the list begins one behind it: a longer one stands in front. */
  lemma LongerComesFirst(i: nat, j: nat)
    requires i < j < |KeyPrefixList()|
    ensures !(KeyPrefixList()[i].text <= KeyPrefixList()[j].text)
  {
    hide KeyPrefixList;
    HeadIs(i);
    HeadIs(j);
    var a, b := KeyPrefixList()[i].text, KeyPrefixList()[j].text;
    SameHead(a, b);
  }

  /** The prefix a key is reported under is the longest listed one that makes it a key. */
  lemma MatchIsLongest(token: string, min: nat, p: Prefix)
    requires MatchingPrefix(token, min).Some? && p in KeyPrefixList() && IsKey(token, p, min)
    ensures |p.text| <= |MatchingPrefix(token, min).value|
  {
    hide KeyPrefixList;
    var i := FirstMatchIs(token, min, KeyPrefixList());
    var j :| 0 <= j < |KeyPrefixList()| && KeyPrefixList()[j] == p;
    var q := KeyPrefixList()[i].text;
    if |p.text| > |q| {
      assert q == token[..|q|] == p.text[..|q|];
      LongerComesFirst(i, j);
    }
  }

  // ----- Runs -----

  /** A maximal run of token characters, or one other character. */
  datatype Run = Token(text: string) | Other(c: char)

  predicate IsRun(r: Run) {
    match r
    case Token(text) => text != [] && forall c :: c in text ==> IsTokenChar(c)
    case Other(c) => !IsTokenChar(c)
  }

  /** Runs as they stand in a text: no two tokens touch. */
  predicate AreRuns(rs: seq<Run>) {
    rs != [] ==> IsRun(rs[0]) && (|rs| > 1 ==> rs[0].Other? || rs[1].Other?) && AreRuns(rs[1..])
  }

  function Spelling(r: Run): string {
    match r
    case Token(text) => text
    case Other(c) => [c]
  }

  function Original(rs: seq<Run>): string {
    if rs == [] then "" else Spelling(rs[0]) + Original(rs[1..])
  }

  function Written(r: Run, min: nat): string {
    if r.Token? && MatchingPrefix(r.text, min).Some? then KeyMarker(MatchingPrefix(r.text, min).value)
    else Spelling(r)
  }

  function Rendered(rs: seq<Run>, min: nat): string {
    if rs == [] then "" else Written(rs[0], min) + Rendered(rs[1..], min)
  }

  function Keys(rs: seq<Run>, min: nat): nat {
    if rs == [] then 0
    else (if rs[0].Token? && MatchingPrefix(rs[0].text, min).Some? then 1 else 0) + Keys(rs[1..], min)
  }

  /** The run a buffered token is, if there is one. */
  function Buffered(token: string): seq<Run> {
    if token == [] then [] else [Token(token)]
  }

  /** The runs of a text that continues a buffered token. */
  function Runs(token: string, text: string): seq<Run>
    decreases |text|
  {
    if text == [] then Buffered(token)
    else if IsTokenChar(text[0]) then Runs(token + [text[0]], text[1..])
    else Buffered(token) + [Other(text[0])] + Runs("", text[1..])
  }

  lemma OriginalOfCons(r: Run, rs: seq<Run>, min: nat)
    ensures Original([r] + rs) == Spelling(r) + Original(rs)
    ensures Rendered([r] + rs, min) == Written(r, min) + Rendered(rs, min)
    ensures Keys([r] + rs, min) == Keys([r], min) + Keys(rs, min)
  {
    hide Spelling, Written, MatchingPrefix;
    assert ([r] + rs)[1..] == rs && [r][1..] == [];
  }

  lemma OriginalOfOne(r: Run, min: nat)
    ensures Original([r]) == Spelling(r) && Rendered([r], min) == Written(r, min)
  {
    OriginalOfCons(r, [], min);
    assert [r] + [] == [r];
    hide Spelling, Written;
    assert Spelling(r) + "" == Spelling(r) && Written(r, min) + "" == Written(r, min);
  }

  lemma {:induction false} OriginalOfConcat(a: seq<Run>, b: seq<Run>)
    ensures Original(a + b) == Original(a) + Original(b)
  {
    hide Original, Spelling;
    if a == [] {
      assert a + b == b;
      NothingRendered(0);
    } else {
      var r, rest := a[0], a[1..];
      OriginalOfConcat(rest, b);
      assert a == [r] + rest && a + b == [r] + (rest + b);
      OriginalOfCons(r, rest, 0);
      OriginalOfCons(r, rest + b, 0);
      Assoc(Spelling(r), Original(rest), Original(b));
    }
  }

  lemma NothingRendered(min: nat)
    ensures Original([]) == "" && Rendered([], min) == "" && Keys([], min) == 0
  {
  }

  lemma {:induction false} RenderedOfConcat(a: seq<Run>, b: seq<Run>, min: nat)
    ensures Rendered(a + b, min) == Rendered(a, min) + Rendered(b, min)
    ensures Keys(a + b, min) == Keys(a, min) + Keys(b, min)
  {
    hide Rendered, Keys, Written;
    if a == [] {
      assert a + b == b;
      NothingRendered(min);
    } else {
      var r, rest := a[0], a[1..];
      RenderedOfConcat(rest, b, min);
      assert a == [r] + rest && a + b == [r] + (rest + b);
      OriginalOfCons(r, rest, min);
      OriginalOfCons(r, rest + b, min);
      Assoc(Written(r, min), Rendered(rest, min), Rendered(b, min));
    }
  }

  lemma OriginalOfBuffer(token: string)
    ensures Original(Buffered(token)) == token
  {
    if token != [] { OriginalOfOne(Token(token), 0); }
  }

  /** Runs lose nothing of the text. */
  lemma {:induction false} RunsSpellText(token: string, text: string)
    ensures Original(Runs(token, text)) == token + text
    decreases |text|
  {
    hide Original, Spelling, IsTokenChar, Buffered;
    OriginalOfBuffer(token);
    if text == [] {
      assert token + text == token;
    } else {
      var c, rest := text[0], text[1..];
      assert text == [c] + rest;
      Assoc(token, [c], rest);
      if IsTokenChar(c) {
        RunsSpellText(token + [c], rest);
      } else {
        RunsSpellText("", rest);
        OriginalOfConcat(Buffered(token) + [Other(c)], Runs("", rest));
        OriginalOfConcat(Buffered(token), [Other(c)]);
        OriginalOfOne(Other(c), 0);
        SpellingOfOther(c);
        assert "" + rest == rest;
      }
    }
  }

  lemma SpellingOfOther(c: char)
    ensures Spelling(Other(c)) == [c]
  {
  }

  lemma {:induction false} RunsAreRuns(token: string, text: string)
    requires forall c :: c in token ==> IsTokenChar(c)
    ensures AreRuns(Runs(token, text))
    decreases |text|
  {
    hide IsTokenChar, AreRuns, Runs;
    if text == [] {
      RunsEnd(token);
      AreRunsEnd();
      BufferIsRuns(token, []);
      assert Buffered(token) + [] == Buffered(token);
    } else {
      assert text == text[0..];
      RunsStep(token, text, 0);
      if IsTokenChar(text[0]) {
        RunsAreRuns(token + [text[0]], text[1..]);
      } else {
        RunsAreRuns("", text[1..]);
        var rest := Runs("", text[1..]);
        AreRunsCons(Other(text[0]), rest);
        BufferIsRuns(token, [Other(text[0])] + rest);
        assert Buffered(token) + [Other(text[0])] + rest == Buffered(token) + ([Other(text[0])] + rest);
      }
    }
  }

  lemma BufferIsRuns(token: string, rest: seq<Run>)
    requires (forall c :: c in token ==> IsTokenChar(c)) && AreRuns(rest) && (rest == [] || rest[0].Other?)
    ensures AreRuns(Buffered(token) + rest)
  {
    hide IsTokenChar;
    if token == [] {
      assert Buffered(token) + rest == rest;
    } else {
      AreRunsCons(Token(token), rest);
    }
  }

  /** And a text has no other runs. */
  lemma {:induction false} RunsOfOriginal(rs: seq<Run>)
    requires AreRuns(rs)
    ensures Runs("", Original(rs)) == rs
    decreases |rs|
  {
    hide IsTokenChar, Runs;
    if rs == [] {
      RunsEnd("");
    } else {
      RunsOfOriginal(rs[1..]);
      assert rs == [rs[0]] + rs[1..];
      match rs[0]
      case Other(c) =>
        RunsOfOther("", c, Original(rs[1..]));
      case Token(text) =>
        RunsOfToken("", text, Original(rs[1..]));
        assert "" + text == text;
        if rs[1..] == [] {
          RunsEnd(text);
        } else {
          RunsBehindToken(text, rs[1..]);
        }
    }
  }

  lemma RunsOfOther(token: string, c: char, behind: string)
    requires !IsTokenChar(c)
    ensures Runs(token, [c] + behind) == Buffered(token) + [Other(c)] + Runs("", behind)
  {
    hide IsTokenChar;
    assert ([c] + behind)[1..] == behind;
  }

  lemma RunsEnd(token: string)
    ensures Runs(token, "") == Buffered(token)
  {
  }

  lemma {:induction false} RunsOfToken(token: string, more: string, behind: string)
    requires forall c :: c in more ==> IsTokenChar(c)
    ensures Runs(token, more + behind) == Runs(token + more, behind)
    decreases |more|
  {
    hide IsTokenChar;
    if more == [] {
      assert more + behind == behind && token + more == token;
    } else {
      assert more[0] in more && forall c :: c in more[1..] ==> c in more;
      RunsOfToken(token + [more[0]], more[1..], behind);
      assert (more + behind)[1..] == more[1..] + behind;
      assert token + [more[0]] + more[1..] == token + more;
    }
  }

  lemma RunsBehindToken(token: string, rs: seq<Run>)
    requires token != [] && rs != [] && rs[0].Other? && IsRun(rs[0])
    requires Runs("", Original(rs)) == rs
    ensures Runs(token, Original(rs)) == [Token(token)] + rs
  {
    hide IsTokenChar, Runs;
    RunsOfOther("", rs[0].c, Original(rs[1..]));
    RunsOfOther(token, rs[0].c, Original(rs[1..]));
  }

  // ----- The pass -----

  method RedactKeyPrefixes(text: string, minSecretLen: nat) returns (out: string, replacements: nat)
    ensures out == Rendered(Runs("", text), minSecretLen)
    ensures replacements == Keys(Runs("", text), minSecretLen)
  {
    hide Flush, MatchingPrefix, IsTokenChar, Runs, Rendered, Keys;
    ghost var min := minSecretLen;
    out, replacements := "", 0;
    var token, i := "", 0;
    assert text[0..] == text;
    while i < |text|
      invariant i <= |text|
      invariant Rendered(Runs("", text), min) == out + Rendered(Runs(token, text[i..]), min)
      invariant Keys(Runs("", text), min) == replacements + Keys(Runs(token, text[i..]), min)
    {
      var c := text[i];
      RunsStep(token, text, i);
      if IsTokenChar(c) {
        token := token + [c];
      } else {
        RenderedBehindToken(token, c, Runs("", text[i + 1..]), min);
        var (written, count) := Flush(token, minSecretLen);
        ghost var rest := Rendered(Runs("", text[i + 1..]), min);
        assert out + (written + [c] + rest) == out + written + [c] + rest;
        out, replacements, token := out + written + [c], replacements + count, "";
      }
      i := i + 1;
    }
    RunsEnd(token);
    assert text[i..] == "";
    RenderedBuffer(token, min);
    var (written, count) := Flush(token, minSecretLen);
    out, replacements := out + written, replacements + count;
  }

  lemma RunsStep(token: string, text: string, i: nat)
    requires i < |text|
    ensures Runs(token, text[i..]) ==
      if IsTokenChar(text[i]) then Runs(token + [text[i]], text[i + 1..])
      else Buffered(token) + [Other(text[i])] + Runs("", text[i + 1..])
  {
    hide IsTokenChar;
    assert text[i..][1..] == text[i + 1..];
  }

  /** What a buffered token is written as, and how many replacements that is. */
  function Flush(token: string, min: nat): (string, nat) {
    if token == [] then ("", 0)
    else
      match MatchingPrefix(token, min)
      case Some(prefix) => (KeyMarker(prefix), 1)
      case None => (token, 0)
  }

  lemma RenderedBuffer(token: string, min: nat)
    ensures Rendered(Buffered(token), min) == Flush(token, min).0
    ensures Keys(Buffered(token), min) == Flush(token, min).1
  {
    hide MatchingPrefix;
    if token != [] { OriginalOfOne(Token(token), min); }
  }

  lemma RenderedBehindToken(token: string, c: char, rs: seq<Run>, min: nat)
    ensures Rendered(Buffered(token) + [Other(c)] + rs, min) == Flush(token, min).0 + [c] + Rendered(rs, min)
    ensures Keys(Buffered(token) + [Other(c)] + rs, min) == Flush(token, min).1 + Keys(rs, min)
  {
    hide MatchingPrefix, Flush, Buffered;
    RenderedBuffer(token, min);
    RenderedOfConcat(Buffered(token) + [Other(c)], rs, min);
    RenderedOfConcat(Buffered(token), [Other(c)], min);
    OriginalOfOne(Other(c), min);
  }

  lemma ThreeRuns(a: Run, b: Run, c: Run, min: nat)
    ensures Rendered([a, b, c], min) == Written(a, min) + (Written(b, min) + Written(c, min))
    ensures Original([a, b, c]) == Spelling(a) + (Spelling(b) + Spelling(c))
    ensures Keys([a, b, c], min) == Keys([a], min) + (Keys([b], min) + Keys([c], min))
  {
    OriginalOfCons(a, [b, c], min);
    OriginalOfCons(b, [c], min);
    OriginalOfOne(c, min);
    hide Rendered, Original, Keys, Written, Spelling, IsRun;
    assert [a, b, c] == [a] + [b, c] && [b, c] == [b] + [c];
  }

  lemma BetweenOthers(a: Run, b: Run, c: Run)
    requires IsRun(a) && IsRun(b) && IsRun(c) && a.Other? && c.Other?
    ensures AreRuns([a, b, c])
  {
    hide IsRun, AreRuns;
    AreRunsEnd();
    assert [c] + [] == [c] && [b] + [c] == [b, c] && [a] + [b, c] == [a, b, c];
    AreRunsCons(c, []);
    AreRunsCons(b, [c]);
    AreRunsCons(a, [b, c]);
  }

  lemma SentenceIsRun(tail: string)
    requires forall c :: c in tail ==> IsTokenChar(c)
    ensures IsRun(Token("sk-ant-" + tail)) && IsRun(Other('<')) && IsRun(Other('>'))
  {
    assert forall c :: c in "sk-ant-" ==> IsTokenChar(c);
  }

  lemma SentenceKey(tail: string)
    requires |tail| >= 12
    ensures MatchingPrefix("sk-ant-" + tail, 8) == Some("sk-ant-")
  {
    var key := "sk-ant-" + tail;
    assert key[..7] == "sk-ant-";
    assert KeyPrefixList()[0] == Prefix("sk-ant-", 12);
    assert IsKey(key, KeyPrefixList()[0], 8);
  }

  lemma SentenceParts(tail: string)
    requires |tail| >= 12
    ensures Written(Other('<'), 8) == "<" && Written(Other('>'), 8) == ">"
    ensures Written(Token("sk-ant-" + tail), 8) == "[redacted:key sk-ant-]"
    ensures Keys([Other('<')], 8) == Keys([Other('>')], 8) == 0 && Keys([Token("sk-ant-" + tail)], 8) == 1
  {
    hide MatchingPrefix;
    SentenceKey(tail);
    var key := Token("sk-ant-" + tail);
    assert [key][1..] == [] && [Other('<')][1..] == [] && [Other('>')][1..] == [];
    assert KeyMarker("sk-ant-") == "[redacted:key sk-ant-]";
  }

  /** A key of the longer prefix, whatever stands behind it, and the signs around it. */
  lemma KeyShown(tail: string)
    requires |tail| >= 12 && forall c :: c in tail ==> IsTokenChar(c)
    ensures Rendered(Runs("", "<" + (("sk-ant-" + tail) + ">")), 8) == "<" + ("[redacted:key sk-ant-]" + ">")
    ensures Keys(Runs("", "<" + (("sk-ant-" + tail) + ">")), 8) == 1
  {
    hide MatchingPrefix, Runs, AreRuns, Original, Rendered, Keys, Written, IsTokenChar, IsRun;
    var a, b, c := Other('<'), Token("sk-ant-" + tail), Other('>');
    SentenceIsRun(tail);
    SentenceParts(tail);
    BetweenOthers(a, b, c);
    ThreeRuns(a, b, c, 8);
    RunsOfOriginal([a, b, c]);
  }

  // ----- The pass finds nothing in its own output -----

  /** The runs a run turns into. */
  function Expanded(r: Run, min: nat): seq<Run> {
    if r.Token? && MatchingPrefix(r.text, min).Some? then
      MarkerRuns(MatchingPrefix(r.text, min).value)
    else [r]
  }

  function ExpandedAll(rs: seq<Run>, min: nat): seq<Run> {
    if rs == [] then [] else Expanded(rs[0], min) + ExpandedAll(rs[1..], min)
  }

  /** What keeps one prefix from starting another with a key's tail behind it. */
  predicate IsShort(p: Prefix) {
    && 3 <= |p.text| <= 11 && 8 <= p.minTail && p.text[0] != 'r'
    && (|p.text| == 11 ==> p.text[0] == 'g')
    && (|p.text| == 3 ==> p.text[0] != 'g')
  }

  lemma PrefixesAreShort(p: Prefix)
    requires p in KeyPrefixList()
    ensures IsShort(p)
  {
  }

  lemma NoKey(token: string, p: Prefix, min: nat)
    requires IsShort(p) && 3 <= |token| <= 12
    requires |token| == 12 ==> token[0] == 'r'
    requires |token| == 11 ==> token[0] == 'g'
    ensures !IsKey(token, p, min)
  {
    assert Starts(token, p.text) ==> token[0] == token[..|p.text|][0];
  }

  /** What a marker says is itself no key: a prefix is too short to have a tail. */
  lemma MarkerIsNoKey(prefix: string, min: nat)
    requires exists p :: p in KeyPrefixList() && p.text == prefix
    ensures prefix != []
    ensures MatchingPrefix(prefix, min).None? && MatchingPrefix("redacted:key", min).None?
  {
    hide KeyPrefixList, IsKey;
    var q :| q in KeyPrefixList() && q.text == prefix;
    PrefixesAreShort(q);
    forall p | p in KeyPrefixList()
      ensures !IsKey(prefix, p, min) && !IsKey("redacted:key", p, min)
    {
      PrefixesAreShort(p);
      NoKey(prefix, p, min);
      NoKey("redacted:key", p, min);
    }
  }

  lemma AreRunsCons(r: Run, rs: seq<Run>)
    requires IsRun(r) && AreRuns(rs) && (rs == [] || r.Other? || rs[0].Other?)
    ensures AreRuns([r] + rs)
  {
    hide IsRun;
    assert ([r] + rs)[1..] == rs;
  }

  lemma {:induction false} AreRunsConcat(a: seq<Run>, b: seq<Run>)
    requires AreRuns(a) && AreRuns(b)
    requires a == [] || b == [] || a[|a| - 1].Other? || b[0].Other?
    ensures AreRuns(a + b)
  {
    hide IsRun;
    if a == [] {
      assert a + b == b;
    } else {
      AreRunsConcat(a[1..], b);
      AreRunsCons(a[0], a[1..] + b);
      assert a + b == [a[0]] + (a[1..] + b);
    }
  }

  /** The runs of a marker. */
  function MarkerRuns(prefix: string): seq<Run> {
    [Other('[')] + ([Token("redacted:key")] + ([Other(' ')] + ([Token(prefix)] + [Other(']')])))
  }

  lemma MarkerRunsAreRuns(prefix: string)
    requires IsRun(Token(prefix))
    ensures AreRuns(MarkerRuns(prefix))
  {
    var t, k := Token("redacted:key"), Token(prefix);
    assert IsRun(t) && IsRun(Other('[')) && IsRun(Other(' ')) && IsRun(Other(']'));
    hide IsRun, AreRuns;
    AreRunsEnd();
    var e1 := [Other(']')];
    AreRunsCons(Other(']'), []);
    assert e1 + [] == e1;
    AreRunsCons(k, e1);
    AreRunsCons(Other(' '), [k] + e1);
    AreRunsCons(t, [Other(' ')] + ([k] + e1));
    AreRunsCons(Other('['), [t] + ([Other(' ')] + ([k] + e1)));
  }

  lemma AreRunsEnd()
    ensures AreRuns([])
  {
  }

  lemma MarkerRunsRender(prefix: string, min: nat)
    requires MatchingPrefix(prefix, min).None? && MatchingPrefix("redacted:key", min).None?
    ensures var e := MarkerRuns(prefix);
            Original(e) == KeyMarker(prefix) == Rendered(e, min) && Keys(e, min) == 0
  {
    var t, k := Token("redacted:key"), Token(prefix);
    assert Written(t, min) == "redacted:key" && Written(k, min) == prefix;
    KeysOfOne(t, min);
    KeysOfOne(k, min);
    hide MatchingPrefix;
    var e1 := [Other(']')];
    var e2 := [k] + e1;
    var e3 := [Other(' ')] + e2;
    OriginalOfOne(Other(']'), min);
    OriginalOfCons(k, e1, min);
    OriginalOfCons(Other(' '), e2, min);
    OriginalOfCons(t, e3, min);
    OriginalOfCons(Other('['), [t] + e3, min);
    MarkerSpelling(prefix);
    KeysOfOther(min);
    hide Original, Rendered, Keys, KeyMarker;
  }

  lemma KeysOfOne(r: Run, min: nat)
    ensures Keys([r], min) == if r.Token? && MatchingPrefix(r.text, min).Some? then 1 else 0
  {
    hide MatchingPrefix;
    assert [r][1..] == [];
  }

  lemma KeysOfOther(min: nat)
    ensures forall c :: Keys([Other(c)], min) == 0
  {
    forall c
      ensures Keys([Other(c)], min) == 0
    {
      KeysOfOne(Other(c), min);
    }
  }

  lemma MarkerSpelling(prefix: string)
    ensures "[" + ("redacted:key" + (" " + (prefix + "]"))) == KeyMarker(prefix)
  {
    var head := "[redacted:key ";
    assert head == "[" + ("redacted:key" + " ");
  }

  lemma ExpandedIs(r: Run, min: nat)
    requires IsRun(r)
    ensures var e := Expanded(r, min);
            && e != [] && AreRuns(e) && Original(e) == Written(r, min) == Rendered(e, min) && Keys(e, min) == 0
            && (e[0].Token? ==> e == [r]) && (e[|e| - 1].Token? ==> e == [r])
  {
    hide Original, Rendered, FirstMatch, KeyMarker;
    if r.Token? && MatchingPrefix(r.text, min).Some? {
      var prefix := MatchingPrefix(r.text, min).value;
      MatchedPrefixIsRun(r.text, min);
      MarkerIsNoKey(prefix, min);
      MarkerRunsAreRuns(prefix);
      MarkerRunsRender(prefix, min);
    } else {
      OriginalOfOne(r, min);
    }
  }

  lemma MatchedPrefixIsRun(token: string, min: nat)
    requires IsRun(Token(token)) && MatchingPrefix(token, min).Some?
    ensures var prefix := MatchingPrefix(token, min).value;
            IsRun(Token(prefix)) && exists p :: p in KeyPrefixList() && p.text == prefix
  {
    hide KeyPrefixList, IsTokenChar;
    var prefix := MatchingPrefix(token, min).value;
    var p :| p in KeyPrefixList() && p.text == prefix && IsKey(token, p, min);
    PrefixesAreShort(p);
    assert token[..|prefix|] == prefix;
    assert forall c :: c in token[..|prefix|] ==> c in token;
  }

  /** What was written splits into the expanded runs, none of which is a key. */
  lemma {:induction false} ExpandedAllIs(rs: seq<Run>, min: nat)
    requires AreRuns(rs)
    ensures var e := ExpandedAll(rs, min);
            && AreRuns(e) && Original(e) == Rendered(rs, min) == Rendered(e, min) && Keys(e, min) == 0
            && (rs != [] && rs[0].Other? ==> e != [] && e[0].Other?)
  {
    hide Expanded, Written, IsRun, MatchingPrefix, Original, Keys;
    if rs == [] {
      NothingExpanded(min);
    } else {
      var first, rest := Expanded(rs[0], min), ExpandedAll(rs[1..], min);
      ExpandedIs(rs[0], min);
      ExpandedAllIs(rs[1..], min);
      AreRunsConcat(first, rest);
      OriginalOfConcat(first, rest);
      RenderedOfConcat(first, rest, min);
    }
  }

  lemma NothingExpanded(min: nat)
    ensures Original([]) == "" && Keys([], min) == 0
  {
  }

  /** A second pass changes nothing and counts nothing. */
  lemma RedactTwice(text: string, min: nat)
    ensures var out := Rendered(Runs("", text), min);
            Rendered(Runs("", out), min) == out && Keys(Runs("", out), min) == 0
  {
    hide Rendered, Keys, Runs, AreRuns;
    RunsAreRuns("", text);
    ExpandedAllIs(Runs("", text), min);
    RunsOfOriginal(ExpandedAll(Runs("", text), min));
  }
}
