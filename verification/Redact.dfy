/**
 Redaction passes over text (crates/rupi-core/src/redact.rs): secret literals, private key
 blocks, and provider keys known by their prefix.  Each pass must withhold what it
 recognises, keep everything else in order, count what it replaced, and find nothing more
 to do in its own output.
 */
module Redact {
  import opened Text

  datatype SecretKind = Env | ProviderKey | Authorization | UrlCredentials | PrivateKey | SecretField

  function KindName(kind: SecretKind): string {
    match kind
    case Env => "env"
    case ProviderKey => "key"
    case Authorization => "auth"
    case UrlCredentials => "url"
    case PrivateKey => "pkey"
    case SecretField => "field"
  }

  /** What stands between the brackets of a marker. */
  function Interior(kind: SecretKind): string {
    "redacted:" + KindName(kind)
  }

  function Marker(kind: SecretKind): string {
    "[" + Interior(kind) + "]"
  }

  lemma MarkersAre()
    ensures Marker(Env) == "[redacted:env]" && Marker(ProviderKey) == "[redacted:key]"
    ensures Marker(Authorization) == "[redacted:auth]" && Marker(UrlCredentials) == "[redacted:url]"
    ensures Marker(PrivateKey) == "[redacted:pkey]" && Marker(SecretField) == "[redacted:field]"
  {
  }

  // ----- Literals -----

  datatype Candidate = Candidate(secret: string, kind: SecretKind)

  /** Every occurrence of `secret`, leftmost first and without overlaps, replaced; the empty one is everywhere. */
  function Replace(text: string, secret: string, marker: string): string {
    if secret == "" then Everywhere(text, marker)
    else if text == [] then ""
    else if Starts(text, secret) then marker + Replace(text[|secret|..], secret, marker)
    else [text[0]] + Replace(text[1..], secret, marker)
  }

  /** A marker in front of every character and behind the last. */
  function Everywhere(text: string, marker: string): string {
    if text == [] then marker else marker + ([text[0]] + Everywhere(text[1..], marker))
  }

  function Hits(text: string, secret: string): nat {
    if secret == "" then |text| + 1
    else if text == [] then 0
    else if Starts(text, secret) then 1 + Hits(text[|secret|..], secret)
    else Hits(text[1..], secret)
  }

  datatype Redacted = Redacted(text: string, replacements: nat)

  /** The candidates replaced one after the other. */
  function Literals(text: string, cs: seq<Candidate>): Redacted
    decreases |cs|
  {
    if cs == [] then Redacted(text, 0)
    else
      var rest := Literals(Replace(text, cs[0].secret, Marker(cs[0].kind)), cs[1..]);
      rest.(replacements := rest.replacements + Hits(text, cs[0].secret))
  }

  /** The loop of `apply` over its candidates. */
  method ApplyLiterals(input: string, cs: seq<Candidate>) returns (r: Redacted)
    ensures r == Literals(input, cs)
  {
    hide Replace, Hits;
    var text, replacements, i := input, 0, 0;
    while i < |cs|
      invariant i <= |cs|
      invariant Literals(input, cs).text == Literals(text, cs[i..]).text
      invariant Literals(input, cs).replacements == replacements + Literals(text, cs[i..]).replacements
    {
      var c := cs[i];
      assert cs[i..][1..] == cs[i + 1..];
      var hits := Hits(text, c.secret);
      if hits > 0 {
        text, replacements := Replace(text, c.secret, Marker(c.kind)), replacements + hits;
      } else {
        NothingToReplace(text, c.secret, Marker(c.kind));
      }
      i := i + 1;
    }
    r := Redacted(text, replacements);
  }

  /** The empty secret is found around every character. */
  lemma EverywhereShown()
    ensures Replace("ab", "", "-") == "-a-b-" && Hits("ab", "") == 3
  {
    assert "ab"[1..] == "b" && "b"[1..] == "";
    assert Everywhere("b", "-") == "-b-";
  }

  lemma {:induction false} NothingToReplace(text: string, secret: string, marker: string)
    requires Hits(text, secret) == 0
    ensures Replace(text, secret, marker) == text
  {
    if text != [] {
      NothingToReplace(text[1..], secret, marker);
    }
  }

  predicate IsBracketFree(text: string) {
    '[' !in text && ']' !in text
  }

  /** The length of the stretch in front of the first hit, or of the whole text. */
  function Gap(text: string, secret: string): (n: nat)
    requires secret != []
    ensures n <= |text|
  {
    if text == [] || Starts(text, secret) then 0 else Gap(text[1..], secret) + 1
  }

  lemma {:induction false} GapIs(text: string, secret: string)
    requires secret != []
    ensures Gap(text, secret) < |text| ==> OccursAt(secret, text, Gap(text, secret))
    ensures forall i :: 0 <= i < Gap(text, secret) ==> !OccursAt(secret, text, i)
  {
    if text == [] {
    } else if Starts(text, secret) {
      OccursAtNext(secret, text, -1);
    } else {
      GapIs(text[1..], secret);
      forall i | 0 <= i <= Gap(text, secret) < |text| || 0 <= i < Gap(text, secret)
        ensures OccursAt(secret, text, i) <==> i > 0 && OccursAt(secret, text[1..], i - 1)
      {
        OccursAtNext(secret, text, i - 1);
      }
    }
  }

  lemma OccursAtNext(secret: string, text: string, i: int)
    requires text != [] && secret != [] && i >= -1
    ensures OccursAt(secret, text, i + 1) <==> if i < 0 then Starts(text, secret) else OccursAt(secret, text[1..], i)
  {
    if 0 <= i && i + 1 + |secret| <= |text| {
      SliceOfSlice(text, 1, |text|, i, i + |secret|);
      assert text[1..] == text[1..|text|];
    }
  }

  /** In front of the first hit there is no occurrence. */
  lemma NothingInGap(text: string, secret: string)
    requires secret != []
    ensures !Occurs(secret, text[..Gap(text, secret)])
  {
    GapIs(text, secret);
    var n := Gap(text, secret);
    hide Gap;
    assert text[..n] == text[0..n];
    forall i | 0 <= i <= n - |secret|
      ensures OccursAt(secret, text[..n], i) ==> OccursAt(secret, text, i)
    {
      SliceOfSlice(text, 0, n, i, i + |secret|);
    }
  }

  /** Replacement keeps the stretch in front of a hit and goes on behind it. */
  lemma {:induction false} ReplaceByGap(text: string, secret: string, marker: string)
    requires secret != []
    ensures Gap(text, secret) == |text| ==> Replace(text, secret, marker) == text && Hits(text, secret) == 0
    ensures Gap(text, secret) < |text| ==> IsReplaced(text, secret, marker, Gap(text, secret))
  {
    hide Starts, Replace, Hits, IsReplaced;
    if text == [] {
      NothingThere(secret, marker);
    } else if Starts(text, secret) {
      HitHere(text, secret, marker);
    } else {
      var n := Gap(text, secret) - 1;
      ReplaceByGap(text[1..], secret, marker);
      NoHitHere(text, secret, marker);
      if n < |text[1..]| {
        ReplacedNext(text, secret, marker, n);
      } else {
        assert [text[0]] + text[1..] == text;
      }
    }
  }

  /** What a hit at `n`, the first, makes of the replacement. */
  ghost predicate IsReplaced(text: string, secret: string, marker: string, n: nat)
    requires secret != []
  {
    && n + |secret| <= |text|
    && Replace(text, secret, marker) == text[..n] + (marker + Replace(text[n + |secret|..], secret, marker))
    && Hits(text, secret) == 1 + Hits(text[n + |secret|..], secret)
  }

  // ----- Replacement by position -----

  /** The stretches between the hits. */
  function Gaps(text: string, secret: string): (gaps: seq<string>)
    requires secret != []
    ensures gaps != []
    decreases |text|
  {
    GapIs(text, secret);
    var n := Gap(text, secret);
    if n == |text| then [text] else [text[..n]] + Gaps(text[n + |secret|..], secret)
  }

  function Join(parts: seq<string>, between: string): string
    requires parts != []
  {
    if |parts| == 1 then parts[0] else parts[0] + (between + Join(parts[1..], between))
  }

  lemma JoinCons(part: string, parts: seq<string>, between: string)
    requires parts != []
    ensures Join([part] + parts, between) == part + (between + Join(parts, between))
  {
  }

  /** Replacing puts the marker where the secret stood between the same stretches, none of which holds the secret. */
  lemma {:induction false} ReplaceIsJoin(text: string, secret: string, marker: string)
    requires secret != []
    ensures
      var gaps := Gaps(text, secret);
      && text == Join(gaps, secret) && Replace(text, secret, marker) == Join(gaps, marker)
      && Hits(text, secret) == |gaps| - 1
      && forall k :: 0 <= k < |gaps| ==> !Occurs(secret, gaps[k])
    decreases |text|
  {
    hide Replace, Hits, Gap, Join, Occurs;
    var n := Gap(text, secret);
    ReplaceByGap(text, secret, marker);
    NothingInGap(text, secret);
    GapIs(text, secret);
    if n == |text| {
      assert text[..n] == text;
      JoinOne(text, secret);
      JoinOne(text, marker);
    } else {
      var behind := text[n + |secret|..];
      ReplaceIsJoin(behind, secret, marker);
      JoinCons(text[..n], Gaps(behind, secret), secret);
      JoinCons(text[..n], Gaps(behind, secret), marker);
      assert text[n..n + |secret|] == secret;
      assert text == text[..n] + (secret + behind);
    }
  }

  lemma JoinOne(text: string, between: string)
    ensures Join([text], between) == text
  {
  }

  lemma StartsFits(text: string, secret: string)
    requires Starts(text, secret)
    ensures |secret| <= |text|
  {
  }

  lemma ReplacedNext(text: string, secret: string, marker: string, n: nat)
    requires secret != [] && text != [] && !Starts(text, secret)
    requires IsReplaced(text[1..], secret, marker, n)
    ensures IsReplaced(text, secret, marker, n + 1)
  {
    hide Starts, Replace, Hits;
    NoHitHere(text, secret, marker);
    var behind := text[n + 1 + |secret|..];
    assert text[1..][n + |secret|..] == behind;
    assert text[..n + 1] == [text[0]] + text[1..][..n];
    Assoc([text[0]], text[1..][..n], marker + Replace(behind, secret, marker));
  }

  lemma NothingThere(secret: string, marker: string)
    requires secret != []
    ensures Replace([], secret, marker) == [] && Hits([], secret) == 0
  {
  }

  lemma HitHere(text: string, secret: string, marker: string)
    requires secret != [] && text != [] && Starts(text, secret)
    ensures IsReplaced(text, secret, marker, 0)
  {
    StartsFits(text, secret);
    hide Starts;
    var behind := marker + Replace(text[|secret|..], secret, marker);
    assert text[..0] + behind == behind;
  }

  lemma NoHitHere(text: string, secret: string, marker: string)
    requires secret != [] && text != [] && !Starts(text, secret)
    ensures Replace(text, secret, marker) == [text[0]] + Replace(text[1..], secret, marker)
    ensures Hits(text, secret) == Hits(text[1..], secret)
  {
    hide Starts;
  }

  // ----- What a marker can spell -----

  /** A text put `d` characters behind the start of a marker shares some of it, and agrees there. */
  predicate OverlapsAt(c: string, marker: string, d: int) {
    -|c| < d < |marker| && forall k :: 0 <= k < |c| && 0 <= d + k < |marker| ==> c[k] == marker[d + k]
  }

  ghost predicate Overlaps(c: string, marker: string) {
    exists d :: OverlapsAt(c, marker, d)
  }

  /** A text without brackets overlaps a marker exactly when the marker spells it inside. */
  lemma BracketFreeOverlap(c: string, kind: SecretKind)
    requires c != [] && IsBracketFree(c)
    ensures Overlaps(c, Marker(kind)) <==> Occurs(c, Interior(kind))
  {
    hide Interior;
    var marker, inner := Marker(kind), Interior(kind);
    assert marker[1..1 + |inner|] == inner && marker[0] == '[' && marker[|marker| - 1] == ']';
    if d :| OverlapsAt(c, marker, d) {
      EndsAreShared(c, marker, d);
      assert inner[d - 1..d - 1 + |c|] == c;
      HitMeansOccurs(c, inner, d - 1);
    }
    if i :| OccursAt(c, inner, i) {
      assert forall k :: 0 <= k < |c| ==> c[k] == inner[i..i + |c|][k] == marker[i + 1 + k];
      assert OverlapsAt(c, marker, i + 1);
    }
  }

  lemma EndsAreShared(c: string, marker: string, d: int)
    requires OverlapsAt(c, marker, d) && c != [] && marker != []
    ensures d <= 0 ==> marker[0] in c
    ensures d + |c| >= |marker| ==> marker[|marker| - 1] in c
  {
    if d <= 0 { assert c[-d] == marker[d + -d]; }
    if d + |c| >= |marker| {
      var k := |marker| - 1 - d;
      assert c[k] == marker[d + k];
    }
  }

  /** Around a marker it does not overlap, a text lies in front or behind. */
  lemma OccursAroundMarker(front: string, marker: string, behind: string, other: string)
    requires !Overlaps(other, marker) && Occurs(other, front + (marker + behind))
    ensures Occurs(other, front) || Occurs(other, behind)
  {
    var out := front + (marker + behind);
    var i :| OccursAt(other, out, i);
    if i + |other| <= |front| {
      SliceOfSlice(out, 0, |front|, i, i + |other|);
      assert out[0..|front|] == front;
      HitMeansOccurs(other, front, i);
    } else if i >= |front| + |marker| {
      OccursAtBehind(front, marker, behind, other, i);
    } else {
      AcrossOverlaps(front, marker, behind, other, i);
      assert false;
    }
  }

  lemma AcrossOverlaps(front: string, marker: string, behind: string, other: string, i: int)
    requires OccursAt(other, front + (marker + behind), i)
    requires i < |front| + |marker| && i + |other| > |front|
    ensures OverlapsAt(other, marker, i - |front|)
  {
    var out, d := front + (marker + behind), i - |front|;
    forall k | 0 <= k < |other| && 0 <= d + k < |marker| ensures other[k] == marker[d + k] {
      assert out[i..i + |other|][k] == out[i + k];
    }
  }

  /** A replacement creates nothing that does not overlap its marker: not its own secret, and no other. */
  lemma {:induction false} ReplaceCreatesNothing(text: string, secret: string, marker: string, other: string)
    requires !Overlaps(other, marker) && Occurs(other, Replace(text, secret, marker))
    ensures Occurs(other, text)
    decreases |text|
  {
    hide Replace, Occurs, Overlaps, Gap;
    if secret == "" {
      assert Replace(text, secret, marker) == Everywhere(text, marker) by { ReplaceEmpty(text, marker); }
      EverywhereCreatesNothing(text, marker, other);
      return;
    }
    var n := Gap(text, secret);
    ReplaceByGap(text, secret, marker);
    if n < |text| {
      var behind := Replace(text[n + |secret|..], secret, marker);
      OccursAroundMarker(text[..n], marker, behind, other);
      if Occurs(other, text[..n]) {
        assert text[..n] == text[0..n];
        OccursInPart(other, text, 0, n);
      } else {
        ReplaceCreatesNothing(text[n + |secret|..], secret, marker, other);
        OccursBehind(other, text, n + |secret|);
      }
    }
  }

  lemma ReplaceEmpty(text: string, marker: string)
    ensures Replace(text, "", marker) == Everywhere(text, marker)
  {
  }

  lemma {:induction false} EverywhereCreatesNothing(text: string, marker: string, other: string)
    requires !Overlaps(other, marker) && Occurs(other, Everywhere(text, marker))
    ensures Occurs(other, text)
  {
    hide Occurs, Overlaps;
    assert "" + (marker + "") == marker;
    if text == [] {
      OccursAroundMarker("", marker, "", other);
    } else {
      var behind := Everywhere(text[1..], marker);
      assert "" + (marker + ([text[0]] + behind)) == Everywhere(text, marker);
      OccursAroundMarker("", marker, [text[0]] + behind, other);
      var i := |marker|;
      assert behind[..i] == marker;
      assert [text[0]] + behind == [text[0]] + (marker + behind[i..]);
      if Occurs(other, [text[0]] + behind) { OccursAroundMarker([text[0]], marker, behind[i..], other); }
      EverywhereParts(text, behind, i, other);
      if Occurs(other, behind) {
        EverywhereCreatesNothing(text[1..], marker, other);
        OccursBehind(other, text, 1);
      }
    }
  }

  lemma EverywhereParts(text: string, behind: string, i: nat, other: string)
    requires text != [] && i <= |behind|
    requires Occurs(other, "") || Occurs(other, [text[0]]) || Occurs(other, behind[i..])
    ensures Occurs(other, text) || Occurs(other, behind)
  {
    hide Occurs;
    assert text[0..0] == "" && text[0..1] == [text[0]];
    if Occurs(other, "") { OccursInPart(other, text, 0, 0); }
    if Occurs(other, [text[0]]) { OccursInPart(other, text, 0, 1); }
    if Occurs(other, behind[i..]) { OccursBehind(other, behind, i); }
  }

  lemma GapIsFirst(front: string, secret: string, behind: string)
    requires secret != []
    requires forall i :: 0 <= i < |front| ==> !OccursAt(secret, front + secret + behind, i)
    ensures Gap(front + secret + behind, secret) == |front|
  {
    var text := front + secret + behind;
    GapIs(text, secret);
    assert text[|front|..|front| + |secret|] == secret;
    assert OccursAt(secret, text, |front|);
  }

  /** A text with one hit, its first, and nothing to find behind it. */
  lemma ReplaceOnce(front: string, secret: string, behind: string, marker: string)
    requires secret != []
    requires forall i :: 0 <= i < |front| ==> !OccursAt(secret, front + secret + behind, i)
    requires Gap(behind, secret) == |behind|
    ensures Replace(front + secret + behind, secret, marker) == front + (marker + behind)
  {
    hide Replace, Gap;
    var text := front + secret + behind;
    GapIsFirst(front, secret, behind);
    ReplaceByGap(text, secret, marker);
    ReplaceByGap(behind, secret, marker);
    assert text[..|front|] == front && text[|front| + |secret|..] == behind;
  }

  /** The parts of a text that stick out of a marker it overlaps. */
  function Head(c: string, d: int): string
    requires -|c| < d
  {
    if d < 0 then c[..-d] else ""
  }

  function Tail(c: string, marker: string, d: int): string
    requires d < |marker|
  {
    if d + |c| > |marker| then c[|marker| - d..] else ""
  }

  lemma SpelledAroundAt(c: string, marker: string, d: int, k: nat)
    requires OverlapsAt(c, marker, d) && k < |c|
    ensures
      var out, i := Head(c, d) + (marker + Tail(c, marker, d)), if d < 0 then 0 else d;
      i + |c| <= |out| && out[i + k] == c[k]
  {
    if 0 <= d + k < |marker| { assert c[k] == marker[d + k]; }
  }

  /** Between those parts a marker spells the text. */
  lemma SpelledAround(c: string, marker: string, d: int)
    requires c != [] && OverlapsAt(c, marker, d)
    ensures Occurs(c, Head(c, d) + (marker + Tail(c, marker, d)))
  {
    hide Head, Tail, Occurs;
    var out, i := Head(c, d) + (marker + Tail(c, marker, d)), if d < 0 then 0 else d;
    SpelledAroundAt(c, marker, d, 0);
    forall k | 0 <= k < |c| ensures out[i..i + |c|][k] == c[k] {
      SpelledAroundAt(c, marker, d, k);
    }
    assert out[i..i + |c|] == c;
    HitMeansOccurs(c, out, i);
  }

  /** No character of `filler` is in `c`. */
  predicate SharesNothing(filler: string, c: string) {
    forall k :: 0 <= k < |filler| ==> filler[k] !in c
  }

  /** The text in which replacing `filler` brings `c` about. */
  function CreatingText(c: string, marker: string, d: int, filler: string): string
    requires -|c| < d < |marker|
  {
    Head(c, d) + filler + Tail(c, marker, d)
  }

  lemma {:induction false} GapWithout(text: string, filler: string)
    requires filler != "" && filler[0] !in text
    ensures Gap(text, filler) == |text|
  {
    if text != [] {
      assert text[0] in text;
      StartsWithFirst(text, filler);
      GapWithout(text[1..], filler);
    }
  }

  /** What overlaps a marker can be created: from a text without it, by replacing what it shares no character with. */
  lemma OverlapIsCreated(c: string, marker: string, d: int, filler: string)
    requires OverlapsAt(c, marker, d) && c != [] && filler != "" && SharesNothing(filler, c)
    ensures
      var text := CreatingText(c, marker, d, filler);
      !Occurs(c, text) && Occurs(c, Replace(text, filler, marker))
  {
    hide Replace, Gap, Occurs;
    var head, tail := Head(c, d), Tail(c, marker, d);
    var text := head + filler + tail;
    forall i | 0 <= i < |head| ensures !OccursAt(filler, text, i) {
      assert text[i] == head[i] && head[i] in c;
      OccursWithFirst(filler, text, i);
    }
    assert filler[0] !in tail;
    GapWithout(tail, filler);
    ReplaceOnce(head, filler, tail, marker);
    SpelledAround(c, marker, d);
    if Occurs(c, text) {
      OccursBeside(c, head, filler, tail);
      TooShort(c, head);
      TooShort(c, tail);
    }
  }

  lemma OccursWithFirst(needle: string, text: string, i: nat)
    requires needle != ""
    ensures OccursAt(needle, text, i) ==> text[i] == needle[0]
  {
    if OccursAt(needle, text, i) { assert text[i..i + |needle|][0] == text[i]; }
  }

  lemma TooShort(c: string, text: string)
    requires |text| < |c|
    ensures !Occurs(c, text)
  {
  }

  /** Exactly what overlaps the marker can appear in a text by a replacement; `ch` is any character outside it. */
  lemma ReplaceCreatesNothingIff(other: string, marker: string, ch: char)
    requires other != [] && ch !in other
    ensures
      (forall text, secret :: Occurs(other, Replace(text, secret, marker)) ==> Occurs(other, text))
      <==> !Overlaps(other, marker)
  {
    hide Replace, Occurs;
    if d :| OverlapsAt(other, marker, d) {
      OverlapIsCreated(other, marker, d, [ch]);
      assert Occurs(other, Replace(CreatingText(other, marker, d, [ch]), [ch], marker));
    } else {
      forall text, secret | Occurs(other, Replace(text, secret, marker)) ensures Occurs(other, text) {
        ReplaceCreatesNothing(text, secret, marker, other);
      }
    }
  }

  // ----- A secret and its own marker -----

  /** Behind its own first `k` characters a secret is found where it stands, and not before. */
  predicate StandsAlone(c: string, k: nat)
    requires k <= |c|
  {
    forall j :: 0 <= j < k ==> !OccursAt(c, c[..k] + c, j)
  }

  predicate SurvivesAt(c: string, marker: string, d: int) {
    OverlapsAt(c, marker, d) && (d >= 0 || StandsAlone(c, -d))
  }

  ghost predicate Survives(c: string, marker: string) {
    exists d :: SurvivesAt(c, marker, d)
  }

  /** A text whose replacement still holds the secret. */
  function SurvivalText(c: string, marker: string, d: int): string
    requires -|c| < d < |marker|
  {
    Head(c, d) + c + Tail(c, marker, d)
  }

  lemma SurvivorSurvives(c: string, marker: string, d: int)
    requires c != [] && SurvivesAt(c, marker, d)
    ensures Occurs(c, Replace(SurvivalText(c, marker, d), c, marker))
  {
    hide Replace, Gap, Occurs;
    var head, tail := Head(c, d), Tail(c, marker, d);
    var text := head + c + tail;
    forall i | 0 <= i < |head| ensures !OccursAt(c, text, i) {
      assert text[i..i + |c|] == (head + c)[i..i + |c|];
      assert !OccursAt(c, c[..-d] + c, i);
    }
    GapOfShort(tail, c);
    ReplaceOnce(head, c, tail, marker);
    SpelledAround(c, marker, d);
  }

  lemma GapOfShort(text: string, secret: string)
    requires secret != [] && |text| < |secret|
    ensures Gap(text, secret) == |text|
  {
    GapIs(text, secret);
  }

  /** What starts in front of the end of the first marker, or in it. */
  lemma AcrossSurvives(text: string, c: string, marker: string, n: nat, behind: string, i: nat)
    requires n + |c| <= |text| && OccursAt(c, text, n) && !Occurs(c, text[..n])
    requires forall j :: 0 <= j < n ==> !OccursAt(c, text, j)
    requires OccursAt(c, text[..n] + (marker + behind), i) && i < n + |marker|
    ensures SurvivesAt(c, marker, i - n)
  {
    hide OccursAt, Occurs, StandsAlone, OverlapsAt;
    var front, out := text[..n], text[..n] + (marker + behind);
    InFront(front, marker + behind, c, i);
    AcrossOverlaps(front, marker, behind, c, i);
    OverlapIsNear(c, marker, i - n);
    if i < n { StoodAlone(text, c, n, i, out); }
  }

  lemma OverlapIsNear(c: string, marker: string, d: int)
    requires OverlapsAt(c, marker, d)
    ensures -|c| < d < |marker|
  {
  }

  /** Whatever the text: a secret left behind by its own replacement survives somewhere at a marker. */
  lemma {:induction false} LeftBehindSurvives(text: string, c: string, marker: string)
    requires c != [] && Occurs(c, Replace(text, c, marker))
    ensures Survives(c, marker)
    decreases |text|
  {
    hide Replace, Gap, SurvivesAt, Hits;
    var n := Gap(text, c);
    ReplaceByGap(text, c, marker);
    NothingInGap(text, c);
    GapIs(text, c);
    assert text[..|text|] == text;
    if n < |text| {
      var behind := Replace(text[n + |c|..], c, marker);
      var out := text[..n] + (marker + behind);
      var i :| OccursAt(c, out, i);
      if i >= n + |marker| {
        OccursAtBehind(text[..n], marker, behind, c, i);
        LeftBehindSurvives(text[n + |c|..], c, marker);
      } else {
        AcrossSurvives(text, c, marker, n, behind, i);
      }
    }
  }

  lemma OccursAtBehind(front: string, marker: string, behind: string, c: string, i: nat)
    requires OccursAt(c, front + (marker + behind), i) && i >= |front| + |marker|
    ensures Occurs(c, behind)
  {
    var out, from := front + (marker + behind), |front| + |marker|;
    SliceOfSlice(out, from, |out|, i - from, i - from + |c|);
    assert out[from..|out|] == behind;
    HitMeansOccurs(c, behind, i - from);
  }

  lemma InFront(front: string, behind: string, c: string, i: int)
    requires OccursAt(c, front + behind, i) && !Occurs(c, front)
    ensures i + |c| > |front|
  {
    if i + |c| <= |front| {
      assert (front + behind)[i..i + |c|] == front[i..i + |c|];
      HitMeansOccurs(c, front, i);
    }
  }

  lemma StoodAlone(text: string, c: string, n: nat, i: nat, out: string)
    requires i < n && n + |c| <= |text| && OccursAt(c, text, n) && n - i < |c|
    requires n <= |out| && out[..n] == text[..n] && OccursAt(c, out, i)
    requires forall j :: 0 <= j < n ==> !OccursAt(c, text, j)
    ensures StandsAlone(c, n - i)
  {
    var k := n - i;
    assert out[i..i + |c|][..k] == out[..n][i..n] == text[..n][i..n] == text[i..n];
    assert c[..k] == text[i..n] && c == text[n..n + |c|];
    assert c[..k] + c == text[i..n + |c|];
    forall j | 0 <= j < k ensures !OccursAt(c, c[..k] + c, j) {
      SliceOfSlice(text, i, n + |c|, j, j + |c|);
      assert !OccursAt(c, text, i + j);
    }
  }

  /** One replacement removes its own secret from every text exactly when the secret cannot survive at the marker. */
  lemma ReplaceRemovesIff(secret: string, marker: string)
    requires secret != []
    ensures (forall text :: !Occurs(secret, Replace(text, secret, marker))) <==> !Survives(secret, marker)
  {
    hide Replace, Occurs, SurvivesAt;
    if d :| SurvivesAt(secret, marker, d) {
      assert OverlapsAt(secret, marker, d) by { SurvivorOverlaps(secret, marker, d); }
      SurvivorSurvives(secret, marker, d);
      assert Occurs(secret, Replace(SurvivalText(secret, marker, d), secret, marker));
    } else {
      forall text ensures !Occurs(secret, Replace(text, secret, marker)) {
        if Occurs(secret, Replace(text, secret, marker)) { LeftBehindSurvives(text, secret, marker); }
      }
    }
  }

  lemma SurvivorOverlaps(c: string, marker: string, d: int)
    requires SurvivesAt(c, marker, d)
    ensures OverlapsAt(c, marker, d)
  {
  }

  lemma SurvivorsOverlap(c: string, marker: string)
    ensures Survives(c, marker) ==> Overlaps(c, marker)
  {
    hide OverlapsAt, StandsAlone;
  }

  /** After its own replacement a secret that overlaps no part of the marker is gone. */
  lemma ReplaceRemoves(text: string, secret: string, marker: string)
    requires secret != [] && !Overlaps(secret, marker)
    ensures !Occurs(secret, Replace(text, secret, marker))
  {
    hide Replace, Occurs, Overlaps, Survives;
    SurvivorsOverlap(secret, marker);
    if Occurs(secret, Replace(text, secret, marker)) {
      LeftBehindSurvives(text, secret, marker);
    }
  }

  /** An overlap that reaches over an end of the marker. */
  ghost predicate Straddles(c: string, marker: string) {
    exists d :: OverlapsAt(c, marker, d) && (d < 0 || d + |c| > |marker|)
  }

  /**
   For a secret that does not reach over an end of the marker, text by text: it is left behind
   exactly when it was there and the marker itself spells it.
   */
  lemma ReplaceLeavesOnlyMarkers(text: string, secret: string, marker: string)
    requires secret != [] && !Straddles(secret, marker)
    ensures Occurs(secret, Replace(text, secret, marker)) <==> Occurs(secret, text) && Occurs(secret, marker)
  {
    hide Replace, Gap;
    var n := Gap(text, secret);
    ReplaceByGap(text, secret, marker);
    GapIs(text, secret);
    NothingInGap(text, secret);
    assert text[..|text|] == text;
    if Occurs(secret, Replace(text, secret, marker)) {
      LeftBehindSurvives(text, secret, marker);
      var d :| SurvivesAt(secret, marker, d);
      assert OverlapsAt(secret, marker, d) && 0 <= d <= |marker| - |secret|;
      assert marker[d..d + |secret|] == secret;
      HitMeansOccurs(secret, marker, d);
      if n < |text| { HitMeansOccurs(secret, text, n); }
    } else if n < |text| && Occurs(secret, marker) {
      var behind := Replace(text[n + |secret|..], secret, marker);
      var out := text[..n] + (marker + behind);
      assert out[n..n + |marker|] == marker;
      OccursInPart(secret, out, n, n + |marker|);
    }
  }

  lemma HitMeansOccurs(secret: string, text: string, i: int)
    requires OccursAt(secret, text, i)
    ensures Occurs(secret, text)
  {
  }

  // ----- The whole pass -----

  /** No marker of the pass overlaps a secret. */
  ghost predicate IsUnspelled(secret: string, cs: seq<Candidate>) {
    forall d :: d in cs ==> !Overlaps(secret, Marker(d.kind))
  }

  /** A secret no longer in the text stays out of it through all later replacements. */
  lemma {:induction false} LiteralsCreateNothing(text: string, cs: seq<Candidate>, other: string)
    requires IsUnspelled(other, cs) && !Occurs(other, text)
    ensures !Occurs(other, Literals(text, cs).text)
    decreases |cs|
  {
    hide Replace, Marker, Occurs, Hits, Overlaps;
    if cs != [] {
      var replaced := Replace(text, cs[0].secret, Marker(cs[0].kind));
      if Occurs(other, replaced) {
        ReplaceCreatesNothing(text, cs[0].secret, Marker(cs[0].kind), other);
      }
      LiteralsCreateNothing(replaced, cs[1..], other);
    }
  }

  /** After the whole pass no candidate is left in the text that the markers put in from its turn on cannot spell. */
  lemma {:induction false} LiteralsRemoveAll(text: string, cs: seq<Candidate>, i: nat)
    requires i < |cs| && cs[i].secret != "" && IsUnspelled(cs[i].secret, cs[i..])
    ensures !Occurs(cs[i].secret, Literals(text, cs).text)
    decreases |cs|
  {
    hide Replace, Marker, Occurs, Hits, Overlaps;
    var first := cs[0];
    var replaced := Replace(text, first.secret, Marker(first.kind));
    if i > 0 {
      assert cs[1..][i - 1..] == cs[i..] && cs[1..][i - 1] == cs[i];
      LiteralsRemoveAll(replaced, cs[1..], i - 1);
    } else {
      assert cs[0..] == cs && first in cs;
      ReplaceRemoves(text, first.secret, Marker(first.kind));
      LiteralsCreateNothing(replaced, cs[1..], first.secret);
    }
  }

  // ----- The candidates of a policy -----

  datatype Policy = Policy(minSecretLen: nat, literals: seq<string>, scanEnvironment: bool)

  predicate LooksLikeEndpoint(value: string) {
    || Starts(value, "http://") || Starts(value, "https://") || Starts(value, "unix://")
    || Starts(value, "/") || Starts(value, ".")
  }

  /** What the scan of the environment keeps: values that are no endpoints, of eight bytes or more, longest first. */
  predicate IsSnapshot(env: seq<string>) {
    && (forall i :: 0 <= i < |env| ==> !LooksLikeEndpoint(env[i]) && ByteLength(env[i]) >= 8)
    && (forall i, j :: 0 <= i < j < |env| ==> ByteLength(env[i]) >= ByteLength(env[j]))
  }

  /** The values of at least `min` characters. */
  function Kept(values: seq<string>, kind: SecretKind, min: nat): seq<Candidate> {
    if values == [] then []
    else (if |values[0]| >= min then [Candidate(values[0], kind)] else []) + Kept(values[1..], kind, min)
  }

  function Collected(policy: Policy, env: seq<string>): seq<Candidate> {
    Kept(policy.literals, SecretField, policy.minSecretLen)
    + if policy.scanEnvironment then Kept(env, Env, policy.minSecretLen) else []
  }

  /** The candidate in front of the first that is no longer. */
  function Inserted(c: Candidate, cs: seq<Candidate>): seq<Candidate> {
    if cs != [] && |cs[0].secret| > |c.secret| then [cs[0]] + Inserted(c, cs[1..]) else [c] + cs
  }

  /** A stable sort by falling length. */
  function LongestFirst(cs: seq<Candidate>): seq<Candidate> {
    if cs == [] then [] else Inserted(cs[0], LongestFirst(cs[1..]))
  }

  function CandidatesOf(policy: Policy, env: seq<string>): seq<Candidate> {
    LongestFirst(Collected(policy, env))
  }

  /** The loops of `candidates`. */
  method Candidates(policy: Policy, env: seq<string>) returns (cs: seq<Candidate>)
    ensures cs == CandidatesOf(policy, env)
  {
    hide LongestFirst;
    var min, i := policy.minSecretLen, 0;
    cs := [];
    while i < |policy.literals|
      invariant i <= |policy.literals|
      invariant cs == Kept(policy.literals[..i], SecretField, min)
    {
      KeptNext(policy.literals[..i], SecretField, min, policy.literals[i]);
      assert policy.literals[..i + 1] == policy.literals[..i] + [policy.literals[i]];
      if |policy.literals[i]| >= min { cs := cs + [Candidate(policy.literals[i], SecretField)]; }
      i := i + 1;
    }
    assert policy.literals[..i] == policy.literals;
    if policy.scanEnvironment {
      i := 0;
      ghost var front := cs;
      while i < |env|
        invariant i <= |env|
        invariant cs == front + Kept(env[..i], Env, min)
      {
        KeptNext(env[..i], Env, min, env[i]);
        assert env[..i + 1] == env[..i] + [env[i]];
        if |env[i]| >= min { cs := cs + [Candidate(env[i], Env)]; }
        i := i + 1;
      }
      assert env[..i] == env;
    }
    assert cs == Collected(policy, env);
    cs := LongestFirst(cs);
  }

  lemma {:induction false} KeptNext(values: seq<string>, kind: SecretKind, min: nat, value: string)
    ensures Kept(values + [value], kind, min) ==
            Kept(values, kind, min) + if |value| >= min then [Candidate(value, kind)] else []
  {
    if values != [] {
      KeptNext(values[1..], kind, min, value);
      assert (values + [value])[1..] == values[1..] + [value];
    }
  }

  /** The candidates of one length, in their order. */
  function OfLength(cs: seq<Candidate>, n: nat): seq<Candidate> {
    if cs == [] then [] else (if |cs[0].secret| == n then [cs[0]] else []) + OfLength(cs[1..], n)
  }

  predicate IsLongestFirst(cs: seq<Candidate>) {
    forall i, j :: 0 <= i < j < |cs| ==> |cs[i].secret| >= |cs[j].secret|
  }

  lemma OfLengthCons(c: Candidate, cs: seq<Candidate>, n: nat)
    ensures OfLength([c] + cs, n) == (if |c.secret| == n then [c] else []) + OfLength(cs, n)
  {
    assert ([c] + cs)[1..] == cs;
  }

  lemma {:induction false} OfLengthNone(cs: seq<Candidate>, n: nat)
    requires forall i :: 0 <= i < |cs| ==> |cs[i].secret| != n
    ensures OfLength(cs, n) == []
  {
    if cs != [] { OfLengthNone(cs[1..], n); }
  }

  lemma {:induction false} InsertedIs(c: Candidate, cs: seq<Candidate>, n: nat)
    requires IsLongestFirst(cs)
    ensures IsLongestFirst(Inserted(c, cs))
    ensures forall d :: d in Inserted(c, cs) <==> d == c || d in cs
    ensures OfLength(Inserted(c, cs), n) == (if |c.secret| == n then [c] else []) + OfLength(cs, n)
  {
    hide OfLength;
    if cs != [] && |cs[0].secret| > |c.secret| {
      var rest := Inserted(c, cs[1..]);
      InsertedIs(c, cs[1..], n);
      forall j | 0 <= j < |rest| ensures |cs[0].secret| >= |rest[j].secret| {
        if rest[j] != c { assert rest[j] in cs[1..]; }
      }
      OfLengthCons(cs[0], rest, n);
      OfLengthCons(cs[0], cs[1..], n);
      assert cs == [cs[0]] + cs[1..];
    } else {
      OfLengthCons(c, cs, n);
    }
  }

  /** The sort loses none, puts the longer ones first, and keeps the order of those of one length. */
  lemma {:induction false} LongestFirstIs(cs: seq<Candidate>, n: nat)
    ensures IsLongestFirst(LongestFirst(cs))
    ensures forall d :: d in LongestFirst(cs) <==> d in cs
    ensures OfLength(LongestFirst(cs), n) == OfLength(cs, n)
  {
    hide Inserted;
    if cs != [] {
      LongestFirstIs(cs[1..], n);
      InsertedIs(cs[0], LongestFirst(cs[1..]), n);
      assert cs == [cs[0]] + cs[1..];
    }
  }

  lemma {:induction false} KeptAre(values: seq<string>, kind: SecretKind, min: nat, c: Candidate)
    ensures c in Kept(values, kind, min) <==> c.kind == kind && c.secret in values && |c.secret| >= min
  {
    if values != [] {
      KeptAre(values[1..], kind, min, c);
      assert values == [values[0]] + values[1..];
    }
  }

  /** The candidates are the long enough literals and scanned values, longest first, and literals first among equals. */
  lemma CandidatesAre(policy: Policy, env: seq<string>, c: Candidate, n: nat)
    ensures c in CandidatesOf(policy, env) <==>
            && |c.secret| >= policy.minSecretLen
            && (|| (c.kind == SecretField && c.secret in policy.literals)
                || (c.kind == Env && policy.scanEnvironment && c.secret in env))
    ensures IsLongestFirst(CandidatesOf(policy, env))
    ensures OfLength(CandidatesOf(policy, env), n) == OfLength(Collected(policy, env), n)
  {
    hide Kept, OfLength, LongestFirst;
    LongestFirstIs(Collected(policy, env), n);
    KeptAre(policy.literals, SecretField, policy.minSecretLen, c);
    KeptAre(env, Env, policy.minSecretLen, c);
  }

  lemma {:induction false} BytesOfChars(text: string)
    ensures ByteLength(text) <= 4 * |text|
  {
    if text != "" { BytesOfChars(text[1..]); }
  }

  // ----- What a policy removes -----

  predicate IsCandidateSecret(secret: string, cs: seq<Candidate>) {
    exists c: Candidate :: c in cs && c.secret == secret
  }

  /** What overlaps no marker from its turn on is removed by the candidates of any policy. */
  lemma PolicyRemoves(text: string, policy: Policy, env: seq<string>, secret: string)
    requires secret != "" && IsSnapshot(env) && IsCandidateSecret(secret, CandidatesOf(policy, env))
    requires !Overlaps(secret, Marker(SecretField)) && (|secret| >= 2 ==> !Overlaps(secret, Marker(Env)))
    ensures !Occurs(secret, Literals(text, CandidatesOf(policy, env)).text)
  {
    hide CandidatesOf, Literals, Marker, Overlaps, Occurs, Collected, OfLength, ByteLength, LooksLikeEndpoint;
    var cs := CandidatesOf(policy, env);
    var c: Candidate :| c in cs && c.secret == secret;
    var i :| 0 <= i < |cs| && cs[i] == c;
    forall d | d in cs[i..] ensures !Overlaps(secret, Marker(d.kind)) {
      var j :| 0 <= j < |cs[i..]| && cs[i..][j] == d;
      assert d == cs[i + j];
      CandidatesAre(policy, env, d, 0);
      if d.kind == Env { BytesOfChars(d.secret); }
    }
    LiteralsRemoveAll(text, cs, i);
  }

  /** A policy whose candidates are a secret and behind it a filler of the same length. */
  function FillerPolicy(secret: string, filler: string, kind: SecretKind, min: nat): Policy {
    if kind == Env then Policy(min, [secret], true) else Policy(min, [secret, filler], false)
  }

  function FillerEnv(filler: string, kind: SecretKind): seq<string> {
    if kind == Env then [filler] else []
  }

  function FillerPass(secret: string, filler: string, kind: SecretKind, min: nat): seq<Candidate> {
    CandidatesOf(FillerPolicy(secret, filler, kind, min), FillerEnv(filler, kind))
  }

  lemma FillerPassIs(secret: string, filler: string, kind: SecretKind, min: nat)
    requires min <= |secret| == |filler| && (kind == Env || kind == SecretField)
    ensures FillerPass(secret, filler, kind, min) == [Candidate(secret, SecretField), Candidate(filler, kind)]
  {
    var a, b := Candidate(secret, SecretField), Candidate(filler, kind);
    assert Kept([filler], kind, min) == [b] && [secret, filler][1..] == [filler];
    assert Kept([secret], SecretField, min) == [a];
    assert Collected(FillerPolicy(secret, filler, kind, min), FillerEnv(filler, kind)) == [a, b];
    assert [a, b][1..] == [b] && LongestFirst([b]) == [b];
    assert Inserted(a, [b]) == [a, b];
  }

  /** What overlaps a marker of the pass comes back: a candidate, not in the text, and in the output. */
  lemma OverlapComesBack(secret: string, filler: string, kind: SecretKind, min: nat, d: int)
    requires secret != "" && min <= |secret| == |filler| && SharesNothing(filler, secret)
    requires (kind == Env || kind == SecretField) && OverlapsAt(secret, Marker(kind), d)
    ensures
      var text, cs := CreatingText(secret, Marker(kind), d, filler), FillerPass(secret, filler, kind, min);
      IsCandidateSecret(secret, cs) && !Occurs(secret, text) && Occurs(secret, Literals(text, cs).text)
  {
    hide Replace, Marker, Occurs, Hits, CreatingText, Gap, FillerPass;
    var cs, text := FillerPass(secret, filler, kind, min), CreatingText(secret, Marker(kind), d, filler);
    FillerPassIs(secret, filler, kind, min);
    assert cs[0] in cs && cs[1..] == [cs[1]] && cs[1..][1..] == [];
    OverlapIsCreated(secret, Marker(kind), d, filler);
    GapWhenAbsent(text, secret);
    ReplaceByGap(text, secret, Marker(SecretField));
    var out := Replace(text, filler, Marker(kind));
    assert Literals(text, cs[1..]).text == Literals(out, []).text;
  }

  lemma GapWhenAbsent(text: string, secret: string)
    requires secret != [] && !Occurs(secret, text)
    ensures Gap(text, secret) == |text|
  {
    GapIs(text, secret);
  }

  /** A character outside the secret that UTF-8 writes in four bytes, as often as the secret is long. */
  function Filler(ch: char, n: nat): (filler: string)
    ensures |filler| == n && forall k :: 0 <= k < n ==> filler[k] == ch
  {
    seq(n, _ => ch)
  }

  lemma {:induction false} BytesOfFiller(text: string, ch: char)
    requires ch >= 0x1_0000 as char && forall k :: 0 <= k < |text| ==> text[k] == ch
    ensures ByteLength(text) == 4 * |text|
  {
    if text != "" { BytesOfFiller(text[1..], ch); }
  }

  lemma FillerIsSnapshot(ch: char, n: nat)
    requires ch >= 0x1_0000 as char && n >= 2
    ensures IsSnapshot([Filler(ch, n)])
  {
    hide ByteLength, Starts;
    var filler := Filler(ch, n);
    BytesOfFiller(filler, ch);
    StartsWithFirst(filler, "http://");
    StartsWithFirst(filler, "https://");
    StartsWithFirst(filler, "unix://");
    StartsWithFirst(filler, "/");
    StartsWithFirst(filler, ".");
  }

  /**
   Exactly the secrets that overlap neither marker of the pass are removed from every text under
   every policy of that least length that has them among its candidates.  Behind a secret of one
   character no value of the environment can come.  `ch` is any character of four bytes outside
   the secret.
   */
  lemma LiteralsRemoveIff(secret: string, min: nat, ch: char)
    requires secret != "" && min <= |secret| && ch !in secret && ch >= 0x1_0000 as char
    ensures
      (forall text, policy: Policy, env ::
         policy.minSecretLen == min && IsSnapshot(env) && IsCandidateSecret(secret, CandidatesOf(policy, env)) ==>
         !Occurs(secret, Literals(text, CandidatesOf(policy, env)).text))
      <==> !Overlaps(secret, Marker(SecretField)) && (|secret| >= 2 ==> !Overlaps(secret, Marker(Env)))
  {
    hide Literals, Marker, Occurs, IsSnapshot, IsCandidateSecret, CandidatesOf, CreatingText, OverlapsAt;
    if Overlaps(secret, Marker(SecretField)) {
      RemovalFails(secret, SecretField, min, ch);
    } else if |secret| >= 2 && Overlaps(secret, Marker(Env)) {
      RemovalFails(secret, Env, min, ch);
    } else {
      forall text, policy: Policy, env | policy.minSecretLen == min && IsSnapshot(env)
                                && IsCandidateSecret(secret, CandidatesOf(policy, env))
        ensures !Occurs(secret, Literals(text, CandidatesOf(policy, env)).text)
      {
        PolicyRemoves(text, policy, env, secret);
      }
    }
  }

  lemma RemovalFails(secret: string, kind: SecretKind, min: nat, ch: char)
    requires secret != "" && min <= |secret| && ch !in secret && ch >= 0x1_0000 as char
    requires kind == SecretField || (kind == Env && |secret| >= 2)
    requires Overlaps(secret, Marker(kind))
    ensures exists text, policy: Policy, env ::
      policy.minSecretLen == min && IsSnapshot(env) && IsCandidateSecret(secret, CandidatesOf(policy, env))
      && Occurs(secret, Literals(text, CandidatesOf(policy, env)).text)
  {
    hide Literals, Marker, Occurs, IsCandidateSecret, CandidatesOf, CreatingText;
    var d :| OverlapsAt(secret, Marker(kind), d);
    var filler := Filler(ch, |secret|);
    var policy, env := FillerPolicy(secret, filler, kind, min), FillerEnv(filler, kind);
    OverlapComesBack(secret, filler, kind, min, d);
    if kind == Env { FillerIsSnapshot(ch, |secret|); }
    assert IsSnapshot(env) && policy.minSecretLen == min;
    assert Occurs(secret, Literals(CreatingText(secret, Marker(kind), d, filler), CandidatesOf(policy, env)).text);
  }

  /** Two literals under the least length of eight: the end of a marker and the text behind it spell the first again. */
  lemma BracketedSecretComesBack()
    ensures
      var cs := CandidatesOf(Policy(8, ["]bbbbbbb", "XXXXXXXX"], false), []);
      && IsCandidateSecret("]bbbbbbb", cs)
      && !Occurs("]bbbbbbb", "XXXXXXXXbbbbbbb") && Occurs("]bbbbbbb", Literals("XXXXXXXXbbbbbbb", cs).text)
  {
    hide Literals, Occurs, IsCandidateSecret, CandidatesOf;
    var secret, filler, m := "]bbbbbbb", "XXXXXXXX", Marker(SecretField);
    var d := |m| - 1;
    assert m[d] == ']' && OverlapsAt(secret, m, d);
    assert CreatingText(secret, m, d, filler) == "XXXXXXXXbbbbbbb" by {
      assert Tail(secret, m, d) == secret[1..] == "bbbbbbb";
    }
    OverlapComesBack(secret, filler, SecretField, 8, d);
  }

  /** How many markers a text opens. */
  function Openings(text: string): nat {
    if text == [] then 0 else (if text[0] == '[' then 1 else 0) + Openings(text[1..])
  }

  lemma {:induction false} OpeningsOfConcat(a: string, b: string)
    ensures Openings(a + b) == Openings(a) + Openings(b)
  {
    if a == [] {
      assert a + b == b;
    } else {
      OpeningsOfConcat(a[1..], b);
      assert (a + b)[1..] == a[1..] + b;
    }
  }

  lemma OpeningsOfMarker(kind: SecretKind)
    ensures Openings(Marker(kind)) == 1
  {
    var rest := Interior(kind) + "]";
    NoOpenings(rest);
    assert Marker(kind)[1..] == rest;
  }

  lemma {:induction false} NoOpenings(text: string)
    requires '[' !in text
    ensures Openings(text) == 0
  {
    if text != [] {
      assert text[0] in text;
      NoOpenings(text[1..]);
    }
  }

  lemma {:induction false} HitsAreMarkers(text: string, secret: string, kind: SecretKind)
    ensures Openings(Replace(text, secret, Marker(kind))) + Hits(text, secret) * Openings(secret) ==
            Openings(text) + Hits(text, secret)
    decreases |text|
  {
    hide Marker, Starts, Openings;
    OpeningsOfMarker(kind);
    if secret == "" {
      NoOpenings("");
      EverywhereCounts(text, kind);
    } else if text == [] {
    } else if Starts(text, secret) {
      StartsFits(text, secret);
      var behind := text[|secret|..];
      HitsAreMarkers(behind, secret, kind);
      OpeningsOfConcat(Marker(kind), Replace(behind, secret, Marker(kind)));
      OpeningsOfConcat(secret, behind);
      assert text == secret + behind by { StartsSplits(text, secret); }
      OneMore(Hits(behind, secret), Openings(secret));
    } else {
      HitsAreMarkers(text[1..], secret, kind);
      OpeningsOfConcat([text[0]], Replace(text[1..], secret, Marker(kind)));
      OpeningsOfConcat([text[0]], text[1..]);
      assert text == [text[0]] + text[1..];
    }
  }

  lemma StartsSplits(text: string, secret: string)
    requires Starts(text, secret)
    ensures text == secret + text[|secret|..]
  {
  }

  lemma OneMore(n: nat, k: nat)
    ensures (1 + n) * k == k + n * k
  {
  }

  lemma {:induction false} EverywhereCounts(text: string, kind: SecretKind)
    ensures Openings(Everywhere(text, Marker(kind))) == Openings(text) + |text| + 1
  {
    hide Marker, Openings;
    OpeningsOfMarker(kind);
    if text == [] {
      NoOpenings("");
    } else {
      var behind := Everywhere(text[1..], Marker(kind));
      EverywhereCounts(text[1..], kind);
      OpeningsOfConcat(Marker(kind), [text[0]] + behind);
      OpeningsOfConcat([text[0]], behind);
      OpeningsOfConcat([text[0]], text[1..]);
      assert text == [text[0]] + text[1..];
    }
  }

  /** The brackets that left the text with the secrets that held them. */
  function OpeningsTaken(text: string, cs: seq<Candidate>): nat
    decreases |cs|
  {
    if cs == [] then 0
    else
      Hits(text, cs[0].secret) * Openings(cs[0].secret)
      + OpeningsTaken(Replace(text, cs[0].secret, Marker(cs[0].kind)), cs[1..])
  }

  /** The count the pass reports is the number of markers it put in, for any secrets. */
  lemma {:induction false} LiteralsCountMarkers(text: string, cs: seq<Candidate>)
    ensures Openings(Literals(text, cs).text) + OpeningsTaken(text, cs) ==
            Openings(text) + Literals(text, cs).replacements
    ensures (forall c :: c in cs ==> '[' !in c.secret) ==> OpeningsTaken(text, cs) == 0
    decreases |cs|
  {
    hide Replace, Marker, Openings, Hits;
    if cs != [] {
      HitsAreMarkers(text, cs[0].secret, cs[0].kind);
      LiteralsCountMarkers(Replace(text, cs[0].secret, Marker(cs[0].kind)), cs[1..]);
      if '[' !in cs[0].secret { NoOpenings(cs[0].secret); }
    }
  }
}
