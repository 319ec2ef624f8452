/** Shared vocabulary: optional values, bytes, and strings as sequences of characters. */
module Text {
  datatype Option<+T> = None | Some(value: T)

  newtype Byte = b: int | 0 <= b < 256
  type Bytes = seq<Byte>

  /** `text` split around the first `c`, or `None` when there is none. */
  function Cut(text: string, c: char): (r: Option<(string, string)>)
    ensures r.Some? ==> text == r.value.0 + [c] + r.value.1 && c !in r.value.0
    ensures r.None? <==> c !in text
  {
    if text == [] then None
    else if text[0] == c then Some(([], text[1..]))
    else
      match Cut(text[1..], c)
      case None => None
      case Some((before, after)) => Some(([text[0]] + before, after))
  }

  lemma {:induction false} CutAt(before: string, c: char, after: string)
    requires c !in before
    ensures Cut(before + [c] + after, c) == Some((before, after))
  {
    var text := before + [c] + after;
    if before != [] {
      assert before[0] in before && before == [before[0]] + before[1..];
      CutAt(before[1..], c, after);
      assert text[1..] == before[1..] + [c] + after;
    } else {
      assert text[1..] == after;
    }
  }

  /** The parts of `text` between the occurrences of `c`. */
  function Split(text: string, c: char): (parts: seq<string>)
    ensures parts != []
    decreases |text|
  {
    match Cut(text, c)
    case None => [text]
    case Some((before, after)) => [before] + Split(after, c)
  }

  lemma SplitAt(before: string, c: char, after: string)
    requires c !in before
    ensures Split(before + [c] + after, c) == [before] + Split(after, c)
  {
    hide Cut;
    CutAt(before, c, after);
  }

  lemma SplitWhole(text: string, c: char)
    requires c !in text
    ensures Split(text, c) == [text]
  {
    hide Cut;
  }

  /** Three parts without the separator, printed with it, split into themselves. */
  lemma SplitThree(a: string, b: string, d: string, c: char)
    requires c !in a && c !in b && c !in d
    ensures Split(a + [c] + b + [c] + d, c) == [a, b, d]
  {
    hide Split;
    Assoc(a + [c], b, [c]);
    Assoc(a + [c], b + [c], d);
    SplitAt(a, c, b + [c] + d);
    SplitAt(b, c, d);
    SplitWhole(d, c);
  }

  lemma Assoc(a: string, b: string, c: string)
    ensures a + b + c == a + (b + c)
  {
  }

  // ----- Occurrences -----

  ghost predicate Occurs(needle: string, text: string) {
    exists i :: OccursAt(needle, text, i)
  }

  predicate OccursAt(needle: string, text: string, i: int) {
    0 <= i <= |text| - |needle| && text[i..i + |needle|] == needle
  }

  predicate Starts(text: string, needle: string) {
    |needle| <= |text| && text[..|needle|] == needle
  }

  lemma StartsWithFirst(text: string, needle: string)
    requires needle != []
    ensures Starts(text, needle) ==> text[0] == needle[0]
  {
    if Starts(text, needle) { assert needle[0] == text[..|needle|][0]; }
  }

  lemma SliceOfSlice(text: string, from: nat, until: nat, i: nat, j: nat)
    requires from <= until <= |text| && i <= j <= until - from
    ensures text[from..until][i..j] == text[from + i..from + j]
  {
    var a, b := text[from..until][i..j], text[from + i..from + j];
    assert |a| == |b| && forall k :: 0 <= k < |a| ==> a[k] == b[k];
  }

  lemma OccursInPart(needle: string, text: string, from: nat, until: nat)
    requires from <= until <= |text| && Occurs(needle, text[from..until])
    ensures Occurs(needle, text)
  {
    var i :| OccursAt(needle, text[from..until], i);
    SliceOfSlice(text, from, until, i, i + |needle|);
    assert OccursAt(needle, text, from + i);
  }

  lemma OccursBehind(needle: string, text: string, from: nat)
    requires from <= |text| && Occurs(needle, text[from..])
    ensures Occurs(needle, text)
  {
    assert text[from..] == text[from..|text|];
    OccursInPart(needle, text, from, |text|);
  }

  /** An occurrence that shares nothing with a stretch lies in front of it or behind. */
  lemma OccursBeside(needle: string, a: string, b: string, c: string)
    requires b != "" && Occurs(needle, a + b + c) && forall k :: 0 <= k < |b| ==> b[k] !in needle
    ensures Occurs(needle, a) || Occurs(needle, c)
  {
    var text, from := a + b + c, |a| + |b|;
    var i :| OccursAt(needle, text, i);
    var n := |needle|;
    if n == 0 {
      assert OccursAt(needle, a, 0);
    } else if i + n <= |a| {
      SliceOfSlice(text, 0, |a|, i, i + n);
      assert text[0..|a|] == a;
      assert OccursAt(needle, a, i);
    } else if i >= from {
      SliceOfSlice(text, from, |text|, i - from, i - from + n);
      assert text[from..|text|] == c;
      assert OccursAt(needle, c, i - from);
    } else {
      OccursAcross(needle, text, i, if i < |a| then |a| else i);
      assert false;
    }
  }

  lemma OccursAcross(needle: string, text: string, i: int, k: int)
    requires OccursAt(needle, text, i) && i <= k < i + |needle|
    ensures text[k] in needle
  {
    assert text[i..i + |needle|][k - i] == text[k];
  }

  // ----- Bytes -----

  /** The number of bytes of a character in UTF-8. */
  function CharBytes(c: char): nat {
    if c < 0x80 as char then 1 else if c < 0x800 as char then 2 else if c < 0x1_0000 as char then 3 else 4
  }

  function ByteLength(text: string): nat {
    if text == "" then 0 else CharBytes(text[0]) + ByteLength(text[1..])
  }

  // ----- White space -----

  /** The characters with the Unicode property White_Space. */
  predicate IsWhitespace(c: char) {
    var n := c as int;
    || 0x09 <= n <= 0x0D || n == 0x20 || n == 0x85 || n == 0xA0 || n == 0x1680
    || 0x2000 <= n <= 0x200A || n == 0x2028 || n == 0x2029 || n == 0x202F || n == 0x205F || n == 0x3000
  }

  /** They are these twenty-five. */
  lemma WhitespaceIs(c: char)
    ensures IsWhitespace(c) <==>
            c as int in {9, 10, 11, 12, 13, 32, 133, 160, 5760, 8192, 8193, 8194, 8195, 8196, 8197, 8198, 8199, 8200,
                         8201, 8202, 8232, 8233, 8239, 8287, 12288}
  {
  }

  function TrimStart(text: string): string {
    if text != [] && IsWhitespace(text[0]) then TrimStart(text[1..]) else text
  }

  function TrimEnd(text: string): string {
    if text != [] && IsWhitespace(text[|text| - 1]) then TrimEnd(text[..|text| - 1]) else text
  }

  function Trim(text: string): string {
    TrimStart(TrimEnd(text))
  }

  predicate AllWhitespace(text: string) {
    forall i :: 0 <= i < |text| ==> IsWhitespace(text[i])
  }

  lemma {:induction false} TrimStartIs(text: string) returns (front: string)
    ensures text == front + TrimStart(text) && AllWhitespace(front)
    ensures TrimStart(text) != "" ==> !IsWhitespace(TrimStart(text)[0])
  {
    hide IsWhitespace;
    front := "";
    if text != "" && IsWhitespace(text[0]) {
      front := TrimStartIs(text[1..]);
      front := [text[0]] + front;
    } else {
      assert text == "" + text;
    }
  }

  lemma {:induction false} TrimEndIs(text: string) returns (back: string)
    ensures text == TrimEnd(text) + back && AllWhitespace(back)
    ensures TrimEnd(text) != "" ==> !IsWhitespace(TrimEnd(text)[|TrimEnd(text)| - 1])
    decreases |text|
  {
    hide IsWhitespace;
    back := "";
    if text != "" && IsWhitespace(text[|text| - 1]) {
      back := TrimEndIs(text[..|text| - 1]);
      back := back + [text[|text| - 1]];
    } else {
      assert text == text + "";
    }
  }

  /** Trimming takes white space off both ends, and all of it. */
  lemma TrimTakesOff(text: string) returns (front: string, back: string)
    ensures text == front + (Trim(text) + back) && AllWhitespace(front) && AllWhitespace(back)
    ensures Trim(text) != "" ==> !IsWhitespace(Trim(text)[0]) && !IsWhitespace(Trim(text)[|Trim(text)| - 1])
  {
    hide IsWhitespace, TrimStart, TrimEnd;
    back := TrimEndIs(text);
    front := TrimStartIs(TrimEnd(text));
    Assoc(front, Trim(text), back);
    if Trim(text) != "" {
      assert TrimEnd(text)[|TrimEnd(text)| - 1] == Trim(text)[|Trim(text)| - 1];
    }
  }

  // ----- Lines -----

  /** The lines of a text, each with its line break; only the last may lack one. */
  function SplitInclusive(text: string): seq<string>
    decreases |text|
  {
    match Cut(text, '\n')
    case None => if text == [] then [] else [text]
    case Some((line, behind)) => [line + "\n"] + SplitInclusive(behind)
  }

  function Concat(parts: seq<string>): string {
    if parts == [] then "" else parts[0] + Concat(parts[1..])
  }

  /** A sequence of strings that are the lines of a text. */
  predicate AreLines(lines: seq<string>) {
    lines != [] ==>
      && lines[0] != []
      && '\n' !in lines[0][..|lines[0]| - 1]
      && (|lines| > 1 ==> lines[0][|lines[0]| - 1] == '\n')
      && AreLines(lines[1..])
  }

  lemma {:induction false} SplitInclusiveIsLines(text: string)
    ensures AreLines(SplitInclusive(text)) && Concat(SplitInclusive(text)) == text
    decreases |text|
  {
    match Cut(text, '\n')
    case None => if text != [] { assert Concat([text]) == text; }
    case Some((line, behind)) =>
      SplitInclusiveIsLines(behind);
      assert (line + "\n")[..|line|] == line;
      assert SplitInclusive(text)[1..] == SplitInclusive(behind);
  }

  /** Lines put together split into the same lines. */
  lemma {:induction false} SplitInclusiveOfConcat(lines: seq<string>)
    requires AreLines(lines)
    ensures SplitInclusive(Concat(lines)) == lines
  {
    if lines != [] {
      var line, behind := lines[0], Concat(lines[1..]);
      SplitInclusiveOfConcat(lines[1..]);
      assert line == line[..|line| - 1] + [line[|line| - 1]];
      if line[|line| - 1] == '\n' {
        CutAt(line[..|line| - 1], '\n', behind);
        assert Concat(lines) == line[..|line| - 1] + ['\n'] + behind;
      } else {
        assert behind == "" && Concat(lines) == line;
        assert '\n' !in line;
      }
    }
  }

  // ----- Decimal numbers -----

  predicate IsDigit(c: char) {
    '0' <= c <= '9'
  }

  /** The ASCII digits. */
  lemma DigitIs(c: char)
    ensures IsDigit(c) <==> 48 <= c as int <= 57
  {
  }

  predicate AllDigits(text: string) {
    forall i :: 0 <= i < |text| ==> IsDigit(text[i])
  }

  /** The number a string of digits spells. */
  function DigitsValue(text: string): nat
    requires AllDigits(text)
  {
    if text == [] then 0
    else 10 * DigitsValue(text[..|text| - 1]) + (text[|text| - 1] as int - '0' as int)
  }

  function Digit(n: nat): (c: char)
    requires n < 10
    ensures IsDigit(c)
  {
    '0' + n as char
  }

  /** The shortest decimal spelling of `n`. */
  function Decimal(n: nat): (text: string)
    ensures text != [] && AllDigits(text)
  {
    if n < 10 then [Digit(n)] else Decimal(n / 10) + [Digit(n % 10)]
  }

  /** `n` in decimal, with zeros in front up to the given width. */
  function Padded(n: nat, width: nat): (text: string)
    ensures |text| >= width && text != [] && AllDigits(text)
    decreases width
  {
    var text := Decimal(n);
    if |text| < width then seq(width - |text|, _ => '0') + text else text
  }

  lemma {:induction false} DecimalValue(n: nat)
    ensures DigitsValue(Decimal(n)) == n
  {
    if n >= 10 {
      DecimalValue(n / 10);
      assert Decimal(n)[..|Decimal(n)| - 1] == Decimal(n / 10);
    }
  }

  lemma {:induction false} LeadingZeros(k: nat, text: string)
    requires AllDigits(text)
    ensures DigitsValue(seq(k, _ => '0') + text) == DigitsValue(text)
  {
    var zeros := seq(k, _ => '0');
    if text != [] {
      LeadingZeros(k, text[..|text| - 1]);
      assert (zeros + text)[..k + |text| - 1] == zeros + text[..|text| - 1];
    } else if k > 0 {
      LeadingZeros(k - 1, []);
      assert (zeros + text)[..k - 1] == seq(k - 1, _ => '0') + [];
    }
  }

  lemma PaddedValue(n: nat, width: nat)
    ensures DigitsValue(Padded(n, width)) == n
  {
    DecimalValue(n);
    var text := Decimal(n);
    if |text| < width { LeadingZeros(width - |text|, text); }
  }

  lemma {:induction false} DecimalLength(n: nat, width: nat)
    requires width > 0 && n < Power10(width)
    ensures |Decimal(n)| <= width
  {
    if n >= 10 {
      DecimalLength(n / 10, width - 1);
    }
  }

  lemma {:induction false} DecimalIsLonger(n: nat, width: nat)
    requires n >= Power10(width)
    ensures |Decimal(n)| > width
  {
    if width > 0 {
      assert n / 10 >= Power10(width - 1);
      DecimalIsLonger(n / 10, width - 1);
    }
  }

  function Power10(k: nat): (p: nat)
    ensures p > 0
  {
    if k == 0 then 1 else 10 * Power10(k - 1)
  }

  lemma PaddedLength(n: nat, width: nat)
    requires width > 0 && n < Power10(width)
    ensures |Padded(n, width)| == width
  {
    DecimalLength(n, width);
  }

  /**
   Reading an integer: an optional sign, then digits only, and a value between the bounds.
   A minus sign is read for signed targets alone.
   */
  function ParseInteger(text: string, low: int, high: int): Option<int>
    requires low <= 0 <= high
  {
    var negative := text != [] && text[0] == '-' && low < 0;
    var digits := if negative || (text != [] && text[0] == '+') then text[1..] else text;
    if digits == [] || !AllDigits(digits) then None
    else
      var n: int := if negative then 0 - DigitsValue(digits) else DigitsValue(digits);
      if low <= n <= high then Some(n) else None
  }

  /** Digits, perhaps behind a sign, are read as the number they spell where it is between the bounds. */
  lemma IntegerIsRead(sign: string, digits: string, low: int, high: int)
    requires low <= 0 <= high && digits != "" && AllDigits(digits) && (sign == "" || sign == "+" || sign == "-")
    ensures
      var n: int := if sign == "-" then 0 - DigitsValue(digits) else DigitsValue(digits);
      ParseInteger(sign + digits, low, high) == if low <= n <= high && (sign == "-" ==> low < 0) then Some(n) else None
  {
    hide DigitsValue;
    var text := sign + digits;
    assert IsDigit(digits[0]);
    if sign == "" {
      assert text == digits;
    } else {
      assert text[0] == sign[0] && text[1..] == digits;
    }
    if sign == "-" && low == 0 { assert !IsDigit(text[0]); }
  }

  /** And nothing else is read as a number. */
  lemma OnlyIntegersAreRead(text: string, low: int, high: int) returns (sign: string, digits: string)
    requires low <= 0 <= high && ParseInteger(text, low, high).Some?
    ensures text == sign + digits && digits != "" && AllDigits(digits) && (sign == "" || sign == "+" || sign == "-")
  {
    hide DigitsValue;
    if text[0] == '+' || (text[0] == '-' && low < 0) {
      sign, digits := [text[0]], text[1..];
    } else {
      sign, digits := "", text;
    }
  }

  lemma ParsePadded(n: nat, width: nat, low: int, high: int)
    requires low <= 0 <= n <= high
    ensures ParseInteger(Padded(n, width), low, high) == Some(n)
  {
    PaddedValue(n, width);
    assert IsDigit(Padded(n, width)[0]);
  }

  // ----- Order -----

  /** The order of strings, character by character; a string comes in front of its extensions. */
  predicate Precedes(a: string, b: string) {
    a == "" || (b != "" && (a[0] < b[0] || (a[0] == b[0] && Precedes(a[1..], b[1..]))))
  }

  /** At the first difference the smaller character decides, and where one string ends it comes first. */
  lemma {:induction false} PrecedesIs(a: string, b: string, k: nat)
    requires k <= |a| && k <= |b| && a[..k] == b[..k]
    ensures |a| == k ==> Precedes(a, b)
    ensures k < |a| && k < |b| && a[k] < b[k] ==> Precedes(a, b) && !Precedes(b, a)
  {
    if k > 0 {
      assert a[0] == a[..k][0] == b[0];
      assert a[1..][..k - 1] == a[..k][1..] == b[1..][..k - 1];
      PrecedesIs(a[1..], b[1..], k - 1);
    }
  }

  lemma {:induction false} PrecedesIsTotal(a: string, b: string)
    ensures Precedes(a, b) || Precedes(b, a)
    ensures Precedes(a, b) && Precedes(b, a) ==> a == b
  {
    if a != "" && b != "" && a[0] == b[0] {
      PrecedesIsTotal(a[1..], b[1..]);
      assert a == [a[0]] + a[1..] && b == [b[0]] + b[1..];
    }
  }

  lemma {:induction false} PrecedesIsTransitive(a: string, b: string, c: string)
    requires Precedes(a, b) && Precedes(b, c)
    ensures Precedes(a, c)
  {
    if a != "" && a[0] == b[0] == c[0] { PrecedesIsTransitive(a[1..], b[1..], c[1..]); }
  }
}
