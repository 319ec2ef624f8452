/**
 Line-oriented ingestion with a byte ceiling (crates/rupi-core/src/bounded.rs).

 The reader sees its transport one buffer at a time, and a buffer request may fail and
 be retried.  What it returns must depend on the bytes alone: never on where the
 transport cuts its buffers, never on when it fails.
 */
module BoundedLines {
  import opened Text

  const NEWLINE: Byte := 10

  /** What to do with a line longer than the limit. */
  datatype LineOverflow = Reject | Truncate

  datatype BoundedLine = Complete(bytes: Bytes) | Truncated(bytes: Bytes)

  datatype ReadError = InvalidLimit | LineTooLong | Transient

  datatype ReadResult = Failed(error: ReadError) | EndOfInput | Line(line: BoundedLine)

  // ----- The simple form: splitting a byte sequence into bounded lines -----

  /** The number of bytes in front of the first newline, or all of them. */
  function ContentLength(s: Bytes): (n: nat)
    ensures n <= |s|
    ensures n < |s| ==> s[n] == NEWLINE
  {
    if s == [] || s[0] == NEWLINE then 0 else ContentLength(s[1..]) + 1
  }

  function FirstLine(s: Bytes, limit: nat): BoundedLine
    requires s != []
  {
    var n := ContentLength(s);
    if n > limit then Truncated(s[..limit])
    else if n == |s| then Complete(s)
    else Complete(s[..n + 1])
  }

  /** What is retained of a line's content. */
  function Kept(content: Bytes, limit: nat): Bytes {
    if |content| > limit then content[..limit] else content
  }

  function AfterFirstLine(s: Bytes): (rest: Bytes)
    requires s != []
    ensures |rest| < |s|
  {
    var n := ContentLength(s);
    if n == |s| then [] else s[n + 1..]
  }

  function Lines(s: Bytes, limit: nat): seq<BoundedLine>
    decreases |s|
  {
    if s == [] then [] else [FirstLine(s, limit)] + Lines(AfterFirstLine(s), limit)
  }

  function Concat(lines: seq<BoundedLine>): Bytes {
    if lines == [] then [] else lines[0].bytes + Concat(lines[1..])
  }

  /** `ContentLength` is the only index with its properties. */
  lemma {:induction false} ContentLengthIs(s: Bytes, n: nat)
    requires n <= |s|
    ensures ContentLength(s) == n <==> NEWLINE !in s[..n] && (n < |s| ==> s[n] == NEWLINE)
  {
    if s != [] && s[0] != NEWLINE && n > 0 {
      ContentLengthIs(s[1..], n - 1);
      assert s[..n] == [s[0]] + s[1..][..n - 1];
    } else if n > 0 {
      assert s[0] in s[..n];
    }
  }

  /** A stretch without a newline only moves the first newline further back. */
  lemma ContentLengthOfConcat(a: Bytes, b: Bytes)
    requires NEWLINE !in a
    ensures ContentLength(a + b) == |a| + ContentLength(b)
  {
    var n := ContentLength(b);
    ContentLengthIs(b, n);
    assert (a + b)[..|a| + n] == a + b[..n];
    ContentLengthIs(a + b, |a| + n);
  }

  lemma FirstLineIsLossless(s: Bytes, limit: nat)
    requires s != [] && FirstLine(s, limit).Complete?
    ensures s == FirstLine(s, limit).bytes + AfterFirstLine(s)
  {
    hide ContentLength;
    var n := ContentLength(s);
    assert n < |s| ==> s == s[..n + 1] + s[n + 1..];
  }

  /** When nothing is longer than the limit, the lines are the input and nothing else. */
  lemma {:induction false} UntruncatedLinesAreLossless(s: Bytes, limit: nat)
    requires forall l :: l in Lines(s, limit) ==> l.Complete?
    ensures Concat(Lines(s, limit)) == s
    decreases |s|
  {
    hide FirstLine, AfterFirstLine;
    if s != [] {
      var first, rest := FirstLine(s, limit), AfterFirstLine(s);
      assert Lines(s, limit)[0] == first && Lines(s, limit)[1..] == Lines(rest, limit);
      UntruncatedLinesAreLossless(rest, limit);
      FirstLineIsLossless(s, limit);
    }
  }

  // ----- The lines of written contents -----

  /** Contents, each with a newline behind it. */
  function Framed(contents: seq<Bytes>, last: Bytes): Bytes {
    if contents == [] then last else contents[0] + ([10] + Framed(contents[1..], last))
  }

  /** A content within the limit stays with its newline; of a longer one the first bytes stay. */
  function Bounded(content: Bytes, end: Bytes, limit: nat): BoundedLine {
    if |content| > limit then Truncated(content[..limit]) else Complete(content + end)
  }

  function AllBounded(contents: seq<Bytes>, last: Bytes, limit: nat): seq<BoundedLine> {
    if contents == [] then (if last == [] then [] else [Bounded(last, [], limit)])
    else [Bounded(contents[0], [10], limit)] + AllBounded(contents[1..], last, limit)
  }

  /** Each content is one line, cut where it is too long, and a rest behind the last newline is another. */
  lemma {:induction false} LinesOfContents(contents: seq<Bytes>, last: Bytes, limit: nat)
    requires (forall i :: 0 <= i < |contents| ==> 10 !in contents[i]) && 10 !in last
    ensures Lines(Framed(contents, last), limit) == AllBounded(contents, last, limit)
    decreases |contents|
  {
    hide ContentLength;
    var s := Framed(contents, last);
    if contents != [] {
      var content, rest := contents[0], Framed(contents[1..], last);
      assert s[..|content|] == content && s[|content| + 1..] == rest;
      ContentLengthIs(s, |content|);
      assert s[..|content| + 1] == content + [10];
      assert |content| > limit ==> s[..limit] == content[..limit];
      LinesOfContents(contents[1..], last, limit);
    } else if last != [] {
      assert last[..|last|] == last && last + [] == last;
      ContentLengthIs(last, |last|);
    }
  }

  /** Every input is such contents. */
  lemma {:induction false} ContentsExist(s: Bytes) returns (contents: seq<Bytes>, last: Bytes)
    ensures (forall i :: 0 <= i < |contents| ==> 10 !in contents[i]) && 10 !in last && Framed(contents, last) == s
    decreases |s|
  {
    hide ContentLength;
    var n := ContentLength(s);
    ContentLengthIs(s, n);
    if n == |s| {
      contents, last := [], s;
      assert s[..n] == s;
    } else {
      contents, last := ContentsExist(s[n + 1..]);
      assert s == s[..n] + ([10] + s[n + 1..]);
      contents := [s[..n]] + contents;
    }
  }

  ghost predicate IsBounded(l: BoundedLine, limit: nat) {
    && 0 < |l.bytes| <= limit + 1
    && (forall j :: 0 <= j < |l.bytes| - 1 ==> l.bytes[j] != NEWLINE)
    && (|l.bytes| == limit + 1 ==> l.bytes[limit] == NEWLINE)
    && (l.Truncated? ==> |l.bytes| == limit && l.bytes[limit - 1] != NEWLINE)
  }

  lemma FirstLineIsBounded(s: Bytes, limit: nat)
    requires s != [] && limit > 0
    ensures IsBounded(FirstLine(s, limit), limit)
    ensures FirstLine(s, limit).Truncated? <==> ContentLength(s) > limit
  {
    hide ContentLength;
    var n := ContentLength(s);
    ContentLengthIs(s, n);
    assert forall j :: 0 <= j < n ==> s[j] == s[..n][j];
  }

  /** Retention is bounded: a newline ends a line, and only a cut line has none inside the input. */
  lemma {:induction false} LinesAreBounded(s: Bytes, limit: nat, i: nat)
    requires limit > 0 && i < |Lines(s, limit)|
    ensures IsBounded(Lines(s, limit)[i], limit)
    ensures var l := Lines(s, limit)[i];
            i < |Lines(s, limit)| - 1 && l.Complete? ==> l.bytes[|l.bytes| - 1] == NEWLINE
    decreases |s|
  {
    hide ContentLength, IsBounded;
    FirstLineIsBounded(s, limit);
    if i > 0 {
      LinesAreBounded(AfterFirstLine(s), limit, i - 1);
    }
  }

  lemma ContentLengthOfFramed(a: Bytes, b: Bytes)
    requires a != [] && a[|a| - 1] == NEWLINE
    ensures ContentLength(a + b) == ContentLength(a) < |a|
  {
    hide ContentLength;
    var n := ContentLength(a);
    ContentLengthIs(a, n);
    assert a[..|a|] == a;
    assert (a + b)[..n] == a[..n];
    ContentLengthIs(a + b, n);
  }

  lemma FirstLineOfConcat(a: Bytes, b: Bytes, limit: nat)
    requires a != [] && a[|a| - 1] == NEWLINE
    ensures FirstLine(a + b, limit) == FirstLine(a, limit)
    ensures AfterFirstLine(a + b) == AfterFirstLine(a) + b
    ensures |AfterFirstLine(a)| < |a|
    ensures AfterFirstLine(a) != [] ==> AfterFirstLine(a)[|AfterFirstLine(a)| - 1] == NEWLINE
  {
    hide ContentLength;
    ContentLengthOfFramed(a, b);
    var n := ContentLength(a);
    assert (a + b)[..n + 1] == a[..n + 1];
    assert n > limit ==> (a + b)[..limit] == a[..limit];
    assert (a + b)[n + 1..] == a[n + 1..] + b;
  }

  /** Splitting commutes with cutting the input behind a newline. */
  lemma {:induction false} LinesOfConcat(a: Bytes, b: Bytes, limit: nat)
    requires a != [] ==> a[|a| - 1] == NEWLINE
    ensures Lines(a + b, limit) == Lines(a, limit) + Lines(b, limit)
    decreases |a|
  {
    hide FirstLine, AfterFirstLine;
    if a == [] {
      assert a + b == b;
    } else {
      FirstLineOfConcat(a, b, limit);
      var first, rest := FirstLine(a, limit), AfterFirstLine(a);
      LinesOfConcat(rest, b, limit);
      assert Lines(a + b, limit) == [first] + (Lines(rest, limit) + Lines(b, limit));
    }
  }

  lemma KeptOfConcat(a: Bytes, b: Bytes, limit: nat)
    ensures |a| <= limit ==> Kept(a, limit) == a
    ensures limit > 0 && Kept(a, limit) == [] ==> a == []
    ensures |a| > limit ==> Kept(a + b, limit) == Kept(a, limit)
    ensures |a| <= limit ==>
      Kept(a + b, limit) == a + if |a| + |b| <= limit then b else b[..limit - |a|]
  {
    if |a| > limit {
      assert (a + b)[..limit] == a[..limit];
    } else if |a| + |b| > limit {
      assert (a + b)[..limit] == a + b[..limit - |a|];
    }
  }

  /** What one call may answer, given what was pending before it and after it. */
  ghost predicate Answers(r: ReadResult, before: Bytes, after: Bytes, limit: nat) {
    match r
    case Line(l) => before != [] && l == FirstLine(before, limit) && after == AfterFirstLine(before)
    case EndOfInput => before == [] && after == []
    case Failed(e) =>
      && after == before
      && (limit == 0 <==> e == InvalidLimit)
      && (e == LineTooLong ==> ContentLength(before) > limit)
  }

  /** The first line of a stream that starts with `known`, which holds no newline. */
  lemma FirstLineFrom(known: Bytes, behind: Bytes, limit: nat, newline: bool)
    requires limit > 0
    requires NEWLINE !in known
    requires newline ==> behind != [] && behind[0] == NEWLINE
    ensures |known| > limit ==> Answers(Failed(LineTooLong), known + behind, known + behind, limit)
    ensures Answers(Failed(Transient), known + behind, known + behind, limit)
    ensures Answers(EndOfInput, [], [], limit)
    ensures newline || (behind == [] && known != []) ==>
      Answers(Line(if |known| > limit then Truncated(Kept(known, limit))
                   else Complete(if newline then known + [NEWLINE] else known)),
              known + behind, if newline then behind[1..] else [], limit)
  {
    hide ContentLength;
    ContentLengthOfConcat(known, behind);
    ContentLengthIs(behind, 0);
    var all := known + behind;
    if |known| > limit { assert all[..limit] == known[..limit]; }
    if newline { assert all[..|known| + 1] == known + [NEWLINE]; }
  }

  // ----- The transport -----

  /** One buffer request: it fails, or it offers up to `size` more bytes (at least one). */
  datatype Fill = Fault | Offer(size: nat)

  /**
   A buffered byte source.  `schedule` is an arbitrary list of outcomes for the coming
   buffer requests; a request past its end offers everything.
   */
  class Transport {
    var rest: Bytes
    var schedule: seq<Fill>
    var offered: nat

    constructor (bytes: Bytes, schedule: seq<Fill>)
      ensures rest == bytes && this.schedule == schedule && offered == 0
    {
      rest, this.schedule, offered := bytes, schedule, 0;
    }

    /** A non-empty prefix of what is left, empty only at the end of input; or a failure. */
    method FillBuf() returns (failed: bool, buffer: Bytes)
      modifies this
      ensures rest == old(rest)
      ensures failed ==> |schedule| < |old(schedule)|
      ensures !failed ==> |schedule| <= |old(schedule)|
      ensures !failed ==> offered == |buffer| <= |rest| && buffer == rest[..|buffer|]
      ensures !failed ==> (buffer == [] <==> rest == [])
    {
      failed, buffer, offered := false, [], |rest|;
      if schedule != [] {
        var next := schedule[0];
        schedule := schedule[1..];
        match next {
          case Fault => failed := true; offered := 0;
          case Offer(size) =>
            offered := if size == 0 then 1 else size;
            if offered > |rest| { offered := |rest|; }
        }
      }
      if !failed { buffer := rest[..offered]; }
    }

    method Consume(amount: nat)
      requires amount <= offered <= |rest|
      modifies this
      ensures rest == old(rest)[amount..] && schedule == old(schedule)
      ensures offered == old(offered) - amount
    {
      rest, offered := rest[amount..], offered - amount;
    }
  }

  // ----- The stateful reader -----

  class BoundedLineReader {
    var line: Bytes
    var truncated: bool
    /** Every byte of the current line taken from the transport so far. */
    ghost var consumed: Bytes

    ghost predicate Valid(limit: nat)
      reads this
    {
      && NEWLINE !in consumed
      && truncated == (|consumed| > limit)
      && line == Kept(consumed, limit)
    }

    /** What is still to be delivered: the line in progress, then the unread bytes. */
    ghost function Pending(transport: Transport): Bytes
      reads this, transport
    {
      consumed + transport.rest
    }

    constructor ()
      ensures forall limit: nat :: Valid(limit)
      ensures consumed == []
    {
      line, truncated, consumed := [], false, [];
    }

    method TakeLine() returns (l: BoundedLine)
      modifies this
      ensures l == if old(truncated) then Truncated(old(line)) else Complete(old(line))
      ensures line == [] && !truncated && consumed == []
      ensures forall limit: nat :: Valid(limit)
    {
      l := if truncated then Truncated(line) else Complete(line);
      line, truncated, consumed := [], false, [];
    }

    /** Keep as much of the next stretch of content as the limit allows. */
    method Retain(content: Bytes, limit: nat, overflow: LineOverflow) returns (rejected: bool)
      requires Valid(limit) && NEWLINE !in content
      modifies this
      ensures Valid(limit)
      ensures rejected <==>
        overflow == Reject && !old(truncated) && |old(consumed)| + |content| > limit
      ensures rejected ==> unchanged(this) && line == consumed
      ensures !rejected ==> consumed == old(consumed) + content
    {
      KeptOfConcat(consumed, content, limit);
      if !truncated {
        var remaining := if |line| < limit then limit - |line| else 0;
        if |content| <= remaining {
          line := line + content;
        } else {
          match overflow {
            case Reject =>
              return true;
            case Truncate =>
              line := line + content[..remaining];
              truncated := true;
          }
        }
      }
      rejected, consumed := false, consumed + content;
    }

    /**
     Deliver the line in progress.  Its framing is the last of the next `amount` bytes, or
     nothing at the end of the input.
     */
    method Finish(transport: Transport, amount: nat, limit: nat) returns (l: BoundedLine)
      requires Valid(limit) && limit > 0
      requires if amount == 0 then transport.rest == [] && consumed != []
               else amount <= transport.offered <= |transport.rest| && transport.rest[amount - 1] == NEWLINE
      modifies this, transport
      ensures Valid(limit) && consumed == []
      ensures var behind := if amount == 0 then [] else old(transport.rest)[amount - 1..];
              Answers(Line(l), old(consumed) + behind, Pending(transport), limit)
      ensures l.Truncated? == old(truncated)
      ensures transport.schedule == old(transport.schedule)
    {
      hide ContentLength;
      FirstLineFrom(consumed, if amount == 0 then [] else transport.rest[amount - 1..], limit, amount > 0);
      if amount > 0 {
        if !truncated {
          line := line + [NEWLINE];
        }
        assert transport.rest[amount - 1..][1..] == transport.rest[amount..];
        transport.Consume(amount);
      }
      l := TakeLine();
      assert Pending(transport) == transport.rest;
    }

    /** One turn of the reading loop: look at one buffer, and answer if that settles the line. */
    method Turn(transport: Transport, limit: nat, overflow: LineOverflow) returns (answer: Option<ReadResult>)
      requires Valid(limit) && limit > 0
      modifies this, transport
      ensures Valid(limit)
      ensures if answer.Some? then Answers(answer.value, old(Pending(transport)), Pending(transport), limit)
              else Pending(transport) == old(Pending(transport)) && |transport.rest| < |old(transport.rest)|
      ensures answer.None? && overflow == Reject && !old(truncated) ==> !truncated
      ensures answer.Some? ==> Consistent(answer.value, overflow, old(truncated), consumed, line)
      ensures |transport.schedule| <= |old(transport.schedule)|
      ensures answer == Some(Failed(Transient)) ==> |transport.schedule| < |old(transport.schedule)|
    {
      hide ContentLength, Kept, Answers;
      ghost var stream := Pending(transport);
      var failed, buffer := transport.FillBuf();
      if failed {
        assert Answers(Failed(Transient), stream, stream, limit) by {
          FirstLineFrom(consumed, transport.rest, limit, false);
        }
        return Some(Failed(Transient));
      }
      if buffer == [] {
        assert stream == consumed;
        assert line == [] <==> consumed == [] by { KeptOfConcat(consumed, [], limit); }
        if line == [] {
          assert Answers(EndOfInput, [], [], limit) by { FirstLineFrom([], [], limit, false); }
          return Some(EndOfInput);
        }
        assert consumed + [] == consumed;
        var l := Finish(transport, 0, limit);
        return Some(Line(l));
      }
      var contentLen := ContentLength(buffer);
      ghost var behind := transport.rest[contentLen..];
      assert transport.rest == buffer[..contentLen] + behind;
      assert NEWLINE !in buffer[..contentLen] by { ContentLengthIs(buffer, contentLen); }
      assert stream == (consumed + buffer[..contentLen]) + behind;
      var rejected := Retain(buffer[..contentLen], limit, overflow);
      if rejected {
        assert Answers(Failed(LineTooLong), stream, stream, limit) by {
          FirstLineFrom(consumed + buffer[..contentLen], behind, limit, contentLen < |buffer|);
        }
        return Some(Failed(LineTooLong));
      }
      if contentLen < |buffer| {
        var l := Finish(transport, contentLen + 1, limit);
        return Some(Line(l));
      }
      transport.Consume(|buffer|);
      return None;
    }

    /** What an answer says about the mode, and about the bytes the reader still owns. */
    static ghost predicate Consistent(r: ReadResult, overflow: LineOverflow, wasTruncated: bool,
                                      consumed: Bytes, line: Bytes)
    {
      match r
      case Line(l) => consumed == [] && (overflow == Reject && !wasTruncated ==> l.Complete?)
      case EndOfInput => consumed == []
      case Failed(e) => e == LineTooLong ==> overflow == Reject && line == consumed
    }

    /**
     Read one line.  Whatever the transport does, a delivered line is the first line of
     what was pending, and a failed call leaves what is pending as it was.
     */
    method ReadLine(transport: Transport, limit: nat, overflow: LineOverflow)
      returns (r: ReadResult)
      requires Valid(limit)
      modifies this, transport
      ensures Valid(limit)
      ensures Answers(r, old(Pending(transport)), Pending(transport), limit)
      ensures limit > 0 ==> Consistent(r, overflow, old(truncated), consumed, line)
      ensures |transport.schedule| <= |old(transport.schedule)|
      ensures r == Failed(Transient) ==> |transport.schedule| < |old(transport.schedule)|
    {
      if limit == 0 {
        return Failed(InvalidLimit);
      }
      hide Answers;
      while true
        invariant Valid(limit)
        invariant Pending(transport) == old(Pending(transport))
        invariant overflow == Reject && !old(truncated) ==> !truncated
        invariant |transport.schedule| <= |old(transport.schedule)|
        decreases |transport.rest|
      {
        var answer := Turn(transport, limit, overflow);
        if answer.Some? {
          return answer.value;
        }
      }
    }
  }

  /**
   A caller that retries failed calls until the input ends.  The result names only the
   bytes: every schedule of buffer cuts and failures yields the same lines.
   */
  method ReadAll(bytes: Bytes, schedule: seq<Fill>, limit: nat) returns (lines: seq<BoundedLine>)
    requires limit > 0
    ensures lines == Lines(bytes, limit)
  {
    hide ContentLength, FirstLine;
    var transport := new Transport(bytes, schedule);
    var reader := new BoundedLineReader();
    lines := [];
    assert reader.Pending(transport) == bytes;
    while true
      invariant reader.Valid(limit)
      invariant Lines(bytes, limit) == lines + Lines(reader.Pending(transport), limit)
      decreases |reader.Pending(transport)|, |transport.schedule|
    {
      ghost var pending := reader.Pending(transport);
      var r := reader.ReadLine(transport, limit, Truncate);
      match r {
        case Line(l) =>
          assert lines + Lines(pending, limit) == lines + [l] + Lines(AfterFirstLine(pending), limit);
          lines := lines + [l];
        case EndOfInput => return;
        case Failed(_) =>
      }
    }
  }
}
