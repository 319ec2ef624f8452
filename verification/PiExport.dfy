/**
 One session's trace folded into Pi entries (`render` and its helpers in src/export_pi.rs).

 The fold is stated as the code runs it; `Spans` says, in positions of the trace alone,
 which stretch of events each entry stands for, and the entries are read off the spans.
 The text of a time stamp is the business of `Timestamps`.
 */
module PiExport {
  import opened Text

  datatype ModelRef = ModelRef(provider: string, model: string)

  /** Events, with the parts the export looks at; `kind` is the trace's name for all others. */
  datatype Event =
    | SessionStarted(workingDir: string)
    | UserMessage(text: string, attachments: nat)
    | ModelRequestStarted(model: ModelRef)
    | AssistantDelta(text: string)
    | ModelRequestCompleted(model: ModelRef)
    | ReasoningDelta(provenance: string, text: string)
    | OtherEvent(kind: string)

  datatype Item = Item(id: string, timestampMs: nat, metaModel: Option<ModelRef>, event: Event)

  datatype Message = User(text: string) | Assistant(text: string, model: Option<ModelRef>)

  datatype Entry = Entry(id: string, parentId: Option<string>, timestampMs: nat, message: Message)

  /** The assistant reply being collected. */
  datatype Reply = Reply(id: string, timestampMs: nat, text: string, model: Option<ModelRef>)

  datatype Metadata = Metadata(
    cwd: string,
    firstMs: Option<nat>,
    attachments: nat,
    reasoning: map<string, (nat, nat)>,
    kinds: map<string, nat>)

  datatype State = State(
    entries: seq<Entry>,
    previous: Option<string>,
    reply: Option<Reply>,
    model: Option<ModelRef>,
    metadata: Metadata)

  // ----- The fold -----

  const START := State([], None, None, None, Metadata("", None, 0, map[], map[]))

  function ReplyEntry(reply: Reply): Entry {
    Entry(reply.id, None, reply.timestampMs, Assistant(reply.text, reply.model))
  }

  /** Append one entry, linked to the entry before it. */
  function Push(st: State, e: Entry): State {
    st.(entries := st.entries + [e.(parentId := st.previous)], previous := Some(e.id))
  }

  function Flush(st: State): State {
    match st.reply
    case None => st
    case Some(reply) => Push(st.(reply := None), ReplyEntry(reply))
  }

  function OrElse<T>(a: Option<T>, b: Option<T>): Option<T> {
    if a.Some? then a else b
  }

  function Finished(reply: Reply, timestampMs: nat, model: ModelRef): Reply {
    reply.(model := OrElse(reply.model, Some(model)), timestampMs := timestampMs)
  }

  /** What the event adds to the conversation. */
  function Converse(st: State, item: Item): State {
    match item.event
    case UserMessage(text, _) => Push(Flush(st), Entry(item.id, None, item.timestampMs, User(text)))
    case ModelRequestStarted(model) => st.(model := Some(model))
    case AssistantDelta(text) =>
      (match st.reply
       case Some(reply) => st.(reply := Some(reply.(text := reply.text + text)))
       case None => st.(reply := Some(Reply(item.id, item.timestampMs, text, OrElse(st.model, item.metaModel)))))
    case ModelRequestCompleted(model) =>
      (match st.reply
       case None => st.(model := Some(model))
       case Some(reply) =>
         Flush(st.(model := Some(model), reply := Some(Finished(reply, item.timestampMs, model)))))
    case _ => st
  }

  function Earliest(first: Option<nat>, timestampMs: nat): Option<nat> {
    if first.Some? && first.value < timestampMs then first else Some(timestampMs)
  }

  /** Counters have 32 bits, sums of lengths 64; what is over is lost, as in a build without overflow checks. */
  function Wrap32(n: nat): nat {
    n % 0x1_0000_0000
  }

  function Wrap64(n: nat): nat {
    n % 0x1_0000_0000_0000_0000
  }

  function Counted(kinds: map<string, nat>, kind: string): map<string, nat> {
    kinds[kind := Wrap32((if kind in kinds then kinds[kind] else 0) + 1)]
  }

  function Reasoned(reasoning: map<string, (nat, nat)>, provenance: string, characters: nat): map<string, (nat, nat)> {
    var seen := if provenance in reasoning then reasoning[provenance] else (0, 0);
    reasoning[provenance := (Wrap32(seen.0 + 1), Wrap64(seen.1 + characters))]
  }

  /** What the event adds to the header and to the losses. */
  function Record(m: Metadata, item: Item): Metadata {
    var dated := m.(firstMs := Earliest(m.firstMs, item.timestampMs));
    match item.event
    case SessionStarted(dir) => dated.(cwd := dir)
    case UserMessage(_, attachments) => dated.(attachments := Wrap32(m.attachments + attachments))
    case ReasoningDelta(provenance, text) => dated.(reasoning := Reasoned(m.reasoning, provenance, |text|))
    case OtherEvent(kind) => dated.(kinds := Counted(m.kinds, kind))
    case _ => dated
  }

  function Step(st: State, item: Item): State {
    Converse(st, item).(metadata := Record(st.metadata, item))
  }

  function Fold(items: seq<Item>, n: nat): State
    requires n <= |items|
  {
    if n == 0 then START else Step(Fold(items, n - 1), items[n - 1])
  }

  function Render(items: seq<Item>): State {
    Flush(Fold(items, |items|))
  }

  // ----- The program -----

  /** The list of entries and the link to the last one, shared by the arms of the loop. */
  class Chain {
    var entries: seq<Entry>
    var previous: Option<string>

    constructor ()
      ensures entries == [] && previous == None
    {
      entries, previous := [], None;
    }

    method PushEntry(entry: Entry)
      requires entry.parentId == None
      modifies this
      ensures entries == old(entries) + [entry.(parentId := old(previous))] && previous == Some(entry.id)
    {
      var linked := entry;
      if previous.Some? {
        linked := entry.(parentId := previous);
      }
      previous := Some(linked.id);
      entries := entries + [linked];
    }
  }

  method RenderTrace(items: seq<Item>) returns (entries: seq<Entry>, metadata: Metadata)
    ensures entries == Render(items).entries && metadata == Render(items).metadata
  {
    hide Record;
    var chain := new Chain();
    metadata := Metadata("", None, 0, map[], map[]);
    var model: Option<ModelRef> := None;
    var reply: Option<Reply> := None;
    for n := 0 to |items|
      invariant State(chain.entries, chain.previous, reply, model, metadata) == Fold(items, n)
    {
      var item := items[n];
      metadata := Record(metadata, item);
      match item.event {
        case UserMessage(text, _) =>
          if reply.Some? {
            chain.PushEntry(ReplyEntry(reply.value));
            reply := None;
          }
          chain.PushEntry(Entry(item.id, None, item.timestampMs, User(text)));
        case ModelRequestStarted(started) => model := Some(started);
        case AssistantDelta(text) =>
          if reply.Some? {
            reply := Some(reply.value.(text := reply.value.text + text));
          } else {
            reply := Some(Reply(item.id, item.timestampMs, text, OrElse(model, item.metaModel)));
          }
        case ModelRequestCompleted(completed) =>
          model := Some(completed);
          if reply.Some? {
            var finished := reply.value;
            if finished.model.None? {
              finished := finished.(model := Some(completed));
            }
            chain.PushEntry(ReplyEntry(finished.(timestampMs := item.timestampMs)));
            reply := None;
          }
        case _ =>
      }
    }
    if reply.Some? {
      chain.PushEntry(ReplyEntry(reply.value));
    }
    entries := chain.entries;
  }

  // ----- Which events an entry stands for -----

  predicate IsDelta(items: seq<Item>, k: nat)
    requires k < |items|
  {
    items[k].event.AssistantDelta?
  }

  predicate IsUser(items: seq<Item>, k: nat)
    requires k < |items|
  {
    items[k].event.UserMessage?
  }

  /** A reply ends at a user message or at the completion of a request, nowhere else. */
  predicate IsBoundary(items: seq<Item>, k: nat)
    requires k < |items|
  {
    IsUser(items, k) || items[k].event.ModelRequestCompleted?
  }

  /** The user message at `start`, or the reply over the events from `start` up to `end`. */
  datatype Span = UserSpan(start: nat) | ReplySpan(start: nat, end: nat)

  function End(s: Span): nat {
    match s
    case UserSpan(start) => start + 1
    case ReplySpan(_, end) => end
  }

  predicate IsSpan(items: seq<Item>, s: Span) {
    match s
    case UserSpan(k) => k < |items| && IsUser(items, k)
    case ReplySpan(i, j) =>
      && i < j <= |items| && IsDelta(items, i)
      && (forall k :: i <= k < j ==> !IsBoundary(items, k))
      && (j < |items| ==> IsBoundary(items, j))
  }

  /** The start of the reply open in front of event `n`. */
  function Open(items: seq<Item>, n: nat): (i: Option<nat>)
    requires n <= |items|
    ensures i.Some? ==> i.value < n && IsDelta(items, i.value) && forall k :: i.value <= k < n ==> !IsBoundary(items, k)
  {
    if n == 0 || IsBoundary(items, n - 1) then None
    else
      var before := Open(items, n - 1);
      if before.None? && IsDelta(items, n - 1) then Some(n - 1) else before
  }

  function Closed(items: seq<Item>, n: nat): seq<Span>
    requires n <= |items|
  {
    match Open(items, n)
    case None => []
    case Some(i) => [ReplySpan(i, n)]
  }

  /** The spans complete in front of event `n`. */
  function SpansBefore(items: seq<Item>, n: nat): seq<Span>
    requires n <= |items|
  {
    if n == 0 then []
    else
      var before := SpansBefore(items, n - 1);
      if IsUser(items, n - 1) then before + Closed(items, n - 1) + [UserSpan(n - 1)]
      else if IsBoundary(items, n - 1) then before + Closed(items, n - 1)
      else before
  }

  function Spans(items: seq<Item>): seq<Span> {
    SpansBefore(items, |items|) + Closed(items, |items|)
  }

  // ----- What an entry says -----

  function DeltaText(items: seq<Item>, i: nat, j: nat): string
    requires i <= j <= |items|
  {
    if i == j then "" else DeltaText(items, i, j - 1) + (if IsDelta(items, j - 1) then items[j - 1].event.text else "")
  }

  /** The model named last in front of event `n`. */
  function ModelBefore(items: seq<Item>, n: nat): Option<ModelRef>
    requires n <= |items|
  {
    if n == 0 then None
    else
      match items[n - 1].event
      case ModelRequestStarted(model) => Some(model)
      case ModelRequestCompleted(model) => Some(model)
      case _ => ModelBefore(items, n - 1)
  }

  function OpenReply(items: seq<Item>, i: nat, n: nat): Reply
    requires i < n <= |items|
  {
    Reply(items[i].id, items[i].timestampMs, DeltaText(items, i, n), OrElse(ModelBefore(items, i), items[i].metaModel))
  }

  /** The entry a span is written as, without its link. */
  function EntryOf(items: seq<Item>, s: Span): Entry
    requires IsSpan(items, s)
  {
    match s
    case UserSpan(k) => Entry(items[k].id, None, items[k].timestampMs, User(items[k].event.text))
    case ReplySpan(i, j) =>
      Entry(items[i].id, None, items[if IsCompletion(items, j) then j else i].timestampMs,
            Assistant(DeltaText(items, i, j), ModelOf(items, i, j)))
  }

  predicate IsCompletion(items: seq<Item>, j: nat) {
    j < |items| && items[j].event.ModelRequestCompleted?
  }

  /** The model of a reply: that of the last request in front of it, else its own, else that of its completion. */
  function ModelOf(items: seq<Item>, i: nat, j: nat): Option<ModelRef>
    requires i < |items|
  {
    if ModelBefore(items, i).Some? then ModelBefore(items, i)
    else if items[i].metaModel.Some? then items[i].metaModel
    else if IsCompletion(items, j) then Some(items[j].event.model)
    else None
  }

  predicate IsRequest(items: seq<Item>, k: nat) {
    k < |items| && (items[k].event.ModelRequestStarted? || items[k].event.ModelRequestCompleted?)
  }

  /** The last request event in front of `n` is at `k`. */
  ghost predicate IsLastRequest(items: seq<Item>, n: nat, k: nat) {
    k < n && IsRequest(items, k) && forall l :: k < l < n ==> !IsRequest(items, l)
  }

  lemma {:induction false} ModelBeforeIs(items: seq<Item>, n: nat)
    requires n <= |items|
    ensures ModelBefore(items, n).None? ==> forall k :: 0 <= k < n ==> !IsRequest(items, k)
    ensures ModelBefore(items, n).Some? ==>
      exists k: nat :: IsLastRequest(items, n, k) && items[k].event.model == ModelBefore(items, n).value
  {
    if n > 0 {
      ModelBeforeIs(items, n - 1);
      if IsRequest(items, n - 1) {
        assert IsLastRequest(items, n, n - 1);
      } else if ModelBefore(items, n).Some? {
        var k: nat :| IsLastRequest(items, n - 1, k) && items[k].event.model == ModelBefore(items, n).value;
        assert IsLastRequest(items, n, k);
      }
    }
  }

  /** The entries of the spans, each linked to the one before it. */
  function Linked(items: seq<Item>, spans: seq<Span>): seq<Entry>
    requires forall s :: s in spans ==> IsSpan(items, s)
  {
    if spans == [] then []
    else
      var before := Linked(items, spans[..|spans| - 1]);
      before + [EntryOf(items, spans[|spans| - 1]).(parentId := LastId(before))]
  }

  function LastId(entries: seq<Entry>): Option<string> {
    if entries == [] then None else Some(entries[|entries| - 1].id)
  }

  predicate AreSpans(items: seq<Item>, spans: seq<Span>) {
    forall s :: s in spans ==> IsSpan(items, s)
  }

  lemma LinkedAppend(items: seq<Item>, spans: seq<Span>, s: Span)
    requires AreSpans(items, spans) && IsSpan(items, s)
    ensures AreSpans(items, spans + [s])
    ensures var before := Linked(items, spans);
            && Linked(items, spans + [s]) == before + [EntryOf(items, s).(parentId := LastId(before))]
            && LastId(Linked(items, spans + [s])) == Some(EntryOf(items, s).id)
  {
    hide IsSpan, EntryOf;
    assert (spans + [s])[..|spans|] == spans;
  }

  /** The state of the fold in front of event `n`, in terms of positions. */
  ghost predicate IsState(items: seq<Item>, n: nat, st: State)
    requires n <= |items|
  {
    && AreSpans(items, SpansBefore(items, n))
    && st.entries == Linked(items, SpansBefore(items, n))
    && st.previous == LastId(st.entries)
    && st.model == ModelBefore(items, n)
    && st.reply == (match Open(items, n) case None => None case Some(i) => Some(OpenReply(items, i, n)))
  }

  lemma PushIs(items: seq<Item>, spans: seq<Span>, s: Span, st: State, e: Entry)
    requires AreSpans(items, spans) && IsSpan(items, s) && e == EntryOf(items, s)
    requires st.entries == Linked(items, spans) && st.previous == LastId(st.entries)
    ensures AreSpans(items, spans + [s])
    ensures Push(st, e).entries == Linked(items, spans + [s]) && Push(st, e).previous == LastId(Push(st, e).entries)
  {
    hide IsSpan, EntryOf;
    LinkedAppend(items, spans, s);
  }

  /** A reply closed at a boundary, or at the end, is the entry of its span. */
  lemma ReplyIsSpan(items: seq<Item>, i: nat, n: nat)
    requires n <= |items| && Open(items, n) == Some(i) && (n < |items| ==> IsBoundary(items, n))
    ensures IsSpan(items, ReplySpan(i, n))
    ensures EntryOf(items, ReplySpan(i, n)) ==
      if n < |items| && items[n].event.ModelRequestCompleted? then
        ReplyEntry(Finished(OpenReply(items, i, n), items[n].timestampMs, items[n].event.model))
      else ReplyEntry(OpenReply(items, i, n))
  {
    hide ModelBefore, DeltaText;
  }

  lemma ConverseUser(items: seq<Item>, n: nat, st: State)
    requires n < |items| && IsState(items, n, st) && IsUser(items, n)
    ensures IsState(items, n + 1, Converse(st, items[n]))
  {
    hide Linked, EntryOf, IsSpan, OpenReply, LastId;
    var spans, closed := SpansBefore(items, n), Closed(items, n);
    var flushed := Flush(st);
    if st.reply.Some? {
      var i := Open(items, n).value;
      ReplyIsSpan(items, i, n);
      PushIs(items, spans, ReplySpan(i, n), st.(reply := None), ReplyEntry(st.reply.value));
    } else {
      assert spans + closed == spans;
    }
    var e := Entry(items[n].id, None, items[n].timestampMs, User(items[n].event.text));
    UserIsSpan(items, n);
    PushIs(items, spans + closed, UserSpan(n), flushed, e);
  }

  lemma UserIsSpan(items: seq<Item>, n: nat)
    requires n < |items| && IsUser(items, n)
    ensures IsSpan(items, UserSpan(n))
    ensures EntryOf(items, UserSpan(n)) == Entry(items[n].id, None, items[n].timestampMs, User(items[n].event.text))
  {
  }

  lemma ConverseCompleted(items: seq<Item>, n: nat, st: State)
    requires n < |items| && IsState(items, n, st) && items[n].event.ModelRequestCompleted?
    ensures IsState(items, n + 1, Converse(st, items[n]))
  {
    hide Linked, EntryOf, IsSpan, OpenReply, LastId;
    var spans, model := SpansBefore(items, n), items[n].event.model;
    if st.reply.Some? {
      var i := Open(items, n).value;
      ReplyIsSpan(items, i, n);
      var finished := Finished(st.reply.value, items[n].timestampMs, model);
      PushIs(items, spans, ReplySpan(i, n), st.(model := Some(model), reply := None), ReplyEntry(finished));
    } else {
      assert spans + Closed(items, n) == spans;
    }
  }

  lemma ConverseInside(items: seq<Item>, n: nat, st: State)
    requires n < |items| && IsState(items, n, st) && !IsBoundary(items, n)
    ensures IsState(items, n + 1, Converse(st, items[n]))
  {
    hide Linked, EntryOf, IsSpan, LastId, OpenReply;
    ReplyGrows(items, if Open(items, n).Some? then Open(items, n).value else n, n);
  }

  /** One more event inside a reply, or the delta that opens one. */
  lemma ReplyGrows(items: seq<Item>, i: nat, n: nat)
    requires i <= n < |items|
    ensures i < n ==>
      (OpenReply(items, i, n + 1) ==
       if IsDelta(items, n) then OpenReply(items, i, n).(text := OpenReply(items, i, n).text + items[n].event.text)
       else OpenReply(items, i, n))
    ensures i == n && IsDelta(items, n) ==>
      (OpenReply(items, n, n + 1) ==
       Reply(items[n].id, items[n].timestampMs, items[n].event.text, OrElse(ModelBefore(items, n), items[n].metaModel)))
  {
    hide ModelBefore;
    assert DeltaText(items, i, n) + "" == DeltaText(items, i, n);
    if i == n && IsDelta(items, n) { assert "" + items[n].event.text == items[n].event.text; }
  }

  /** In front of every event the fold holds the entries of the spans complete so far. */
  lemma {:induction false} FoldIs(items: seq<Item>, n: nat)
    requires n <= |items|
    ensures IsState(items, n, Fold(items, n))
  {
    hide IsState, Record, Converse;
    if n == 0 {
      StartIs(items);
    } else {
      FoldIs(items, n - 1);
      var st := Fold(items, n - 1);
      if IsUser(items, n - 1) {
        ConverseUser(items, n - 1, st);
      } else if IsBoundary(items, n - 1) {
        ConverseCompleted(items, n - 1, st);
      } else {
        ConverseInside(items, n - 1, st);
      }
      MetadataAside(items, n, Converse(st, items[n - 1]), Record(st.metadata, items[n - 1]));
    }
  }

  lemma StartIs(items: seq<Item>)
    ensures IsState(items, 0, START)
  {
  }

  lemma MetadataAside(items: seq<Item>, n: nat, st: State, m: Metadata)
    requires n <= |items| && IsState(items, n, st)
    ensures IsState(items, n, st.(metadata := m))
  {
  }

  /** What is exported: one entry per span of the whole trace, in order, linked in a line. */
  lemma RenderIs(items: seq<Item>)
    ensures AreSpans(items, Spans(items))
    ensures Render(items).entries == Linked(items, Spans(items))
  {
    hide Linked, EntryOf, IsSpan, OpenReply, LastId, Fold, SpansBefore;
    var n := |items|;
    FoldIs(items, n);
    var st := Fold(items, n);
    if st.reply.Some? {
      var i := Open(items, n).value;
      ReplyIsSpan(items, i, n);
      PushIs(items, SpansBefore(items, n), ReplySpan(i, n), st.(reply := None), ReplyEntry(st.reply.value));
    } else {
      assert SpansBefore(items, n) + Closed(items, n) == SpansBefore(items, n);
    }
  }

  /** Every entry but the first names the entry before it as its parent. */
  lemma {:induction false} EntriesAreChained(items: seq<Item>, spans: seq<Span>, k: nat)
    requires AreSpans(items, spans) && k < |spans|
    ensures |Linked(items, spans)| == |spans|
    ensures var e := Linked(items, spans);
            && e[k].parentId == (if k == 0 then None else Some(e[k - 1].id))
            && e[k] == EntryOf(items, spans[k]).(parentId := e[k].parentId)
    decreases |spans|
  {
    hide IsSpan, EntryOf;
    var before := spans[..|spans| - 1];
    if k < |before| {
      EntriesAreChained(items, before, k);
    } else if before != [] {
      EntriesAreChained(items, before, 0);
    }
  }

  /** What an entry says, event by event. */
  predicate Says(items: seq<Item>, s: Span, e: Entry)
    requires IsSpan(items, s)
  {
    match s
    case UserSpan(i) =>
      e.id == items[i].id && e.timestampMs == items[i].timestampMs && e.message == User(items[i].event.text)
    case ReplySpan(i, j) =>
      && e.id == items[i].id && e.timestampMs == items[if IsCompletion(items, j) then j else i].timestampMs
      && e.message == Assistant(DeltaText(items, i, j), ModelOf(items, i, j))
  }

  lemma EntriesSay(items: seq<Item>, k: nat)
    requires k < |Spans(items)|
    ensures |Render(items).entries| == |Spans(items)|
    ensures IsSpan(items, Spans(items)[k]) && Says(items, Spans(items)[k], Render(items).entries[k])
  {
    hide IsSpan, Render, Spans, Linked, DeltaText, ModelOf;
    RenderIs(items);
    EntriesAreChained(items, Spans(items), k);
    assert Spans(items)[k] in Spans(items);
  }

  /** A delta at 1 000 and its completion at 5 000: the entry is dated when the reply landed. */
  lemma ReplyIsDatedAtItsEnd(m: ModelRef)
    ensures
      var items := [Item("a", 1_000, None, AssistantDelta("hi")), Item("b", 5_000, None, ModelRequestCompleted(m))];
      Render(items).entries == [Entry("a", None, 5_000, Assistant("hi", Some(m)))]
  {
    var items := [Item("a", 1_000, None, AssistantDelta("hi")), Item("b", 5_000, None, ModelRequestCompleted(m))];
    assert Fold(items, 1) == Step(START, items[0]);
  }

  // ----- The spans tile the conversation -----

  /** Spans in order, without overlaps, all in front of event `n`. */
  ghost predicate AreOrdered(spans: seq<Span>, n: nat) {
    && (forall a, b :: 0 <= a < b < |spans| ==> End(spans[a]) <= spans[b].start)
    && (forall a :: 0 <= a < |spans| ==> spans[a].start < End(spans[a]) <= n)
  }

  ghost predicate IsCovered(spans: seq<Span>, k: nat) {
    exists s :: s in spans && s.start <= k < End(s)
  }

  /** The events in front of `n` that no span holds yet belong to no reply, or to the open one. */
  ghost predicate AreTiled(items: seq<Item>, spans: seq<Span>, n: nat)
    requires n <= |items|
  {
    forall k :: 0 <= k < n && (IsDelta(items, k) || IsUser(items, k)) ==>
      IsCovered(spans, k) || (Open(items, n).Some? && Open(items, n).value <= k)
  }

  ghost predicate StartsBehind(items: seq<Item>, spans: seq<Span>, n: nat)
    requires n <= |items|
  {
    Open(items, n).Some? ==> AreOrdered(spans, Open(items, n).value)
  }

  lemma AppendSpan(spans: seq<Span>, s: Span, n: nat)
    requires AreOrdered(spans, s.start) && s.start < End(s) <= n
    ensures AreOrdered(spans + [s], n)
    ensures forall k: nat :: IsCovered(spans + [s], k) <==> IsCovered(spans, k) || s.start <= k < End(s)
  {
    forall k: nat
      ensures IsCovered(spans + [s], k) <==> IsCovered(spans, k) || s.start <= k < End(s)
    {
      if s.start <= k < End(s) { assert s in spans + [s]; }
      if IsCovered(spans, k) {
        var t :| t in spans && t.start <= k < End(t);
        assert t in spans + [s];
      }
    }
  }

  lemma CloseSpans(items: seq<Item>, spans: seq<Span>, n: nat)
    requires n <= |items| && AreOrdered(spans, n) && StartsBehind(items, spans, n) && AreTiled(items, spans, n)
    ensures AreOrdered(spans + Closed(items, n), n)
    ensures forall k :: 0 <= k < n && (IsDelta(items, k) || IsUser(items, k)) ==> IsCovered(spans + Closed(items, n), k)
  {
    hide AreOrdered, IsCovered;
    match Open(items, n)
    case None => assert spans + Closed(items, n) == spans;
    case Some(i) => AppendSpan(spans, ReplySpan(i, n), n);
  }

  /** What `SpansBeforeTile` says of one position. */
  ghost predicate IsTiling(items: seq<Item>, n: nat)
    requires n <= |items|
  {
    var spans := SpansBefore(items, n);
    AreOrdered(spans, n) && StartsBehind(items, spans, n) && AreTiled(items, spans, n)
  }

  lemma TileBoundary(items: seq<Item>, n: nat)
    requires n < |items| && IsTiling(items, n) && IsBoundary(items, n)
    ensures IsTiling(items, n + 1)
  {
    hide AreOrdered, IsCovered, SpansBefore;
    var before := SpansBefore(items, n);
    CloseSpans(items, before, n);
    var closed := before + Closed(items, n);
    OrderedLater(closed, n, n + 1);
    AppendUser(items, closed, n);
    SpansStep(items, n);
  }

  lemma SpansStep(items: seq<Item>, n: nat)
    requires n < |items|
    ensures SpansBefore(items, n + 1) ==
      if IsUser(items, n) then SpansBefore(items, n) + Closed(items, n) + [UserSpan(n)]
      else if IsBoundary(items, n) then SpansBefore(items, n) + Closed(items, n)
      else SpansBefore(items, n)
  {
  }

  lemma AppendUser(items: seq<Item>, spans: seq<Span>, n: nat)
    requires n < |items| && AreOrdered(spans, n)
    ensures AreOrdered(spans + [UserSpan(n)], n + 1)
    ensures forall k: nat :: IsCovered(spans + [UserSpan(n)], k) <==> IsCovered(spans, k) || k == n
  {
    hide AreOrdered, IsCovered;
    AppendSpan(spans, UserSpan(n), n + 1);
  }

  lemma OrderedLater(spans: seq<Span>, n: nat, m: nat)
    requires AreOrdered(spans, n) && n <= m
    ensures AreOrdered(spans, m)
  {
  }

  lemma TileInside(items: seq<Item>, n: nat)
    requires n < |items| && IsTiling(items, n) && !IsBoundary(items, n)
    ensures IsTiling(items, n + 1)
  {
    hide AreOrdered, IsCovered, SpansBefore;
    SpansStep(items, n);
    OrderedLater(SpansBefore(items, n), n, n + 1);
  }

  lemma {:induction false} SpansBeforeTile(items: seq<Item>, n: nat)
    requires n <= |items|
    ensures IsTiling(items, n)
  {
    if n > 0 {
      SpansBeforeTile(items, n - 1);
      hide IsTiling;
      if IsBoundary(items, n - 1) {
        TileBoundary(items, n - 1);
      } else {
        TileInside(items, n - 1);
      }
    }
  }

  /**
   The spans are in order and disjoint; together they hold every user message and every
   assistant delta, so each of those is exported exactly once and in the order it was said.
   */
  lemma SpansTile(items: seq<Item>)
    ensures AreOrdered(Spans(items), |items|)
    ensures forall k :: 0 <= k < |items| && (IsDelta(items, k) || IsUser(items, k)) ==> IsCovered(Spans(items), k)
  {
    hide AreOrdered, IsCovered;
    SpansBeforeTile(items, |items|);
    CloseSpans(items, SpansBefore(items, |items|), |items|);
  }

  // ----- What was said is what is exported -----

  /** The assistant's words in some entries. */
  function Said(entries: seq<Entry>): string {
    if entries == [] then ""
    else
      var last := entries[|entries| - 1].message;
      Said(entries[..|entries| - 1]) + (if last.Assistant? then last.text else "")
  }

  /** The user's turns in some entries. */
  function Asked(entries: seq<Entry>): seq<string> {
    if entries == [] then []
    else
      var last := entries[|entries| - 1].message;
      Asked(entries[..|entries| - 1]) + (if last.User? then [last.text] else [])
  }

  function UserTexts(items: seq<Item>, n: nat): seq<string>
    requires n <= |items|
  {
    if n == 0 then []
    else UserTexts(items, n - 1) + (if IsUser(items, n - 1) then [items[n - 1].event.text] else [])
  }

  function Pending(reply: Option<Reply>): string {
    if reply.Some? then reply.value.text else ""
  }

  lemma SaidPush(st: State, e: Entry)
    ensures Said(Push(st, e).entries) == Said(st.entries) + if e.message.Assistant? then e.message.text else ""
    ensures Asked(Push(st, e).entries) == Asked(st.entries) + if e.message.User? then [e.message.text] else []
  {
    var entries := Push(st, e).entries;
    assert entries[..|entries| - 1] == st.entries;
  }

  lemma SaidFlush(st: State)
    ensures Said(Flush(st).entries) == Said(st.entries) + Pending(st.reply)
    ensures Asked(Flush(st).entries) == Asked(st.entries) && Flush(st).reply == None
  {
    hide Said, Asked;
    match st.reply
    case None => assert Said(st.entries) + "" == Said(st.entries);
    case Some(reply) =>
      SaidPush(st.(reply := None), ReplyEntry(reply));
      assert Asked(st.entries) + [] == Asked(st.entries);
  }

  lemma SaidConverse(st: State, item: Item)
    ensures var after := Converse(st, item);
            && Said(after.entries) + Pending(after.reply) ==
                 Said(st.entries) + Pending(st.reply) + (if item.event.AssistantDelta? then item.event.text else "")
            && Asked(after.entries) == Asked(st.entries) + (if item.event.UserMessage? then [item.event.text] else [])
  {
    hide Said, Asked, Flush, Push;
    match item.event
    case UserMessage(text, _) =>
      SaidFlush(st);
      SaidPush(Flush(st), Entry(item.id, None, item.timestampMs, User(text)));
      PushKeepsReply(Flush(st), Entry(item.id, None, item.timestampMs, User(text)));
    case ModelRequestCompleted(model) =>
      if st.reply.Some? {
        SaidFlush(st.(model := Some(model), reply := Some(Finished(st.reply.value, item.timestampMs, model))));
      }
    case _ =>
  }

  lemma PushKeepsReply(st: State, e: Entry)
    ensures Push(st, e).reply == st.reply
  {
  }

  lemma {:induction false} SaidBefore(items: seq<Item>, n: nat)
    requires n <= |items|
    ensures Said(Fold(items, n).entries) + Pending(Fold(items, n).reply) == DeltaText(items, 0, n)
    ensures Asked(Fold(items, n).entries) == UserTexts(items, n)
  {
    hide Said, Asked, Converse, Record;
    if n == 0 {
      NothingSaid();
    } else {
      SaidBefore(items, n - 1);
      SaidConverse(Fold(items, n - 1), items[n - 1]);
    }
  }

  lemma NothingSaid()
    ensures Said([]) == "" && Asked([]) == []
  {
  }

  /** Nothing said is lost or invented, and the user's turns stand in order. */
  lemma ConversationIsConserved(items: seq<Item>)
    ensures Said(Render(items).entries) == DeltaText(items, 0, |items|)
    ensures Asked(Render(items).entries) == UserTexts(items, |items|)
  {
    hide Said, Asked, Fold, Flush;
    SaidBefore(items, |items|);
    SaidFlush(Fold(items, |items|));
  }

  // ----- What is not exported is counted -----

  function CountKind(items: seq<Item>, n: nat, kind: string): nat
    requires n <= |items|
  {
    if n == 0 then 0
    else CountKind(items, n - 1, kind) + if items[n - 1].event == OtherEvent(kind) then 1 else 0
  }

  /** Chunks and characters of reasoning with one provenance. */
  function CountReasoning(items: seq<Item>, n: nat, provenance: string): (nat, nat)
    requires n <= |items|
  {
    if n == 0 then (0, 0)
    else
      var before, event := CountReasoning(items, n - 1, provenance), items[n - 1].event;
      if event.ReasoningDelta? && event.provenance == provenance then (before.0 + 1, before.1 + |event.text|)
      else before
  }

  function CountAttachments(items: seq<Item>, n: nat): nat
    requires n <= |items|
  {
    if n == 0 then 0
    else CountAttachments(items, n - 1) + if IsUser(items, n - 1) then items[n - 1].event.attachments else 0
  }

  /** Every kind of other event, and only those that occurred, with its number. */
  ghost predicate KindsAre(items: seq<Item>, n: nat, kinds: map<string, nat>)
    requires n <= |items|
  {
    forall kind :: (kind in kinds <==> CountKind(items, n, kind) > 0)
                   && (kind in kinds ==> kinds[kind] == CountKind(items, n, kind) % 0x1_0000_0000)
  }

  ghost predicate ReasoningIs(items: seq<Item>, n: nat, reasoning: map<string, (nat, nat)>)
    requires n <= |items|
  {
    forall p :: ReasoningAt(items, n, reasoning, p)
  }

  ghost predicate ReasoningAt(items: seq<Item>, n: nat, reasoning: map<string, (nat, nat)>, p: string)
    requires n <= |items|
  {
    var (chunks, characters) := CountReasoning(items, n, p);
    && (p in reasoning <==> chunks > 0)
    && (chunks == 0 ==> characters == 0)
    && (p in reasoning ==> reasoning[p] == (chunks % 0x1_0000_0000, characters % 0x1_0000_0000_0000_0000))
  }

  /** The earliest time stamp of the first `n` events. */
  ghost predicate IsEarliest(items: seq<Item>, n: nat, firstMs: Option<nat>)
    requires n <= |items|
  {
    && (firstMs.None? <==> n == 0)
    && (firstMs.Some? ==>
          && (forall k :: 0 <= k < n ==> firstMs.value <= items[k].timestampMs)
          && (exists k :: 0 <= k < n && firstMs.value == items[k].timestampMs))
  }

  /** The directory of the last session start, if there was one. */
  ghost predicate IsPlace(items: seq<Item>, n: nat, cwd: string)
    requires n <= |items|
  {
    || (cwd == "" && forall k :: 0 <= k < n ==> !items[k].event.SessionStarted?)
    || (exists k :: 0 <= k < n && items[k].event == SessionStarted(cwd)
          && forall l :: k < l < n ==> !items[l].event.SessionStarted?)
  }

  ghost predicate IsRecorded(items: seq<Item>, n: nat, m: Metadata)
    requires n <= |items|
  {
    && KindsAre(items, n, m.kinds)
    && ReasoningIs(items, n, m.reasoning)
    && m.attachments == CountAttachments(items, n) % 0x1_0000_0000
    && IsEarliest(items, n, m.firstMs)
    && IsPlace(items, n, m.cwd)
  }

  lemma WrapsAre()
    ensures forall n: nat :: Wrap32(n) == n % 0x1_0000_0000
    ensures forall n: nat :: Wrap64(n) == n % 0x1_0000_0000_0000_0000
  {
  }

  lemma Wrap32Adds(a: nat, b: nat)
    ensures Wrap32(Wrap32(a) + b) == Wrap32(a + b) && Wrap32(0) == 0
  {
  }

  lemma Wrap64Adds(a: nat, b: nat)
    ensures Wrap64(Wrap64(a) + b) == Wrap64(a + b) && Wrap64(0) == 0
  {
  }

  lemma KindsStep(items: seq<Item>, n: nat, m: Metadata)
    requires n < |items| && KindsAre(items, n, m.kinds)
    ensures KindsAre(items, n + 1, Record(m, items[n]).kinds)
  {
    hide Reasoned, Wrap32;
    WrapsAre();
    forall kind ensures Wrap32(Wrap32(CountKind(items, n, kind)) + 1) == Wrap32(CountKind(items, n, kind) + 1) {
      Wrap32Adds(CountKind(items, n, kind), 1);
    }
    assert Wrap32(0 + 1) == Wrap32(1);
  }

  lemma ReasoningStep(items: seq<Item>, n: nat, m: Metadata)
    requires n < |items| && ReasoningIs(items, n, m.reasoning)
    ensures ReasoningIs(items, n + 1, Record(m, items[n]).reasoning)
  {
    hide Counted, Reasoned, ReasoningIs;
    var event := items[n].event;
    if event.ReasoningDelta? {
      ReasonedIs(items, n, m.reasoning);
    } else {
      assert Record(m, items[n]).reasoning == m.reasoning;
      ReasoningStays(items, n, m.reasoning);
    }
  }

  lemma ReasonedIs(items: seq<Item>, n: nat, reasoning: map<string, (nat, nat)>)
    requires n < |items| && ReasoningIs(items, n, reasoning) && items[n].event.ReasoningDelta?
    ensures ReasoningIs(items, n + 1, Reasoned(reasoning, items[n].event.provenance, |items[n].event.text|))
  {
    hide ReasoningAt, Reasoned;
    var m, event := n + 1, items[n].event;
    var after := Reasoned(reasoning, event.provenance, |event.text|);
    forall p ensures ReasoningAt(items, m, after, p) {
      assert ReasoningAt(items, n, reasoning, p);
      ReasonedAt(items, n, reasoning, p);
    }
  }

  lemma ReasonedAt(items: seq<Item>, n: nat, reasoning: map<string, (nat, nat)>, p: string)
    requires n < |items| && ReasoningAt(items, n, reasoning, p) && items[n].event.ReasoningDelta?
    ensures ReasoningAt(items, n + 1, Reasoned(reasoning, items[n].event.provenance, |items[n].event.text|), p)
  {
    hide Wrap32, Wrap64;
    WrapsAre();
    var (chunks, characters) := CountReasoning(items, n, p);
    Wrap32Adds(chunks, 1);
    Wrap64Adds(characters, |items[n].event.text|);
  }

  lemma ReasoningStays(items: seq<Item>, n: nat, reasoning: map<string, (nat, nat)>)
    requires n < |items| && ReasoningIs(items, n, reasoning) && !items[n].event.ReasoningDelta?
    ensures ReasoningIs(items, n + 1, reasoning)
  {
    hide Wrap32, Wrap64;
    var m := n + 1;
    forall p ensures ReasoningAt(items, m, reasoning, p) {
      assert ReasoningAt(items, n, reasoning, p);
    }
  }

  lemma EarliestStep(items: seq<Item>, n: nat, m: Metadata)
    requires n < |items| && IsEarliest(items, n, m.firstMs)
    ensures IsEarliest(items, n + 1, Record(m, items[n]).firstMs)
  {
    hide Counted, Reasoned;
    var after := Record(m, items[n]).firstMs;
    assert after == Earliest(m.firstMs, items[n].timestampMs);
    if after.value != items[n].timestampMs {
      var k :| 0 <= k < n && m.firstMs.value == items[k].timestampMs;
      assert 0 <= k < n + 1 && after.value == items[k].timestampMs;
    }
  }

  lemma PlaceStep(items: seq<Item>, n: nat, m: Metadata)
    requires n < |items| && IsPlace(items, n, m.cwd)
    ensures IsPlace(items, n + 1, Record(m, items[n]).cwd)
  {
    hide Counted, Reasoned;
  }

  /** What is not exported is in the header or counted exactly, kind by kind, in counters of the width they have. */
  lemma {:induction false} LossesAreCounted(items: seq<Item>, n: nat)
    requires n <= |items|
    ensures IsRecorded(items, n, Fold(items, n).metadata)
  {
    hide KindsAre, ReasoningIs, IsEarliest, IsPlace, Counted, Reasoned, Converse, Wrap32;
    WrapsAre();
    if n == 0 {
      NothingRecorded(items);
    } else {
      var m := Fold(items, n - 1).metadata;
      LossesAreCounted(items, n - 1);
      KindsStep(items, n - 1, m);
      ReasoningStep(items, n - 1, m);
      EarliestStep(items, n - 1, m);
      PlaceStep(items, n - 1, m);
      if IsUser(items, n - 1) { Wrap32Adds(CountAttachments(items, n - 1), items[n - 1].event.attachments); }
    }
  }

  lemma NothingRecorded(items: seq<Item>)
    ensures IsRecorded(items, 0, START.metadata)
  {
  }
}
