/**
 The path an importer takes through the entries of a session file
 (`active_path` in crates/rupi-store/src/pi_import.rs:215-269), and what it makes of a file
 that `rupi export` wrote.
 */
module ActivePath {
  import opened Text
  import PiExport

  datatype Node = Node(id: string, parent: Option<string>)

  datatype PathError =
    | DuplicateId(id: string)
    | Cycle(id: string)
    | DanglingParent(id: string, parent: string)

  /** Positions of the entries on the path, oldest first. */
  datatype Outcome = Path(positions: seq<nat>) | Failed(error: PathError)

  // ----- Identifiers -----

  /** The position of the entry with an identifier. */
  function Find(nodes: seq<Node>, id: string): (r: Option<nat>)
    ensures r.Some? ==> r.value < |nodes| && nodes[r.value].id == id
    ensures r.None? <==> forall i :: 0 <= i < |nodes| ==> nodes[i].id != id
  {
    if nodes == [] then None
    else
      var n := |nodes| - 1;
      if nodes[n].id == id then Some(n) else Find(nodes[..n], id)
  }

  predicate SomeEmptyId(nodes: seq<Node>) {
    exists i :: 0 <= i < |nodes| && nodes[i].id == ""
  }

  predicate AreDistinct(nodes: seq<Node>) {
    forall i, j :: 0 <= i < j < |nodes| ==> nodes[i].id != nodes[j].id
  }

  predicate IsRepeated(nodes: seq<Node>, i: nat) {
    i < |nodes| && exists j :: 0 <= j < |nodes| && j != i && nodes[j].id == nodes[i].id
  }

  /** The first repeated identifier in the order of strings, among the first `n` entries. */
  function LeastRepeated(nodes: seq<Node>, n: nat): (r: Option<string>)
    requires n <= |nodes|
    ensures r.None? ==> forall i :: 0 <= i < n ==> !IsRepeated(nodes, i)
    ensures r.Some? ==> exists i :: 0 <= i < n && IsRepeated(nodes, i) && nodes[i].id == r.value
  {
    if n == 0 then None
    else
      var before := LeastRepeated(nodes, n - 1);
      if !IsRepeated(nodes, n - 1) then before
      else if before.Some? && Precedes(before.value, nodes[n - 1].id) then before
      else Some(nodes[n - 1].id)
  }

  lemma DistinctIffNotRepeated(nodes: seq<Node>)
    ensures LeastRepeated(nodes, |nodes|).None? <==> AreDistinct(nodes)
  {
    if LeastRepeated(nodes, |nodes|).None? {
      forall i, j | 0 <= i < j < |nodes| ensures nodes[i].id != nodes[j].id {
        assert !IsRepeated(nodes, i);
      }
    }
  }

  /** No repeated identifier comes in front of the one that is reported. */
  lemma {:induction false} LeastIsLeast(nodes: seq<Node>, n: nat, i: nat)
    requires i < n <= |nodes| && IsRepeated(nodes, i)
    ensures LeastRepeated(nodes, n).Some? && Precedes(LeastRepeated(nodes, n).value, nodes[i].id)
  {
    hide IsRepeated, Precedes;
    PrecedesIsTotal(nodes[i].id, nodes[i].id);
    if i < n - 1 {
      LeastIsLeast(nodes, n - 1, i);
      var before, last := LeastRepeated(nodes, n - 1).value, nodes[n - 1].id;
      PrecedesIsTotal(before, last);
      if Precedes(last, before) { PrecedesIsTransitive(last, before, nodes[i].id); }
    } else if LeastRepeated(nodes, n - 1).Some? {
      PrecedesIsTotal(LeastRepeated(nodes, n - 1).value, nodes[i].id);
    }
  }

  // ----- The climb -----

  function Ids(nodes: seq<Node>): set<string> {
    set n | n in nodes :: n.id
  }

  lemma OneLessToVisit(nodes: seq<Node>, at: nat, visited: set<string>)
    requires at < |nodes| && nodes[at].id !in visited
    ensures |Ids(nodes) - (visited + {nodes[at].id})| < |Ids(nodes) - visited|
  {
    var id, left := nodes[at].id, Ids(nodes) - visited;
    assert nodes[at] in nodes && id in left;
    assert Ids(nodes) - (visited + {id}) == left - {id};
  }

  /** From an entry to its parent and on, with the entries below already on the path. */
  function Climb(nodes: seq<Node>, at: nat, below: seq<nat>, visited: set<string>): Outcome
    requires at < |nodes|
    decreases |Ids(nodes) - visited|
  {
    var entry := nodes[at];
    if entry.id in visited then Failed(Cycle(entry.id))
    else
      match entry.parent
      case None => Path([at] + below)
      case Some(parent) =>
        match Find(nodes, parent)
        case None => Failed(DanglingParent(entry.id, parent))
        case Some(next) =>
          OneLessToVisit(nodes, at, visited);
          Climb(nodes, next, [at] + below, visited + {entry.id})
  }

  /** The positions of all entries, as in the file. */
  function FileOrder(n: nat): (r: seq<nat>)
    ensures |r| == n && forall k :: 0 <= k < n ==> r[k] == k
  {
    seq(n, k => k)
  }

  function Active(nodes: seq<Node>): Outcome {
    if nodes == [] || SomeEmptyId(nodes) then Path(FileOrder(|nodes|))
    else
      match LeastRepeated(nodes, |nodes|)
      case Some(id) => Failed(DuplicateId(id))
      case None => Climb(nodes, |nodes| - 1, [], {})
  }

  function Reversed(s: seq<nat>): (r: seq<nat>)
    ensures |r| == |s|
  {
    if s == [] then [] else Reversed(s[1..]) + [s[0]]
  }

  lemma {:induction false} ReversedSnoc(s: seq<nat>, n: nat)
    ensures Reversed(s + [n]) == [n] + Reversed(s)
  {
    if s == [] {
      assert ([] + [n])[1..] == [];
    } else {
      assert (s + [n])[1..] == s[1..] + [n];
      ReversedSnoc(s[1..], n);
    }
  }

  /** The walk from the newest entry, which the program records leaf first and then turns round. */
  method ActivePath(nodes: seq<Node>) returns (r: Outcome)
    ensures r == Active(nodes)
  {
    hide LeastRepeated, Find, Ids, SomeEmptyId;
    if nodes == [] || SomeEmptyId(nodes) {
      return Path(FileOrder(|nodes|));
    }
    var repeated := LeastRepeated(nodes, |nodes|);
    if repeated.Some? {
      return Failed(DuplicateId(repeated.value));
    }
    var path: seq<nat>, visited: set<string>, cursor := [], {}, |nodes| - 1;
    while true
      invariant 0 <= cursor < |nodes|
      invariant Active(nodes) == Climb(nodes, cursor, Reversed(path), visited)
      decreases |Ids(nodes) - visited|
    {
      var entry := nodes[cursor];
      if entry.id in visited {
        return Failed(Cycle(entry.id));
      }
      OneLessToVisit(nodes, cursor, visited);
      ReversedSnoc(path, cursor);
      path, visited := path + [cursor], visited + {entry.id};
      if entry.parent.None? {
        return Path(Reversed(path));
      }
      var next := Find(nodes, entry.parent.value);
      if next.None? {
        return Failed(DanglingParent(entry.id, entry.parent.value));
      }
      cursor := next.value;
    }
  }

  // ----- What the outcome means -----

  /** Each entry is the parent of the next one. */
  predicate IsChain(nodes: seq<Node>, positions: seq<nat>) {
    && (forall k :: 0 <= k < |positions| ==> positions[k] < |nodes|)
    && forall k :: 0 < k < |positions| ==> nodes[positions[k]].parent == Some(nodes[positions[k - 1]].id)
  }

  /** A way up from `leaf`, oldest entry first. */
  predicate IsWayUp(nodes: seq<Node>, positions: seq<nat>, leaf: nat) {
    positions != [] && positions[|positions| - 1] == leaf && IsChain(nodes, positions)
  }

  predicate IsWayToRoot(nodes: seq<Node>, positions: seq<nat>, leaf: nat) {
    IsWayUp(nodes, positions, leaf) && nodes[positions[0]].parent == None
  }

  ghost predicate IsTrue(nodes: seq<Node>, leaf: nat, r: Outcome) {
    match r
    case Path(positions) => IsWayToRoot(nodes, positions, leaf)
    case Failed(Cycle(id)) =>
      exists positions, k: nat ::
        && IsWayUp(nodes, positions, leaf) && 0 < k < |positions|
        && nodes[positions[0]].id == nodes[positions[k]].id == id
    case Failed(DanglingParent(id, parent)) =>
      && (exists positions ::
            && IsWayUp(nodes, positions, leaf)
            && nodes[positions[0]].id == id && nodes[positions[0]].parent == Some(parent))
      && forall i :: 0 <= i < |nodes| ==> nodes[i].id != parent
    case Failed(DuplicateId(_)) => false
  }

  predicate AreVisited(nodes: seq<Node>, below: seq<nat>, visited: set<string>) {
    && (forall k :: 0 <= k < |below| ==> below[k] < |nodes|)
    && forall id :: id in visited ==> exists k :: 0 <= k < |below| && nodes[below[k]].id == id
  }

  lemma {:induction false} ClimbIsTrue(nodes: seq<Node>, at: nat, below: seq<nat>, visited: set<string>, leaf: nat)
    requires at < |nodes| && IsWayUp(nodes, [at] + below, leaf) && AreVisited(nodes, below, visited)
    ensures IsTrue(nodes, leaf, Climb(nodes, at, below, visited))
    decreases |Ids(nodes) - visited|
  {
    hide Ids, Find;
    var entry, way := nodes[at], [at] + below;
    if entry.id in visited {
      var k :| 0 <= k < |below| && nodes[below[k]].id == entry.id;
      assert way[k + 1] == below[k];
    } else if entry.parent.Some? {
      var next := Find(nodes, entry.parent.value);
      if next.Some? {
        OneLessToVisit(nodes, at, visited);
        NextIsWayUp(nodes, next.value, way, leaf);
        VisitedMore(nodes, at, below, visited);
        ClimbIsTrue(nodes, next.value, way, visited + {entry.id}, leaf);
      }
    }
  }

  lemma NextIsWayUp(nodes: seq<Node>, next: nat, way: seq<nat>, leaf: nat)
    requires IsWayUp(nodes, way, leaf) && next < |nodes| && nodes[way[0]].parent == Some(nodes[next].id)
    ensures IsWayUp(nodes, [next] + way, leaf)
  {
    var all := [next] + way;
    forall k | 0 < k < |all| ensures nodes[all[k]].parent == Some(nodes[all[k - 1]].id) {
      assert all[k] == way[k - 1];
    }
  }

  lemma VisitedMore(nodes: seq<Node>, at: nat, below: seq<nat>, visited: set<string>)
    requires at < |nodes| && AreVisited(nodes, below, visited)
    ensures AreVisited(nodes, [at] + below, visited + {nodes[at].id})
  {
    var all := [at] + below;
    forall id | id in visited + {nodes[at].id} ensures exists k :: 0 <= k < |all| && nodes[all[k]].id == id {
      if id == nodes[at].id {
        assert nodes[all[0]].id == id;
      } else {
        var k :| 0 <= k < |below| && nodes[below[k]].id == id;
        assert nodes[all[k + 1]].id == id;
      }
    }
  }

  /** The first repeated identifier is at fault, or else what the walk met: a loop, a gap, or the root. */
  lemma ActiveIsTrue(nodes: seq<Node>)
    requires nodes != [] && !SomeEmptyId(nodes)
    ensures
      if AreDistinct(nodes) then IsTrue(nodes, |nodes| - 1, Active(nodes))
      else Active(nodes).Failed? && Active(nodes).error.DuplicateId?
  {
    hide IsTrue, Climb, LeastRepeated;
    DistinctIffNotRepeated(nodes);
    if AreDistinct(nodes) { ClimbIsTrue(nodes, |nodes| - 1, [], {}, |nodes| - 1); }
  }

  /** An identifier that two entries have, the first of those in the order of strings. */
  ghost predicate IsFirstShared(nodes: seq<Node>, id: string) {
    && (exists i, j :: 0 <= i < j < |nodes| && nodes[i].id == id && nodes[j].id == id)
    && forall i, j :: 0 <= i < j < |nodes| && nodes[i].id == nodes[j].id ==> Precedes(id, nodes[i].id)
  }

  /**
   Every file: one that is empty or has an entry without an identifier is taken in its order; one
   with a shared identifier is refused for the first of them; and of any other the outcome is true.
   */
  lemma ActiveIs(nodes: seq<Node>)
    ensures
      if nodes == [] || (exists n: Node :: n in nodes && n.id == "") then
        Active(nodes).Path? && |Active(nodes).positions| == |nodes|
        && forall k :: 0 <= k < |nodes| ==> Active(nodes).positions[k] == k
      else if exists i, j :: 0 <= i < j < |nodes| && nodes[i].id == nodes[j].id then
        Active(nodes).Failed? && Active(nodes).error.DuplicateId? && IsFirstShared(nodes, Active(nodes).error.id)
      else IsTrue(nodes, |nodes| - 1, Active(nodes))
  {
    hide IsTrue, Climb, LeastRepeated;
    assert SomeEmptyId(nodes) <==> exists n: Node :: n in nodes && n.id == "" by { EmptyIs(nodes); }
    if nodes != [] && !SomeEmptyId(nodes) {
      DistinctIffNotRepeated(nodes);
      if AreDistinct(nodes) {
        ActiveIsTrue(nodes);
      } else {
        SharedIs(nodes, LeastRepeated(nodes, |nodes|).value);
      }
    }
  }

  lemma EmptyIs(nodes: seq<Node>)
    ensures SomeEmptyId(nodes) <==> exists n: Node :: n in nodes && n.id == ""
  {
    if n: Node :| n in nodes && n.id == "" {
      var i :| 0 <= i < |nodes| && nodes[i] == n;
      assert nodes[i].id == "";
    }
    if i :| 0 <= i < |nodes| && nodes[i].id == "" { assert nodes[i] in nodes; }
  }

  lemma SharedIs(nodes: seq<Node>, id: string)
    requires LeastRepeated(nodes, |nodes|) == Some(id)
    ensures IsFirstShared(nodes, id)
  {
    hide LeastRepeated;
    var i :| 0 <= i < |nodes| && IsRepeated(nodes, i) && nodes[i].id == id;
    var j :| 0 <= j < |nodes| && j != i && nodes[j].id == nodes[i].id;
    var a, b := if i < j then i else j, if i < j then j else i;
    assert 0 <= a < b < |nodes| && nodes[a].id == id && nodes[b].id == id;
    forall i, j | 0 <= i < j < |nodes| && nodes[i].id == nodes[j].id ensures Precedes(id, nodes[i].id) {
      assert IsRepeated(nodes, i);
      LeastIsLeast(nodes, |nodes|, i);
    }
  }

  /** With distinct identifiers there is one way up for each length. */
  lemma {:induction false} WayUpIsUnique(nodes: seq<Node>, a: seq<nat>, b: seq<nat>, leaf: nat, i: nat)
    requires AreDistinct(nodes) && IsWayUp(nodes, a, leaf) && IsWayUp(nodes, b, leaf) && i < |a| && i < |b|
    ensures a[|a| - 1 - i] == b[|b| - 1 - i]
  {
    if i > 0 {
      WayUpIsUnique(nodes, a, b, leaf, i - 1);
      assert nodes[a[|a| - i]].parent == Some(nodes[a[|a| - i - 1]].id);
      assert nodes[b[|b| - i]].parent == Some(nodes[b[|b| - i - 1]].id);
    }
  }

  lemma HasParent(nodes: seq<Node>, way: seq<nat>, leaf: nat, k: nat)
    requires IsWayUp(nodes, way, leaf) && 0 < k < |way|
    ensures way[k] < |nodes| && nodes[way[k]].parent.Some?
  {
    assert nodes[way[k]].parent == Some(nodes[way[k - 1]].id);
  }

  lemma WayToRootIsLongest(nodes: seq<Node>, a: seq<nat>, b: seq<nat>, leaf: nat)
    requires AreDistinct(nodes) && IsWayToRoot(nodes, a, leaf) && IsWayUp(nodes, b, leaf)
    ensures |b| <= |a|
  {
    hide AreDistinct, IsChain;
    if |b| > |a| {
      HasParent(nodes, b, leaf, |b| - |a|);
      WayUpIsUnique(nodes, a, b, leaf, |a| - 1);
      assert false;
    }
  }

  /** The walk finds the root whenever there is a way to it, and then its path is that way. */
  lemma PathIffWayToRoot(nodes: seq<Node>, positions: seq<nat>)
    requires nodes != [] && !SomeEmptyId(nodes) && AreDistinct(nodes)
    ensures Active(nodes) == Path(positions) <==> IsWayToRoot(nodes, positions, |nodes| - 1)
  {
    hide Active, AreDistinct, SomeEmptyId;
    var leaf := |nodes| - 1;
    ActiveIsTrue(nodes);
    if IsWayToRoot(nodes, positions, leaf) {
      match Active(nodes)
      case Path(found) =>
        SameWay(nodes, positions, found, leaf);
      case Failed(Cycle(id)) =>
        var way, k: nat :| IsWayUp(nodes, way, leaf) && 0 < k < |way| && nodes[way[0]].id == nodes[way[k]].id == id;
        NoLoop(nodes, positions, way, k, leaf);
        assert false;
      case Failed(DanglingParent(id, parent)) =>
        var way :| IsWayUp(nodes, way, leaf) && nodes[way[0]].id == id && nodes[way[0]].parent == Some(parent);
        NoGap(nodes, positions, way, leaf);
        assert false;
      case Failed(DuplicateId(_)) =>
    }
  }

  lemma SameWay(nodes: seq<Node>, a: seq<nat>, b: seq<nat>, leaf: nat)
    requires AreDistinct(nodes) && IsWayToRoot(nodes, a, leaf) && IsWayToRoot(nodes, b, leaf)
    ensures a == b
  {
    hide AreDistinct;
    WayToRootIsLongest(nodes, a, b, leaf);
    WayToRootIsLongest(nodes, b, a, leaf);
    forall k | 0 <= k < |a| ensures a[k] == b[k] { WayUpIsUnique(nodes, a, b, leaf, |a| - 1 - k); }
  }

  /** Below a root there is no loop: round it a way up could be prolonged beyond the root. */
  lemma {:induction false} NoLoop(nodes: seq<Node>, root: seq<nat>, way: seq<nat>, k: nat, leaf: nat)
    requires AreDistinct(nodes) && IsWayToRoot(nodes, root, leaf) && IsWayUp(nodes, way, leaf)
    requires 0 < k < |way|
    ensures nodes[way[0]].id != nodes[way[k]].id
    decreases |root| - |way|
  {
    hide AreDistinct;
    WayToRootIsLongest(nodes, root, way, leaf);
    if nodes[way[0]].id == nodes[way[k]].id {
      SamePosition(nodes, way[0], way[k]);
      NextIsWayUp(nodes, way[k - 1], way, leaf);
      var more := [way[k - 1]] + way;
      WayToRootIsLongest(nodes, root, more, leaf);
      NoLoop(nodes, root, more, k, leaf);
    }
  }

  lemma SamePosition(nodes: seq<Node>, i: nat, j: nat)
    requires AreDistinct(nodes) && i < |nodes| && j < |nodes| && nodes[i].id == nodes[j].id
    ensures i == j
  {
  }

  /** And no missing parent. */
  lemma NoGap(nodes: seq<Node>, root: seq<nat>, way: seq<nat>, leaf: nat)
    requires AreDistinct(nodes) && IsWayToRoot(nodes, root, leaf) && IsWayUp(nodes, way, leaf)
    ensures nodes[way[0]].parent.Some? ==>
      exists i :: 0 <= i < |nodes| && nodes[i].id == nodes[way[0]].parent.value
  {
    hide AreDistinct;
    WayToRootIsLongest(nodes, root, way, leaf);
    WayUpIsUnique(nodes, root, way, leaf, |way| - 1);
    var k := |root| - |way|;
    assert root[k] == way[0];
    if k > 0 { assert nodes[root[k]].parent == Some(nodes[root[k - 1]].id); }
  }

  // ----- An exported file -----

  function NodesOf(entries: seq<PiExport.Entry>): (nodes: seq<Node>)
    ensures |nodes| == |entries|
    ensures forall k :: 0 <= k < |entries| ==> nodes[k] == Node(entries[k].id, entries[k].parentId)
  {
    seq(|entries|, k requires 0 <= k < |entries| => Node(entries[k].id, entries[k].parentId))
  }

  /** An exported file is a line, and the importer takes all of it unless identifiers repeat. */
  lemma ExportIsAllActive(items: seq<PiExport.Item>)
    ensures
      var nodes := NodesOf(PiExport.Render(items).entries);
      Active(nodes) == Path(FileOrder(|nodes|)) <==> nodes == [] || SomeEmptyId(nodes) || AreDistinct(nodes)
  {
    hide PiExport.Render, PiExport.Spans, PiExport.Linked, PiExport.AreSpans, SomeEmptyId, AreDistinct, Climb;
    var nodes := NodesOf(PiExport.Render(items).entries);
    var n := |nodes|;
    if nodes != [] && !SomeEmptyId(nodes) {
      if AreDistinct(nodes) {
        ExportIsChain(items);
        PathIffWayToRoot(nodes, FileOrder(n));
      } else {
        ActiveIsTrue(nodes);
      }
    }
  }

  lemma ExportIsChain(items: seq<PiExport.Item>)
    requires PiExport.Render(items).entries != []
    ensures
      var nodes := NodesOf(PiExport.Render(items).entries);
      IsWayToRoot(nodes, FileOrder(|nodes|), |nodes| - 1)
  {
    hide PiExport.Render, PiExport.Spans, PiExport.Linked, PiExport.AreSpans, PiExport.IsSpan, PiExport.EntryOf;
    var spans := PiExport.Spans(items);
    PiExport.RenderIs(items);
    var entries := PiExport.Render(items).entries;
    var nodes, order := NodesOf(entries), FileOrder(|entries|);
    assert |spans| > 0 by { if spans == [] { PiExport.RenderIs(items); NoEntries(items); } }
    PiExport.EntriesAreChained(items, spans, 0);
    forall k | 0 < k < |order| ensures nodes[order[k]].parent == Some(nodes[order[k - 1]].id) {
      PiExport.EntriesAreChained(items, spans, k);
    }
  }

  predicate HasDistinctEvents(items: seq<PiExport.Item>) {
    forall i, j :: 0 <= i < j < |items| ==> items[i].id != items[j].id
  }

  lemma ExportedIds(items: seq<PiExport.Item>, k: nat)
    requires k < |PiExport.Spans(items)|
    ensures
      var spans, entries := PiExport.Spans(items), PiExport.Render(items).entries;
      |entries| == |spans| && spans[k].start < |items| && entries[k].id == items[spans[k].start].id
  {
    hide PiExport.Render, PiExport.Spans, PiExport.Linked;
    PiExport.RenderIs(items);
    PiExport.EntriesAreChained(items, PiExport.Spans(items), k);
    assert PiExport.IsSpan(items, PiExport.Spans(items)[k]);
  }

  lemma StartsDiffer(items: seq<PiExport.Item>, j: nat, k: nat)
    requires j < k < |PiExport.Spans(items)|
    ensures PiExport.Spans(items)[j].start < PiExport.Spans(items)[k].start
  {
    hide PiExport.Spans;
    PiExport.SpansTile(items);
  }

  /** The export of a trace whose events have identifiers of their own is imported whole and in order. */
  lemma ExportIsImportedWhole(items: seq<PiExport.Item>)
    requires HasDistinctEvents(items)
    ensures
      var nodes := NodesOf(PiExport.Render(items).entries);
      Active(nodes) == Path(FileOrder(|nodes|))
  {
    hide PiExport.Render, PiExport.Spans, Active;
    var nodes := NodesOf(PiExport.Render(items).entries);
    forall j, k | 0 <= j < k < |nodes| ensures nodes[j].id != nodes[k].id {
      PiExport.RenderIs(items);
      EntriesAreSpans(items);
      ExportedIds(items, j);
      ExportedIds(items, k);
      StartsDiffer(items, j, k);
    }
    ExportIsAllActive(items);
  }

  lemma EntriesAreSpans(items: seq<PiExport.Item>)
    ensures |PiExport.Render(items).entries| == |PiExport.Spans(items)|
  {
    hide PiExport.Render, PiExport.Spans, PiExport.Linked;
    PiExport.RenderIs(items);
    if |PiExport.Spans(items)| > 0 {
      PiExport.EntriesAreChained(items, PiExport.Spans(items), 0);
    } else {
      NoEntries(items);
    }
  }

  lemma NoEntries(items: seq<PiExport.Item>)
    requires PiExport.AreSpans(items, [])
    ensures PiExport.Linked(items, []) == []
  {
  }
}
