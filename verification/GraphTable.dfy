/**
 The nodes of a C API graph and the index of their names (c/c_api.cc): adding
 one operation, importing many, looking one up, and iterating over all.
 */
module GraphTable {
  import opened Options

  /** A node: its name and its definition, which is passed on but never read. */
  datatype Node = Node(name: string, def: nat)

  /** Nodes by id; `None` is a slot whose node was deleted. */
  type NodeTable = seq<Option<Node>>

  /** Ids 0 and 1 are the source and the sink of every graph. */
  const FIRST_OP: nat := 2

  datatype Graph = Graph(nodes: NodeTable, nameMap: map<string, nat>) {

    ghost predicate HasOp(name: string, id: nat) {
      FIRST_OP <= id < |nodes| && nodes[id].Some? && nodes[id].value.name == name
    }

    /** The index maps a name to an id exactly when the operation with that id has that name. */
    ghost predicate Agrees() {
      |nodes| >= FIRST_OP && forall name, id: nat {:trigger HasOp(name, id)} ::
        (name in nameMap && nameMap[name] == id) <==> HasOp(name, id)
    }

    /** One new operation, under a name not in use; refused when the name is taken or the builder fails. */
    function Finish(op: Node, builderOk: bool): Graph {
      if op.name in nameMap || !builderOk then this
      else Graph(nodes + [Some(op)], nameMap[op.name := |nodes|])
    }

    /** What the importer promises on success: only fresh names, each once. */
    ghost predicate Importable(added: NodeTable) {
      && (forall i {:trigger added[i]} :: 0 <= i < |added| && added[i].Some? ==> added[i].value.name !in nameMap)
      && (forall i, j {:trigger added[i], added[j]} ::
            0 <= i < j < |added| && added[i].Some? && added[j].Some? ==> added[i].value.name != added[j].value.name)
    }

    /** The import: all new nodes are appended, then indexed one after the other. */
    function Import(added: NodeTable): Graph {
      var all := nodes + added;
      Graph(all, Indexed(nameMap, all, |nodes|, |all|))
    }

    /** A failed import removes the nodes it had added. Their ids are not used again and stay as empty slots. */
    function Undone(slots: nat): Graph {
      Graph(nodes + EmptySlots(slots), nameMap)
    }
  }

  function EmptySlots(n: nat): (slots: NodeTable)
    ensures |slots| == n
  {
    if n == 0 then [] else EmptySlots(n - 1) + [None]
  }

  function NewGraph(source: Node, sink: Node): Graph {
    Graph([Some(source), Some(sink)], map[])
  }

  /** The index after visiting the ids from `lo` up to `hi`. */
  function Indexed(m: map<string, nat>, nodes: NodeTable, lo: nat, hi: nat): map<string, nat>
    requires lo <= hi <= |nodes|
    decreases hi
  {
    if lo == hi then m
    else
      var before := Indexed(m, nodes, lo, hi - 1);
      if nodes[hi - 1].None? then before else before[nodes[hi - 1].value.name := hi - 1]
  }

  // --- the index agrees with the table in every run --------------------------

  lemma FinishAgrees(g: Graph, op: Node, builderOk: bool)
    requires g.Agrees()
    ensures g.Finish(op, builderOk).Agrees()
  {
    var h := g.Finish(op, builderOk);
    if h != g {
      forall name, id: nat ensures (name in h.nameMap && h.nameMap[name] == id) <==> h.HasOp(name, id) {
        assert g.HasOp(name, id) <==> name in g.nameMap && g.nameMap[name] == id;
        assert id < |g.nodes| ==> (g.HasOp(name, id) <==> h.HasOp(name, id));
        if name == op.name {
          assert !g.HasOp(name, id);
        } else if id == |g.nodes| {
          assert !h.HasOp(name, id);
          assert !g.HasOp(name, id);
        }
      }
    }
  }

  /** Indexing the ids below `hi` keeps the index in agreement with the table cut off at `hi`. */
  lemma {:induction false} IndexedAgrees(g: Graph, added: NodeTable, hi: nat)
    requires g.Agrees() && g.Importable(added) && |g.nodes| <= hi <= |g.nodes| + |added|
    ensures var all := g.nodes + added; Graph(all[..hi], Indexed(g.nameMap, all, |g.nodes|, hi)).Agrees()
    decreases hi
  {
    var all, n := g.nodes + added, |g.nodes|;
    if hi == n {
      assert all[..hi] == g.nodes;
    } else {
      IndexedAgrees(g, added, hi - 1);
      var before := Graph(all[..hi - 1], Indexed(g.nameMap, all, n, hi - 1));
      assert all[..hi] == before.nodes + [all[hi - 1]];
      assert all[hi - 1] == added[hi - 1 - n];
      if all[hi - 1].Some? {
        NameIsFresh(g, added, hi - 1);
        FinishAgrees(before, all[hi - 1].value, true);
      } else {
        SlotAgrees(before);
      }
    }
  }

  lemma NameIsFresh(g: Graph, added: NodeTable, id: nat)
    requires g.Agrees() && g.Importable(added) && |g.nodes| <= id < |g.nodes| + |added|
    requires var all := g.nodes + added;
             all[id].Some? && Graph(all[..id], Indexed(g.nameMap, all, |g.nodes|, id)).Agrees()
    ensures var all := g.nodes + added; all[id].value.name !in Indexed(g.nameMap, all, |g.nodes|, id)
  {
    var all, n := g.nodes + added, |g.nodes|;
    var name, before := all[id].value.name, Graph(all[..id], Indexed(g.nameMap, all, n, id));
    assert added[id - n] == all[id];
    assert name in before.nameMap ==> before.HasOp(name, before.nameMap[name]);
    forall other: nat | other < id ensures !before.HasOp(name, other) {
      if other < n {
        assert g.HasOp(name, other) <==> before.HasOp(name, other);
      } else {
        assert added[other - n] == all[other];
      }
    }
  }

  lemma SlotAgrees(g: Graph)
    requires g.Agrees()
    ensures Graph(g.nodes + [None], g.nameMap).Agrees()
  {
    var h := Graph(g.nodes + [None], g.nameMap);
    forall name, id: nat ensures (name in h.nameMap && h.nameMap[name] == id) <==> h.HasOp(name, id) {
      assert g.HasOp(name, id) <==> name in g.nameMap && g.nameMap[name] == id;
      assert g.HasOp(name, id) <==> h.HasOp(name, id);
    }
  }

  lemma ImportAgrees(g: Graph, added: NodeTable)
    requires g.Agrees() && g.Importable(added)
    ensures g.Import(added).Agrees()
  {
    var all := g.nodes + added;
    IndexedAgrees(g, added, |all|);
    assert all[..|all|] == all;
  }

  /** What an import leaves: all that was there, and every new node at its id and in the index. */
  lemma ImportMeaning(g: Graph, added: NodeTable)
    requires g.Agrees() && g.Importable(added)
    ensures g.Import(added).nodes == g.nodes + added
    ensures forall name :: name in g.nameMap ==>
              name in g.Import(added).nameMap && g.Import(added).nameMap[name] == g.nameMap[name]
    ensures forall i :: 0 <= i < |added| && added[i].Some? ==>
              && g.Import(added).HasOp(added[i].value.name, |g.nodes| + i)
              && added[i].value.name in g.Import(added).nameMap
              && g.Import(added).nameMap[added[i].value.name] == |g.nodes| + i
  {
    var h := g.Import(added);
    ImportAgrees(g, added);
    forall name | name in g.nameMap ensures name in h.nameMap && h.nameMap[name] == g.nameMap[name] {
      assert g.HasOp(name, g.nameMap[name]);
      assert h.HasOp(name, g.nameMap[name]);
    }
    forall i | 0 <= i < |added| && added[i].Some?
      ensures h.HasOp(added[i].value.name, |g.nodes| + i)
      ensures added[i].value.name in h.nameMap && h.nameMap[added[i].value.name] == |g.nodes| + i
    {
      assert h.nodes[|g.nodes| + i] == added[i];
      assert h.HasOp(added[i].value.name, |g.nodes| + i);
    }
  }

  lemma {:induction false} EmptySlotsAreEmpty(n: nat)
    ensures forall i :: 0 <= i < n ==> EmptySlots(n)[i].None?
  {
    if n > 0 {
      EmptySlotsAreEmpty(n - 1);
    }
  }

  lemma {:induction false} UndoneAgrees(g: Graph, slots: nat)
    requires g.Agrees()
    ensures g.Undone(slots).Agrees()
    decreases slots
  {
    if slots == 0 {
      assert g.nodes + [] == g.nodes;
    } else {
      UndoneAgrees(g, slots - 1);
      SlotAgrees(g.Undone(slots - 1));
      assert g.nodes + EmptySlots(slots) == g.nodes + EmptySlots(slots - 1) + [None];
    }
  }

  datatype Change = Finish(op: Node, builderOk: bool) | Import(added: NodeTable) | FailedImport(slots: nat)

  function Apply(g: Graph, c: Change): Graph {
    match c
    case Finish(op, builderOk) => g.Finish(op, builderOk)
    case Import(added) => g.Import(added)
    case FailedImport(slots) => g.Undone(slots)
  }

  function Run(g: Graph, changes: seq<Change>): Graph {
    if changes == [] then g else Apply(Run(g, changes[..|changes| - 1]), changes[|changes| - 1])
  }

  /** Every import of the run kept the importer's promise. */
  ghost predicate ImportsKeepPromise(g: Graph, changes: seq<Change>) {
    forall i :: 0 <= i < |changes| && changes[i].Import? ==> Run(g, changes[..i]).Importable(changes[i].added)
  }

  /** After any sequence of changes to a new graph, the index agrees with the table, and names are unique. */
  lemma {:induction false} RunAgrees(source: Node, sink: Node, changes: seq<Change>)
    requires ImportsKeepPromise(NewGraph(source, sink), changes)
    ensures Run(NewGraph(source, sink), changes).Agrees()
    ensures NamesUnique(Run(NewGraph(source, sink), changes))
    decreases |changes|
  {
    var g := NewGraph(source, sink);
    if changes != [] {
      var n := |changes| - 1;
      var init := changes[..n];
      forall i | 0 <= i < |init| ensures changes[..i] == init[..i] && init[i] == changes[i] {
      }
      RunAgrees(source, sink, init);
      var before := Run(g, init);
      match changes[n]
      case Finish(op, ok) => FinishAgrees(before, op, ok);
      case Import(added) => ImportAgrees(before, added);
      case FailedImport(slots) => UndoneAgrees(before, slots);
    }
    AgreementMakesUnique(Run(g, changes));
  }

  ghost predicate NamesUnique(g: Graph) {
    forall i, j {:trigger g.nodes[i], g.nodes[j]} ::
      (FIRST_OP <= i < |g.nodes| && FIRST_OP <= j < |g.nodes| && g.nodes[i].Some? && g.nodes[j].Some?
       && g.nodes[i].value.name == g.nodes[j].value.name) ==> i == j
  }

  lemma AgreementMakesUnique(g: Graph)
    requires g.Agrees()
    ensures NamesUnique(g)
  {
    forall i, j |
      FIRST_OP <= i < |g.nodes| && FIRST_OP <= j < |g.nodes| && g.nodes[i].Some? && g.nodes[j].Some?
      && g.nodes[i].value.name == g.nodes[j].value.name
      ensures i == j
    {
      assert g.HasOp(g.nodes[i].value.name, i) && g.HasOp(g.nodes[i].value.name, j);
    }
  }

  // --- iteration ------------------------------------------------------------

  /** Where `TF_GraphNextOperation` starts to look. */
  function NextStart(pos: nat): nat {
    if pos == 0 then FIRST_OP else pos + 1
  }

  /** The first id from `from` on that has a node; past the table when there is none. */
  function FirstLive(nodes: NodeTable, from: nat): (id: nat)
    ensures from <= id && (id < |nodes| ==> nodes[id].Some?)
    ensures forall k :: from <= k < id && k < |nodes| ==> nodes[k].None?
    decreases |nodes| - from
  {
    if from < |nodes| && nodes[from].None? then FirstLive(nodes, from + 1) else from
  }

  /** The ids of operations, in increasing order. */
  function OpIds(nodes: NodeTable, from: nat): seq<nat>
    decreases |nodes| - from
  {
    if from >= |nodes| then []
    else if nodes[from].None? then OpIds(nodes, from + 1)
    else [from] + OpIds(nodes, from + 1)
  }

  /** Ids of live operations from `from` on, in increasing order, so none comes twice. */
  ghost predicate LiveInOrder(ids: seq<nat>, nodes: NodeTable, from: nat) {
    && (forall i :: 0 <= i < |ids| ==> from <= ids[i] < |nodes| && nodes[ids[i]].Some?)
    && (forall i, j :: 0 <= i < j < |ids| ==> ids[i] < ids[j])
  }

  lemma OneMoreInOrder(rest: seq<nat>, nodes: NodeTable, from: nat)
    requires LiveInOrder(rest, nodes, from + 1) && from < |nodes| && nodes[from].Some?
    ensures LiveInOrder([from] + rest, nodes, from)
  {
    var ids := [from] + rest;
    assert forall i :: 0 < i < |ids| ==> ids[i] == rest[i - 1];
  }

  lemma {:induction false} OpIdsInOrder(nodes: NodeTable, from: nat)
    ensures LiveInOrder(OpIds(nodes, from), nodes, from)
    decreases |nodes| - from
  {
    if from < |nodes| {
      OpIdsInOrder(nodes, from + 1);
      if nodes[from].Some? {
        OneMoreInOrder(OpIds(nodes, from + 1), nodes, from);
      }
    }
  }

  lemma {:induction false} OpIdsComplete(nodes: NodeTable, from: nat, id: nat)
    requires from <= id < |nodes| && nodes[id].Some?
    ensures id in OpIds(nodes, from)
    decreases |nodes| - from
  {
    if from < id {
      OpIdsComplete(nodes, from + 1, id);
    }
  }

  lemma {:induction false} OpIdsFromLive(nodes: NodeTable, from: nat)
    ensures var id := FirstLive(nodes, from);
            OpIds(nodes, from) == if id < |nodes| then [id] + OpIds(nodes, id + 1) else []
    decreases |nodes| - from
  {
    if from < |nodes| && nodes[from].None? {
      OpIdsFromLive(nodes, from + 1);
    }
  }

  /** The ids returned by successive calls, the i-th made on table `tables[i]`, until one returns null. */
  function Visited(tables: seq<NodeTable>, pos: nat): seq<nat> {
    if tables == [] then []
    else
      var id := FirstLive(tables[0], NextStart(pos));
      if id < |tables[0]| then [id] + Visited(tables[1..], id) else []
  }

  /** Nodes are only ever added, behind those there are. */
  ghost predicate Grows(tables: seq<NodeTable>) {
    forall i, j :: 0 <= i <= j < |tables| ==> tables[i] <= tables[j]
  }

  lemma FirstLiveInLarger(small: NodeTable, large: NodeTable, from: nat)
    requires small <= large && FirstLive(small, from) < |small|
    ensures FirstLive(large, from) == FirstLive(small, from)
  {
    var id := FirstLive(small, from);
    assert large[id] == small[id];
  }

  /**
   An iteration from 0 that ends with null on its last call, while other threads
   add nodes between the calls, has visited every operation of the final table
   exactly once and in increasing order.
   */
  lemma {:induction false} IterationComplete(tables: seq<NodeTable>, pos: nat)
    requires tables != [] && Grows(tables)
    requires |Visited(tables, pos)| == |tables| - 1
    ensures Visited(tables, pos) == OpIds(tables[|tables| - 1], NextStart(pos))
    decreases |tables|
  {
    var last := tables[|tables| - 1];
    var id := FirstLive(tables[0], NextStart(pos));
    if id < |tables[0]| {
      var rest := tables[1..];
      assert Visited(tables, pos) == [id] + Visited(rest, id);
      assert rest != [] && rest[|rest| - 1] == last;
      IterationComplete(rest, id);
      assert tables[0] <= last;
      FirstLiveInLarger(tables[0], last, NextStart(pos));
      OpIdsFromLive(last, NextStart(pos));
      assert NextStart(id) == id + 1;
    } else {
      assert tables[0] == last;
      OpIdsFromLive(last, NextStart(pos));
    }
  }

  function Repeated(nodes: NodeTable, n: nat): (tables: seq<NodeTable>)
    ensures |tables| == n
  {
    if n == 0 then [] else [nodes] + Repeated(nodes, n - 1)
  }

  /**
   Over a table that no longer grows the calls come to an end: made often enough,
   they return the operations that are left, and then null.
   */
  lemma {:induction false} IterationEnds(nodes: NodeTable, pos: nat, n: nat)
    requires n > |OpIds(nodes, NextStart(pos))|
    ensures Visited(Repeated(nodes, n), pos) == OpIds(nodes, NextStart(pos))
    decreases n
  {
    var id := FirstLive(nodes, NextStart(pos));
    OpIdsFromLive(nodes, NextStart(pos));
    assert Repeated(nodes, n)[1..] == Repeated(nodes, n - 1);
    if id < |nodes| {
      assert NextStart(id) == id + 1;
      IterationEnds(nodes, id, n - 1);
    }
  }

  /**
   In terms of ids: an iteration from 0 that has ended, while other threads added
   nodes, has visited exactly the live ids from 2 on of the final table, in order.
   */
  lemma IterationFromZero(tables: seq<NodeTable>, id: nat)
    requires tables != [] && Grows(tables) && |Visited(tables, 0)| == |tables| - 1
    ensures var last := tables[|tables| - 1];
            && (id in Visited(tables, 0) <==> 2 <= id < |last| && last[id].Some?)
            && LiveInOrder(Visited(tables, 0), last, 2)
  {
    var last := tables[|tables| - 1];
    IterationComplete(tables, 0);
    OpIdsInOrder(last, 2);
    if 2 <= id < |last| && last[id].Some? {
      OpIdsComplete(last, 2, id);
    }
  }

  /** Likewise from any other position: the live ids behind it. */
  lemma IterationFrom(tables: seq<NodeTable>, pos: nat, id: nat)
    requires tables != [] && Grows(tables) && |Visited(tables, pos)| == |tables| - 1 && pos > 0
    ensures var last := tables[|tables| - 1];
            && (id in Visited(tables, pos) <==> pos < id < |last| && last[id].Some?)
            && LiveInOrder(Visited(tables, pos), last, pos + 1)
  {
    var last := tables[|tables| - 1];
    IterationComplete(tables, pos);
    OpIdsInOrder(last, pos + 1);
    if pos < id < |last| && last[id].Some? {
      OpIdsComplete(last, pos + 1, id);
    }
  }

  /** Over a table that does not grow, an iteration ends after at most as many calls as there are ids, and one. */
  lemma IterationEndsInTime(nodes: NodeTable, pos: nat, n: nat)
    requires n > |nodes|
    ensures |Visited(Repeated(nodes, n), pos)| < n
    ensures Visited(Repeated(nodes, n), pos) == Visited(Repeated(nodes, |nodes| + 1), pos)
  {
    OpIdsAreFew(nodes, NextStart(pos));
    IterationEnds(nodes, pos, n);
    IterationEnds(nodes, pos, |nodes| + 1);
  }

  lemma {:induction false} OpIdsAreFew(nodes: NodeTable, from: nat)
    ensures |OpIds(nodes, from)| <= |nodes| && (from <= |nodes| ==> |OpIds(nodes, from)| <= |nodes| - from)
    decreases |nodes| - from
  {
    if from < |nodes| {
      OpIdsAreFew(nodes, from + 1);
    }
  }

  // --- nodes to be shipped --------------------------------------------------

  /** The operations with ids from `lo` up to `hi`, with their ids, in increasing order. */
  function OpsBetween(nodes: NodeTable, lo: nat, hi: nat): (ops: seq<(nat, Node)>)
    requires hi <= |nodes|
    decreases hi
  {
    if hi <= lo then []
    else
      var before := OpsBetween(nodes, lo, hi - 1);
      if hi - 1 < FIRST_OP || nodes[hi - 1].None? then before else before + [(hi - 1, nodes[hi - 1].value)]
  }

  /** Consecutive ranges add up. */
  lemma {:induction false} OpsBetweenSplit(nodes: NodeTable, lo: nat, mid: nat, hi: nat)
    requires lo <= mid <= hi <= |nodes|
    ensures OpsBetween(nodes, lo, mid) + OpsBetween(nodes, mid, hi) == OpsBetween(nodes, lo, hi)
    decreases hi
  {
    if mid < hi {
      OpsBetweenSplit(nodes, lo, mid, hi - 1);
    }
  }

  /** Nodes added later do not change what lies below. */
  lemma {:induction false} OpsBetweenStable(small: NodeTable, large: NodeTable, lo: nat, hi: nat)
    requires small <= large && hi <= |small|
    ensures OpsBetween(large, lo, hi) == OpsBetween(small, lo, hi)
    decreases hi
  {
    if lo < hi {
      OpsBetweenStable(small, large, lo, hi - 1);
    }
  }

  ghost predicate Increasing(ops: seq<(nat, Node)>) {
    forall i, j :: 0 <= i < j < |ops| ==> ops[i].0 < ops[j].0
  }

  /** The range holds its operations in order of increasing id, so none twice. */
  lemma {:induction false} OpsBetweenIncreasing(nodes: NodeTable, lo: nat, hi: nat)
    requires hi <= |nodes|
    ensures Increasing(OpsBetween(nodes, lo, hi))
    ensures forall i :: 0 <= i < |OpsBetween(nodes, lo, hi)| ==> OpsBetween(nodes, lo, hi)[i].0 < hi
    decreases hi
  {
    if lo < hi {
      OpsBetweenIncreasing(nodes, lo, hi - 1);
    }
  }

  /** It holds exactly the operations whose ids lie in it. */
  lemma {:induction false} OpsBetweenExact(nodes: NodeTable, lo: nat, hi: nat, id: nat, node: Node)
    requires hi <= |nodes|
    ensures (id, node) in OpsBetween(nodes, lo, hi) <==> lo <= id < hi && FIRST_OP <= id && nodes[id] == Some(node)
    decreases hi
  {
    if lo < hi {
      OpsBetweenExact(nodes, lo, hi - 1, id, node);
    }
  }
}
