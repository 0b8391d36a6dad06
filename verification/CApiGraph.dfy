/**
 The mutable graph and session objects of the C API (c/c_api.cc). Each method is
 one region under the graph's mutex and performs the step of that name of
 `GraphTable`, `GraphLife` and `SessionExtend`.
 */
module CApiGraph {
  import opened Options
  import GraphTable
  import GraphLife
  import SessionExtend

  datatype FinishStatus = Ok | DuplicateName | BuilderFailed

  /** What the parser and the importer make of a graph: the importer appends nodes, or appends some and removes them. */
  datatype ImportOutcome = Unparseable | Failed(slots: nat) | Imported(added: GraphTable.NodeTable)

  class Graph {
    var nodes: GraphTable.NodeTable
    var nameMap: map<string, nat>
    var numSessions: int
    var deleteRequested: bool

    /** The table and its index. */
    ghost function Table(): GraphTable.Graph
      reads this
    {
      GraphTable.Graph(nodes, nameMap)
    }

    ghost predicate Valid()
      reads this
    {
      Table().Agrees()
    }

    /** The lifetime state agrees with the two fields of the graph. */
    ghost predicate Tracks(life: GraphLife.Life)
      reads this
    {
      life.numSessions == numSessions && life.deleteRequested == deleteRequested
    }

    constructor (source: GraphTable.Node, sink: GraphTable.Node, ghost life: GraphLife.Life)
      requires GraphLife.IsNew(life)
      ensures Valid() && Table() == GraphTable.NewGraph(source, sink) && Tracks(life)
      ensures nodes == [Some(source), Some(sink)] && nameMap == map[] && GraphTable.FIRST_OP == 2
      ensures numSessions == 0 && !deleteRequested
    {
      nodes, nameMap := [Some(source), Some(sink)], map[];
      numSessions, deleteRequested := 0, false;
    }

    /** `TF_FinishOperation`; `builderOk` is the outcome of the node builder. */
    method FinishOperation(op: GraphTable.Node, builderOk: bool) returns (status: FinishStatus, id: Option<nat>)
      requires Valid()
      modifies this`nodes, this`nameMap
      ensures Valid() && Table() == old(Table()).Finish(op, builderOk)
      ensures status == DuplicateName <==> exists k: nat :: old(Table()).HasOp(op.name, k)
      ensures status == Ok ==> id == Some(old(|nodes|)) && Table().HasOp(op.name, old(|nodes|))
      ensures status != Ok ==> id == None && nodes == old(nodes) && nameMap == old(nameMap)
      ensures status == BuilderFailed ==> !builderOk
      ensures status == Ok ==> nodes == old(nodes) + [Some(op)] && nameMap == old(nameMap)[op.name := old(|nodes|)]
    {
      GraphTable.FinishAgrees(Table(), op, builderOk);
      assert op.name in nameMap ==> Table().HasOp(op.name, nameMap[op.name]);
      if op.name in nameMap {
        return DuplicateName, None;
      }
      assert forall k: nat :: Table().HasOp(op.name, k) ==> op.name in nameMap;
      if !builderOk {
        return BuilderFailed, None;
      }
      var id' := |nodes|;
      nodes := nodes + [Some(op)];
      nameMap := nameMap[op.name := id'];
      return Ok, Some(id');
    }

    /** `TF_GraphImportGraphDef`, given what became of the serialized graph. */
    method ImportGraphDef(outcome: ImportOutcome) returns (ok: bool)
      requires Valid() && (outcome.Imported? ==> Table().Importable(outcome.added))
      modifies this`nodes, this`nameMap
      ensures Valid() && ok == outcome.Imported?
      ensures outcome == Unparseable ==> Table() == old(Table())
      ensures outcome.Failed? ==> Table() == old(Table()).Undone(outcome.slots)
      ensures outcome.Imported? ==> Table() == old(Table()).Import(outcome.added)
      ensures outcome.Imported? ==>
                && nodes == old(nodes) + outcome.added
                && (forall name :: name in old(nameMap) ==> name in nameMap && nameMap[name] == old(nameMap)[name])
                && forall i :: 0 <= i < |outcome.added| && outcome.added[i].Some? ==>
                     var name := outcome.added[i].value.name;
                     Table().HasOp(name, old(|nodes|) + i) && name in nameMap && nameMap[name] == old(|nodes|) + i
      ensures !ok ==>
                && nameMap == old(nameMap) && old(nodes) <= nodes
                && (forall i :: old(|nodes|) <= i < |nodes| ==> nodes[i].None?)
                && |nodes| == old(|nodes|) + if outcome.Failed? then outcome.slots else 0
    {
      if outcome.Unparseable? {
        return false;
      }
      var lastNodeId := |nodes|;
      if outcome.Failed? {
        GraphTable.UndoneAgrees(Table(), outcome.slots);
        GraphTable.EmptySlotsAreEmpty(outcome.slots);
        nodes := nodes + GraphTable.EmptySlots(outcome.slots);
        return false;
      }
      var added := outcome.added;
      GraphTable.ImportAgrees(Table(), added);
      GraphTable.ImportMeaning(Table(), added);
      nodes := nodes + added;
      var i := lastNodeId;
      while i < |nodes|
        invariant lastNodeId <= i <= |nodes|
        invariant nodes == old(nodes) + added
        invariant nameMap == GraphTable.Indexed(old(nameMap), nodes, lastNodeId, i)
      {
        if nodes[i].Some? {
          nameMap := nameMap[nodes[i].value.name := i];
        }
        i := i + 1;
      }
      return true;
    }

    /** `TF_GraphOperationByName`. */
    method OperationByName(name: string) returns (id: Option<nat>)
      requires Valid()
      ensures id.Some? ==> Table().HasOp(name, id.value)
      ensures id.None? ==> forall k: nat :: !Table().HasOp(name, k)
    {
      if name in nameMap {
        assert Table().HasOp(name, nameMap[name]);
        return Some(nameMap[name]);
      }
      return None;
    }

    /** `TF_GraphNextOperation`: moves the caller's position to the next node and returns it. */
    method NextOperation(pos: nat) returns (next: nat, id: Option<nat>)
      ensures next == GraphTable.FirstLive(nodes, GraphTable.NextStart(pos))
      ensures id == if next < |nodes| then Some(next) else None
      ensures var from := if pos == 0 then 2 else pos + 1;
              && from <= next && (next == from || next <= |nodes|)
              && (id.Some? ==> id.value == next < |nodes| && nodes[next].Some?)
              && (forall k :: from <= k < next && k < |nodes| ==> nodes[k].None?)
      ensures id == None <==> forall k :: (if pos == 0 then 2 else pos + 1) <= k < |nodes| ==> nodes[k].None?
    {
      next := if pos == 0 then pos + 2 else pos + 1;
      while next < |nodes|
        invariant GraphTable.FirstLive(nodes, next) == GraphTable.FirstLive(nodes, GraphTable.NextStart(pos))
        invariant GraphTable.NextStart(pos) <= next && (next == GraphTable.NextStart(pos) || next <= |nodes|)
        invariant forall k :: GraphTable.NextStart(pos) <= k < next && k < |nodes| ==> nodes[k].None?
        decreases |nodes| - next
      {
        if nodes[next].Some? {
          return next, Some(next);
        }
        next := next + 1;
      }
      return next, None;
    }

    /** The locked region of `TF_NewSession`. */
    method AddSession(ghost life: GraphLife.Life, ghost id: GraphLife.SessionId)
      requires Tracks(life)
      modifies this`numSessions
      ensures Tracks(GraphLife.Apply(life, GraphLife.NewSession(id)))
      ensures numSessions == old(numSessions) + 1
    {
      numSessions := numSessions + 1;
    }

    /** The locked region of `TF_DeleteSession`; the caller frees the graph when `del` is set. */
    method DropSession(ghost life: GraphLife.Life, ghost id: GraphLife.SessionId) returns (del: bool)
      requires Tracks(life)
      modifies this`numSessions
      ensures Tracks(GraphLife.Apply(life, GraphLife.DeleteSession(id)))
      ensures del == GraphLife.ComputesDel(life, GraphLife.DeleteSession(id))
      ensures numSessions == old(numSessions) - 1 && (del <==> deleteRequested && numSessions == 0)
    {
      numSessions := numSessions - 1;
      del := deleteRequested && numSessions == 0;
    }

    /** The locked region of `TF_DeleteGraph`. */
    method RequestDelete(ghost life: GraphLife.Life) returns (del: bool)
      requires Tracks(life)
      modifies this`deleteRequested
      ensures Tracks(GraphLife.Apply(life, GraphLife.DeleteGraph))
      ensures del == GraphLife.ComputesDel(life, GraphLife.DeleteGraph)
      ensures deleteRequested && (del <==> numSessions == 0)
    {
      deleteRequested := true;
      del := numSessions == 0;
    }
  }

  /** A session: the mark up to which the graph has been shipped to it. */
  class Session {
    const graph: Graph
    var lastNumGraphNodes: nat

    constructor (graph: Graph)
      ensures this.graph == graph && lastNumGraphNodes == SessionExtend.NEW_SESSION.last == 0
    {
      this.graph := graph;
      lastNumGraphNodes := 0;
    }

    /** `ExtendSessionGraphHelper` under the graph's mutex; `ship` tells whether `Extend` is to be called. */
    method TakeSnapshot(ghost own: SessionExtend.Session)
      returns (ship: bool, numNodes: nat, graphDef: seq<(nat, GraphTable.Node)>)
      requires own.last == lastNumGraphNodes && own.phase.Idle?
      ensures SessionExtend.TakeSnapshot(graph.nodes, own) ==
              if ship then own.(phase := SessionExtend.Shipping(numNodes, graphDef)) else own
      ensures numNodes == |graph.nodes| && (ship <==> lastNumGraphNodes < |graph.nodes|)
      ensures GraphTable.Increasing(graphDef)
      ensures forall id: nat, node :: (id, node) in graphDef <==>
                lastNumGraphNodes <= id < |graph.nodes| && id >= 2 && graph.nodes[id] == Some(node)
    {
      numNodes := |graph.nodes|;
      graphDef := [];
      if lastNumGraphNodes < numNodes {
        var id := lastNumGraphNodes;
        while id < numNodes
          invariant lastNumGraphNodes <= id <= numNodes == |graph.nodes|
          invariant graphDef == GraphTable.OpsBetween(graph.nodes, lastNumGraphNodes, id)
        {
          if graph.nodes[id].Some? && id >= GraphTable.FIRST_OP {
            graphDef := graphDef + [(id, graph.nodes[id].value)];
          }
          id := id + 1;
        }
        Collected(graph.nodes, lastNumGraphNodes);
        return true, numNodes, graphDef;
      }
      return false, numNodes, graphDef;
    }

    /** What the loop has collected, in terms of the table. */
    static lemma Collected(nodes: GraphTable.NodeTable, last: nat)
      ensures var ops := GraphTable.OpsBetween(nodes, last, |nodes|);
              && GraphTable.Increasing(ops)
              && forall id: nat, node ::
                   (id, node) in ops <==> last <= id < |nodes| && id >= 2 && nodes[id] == Some(node)
    {
      GraphTable.OpsBetweenIncreasing(nodes, last, |nodes|);
      forall id: nat, node
        ensures (id, node) in GraphTable.OpsBetween(nodes, last, |nodes|) <==>
                last <= id < |nodes| && id >= 2 && nodes[id] == Some(node)
      {
        GraphTable.OpsBetweenExact(nodes, last, |nodes|, id, node);
      }
    }

    /** The part after `Extend` returned; false makes the run call return early. */
    method FinishExtend(ghost own: SessionExtend.Session, extendOk: bool, numNodes: nat) returns (go: bool)
      requires own.last == lastNumGraphNodes && own.phase.Shipping? && own.phase.upTo == numNodes
      modifies this`lastNumGraphNodes
      ensures go == extendOk && lastNumGraphNodes == SessionExtend.Finished(own, extendOk).last
      ensures lastNumGraphNodes == if extendOk then numNodes else old(lastNumGraphNodes)
    {
      if !extendOk {
        return false;
      }
      lastNumGraphNodes := numNodes;
      return true;
    }
  }
}
