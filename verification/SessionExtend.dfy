/**
 How the nodes of a shared graph reach the sessions that run it (c/c_api.cc): a
 session takes a snapshot under the graph's mutex and ships it after leaving the
 mutex, while other threads add nodes and other sessions ship their own.
 */
module SessionExtend {
  import opened Options
  import opened GraphTable

  type SessionId = nat

  /**
   The session's own mutex admits one helper call at a time: it is either not in
   one, or has left the graph's mutex with the nodes of `batch` to ship.
   */
  datatype Phase = Idle | Shipping(upTo: nat, batch: seq<(nat, Node)>)

  /** `last` is the field `last_num_graph_nodes`; `shipped` is all that `Extend` accepted so far. */
  datatype Session = Session(last: nat, shipped: seq<(nat, Node)>, phase: Phase)

  const NEW_SESSION: Session := Session(0, [], Idle)

  datatype System = System(nodes: NodeTable, sessions: map<SessionId, Session>)

  datatype Event =
    | Grow(added: NodeTable)
    | Open(id: SessionId)
    | Snapshot(id: SessionId)
    | Extended(id: SessionId)
    | ExtendFailed(id: SessionId)

  predicate Enabled(s: System, e: Event) {
    match e
    case Grow(_) => true
    case Open(id) => id !in s.sessions
    case Snapshot(id) => id in s.sessions && s.sessions[id].phase.Idle?
    case Extended(id) => id in s.sessions && s.sessions[id].phase.Shipping?
    case ExtendFailed(id) => id in s.sessions && s.sessions[id].phase.Shipping?
  }

  /** What the session does under the graph's mutex. */
  function TakeSnapshot(nodes: NodeTable, session: Session): Session {
    if session.last < |nodes|
    then session.(phase := Shipping(|nodes|, OpsBetween(nodes, session.last, |nodes|)))
    else session
  }

  /** The update after `Extend` returned. */
  function Finished(session: Session, ok: bool): Session
    requires session.phase.Shipping?
  {
    if ok then Session(session.phase.upTo, session.shipped + session.phase.batch, Idle)
    else session.(phase := Idle)
  }

  function Apply(s: System, e: Event): System
    requires Enabled(s, e)
  {
    match e
    case Grow(added) => s.(nodes := s.nodes + added)
    case Open(id) => s.(sessions := s.sessions[id := NEW_SESSION])
    case Snapshot(id) => s.(sessions := s.sessions[id := TakeSnapshot(s.nodes, s.sessions[id])])
    case Extended(id) => s.(sessions := s.sessions[id := Finished(s.sessions[id], true)])
    case ExtendFailed(id) => s.(sessions := s.sessions[id := Finished(s.sessions[id], false)])
  }

  /** A session has shipped exactly the operations below its mark, and what it is shipping is the stretch from there. */
  ghost predicate SessionInvariant(nodes: NodeTable, session: Session) {
    && session.last <= |nodes|
    && session.shipped == OpsBetween(nodes, 0, session.last)
    && (session.phase.Shipping? ==>
          && session.last < session.phase.upTo <= |nodes|
          && session.phase.batch == OpsBetween(nodes, session.last, session.phase.upTo))
  }

  ghost predicate Invariant(s: System) {
    forall id :: id in s.sessions ==> SessionInvariant(s.nodes, s.sessions[id])
  }

  lemma GrowKeepsSession(nodes: NodeTable, added: NodeTable, session: Session)
    requires SessionInvariant(nodes, session)
    ensures SessionInvariant(nodes + added, session)
  {
    OpsBetweenStable(nodes, nodes + added, 0, session.last);
    if session.phase.Shipping? {
      OpsBetweenStable(nodes, nodes + added, session.last, session.phase.upTo);
    }
  }

  lemma FinishKeepsSession(nodes: NodeTable, session: Session, ok: bool)
    requires SessionInvariant(nodes, session) && session.phase.Shipping?
    ensures SessionInvariant(nodes, Finished(session, ok))
  {
    OpsBetweenSplit(nodes, 0, session.last, session.phase.upTo);
  }

  lemma StepKeepsInvariant(s: System, e: Event)
    requires Invariant(s) && Enabled(s, e)
    ensures Invariant(Apply(s, e))
  {
    match e
    case Grow(added) =>
      forall id | id in s.sessions ensures SessionInvariant(s.nodes + added, s.sessions[id]) {
        GrowKeepsSession(s.nodes, added, s.sessions[id]);
      }
    case Open(id) =>
    case Snapshot(id) =>
    case Extended(id) => FinishKeepsSession(s.nodes, s.sessions[id], true);
    case ExtendFailed(id) => FinishKeepsSession(s.nodes, s.sessions[id], false);
  }

  function Exec(s: System, events: seq<Event>): System
    requires Legal(s, events)
    decreases |events|
  {
    if events == [] then s else Exec(Apply(s, events[0]), events[1..])
  }

  predicate Legal(s: System, events: seq<Event>)
    decreases |events|
  {
    events == [] || (Enabled(s, events[0]) && Legal(Apply(s, events[0]), events[1..]))
  }

  lemma {:induction false} RunKeepsInvariant(s: System, events: seq<Event>)
    requires Invariant(s) && Legal(s, events)
    ensures Invariant(Exec(s, events))
    decreases |events|
  {
    if events != [] {
      StepKeepsInvariant(s, events[0]);
      RunKeepsInvariant(Apply(s, events[0]), events[1..]);
    }
  }

  /** The table only grows, and sessions are not forgotten. */
  lemma {:induction false} RunGrows(s: System, events: seq<Event>)
    requires Legal(s, events)
    ensures s.nodes <= Exec(s, events).nodes && s.sessions.Keys <= Exec(s, events).sessions.Keys
    decreases |events|
  {
    if events != [] {
      RunGrows(Apply(s, events[0]), events[1..]);
    }
  }

  /** All nodes that a run adds, in order. */
  function Added(events: seq<Event>): NodeTable {
    if events == [] then []
    else (if events[0].Grow? then events[0].added else []) + Added(events[1..])
  }

  /** The table of a run is what it started with and all that was added; its sessions are those opened. */
  lemma {:induction false} RunMeaning(s: System, events: seq<Event>, id: SessionId)
    requires Legal(s, events)
    ensures Exec(s, events).nodes == s.nodes + Added(events)
    ensures id in Exec(s, events).sessions <==> id in s.sessions || Open(id) in events
    decreases |events|
  {
    if events != [] {
      RunMeaning(Apply(s, events[0]), events[1..], id);
      assert Open(id) in events <==> events[0] == Open(id) || Open(id) in events[1..];
    }
  }

  /**
   In every state of every run, each session has shipped exactly the operations
   with ids below its mark: each of them once, and in order of id.
   */
  lemma ShippedExactly(start: System, events: seq<Event>, session: SessionId, id: nat, node: Node)
    requires start.sessions == map[] && Legal(start, events) && session in Exec(start, events).sessions
    ensures var end := Exec(start, events);
            var own := end.sessions[session];
            && Increasing(own.shipped)
            && ((id, node) in own.shipped <==>
                FIRST_OP <= id < own.last && own.last <= |end.nodes| && end.nodes[id] == Some(node))
  {
    RunKeepsInvariant(start, events);
    var end := Exec(start, events);
    var own := end.sessions[session];
    assert SessionInvariant(end.nodes, own);
    OpsBetweenIncreasing(end.nodes, 0, own.last);
    OpsBetweenExact(end.nodes, 0, own.last, id, node);
  }

  /** Events of other threads: anything but a step of session `id` itself. */
  predicate Elsewhere(events: seq<Event>, id: SessionId) {
    forall i :: 0 <= i < |events| ==>
      events[i].Grow? || (events[i].id != id)
  }

  lemma {:induction false} ElsewhereLeaves(s: System, events: seq<Event>, id: SessionId)
    requires id in s.sessions && Legal(s, events) && Elsewhere(events, id)
    ensures id in Exec(s, events).sessions && Exec(s, events).sessions[id] == s.sessions[id]
    decreases |events|
  {
    if events != [] {
      var rest := events[1..];
      assert forall i :: 0 <= i < |rest| ==> rest[i] == events[i + 1];
      ElsewhereLeaves(Apply(s, events[0]), rest, id);
    }
  }

  /**
   One helper call, with any events of other threads between its unlock and its
   `Extend`: on success every operation present at the snapshot has been shipped
   (and nothing else); on failure what is shipped and the mark are as before.
   */
  lemma HelperCall(s: System, id: SessionId, others: seq<Event>, ok: bool)
    requires Invariant(s) && id in s.sessions && s.sessions[id].phase.Idle? && s.sessions[id].last < |s.nodes|
    requires Elsewhere(others, id) && Legal(Apply(s, Snapshot(id)), others)
    ensures var before, mid := s.sessions[id], Exec(Apply(s, Snapshot(id)), others);
            var e := if ok then Extended(id) else ExtendFailed(id);
            Enabled(mid, e) &&
            var after := Apply(mid, e).sessions[id];
            && after.phase.Idle?
            && (ok ==> after.last == |s.nodes| && after.shipped == OpsBetween(s.nodes, 0, |s.nodes|))
            && (!ok ==> after == before)
  {
    ElsewhereLeaves(Apply(s, Snapshot(id)), others, id);
    OpsBetweenSplit(s.nodes, 0, s.sessions[id].last, |s.nodes|);
  }
}
