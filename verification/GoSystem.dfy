/**
 Go sessions over one C graph: the sessions' own protocol (go/session.go)
 composed with the reference count that decides when the graph is freed
 (c/c_api.cc). The Go session keeps no reference to the Go graph, whose finalizer
 may ask for the deletion while sessions are in use, and even while a session is
 being created: `NewSession` needs the Go graph only to read the C pointer from it.
 */
module GoSystem {
  import opened Options
  import GraphLife
  import GoSession

  type SessionId = GraphLife.SessionId

  /** `creating` are the calls of `NewSession` that have read the pointer and have not counted their session yet. */
  datatype System = System(
    life: GraphLife.Life,
    creating: set<SessionId>,
    sessions: map<SessionId, GoSession.State>)

  /** A graph just created, with no session. */
  predicate IsNew(s: System) {
    GraphLife.IsNew(s.life) && s.creating == {} && s.sessions == map[]
  }

  datatype Event =
    | ReadPointer(id: SessionId)                            // NewSession reads graph.c
    | New(id: SessionId, threads: set<GoSession.Thread>)    // TF_NewSession counts the session
    | NewFails(id: SessionId)                               // TF_NewSession makes no session
    | Step(id: SessionId, e: GoSession.Event)
    | GraphFinalizer
    | FreeGraph

  /** What the step does to the graph. */
  function OnGraph(s: System, e: Event): GraphLife.Life {
    match e
    case New(id, _) => GraphLife.Apply(s.life, GraphLife.NewSession(id))
    case Step(id, step) => if step.CloseDelete? then GraphLife.Apply(s.life, GraphLife.DeleteSession(id)) else s.life
    case GraphFinalizer => GraphLife.Apply(s.life, GraphLife.DeleteGraph)
    case FreeGraph => GraphLife.Apply(s.life, GraphLife.Free)
    case _ => s.life
  }

  /** The pointer is read from a Go graph that is still reachable; the finalizer runs once, when it no longer is. */
  predicate Enabled(s: System, e: Event) {
    match e
    case ReadPointer(id) => id !in s.sessions && id !in s.creating && !s.life.deleteRequested
    case New(id, _) => id in s.creating
    case NewFails(id) => id in s.creating
    case Step(id, step) => id in s.sessions && GoSession.Enabled(s.sessions[id], step)
    case GraphFinalizer => !s.life.deleteRequested
    case FreeGraph => s.life.pendingFrees > 0
  }

  function Apply(s: System, e: Event): System
    requires Enabled(s, e)
  {
    match e
    case ReadPointer(id) => s.(creating := s.creating + {id})
    case New(id, threads) =>
      System(OnGraph(s, e), s.creating - {id}, s.sessions[id := GoSession.NewSession(threads)])
    case NewFails(id) => s.(creating := s.creating - {id})
    case Step(id, step) =>
      s.(life := OnGraph(s, e), sessions := s.sessions[id := GoSession.Apply(s.sessions[id], step)])
    case _ => s.(life := OnGraph(s, e))
  }

  /** The step goes to the C graph: under its mutex, or through a session that runs it. */
  predicate Touches(e: Event) {
    e.New? || e.GraphFinalizer? || (e.Step? && (e.e.RunCall? || e.e.CloseDelete?))
  }

  /** No step goes to a graph that has been freed or that some call is about to free. */
  predicate Safe(s: System, e: Event) {
    Touches(e) ==> !GraphLife.Doomed(s.life)
  }

  /** A session is counted while the graph is not deleted yet, or while another session keeps it. */
  predicate Timely(s: System, e: Event) {
    e.New? ==> !s.life.deleteRequested || s.life.live != {}
  }

  ghost predicate SessionsInvariant(sessions: map<SessionId, GoSession.State>) {
    forall id :: id in sessions ==> GoSession.Invariant(sessions[id])
  }

  /** The graph counts exactly the sessions that are still open. */
  ghost predicate CountsOpen(s: System) {
    && s.life.used == s.sessions.Keys
    && s.creating !! s.sessions.Keys
    && forall id :: id in s.sessions ==> (id in s.life.live <==> s.sessions[id].open)
  }

  ghost predicate Invariant(s: System) {
    GraphLife.Invariant(s.life) && SessionsInvariant(s.sessions) && CountsOpen(s)
  }

  lemma NewSystemIsInvariant(s: System)
    requires IsNew(s)
    ensures Invariant(s)
  {
  }

  lemma CountsNew(s: System, id: SessionId, threads: set<GoSession.Thread>)
    requires CountsOpen(s) && s.life.live <= s.life.used && Enabled(s, New(id, threads))
    ensures CountsOpen(Apply(s, New(id, threads)))
  {
  }

  lemma CountsStep(s: System, id: SessionId, step: GoSession.Event)
    requires CountsOpen(s) && Enabled(s, Step(id, step))
    requires GoSession.Apply(s.sessions[id], step).open == (s.sessions[id].open && !step.CloseDelete?)
    ensures CountsOpen(Apply(s, Step(id, step)))
  {
  }

  lemma NewKeepsInvariant(s: System, id: SessionId, threads: set<GoSession.Thread>)
    requires Invariant(s) && Enabled(s, New(id, threads)) && Timely(s, New(id, threads))
    ensures Invariant(Apply(s, New(id, threads)))
  {
    GraphLife.StepKeepsInvariant(s.life, GraphLife.NewSession(id));
    GoSession.NewSessionIsInvariant(threads);
    CountsNew(s, id, threads);
  }

  lemma SessionStepKeepsInvariant(s: System, id: SessionId, step: GoSession.Event)
    requires Invariant(s) && Enabled(s, Step(id, step))
    ensures Invariant(Apply(s, Step(id, step)))
  {
    GoSession.StepKeepsInvariant(s.sessions[id], step);
    OpenUntilDeleted(s.sessions[id], step);
    CountsStep(s, id, step);
    if step.CloseDelete? {
      GraphLife.StepKeepsInvariant(s.life, GraphLife.DeleteSession(id));
    }
  }

  /** A session is closed by the deletion of its C session and by nothing else. */
  lemma OpenUntilDeleted(s: GoSession.State, step: GoSession.Event)
    requires GoSession.Invariant(s) && GoSession.Enabled(s, step)
    ensures GoSession.Apply(s, step).open == (s.open && !step.CloseDelete?)
    ensures step.CloseDelete? ==> s.open
  {
  }

  lemma StepKeepsInvariant(s: System, e: Event)
    requires Invariant(s) && Enabled(s, e) && Timely(s, e)
    ensures Invariant(Apply(s, e))
  {
    match e
    case ReadPointer(_) =>
    case New(id, threads) => NewKeepsInvariant(s, id, threads);
    case NewFails(_) =>
    case Step(id, step) => SessionStepKeepsInvariant(s, id, step);
    case GraphFinalizer => GraphLife.StepKeepsInvariant(s.life, GraphLife.DeleteGraph);
    case FreeGraph => GraphLife.StepKeepsInvariant(s.life, GraphLife.Free);
  }

  /** A run in flight, or a deletion about to be made, is of an open session, and that keeps the graph. */
  lemma OpenSessionKeepsGraph(s: System, id: SessionId)
    requires Invariant(s) && id in s.sessions && s.sessions[id].open
    ensures !GraphLife.Doomed(s.life)
  {
    assert id in s.life.live;
  }

  /** One step is safe exactly when it is timely. */
  lemma SafeIffTimely(s: System, e: Event)
    requires Invariant(s) && Enabled(s, e)
    ensures Safe(s, e) <==> Timely(s, e)
  {
    if e.Step? && (e.e.RunCall? || e.e.CloseDelete?) {
      if e.e.RunCall? {
        GoSession.SomeInFlight(s.sessions[e.id], e.e.t);
      }
      OpenSessionKeepsGraph(s, e.id);
    }
  }

  function Exec(s: System, events: seq<Event>): System
    requires Legal(s, events)
    decreases |events|
  {
    if events == [] then s else Exec(Apply(s, events[0]), events[1..])
  }

  predicate Legal(s: System, events: seq<Event>)
    decreases |events|
  {
    events == [] || (Enabled(s, events[0]) && Legal(Apply(s, events[0]), events[1..]))
  }

  predicate AllSafe(s: System, events: seq<Event>)
    requires Legal(s, events)
    decreases |events|
  {
    events == [] || (Safe(s, events[0]) && AllSafe(Apply(s, events[0]), events[1..]))
  }

  predicate AllTimely(s: System, events: seq<Event>)
    requires Legal(s, events)
    decreases |events|
  {
    events == [] || (Timely(s, events[0]) && AllTimely(Apply(s, events[0]), events[1..]))
  }

  /** Over a whole run: no step ever goes to a freed graph if and only if every session was counted in time. */
  lemma {:induction false} AllSafeIffAllTimely(s: System, events: seq<Event>)
    requires Invariant(s) && Legal(s, events)
    ensures AllSafe(s, events) <==> AllTimely(s, events)
    decreases |events|
  {
    if events != [] {
      SafeIffTimely(s, events[0]);
      if Timely(s, events[0]) {
        StepKeepsInvariant(s, events[0]);
        AllSafeIffAllTimely(Apply(s, events[0]), events[1..]);
      }
    }
  }

  lemma {:induction false} RunKeepsInvariant(s: System, events: seq<Event>)
    requires Invariant(s) && Legal(s, events) && AllTimely(s, events)
    ensures Invariant(Exec(s, events))
    decreases |events|
  {
    if events != [] {
      StepKeepsInvariant(s, events[0]);
      RunKeepsInvariant(Apply(s, events[0]), events[1..]);
    }
  }

  /**
   In every timely run from a new system, whenever the finalizer runs: while any
   goroutine is in Run on any session, the graph has not been freed and no call is
   about to free it.
   */
  lemma RunsNeverMeetAFreedGraph(start: System, events: seq<Event>, id: SessionId, t: GoSession.Thread)
    requires IsNew(start) && Legal(start, events) && AllTimely(start, events)
    requires id in Exec(start, events).sessions && t in Exec(start, events).sessions[id].pcs
    requires GoSession.InFlightPc(Exec(start, events).sessions[id].pcs[t])
    ensures !GraphLife.Doomed(Exec(start, events).life)
  {
    NewSystemIsInvariant(start);
    RunKeepsInvariant(start, events);
    GoSession.SomeInFlight(Exec(start, events).sessions[id], t);
    OpenSessionKeepsGraph(Exec(start, events), id);
  }

  /** The graph is freed, or about to be, exactly when the finalizer has run and every session is closed. */
  lemma FreedIffAllClosed(start: System, events: seq<Event>)
    requires IsNew(start) && Legal(start, events) && AllTimely(start, events)
    ensures var s := Exec(start, events);
            && s.life.frees <= 1
            && (GraphLife.Doomed(s.life) <==>
                s.life.deleteRequested && forall id :: id in s.sessions ==> !s.sessions[id].open)
  {
    NewSystemIsInvariant(start);
    RunKeepsInvariant(start, events);
    var s := Exec(start, events);
    if s.life.live != {} {
      var id :| id in s.life.live;
      assert s.sessions[id].open;
    }
  }

  // --- when a run is timely -------------------------------------------------

  /** The Go graph is kept reachable until no call of `NewSession` is under way. */
  predicate KeptAlive(s: System, events: seq<Event>)
    requires Legal(s, events)
    decreases |events|
  {
    events == [] ||
    ((events[0].GraphFinalizer? ==> s.creating == {}) && KeptAlive(Apply(s, events[0]), events[1..]))
  }

  /** Then every session is counted in time, and the run is safe. */
  lemma {:induction false} KeptAliveIsTimely(s: System, events: seq<Event>)
    requires Legal(s, events) && KeptAlive(s, events) && (s.life.deleteRequested ==> s.creating == {})
    ensures AllTimely(s, events)
    decreases |events|
  {
    if events != [] {
      KeptAliveIsTimely(Apply(s, events[0]), events[1..]);
    }
  }

  /** The finalizer runs between the read of the pointer and the count of the session: the freed graph is used. */
  lemma LateCountMeetsAFreedGraph(s: System)
    requires IsNew(s)
    ensures var events := [ReadPointer(0), GraphFinalizer, FreeGraph, New(0, {})];
            Legal(s, events) && !AllSafe(s, events) && !AllTimely(s, events)
  {
    var s1 := Apply(s, ReadPointer(0));
    var s2 := Apply(s1, GraphFinalizer);
    var s3 := Apply(s2, FreeGraph);
    var last := New(0, {});
    assert Enabled(s3, last) && !Safe(s3, last) && !Timely(s3, last);
    Cons(s3, last, []);
    Cons(s2, FreeGraph, [last]);
    Cons(s1, GraphFinalizer, [FreeGraph] + [last]);
    Cons(s, ReadPointer(0), [GraphFinalizer] + ([FreeGraph] + [last]));
    assert [ReadPointer(0), GraphFinalizer, FreeGraph, last] ==
           [ReadPointer(0)] + ([GraphFinalizer] + ([FreeGraph] + [last]));
  }

  /** A run that begins with `e`. */
  lemma Cons(s: System, e: Event, rest: seq<Event>)
    requires Enabled(s, e) && Legal(Apply(s, e), rest)
    ensures Legal(s, [e] + rest)
    ensures AllSafe(s, [e] + rest) <==> Safe(s, e) && AllSafe(Apply(s, e), rest)
    ensures AllTimely(s, [e] + rest) <==> Timely(s, e) && AllTimely(Apply(s, e), rest)
  {
    assert ([e] + rest)[1..] == rest;
  }
}
