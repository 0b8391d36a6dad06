/**
 The lifetime of a C API graph that several sessions share (c/c_api.cc): two
 fields under the graph's mutex decide which call frees the graph.
 */
module GraphLife {

  type SessionId = nat

  /**
   `numSessions` and `deleteRequested` are the fields of the graph. The rest is
   the history: sessions that hold the graph, sessions ever created, calls that
   computed `del == true` and have still to free the graph, and frees done.
   */
  datatype Life = Life(
    numSessions: int,
    deleteRequested: bool,
    live: set<SessionId>,
    used: set<SessionId>,
    pendingFrees: nat,
    frees: nat)

  /** The graph as TF_NewGraph leaves it. */
  predicate IsNew(s: Life) {
    && s.numSessions == 0 && !s.deleteRequested
    && s.live == {} && s.used == {} && s.pendingFrees == 0 && s.frees == 0
  }

  /** The regions that run under the graph's mutex, and the free that a call does after leaving it. */
  datatype Event = NewSession(id: SessionId) | DeleteSession(id: SessionId) | DeleteGraph | Free

  /** The local variable `del` of the two deleting calls. */
  predicate ComputesDel(s: Life, e: Event) {
    match e
    case DeleteSession(_) => s.deleteRequested && s.numSessions - 1 == 0
    case DeleteGraph => s.numSessions == 0
    case _ => false
  }

  function Apply(s: Life, e: Event): Life {
    var pending := if ComputesDel(s, e) then s.pendingFrees + 1 else s.pendingFrees;
    match e
    case NewSession(id) => s.(numSessions := s.numSessions + 1, live := s.live + {id}, used := s.used + {id})
    case DeleteSession(id) => s.(numSessions := s.numSessions - 1, live := s.live - {id}, pendingFrees := pending)
    case DeleteGraph => s.(deleteRequested := true, pendingFrees := pending)
    case Free => s.(pendingFrees := if s.pendingFrees == 0 then 0 else s.pendingFrees - 1, frees := s.frees + 1)
  }

  /** Some call has computed that it must free the graph. */
  predicate Doomed(s: Life) {
    s.pendingFrees + s.frees > 0
  }

  /**
   What the API asks of its callers: a session is created only on a graph that is
   still valid, each session is deleted once, the graph's deletion is requested
   once. A free happens in a call that computed `del`.
   */
  predicate Allowed(s: Life, e: Event) {
    match e
    case NewSession(id) => id !in s.used && !(s.deleteRequested && s.live == {})
    case DeleteSession(id) => id in s.live
    case DeleteGraph => !s.deleteRequested
    case Free => s.pendingFrees > 0
  }

  ghost predicate Invariant(s: Life) {
    && s.numSessions == |s.live|
    && s.live <= s.used
    && s.pendingFrees + s.frees == if s.deleteRequested && s.live == {} then 1 else 0
  }

  lemma StepKeepsInvariant(s: Life, e: Event)
    requires Invariant(s) && Allowed(s, e)
    ensures Invariant(Apply(s, e))
  {
    if e.NewSession? {
      assert e.id in s.live + {e.id};
    } else if e.DeleteSession? {
      assert |s.live - {e.id}| == |s.live| - 1;
    }
  }

  /** The state after `events`, from state `s`. */
  function Exec(s: Life, events: seq<Event>): Life
    decreases |events|
  {
    if events == [] then s else Exec(Apply(s, events[0]), events[1..])
  }

  /** Every event is allowed where it happens. */
  predicate Legal(s: Life, events: seq<Event>)
    decreases |events|
  {
    events == [] || (Allowed(s, events[0]) && Legal(Apply(s, events[0]), events[1..]))
  }

  lemma {:induction false} RunKeepsInvariant(s: Life, events: seq<Event>)
    requires Invariant(s) && Legal(s, events)
    ensures Invariant(Exec(s, events))
    decreases |events|
  {
    if events != [] {
      StepKeepsInvariant(s, events[0]);
      RunKeepsInvariant(Apply(s, events[0]), events[1..]);
    }
  }

  /** How many calls of the run compute `del == true`. */
  function Dels(s: Life, events: seq<Event>): nat
    decreases |events|
  {
    if events == [] then 0
    else (if ComputesDel(s, events[0]) then 1 else 0) + Dels(Apply(s, events[0]), events[1..])
  }

  lemma {:induction false} DelsAreFrees(s: Life, events: seq<Event>)
    requires Legal(s, events)
    ensures s.pendingFrees + s.frees + Dels(s, events) == Exec(s, events).pendingFrees + Exec(s, events).frees
    decreases |events|
  {
    if events != [] {
      DelsAreFrees(Apply(s, events[0]), events[1..]);
    }
  }

  /** The state in terms of the history: which calls have been made, and how many frees. */
  lemma {:induction false} HistoryMeaning(s: Life, events: seq<Event>, id: SessionId)
    requires Legal(s, events)
    ensures Exec(s, events).deleteRequested <==> s.deleteRequested || DeleteGraph in events
    ensures id in Exec(s, events).used <==> id in s.used || NewSession(id) in events
    ensures s.live <= s.used ==>
              (id in Exec(s, events).live <==>
               (id in s.live || NewSession(id) in events) && DeleteSession(id) !in events)
    ensures Exec(s, events).frees == s.frees + multiset(events)[Free]
    decreases |events|
  {
    if events != [] {
      var e, rest := events[0], events[1..];
      assert events == [e] + rest;
      assert forall x :: x in events <==> x == e || x in rest;
      HistoryMeaning(Apply(s, e), rest, id);
      if e == DeleteSession(id) && s.live <= s.used {
        UsedStays(Apply(s, e), rest, id);
      }
    }
  }

  /** A session that has been created is not created again. */
  lemma {:induction false} UsedStays(s: Life, events: seq<Event>, id: SessionId)
    requires Legal(s, events) && id in s.used
    ensures NewSession(id) !in events
    decreases |events|
  {
    if events != [] {
      UsedStays(Apply(s, events[0]), events[1..], id);
      assert events == [events[0]] + events[1..];
    }
  }

  /**
   Over every interleaving from a new graph: the graph is freed at most once, never while a session
   holds it, and exactly one call computes `del` once deletion has been requested
   and all sessions are gone -- none before.
   */
  lemma FreedOnceAfterLastUse(start: Life, events: seq<Event>)
    requires IsNew(start) && Legal(start, events)
    ensures var s, dels := Exec(start, events), Dels(start, events);
            && s.frees <= dels <= 1
            && (dels == 1 <==> s.deleteRequested && s.live == {})
            && (s.frees > 0 ==> s.live == {})
            && s.numSessions == |s.live|
  {
    RunKeepsInvariant(start, events);
    DelsAreFrees(start, events);
  }

  /** No call enters the graph's mutex once a call has computed that it will free the graph. */
  lemma {:induction false} NoTouchOnceDoomed(s: Life, events: seq<Event>, i: nat)
    requires Invariant(s) && Legal(s, events) && i < |events| && events[i] != Free
    ensures !Doomed(Exec(s, events[..i]))
    decreases i
  {
    if i > 0 {
      StepKeepsInvariant(s, events[0]);
      NoTouchOnceDoomed(Apply(s, events[0]), events[1..], i - 1);
      assert events[..i][1..] == events[1..][..i - 1];
    }
  }

  /** What is left to do before the graph is freed. */
  function Work(s: Life): nat {
    2 * |s.live| + (if s.deleteRequested then 0 else 2) + s.pendingFrees
  }

  lemma CleanupStep(s: Life) returns (e: Event)
    requires Invariant(s) && s.frees == 0
    ensures Allowed(s, e) && Work(Apply(s, e)) < Work(s)
  {
    if !s.deleteRequested {
      e := DeleteGraph;
    } else if s.live != {} {
      var id :| id in s.live;
      e := DeleteSession(id);
      assert |s.live - {id}| == |s.live| - 1;
    } else {
      e := Free;
    }
  }

  /** From every reachable state the run can be completed so that the graph is freed: nothing is leaked. */
  lemma {:induction false} CanBeFreed(s: Life) returns (more: seq<Event>)
    requires Invariant(s)
    ensures Legal(s, more) && Exec(s, more).frees == 1
    decreases Work(s)
  {
    if s.frees > 0 {
      more := [];
    } else {
      var e := CleanupStep(s);
      StepKeepsInvariant(s, e);
      var rest := CanBeFreed(Apply(s, e));
      more := [e] + rest;
    }
  }
}
