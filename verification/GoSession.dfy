/**
 The Run/Close protocol of a Go session (go/session.go): a mutex and a wait
 group, used by any number of goroutines, guard the C session.
 */
module GoSession {
  import opened Options

  type Thread = nat

  /** Where a goroutine is. The constructors say which lines it has behind it. */
  datatype Pc =
    | Idle
    | RunLocked      // Run: holds the mutex
    | Running        // Run: counted in the wait group, mutex released, before the C call
    | RunCalled      // Run: the C call has returned, Done is still to come
    | CloseLocked    // Close: holds the mutex and waits for the wait group
    | CloseWaited    // Close: the wait is over
    | Closing        // Close: s.c is not nil, the C session is to be closed
    | Deleting       // Close: closed without error, the C session is to be deleted

  /** `open` says that `s.c` is not nil; `deletes` counts the calls of TF_DeleteSession. */
  datatype State = State(
    open: bool,
    holder: Option<Thread>,
    waitGroup: nat,
    pcs: map<Thread, Pc>,
    deletes: nat)

  function NewSession(threads: set<Thread>): State {
    State(true, None, 0, map t | t in threads :: Idle, 0)
  }

  lemma NewSessionMeaning(threads: set<Thread>)
    ensures var s := NewSession(threads);
            && s.open && s.holder == None && s.waitGroup == 0 && s.deletes == 0
            && s.pcs.Keys == threads && forall t :: t in threads ==> s.pcs[t] == Idle
  {
  }

  datatype Event =
    | RunLock(t: Thread)
    | RunCheck(t: Thread)
    | RunCall(t: Thread)
    | RunDone(t: Thread)
    | CloseLock(t: Thread)
    | CloseWait(t: Thread)
    | CloseCheck(t: Thread)
    | CloseCall(t: Thread, ok: bool)
    | CloseDelete(t: Thread)

  function Before(e: Event): Pc {
    match e
    case RunLock(_) => Idle
    case RunCheck(_) => RunLocked
    case RunCall(_) => Running
    case RunDone(_) => RunCalled
    case CloseLock(_) => Idle
    case CloseWait(_) => CloseLocked
    case CloseCheck(_) => CloseWaited
    case CloseCall(_, _) => Closing
    case CloseDelete(_) => Deleting
  }

  /** A goroutine is blocked only at the mutex and at the wait group. */
  predicate Enabled(s: State, e: Event) {
    && e.t in s.pcs && s.pcs[e.t] == Before(e)
    && (e.RunLock? || e.CloseLock? ==> s.holder == None)
    && (e.CloseWait? ==> s.waitGroup == 0)
  }

  function Goto(s: State, t: Thread, pc: Pc): State {
    s.(pcs := s.pcs[t := pc])
  }

  function Apply(s: State, e: Event): State {
    var t := e.t;
    match e
    case RunLock(_) => Goto(s, t, RunLocked).(holder := Some(t))
    case RunCheck(_) =>
      if !s.open then Goto(s, t, Idle).(holder := None)
      else Goto(s, t, Running).(waitGroup := s.waitGroup + 1, holder := None)
    case RunCall(_) => Goto(s, t, RunCalled)
    case RunDone(_) => Goto(s, t, Idle).(waitGroup := if s.waitGroup == 0 then 0 else s.waitGroup - 1)
    case CloseLock(_) => Goto(s, t, CloseLocked).(holder := Some(t))
    case CloseWait(_) => Goto(s, t, CloseWaited)
    case CloseCheck(_) => if !s.open then Goto(s, t, Idle).(holder := None) else Goto(s, t, Closing)
    case CloseCall(_, ok) => if ok then Goto(s, t, Deleting) else Goto(s, t, Idle).(holder := None)
    case CloseDelete(_) => Goto(s, t, Idle).(open := false, deletes := s.deletes + 1, holder := None)
  }

  predicate HoldsMutex(pc: Pc) {
    pc.RunLocked? || pc.CloseLocked? || pc.CloseWaited? || pc.Closing? || pc.Deleting?
  }

  predicate InFlightPc(pc: Pc) {
    pc.Running? || pc.RunCalled?
  }

  /** The runs in flight. */
  function InFlight(s: State): set<Thread> {
    set t | t in s.pcs && InFlightPc(s.pcs[t])
  }

  predicate PastWait(pc: Pc) {
    pc.CloseWaited? || pc.Closing? || pc.Deleting?
  }

  ghost predicate Invariant(s: State) {
    && s.waitGroup == |InFlight(s)|
    && (forall t :: t in s.pcs && HoldsMutex(s.pcs[t]) ==> s.holder == Some(t))
    && (s.holder.Some? ==> s.holder.value in s.pcs && HoldsMutex(s.pcs[s.holder.value]))
    && (forall t :: t in s.pcs && PastWait(s.pcs[t]) ==> s.waitGroup == 0)
    && (forall t :: t in s.pcs && (s.pcs[t].Closing? || s.pcs[t].Deleting?) ==> s.open)
    && (s.waitGroup > 0 ==> s.open)
    && s.deletes == if s.open then 0 else 1
  }

  lemma NewSessionIsInvariant(threads: set<Thread>)
    ensures Invariant(NewSession(threads))
  {
    assert InFlight(NewSession(threads)) == {};
  }

  /** How a step changes the set of runs in flight. */
  lemma InFlightAfter(s: State, t: Thread, pc: Pc)
    requires t in s.pcs
    ensures InFlight(Goto(s, t, pc)) == if InFlightPc(pc) then InFlight(s) + {t} else InFlight(s) - {t}
  {
  }

  lemma CountAfter(s: State, t: Thread, pc: Pc)
    requires t in s.pcs
    ensures var n := |InFlight(Goto(s, t, pc))|;
            n == |InFlight(s)| + (if InFlightPc(pc) then 1 else 0) - (if InFlightPc(s.pcs[t]) then 1 else 0)
  {
    InFlightAfter(s, t, pc);
    if InFlightPc(s.pcs[t]) {
      assert t in InFlight(s);
      assert InFlight(s) + {t} == InFlight(s);
    } else {
      assert t !in InFlight(s);
      assert InFlight(s) - {t} == InFlight(s);
    }
  }

  lemma SomeInFlight(s: State, t: Thread)
    requires t in s.pcs && InFlightPc(s.pcs[t])
    ensures |InFlight(s)| > 0
  {
    assert t in InFlight(s);
  }

  lemma StepKeepsInvariant(s: State, e: Event)
    requires Invariant(s) && Enabled(s, e)
    ensures Invariant(Apply(s, e))
  {
    var next := Apply(s, e);
    CountAfter(s, e.t, next.pcs[e.t]);
    assert InFlight(next) == InFlight(Goto(s, e.t, next.pcs[e.t]));
    if e.RunCall? || e.RunDone? {
      SomeInFlight(s, e.t);
    }
  }

  // --- runs -----------------------------------------------------------------

  function Exec(s: State, events: seq<Event>): State
    decreases |events|
  {
    if events == [] then s else Exec(Apply(s, events[0]), events[1..])
  }

  predicate Legal(s: State, events: seq<Event>)
    decreases |events|
  {
    events == [] || (Enabled(s, events[0]) && Legal(Apply(s, events[0]), events[1..]))
  }

  /** A run that begins with `e`. */
  lemma Cons(s: State, e: Event, rest: seq<Event>)
    ensures Exec(s, [e] + rest) == Exec(Apply(s, e), rest)
    ensures Legal(s, [e] + rest) <==> Enabled(s, e) && Legal(Apply(s, e), rest)
  {
    assert ([e] + rest)[1..] == rest;
  }

  lemma {:induction false} RunKeepsInvariant(s: State, events: seq<Event>)
    requires Invariant(s) && Legal(s, events)
    ensures Invariant(Exec(s, events))
    decreases |events|
  {
    if events != [] {
      StepKeepsInvariant(s, events[0]);
      RunKeepsInvariant(Apply(s, events[0]), events[1..]);
    }
  }

  /**
   Safety of every run: the wait group counts the runs in flight, each of which
   has a C session to call; the C session is deleted at most once, and when a
   goroutine is about to delete it no run is in flight and no other holds the mutex.
   */
  lemma RunIsSafe(threads: set<Thread>, events: seq<Event>, t: Thread)
    requires Legal(NewSession(threads), events) && t in Exec(NewSession(threads), events).pcs
    ensures var s := Exec(NewSession(threads), events);
            && s.waitGroup == |InFlight(s)|
            && (InFlightPc(s.pcs[t]) ==> s.open && s.deletes == 0)
            && s.deletes <= 1
            && (s.pcs[t].Deleting? ==> s.open && InFlight(s) == {} && s.holder == Some(t))
  {
    NewSessionIsInvariant(threads);
    RunKeepsInvariant(NewSession(threads), events);
    var s := Exec(NewSession(threads), events);
    if InFlightPc(s.pcs[t]) {
      SomeInFlight(s, t);
    }
  }

  /** A call of Run on an open session, undisturbed: it is counted while in flight, and all is as before at its end. */
  lemma RunFromIdle(s: State, t: Thread)
    requires t in s.pcs && s.pcs[t] == Idle && s.holder == None && s.open
    ensures var mid := Exec(s, [RunLock(t)] + [RunCheck(t)]);
            var events := [RunLock(t)] + ([RunCheck(t)] + ([RunCall(t)] + [RunDone(t)]));
            && Legal(s, events) && Exec(s, events) == s
            && t in InFlight(mid) && mid.waitGroup == s.waitGroup + 1 && mid.holder == None
  {
    var s1 := Apply(s, RunLock(t));
    var s2 := Apply(s1, RunCheck(t));
    var s3 := Apply(s2, RunCall(t));
    assert Apply(s3, RunDone(t)).pcs == s.pcs;
    Cons(s3, RunDone(t), []);
    Cons(s2, RunCall(t), [RunDone(t)]);
    Cons(s1, RunCheck(t), [RunCall(t)] + [RunDone(t)]);
    Cons(s, RunLock(t), [RunCheck(t)] + ([RunCall(t)] + [RunDone(t)]));
    Cons(s1, RunCheck(t), []);
    Cons(s, RunLock(t), [RunCheck(t)]);
  }

  /** A call of Run on a closed session returns at once and changes nothing. */
  lemma RunWhenClosed(s: State, t: Thread)
    requires t in s.pcs && s.pcs[t] == Idle && s.holder == None && !s.open
    ensures Legal(s, [RunLock(t)] + [RunCheck(t)]) && Exec(s, [RunLock(t)] + [RunCheck(t)]) == s
  {
    var s1 := Apply(s, RunLock(t));
    assert Apply(s1, RunCheck(t)).pcs == s.pcs;
    Cons(s1, RunCheck(t), []);
    Cons(s, RunLock(t), [RunCheck(t)]);
  }

  /** A call of Close on an open session without runs: it deletes the C session, or leaves all as before on an error. */
  lemma CloseFromIdle(s: State, t: Thread)
    requires t in s.pcs && s.pcs[t] == Idle && s.holder == None && s.open && s.waitGroup == 0
    ensures var start := [CloseLock(t)] + ([CloseWait(t)] + [CloseCheck(t)]);
            var closed, failed := start + ([CloseCall(t, true)] + [CloseDelete(t)]), start + [CloseCall(t, false)];
            && Legal(s, closed) && Exec(s, closed) == s.(open := false, deletes := s.deletes + 1)
            && Legal(s, failed) && Exec(s, failed) == s
  {
    var s1 := Apply(s, CloseLock(t));
    var s2 := Apply(s1, CloseWait(t));
    var s3 := Apply(s2, CloseCheck(t));
    var s4 := Apply(s3, CloseCall(t, true));
    assert Apply(s4, CloseDelete(t)).pcs == s.pcs && Apply(s3, CloseCall(t, false)).pcs == s.pcs;
    var good, bad := [CloseCall(t, true)] + [CloseDelete(t)], [CloseCall(t, false)];
    Cons(s4, CloseDelete(t), []);
    Cons(s3, CloseCall(t, true), [CloseDelete(t)]);
    Cons(s3, CloseCall(t, false), []);
    ClosePrefix(s, t, good);
    ClosePrefix(s, t, bad);
  }

  lemma ClosePrefix(s: State, t: Thread, rest: seq<Event>)
    requires t in s.pcs && s.pcs[t] == Idle && s.holder == None && s.open && s.waitGroup == 0
    ensures var start := [CloseLock(t)] + ([CloseWait(t)] + [CloseCheck(t)]);
            var s3 := Apply(Apply(Apply(s, CloseLock(t)), CloseWait(t)), CloseCheck(t));
            Exec(s, start + rest) == Exec(s3, rest) && (Legal(s, start + rest) <==> Legal(s3, rest))
  {
    var s1 := Apply(s, CloseLock(t));
    var s2 := Apply(s1, CloseWait(t));
    Cons(s2, CloseCheck(t), rest);
    Cons(s1, CloseWait(t), [CloseCheck(t)] + rest);
    Cons(s, CloseLock(t), [CloseWait(t)] + ([CloseCheck(t)] + rest));
    assert [CloseLock(t)] + ([CloseWait(t)] + [CloseCheck(t)]) + rest ==
           [CloseLock(t)] + ([CloseWait(t)] + ([CloseCheck(t)] + rest));
  }

  // --- progress -------------------------------------------------------------

  /** Steps that the runs in flight still have to take. */
  function Pending(s: State): nat {
    2 * |Calls(s, Running)| + |Calls(s, RunCalled)|
  }

  function Calls(s: State, pc: Pc): set<Thread> {
    set t | t in s.pcs && s.pcs[t] == pc
  }

  lemma CallsSetAfter(s: State, t: Thread, pc: Pc, which: Pc)
    requires t in s.pcs
    ensures Calls(Goto(s, t, pc), which) == if pc == which then Calls(s, which) + {t} else Calls(s, which) - {t}
  {
  }

  lemma CallsAfter(s: State, t: Thread, pc: Pc, which: Pc)
    requires t in s.pcs
    ensures |Calls(Goto(s, t, pc), which)| ==
            |Calls(s, which)| + (if pc == which then 1 else 0) - (if s.pcs[t] == which then 1 else 0)
  {
    var calls := Calls(s, which);
    CallsSetAfter(s, t, pc, which);
    assert t in calls <==> s.pcs[t] == which;
    if t in calls {
      assert calls + {t} == calls;
    } else {
      assert calls - {t} == calls;
    }
  }

  predicate Waiting(s: State, t: Thread) {
    t in s.pcs && s.pcs[t].CloseLocked?
  }

  /**
   While a Close waits with the mutex held, no step of another goroutine can start
   a run: each one is a step of a run in flight and brings the wait nearer its end.
   */
  lemma WaitingComesNearer(s: State, t: Thread, e: Event)
    requires Invariant(s) && Waiting(s, t) && Enabled(s, e) && e.t != t
    ensures e.RunCall? || e.RunDone?
    ensures Waiting(Apply(s, e), t) && Pending(Apply(s, e)) < Pending(s)
    ensures InFlight(Apply(s, e)) <= InFlight(s)
  {
    var next := Apply(s, e);
    CallsAfter(s, e.t, next.pcs[e.t], Running);
    CallsAfter(s, e.t, next.pcs[e.t], RunCalled);
    assert Calls(next, Running) == Calls(Goto(s, e.t, next.pcs[e.t]), Running);
    assert Calls(next, RunCalled) == Calls(Goto(s, e.t, next.pcs[e.t]), RunCalled);
  }

  /** So a waiting Close is overtaken by a bounded number of steps, in every schedule. */
  lemma {:induction false} WaitIsBounded(s: State, t: Thread, events: seq<Event>)
    requires Invariant(s) && Waiting(s, t) && Legal(s, events)
    requires forall i :: 0 <= i < |events| ==> events[i].t != t
    ensures |events| + Pending(Exec(s, events)) <= Pending(s)
    ensures Waiting(Exec(s, events), t)
    decreases |events|
  {
    if events != [] {
      var rest := events[1..];
      assert forall i :: 0 <= i < |rest| ==> rest[i] == events[i + 1];
      WaitingComesNearer(s, t, events[0]);
      StepKeepsInvariant(s, events[0]);
      WaitIsBounded(Apply(s, events[0]), t, rest);
    }
  }

  /** A step that the goroutine can take, unless it is idle, or waits for runs in flight. */
  function NextStep(s: State, t: Thread): Event
    requires t in s.pcs && s.pcs[t] != Idle
  {
    match s.pcs[t]
    case RunLocked => RunCheck(t)
    case Running => RunCall(t)
    case RunCalled => RunDone(t)
    case CloseLocked => CloseWait(t)
    case CloseWaited => CloseCheck(t)
    case Closing => CloseCall(t, true)
    case Deleting => CloseDelete(t)
  }

  /**
   There is no deadlock: in every state a goroutine that is inside Run or Close can
   take a step, or some run in flight can, and neither needs the mutex for it.
   */
  lemma NoDeadlock(s: State, t: Thread) returns (e: Event)
    requires Invariant(s) && t in s.pcs && s.pcs[t] != Idle
    ensures Enabled(s, e) && !e.RunLock? && !e.CloseLock?
    ensures e.t == t || (Waiting(s, t) && e.t in InFlight(s))
  {
    if Waiting(s, t) && s.waitGroup > 0 {
      var other :| other in InFlight(s);
      e := NextStep(s, other);
    } else {
      e := NextStep(s, t);
    }
  }

  /** A waiting Close can always be brought to the end of its wait by steps of runs in flight alone. */
  lemma {:induction false} WaitEnds(s: State, t: Thread) returns (events: seq<Event>)
    requires Invariant(s) && Waiting(s, t)
    ensures Legal(s, events) && Enabled(Exec(s, events), CloseWait(t))
    ensures forall i :: 0 <= i < |events| ==> events[i].RunCall? || events[i].RunDone?
    decreases Pending(s)
  {
    if s.waitGroup == 0 {
      events := [];
    } else {
      var e := NoDeadlock(s, t);
      WaitingComesNearer(s, t, e);
      StepKeepsInvariant(s, e);
      var rest := WaitEnds(Apply(s, e), t);
      events := [e] + rest;
    }
  }

  // --- the session object ---------------------------------------------------

  datatype CloseResult = AlreadyClosed | CloseError | Closed

  /** The Go object. Each method is one stretch of `Run` or `Close` that no other goroutine can interrupt. */
  class Session {
    var open: bool
    var waitGroup: nat

    ghost predicate Tracks(s: State)
      reads this
    {
      open == s.open && waitGroup == s.waitGroup
    }

    constructor (ghost threads: set<Thread>)
      ensures Tracks(NewSession(threads))
    {
      open, waitGroup := true, 0;
    }

    /** From taking the mutex in `Run` to giving it up; false when the session is closed. */
    method EnterRun(ghost s: State, ghost t: Thread) returns (entered: bool)
      requires Tracks(s) && Enabled(s, RunCheck(t))
      modifies this`waitGroup
      ensures entered == s.open && Tracks(Apply(s, RunCheck(t)))
      ensures entered == open && waitGroup == old(waitGroup) + if entered then 1 else 0
    {
      if !open {
        return false;
      }
      waitGroup := waitGroup + 1;
      return true;
    }

    /** The deferred `Done`. */
    method LeaveRun(ghost s: State, ghost t: Thread)
      requires Invariant(s) && Tracks(s) && Enabled(s, RunDone(t))
      modifies this`waitGroup
      ensures Tracks(Apply(s, RunDone(t)))
      ensures waitGroup == old(waitGroup) - 1
    {
      SomeInFlight(s, t);
      waitGroup := waitGroup - 1;
    }

    /** `Close` from the end of its wait to the release of the mutex. `closeOk` is the outcome of TF_CloseSession. */
    method FinishClose(ghost s: State, ghost t: Thread, closeOk: bool) returns (result: CloseResult)
      requires Invariant(s) && Tracks(s) && Enabled(s, CloseCheck(t))
      modifies this`open
      ensures result == if !s.open then AlreadyClosed else if closeOk then Closed else CloseError
      ensures result == (if !old(open) then AlreadyClosed else if closeOk then Closed else CloseError)
      ensures open == (old(open) && !closeOk)
      ensures var events := if !s.open then [CloseCheck(t)]
                            else if closeOk then [CloseCheck(t), CloseCall(t, true), CloseDelete(t)]
                            else [CloseCheck(t), CloseCall(t, false)];
              Legal(s, events) && Tracks(Exec(s, events))
    {
      ghost var checked := Apply(s, CloseCheck(t));
      if !open {
        Cons(s, CloseCheck(t), []);
        return AlreadyClosed;
      }
      Cons(s, CloseCheck(t), [CloseCall(t, closeOk)] + if closeOk then [CloseDelete(t)] else []);
      Cons(checked, CloseCall(t, closeOk), if closeOk then [CloseDelete(t)] else []);
      if !closeOk {
        return CloseError;
      }
      Cons(Apply(checked, CloseCall(t, true)), CloseDelete(t), []);
      open := false;
      return Closed;
    }
  }
}
