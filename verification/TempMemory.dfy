/**
 Temporary device memory of a stream (stream_executor/temporary_memory_manager.cc
 and temporary_device_memory.cc): a table of generation-stamped records over an
 allocator that hands out freed addresses again.
 */
module TempMemory {
  import opened MachineInts
  import opened Options

  /** The opaque pointer of a device memory region; records are ordered by it. */
  type Address = nat

  datatype Record = Record(generation: nat, finalized: bool)

  type Records = map<Address, Record>

  // --- the operations on the table ------------------------------------------

  /** `MarkFinalized` on a record that exists. The generation passed by the caller is not looked at. */
  function Marked(records: Records, a: Address): Records {
    if a in records then records[a := records[a].(finalized := true)] else records
  }

  /** The addresses that a sweep gives back. */
  function FinalizedKeys(records: Records): set<Address> {
    set a | a in records && records[a].finalized
  }

  function Swept(records: Records): Records {
    records - FinalizedKeys(records)
  }

  predicate HasAllocated(records: Records, a: Address, generation: nat) {
    a in records && records[a].generation == generation
  }

  predicate IsFinalized(records: Records, a: Address, generation: nat) {
    a in records && records[a].generation == generation ==> records[a].finalized
  }

  /** A handle to a temporary: the address and the generation it was recorded under. */
  datatype Handle = Handle(address: Address, generation: nat)

  class TemporaryMemoryManager {
    var records: Records
    var generation: nat

    /** The counter is not initialized: it starts at an arbitrary value. */
    constructor (garbage: nat)
      requires garbage <= UINT64_MAX
      ensures records == map[] && generation == garbage
    {
      records, generation := map[], garbage;
    }

    /** `MarkFinalized`; `fatal` stands for the check failure on a record that must exist and does not. */
    method MarkFinalized(a: Address, generation: nat, mustExist: bool) returns (fatal: bool)
      modifies this`records
      ensures records == Marked(old(records), a)
      ensures fatal <==> mustExist && a !in old(records)
      ensures records == if a in old(records) then old(records)[a := Record(old(records)[a].generation, true)]
                         else old(records)
    {
      if a !in records {
        return mustExist;
      }
      records := records[a := records[a].(finalized := true)];
      return false;
    }

    /** `DeallocateFinalizedTemporaries`: walks the table by increasing address and erases while walking. */
    method DeallocateFinalizedTemporaries() returns (freed: seq<Address>)
      modifies this`records
      ensures records == Swept(old(records))
      ensures forall a :: a in records <==> a in old(records) && !old(records)[a].finalized
      ensures forall a :: a in records ==> records[a] == old(records)[a]
      ensures forall a :: a in freed <==> a in old(records) && old(records)[a].finalized
      ensures forall a :: a in freed <==> a in FinalizedKeys(old(records))
      ensures Increasing(freed)
    {
      freed := [];
      var ahead := records.Keys;
      ghost var keys := FinalizedKeys(records);
      while ahead != {}
        invariant ahead <= old(records).Keys && records == old(records) - (keys - ahead)
        invariant forall a :: a in freed <==> a in keys - ahead
        invariant Increasing(freed) && AllBelow(freed, ahead)
        decreases |ahead|
      {
        var it := NextKey(ahead);
        EraseStep(old(records), ahead, it);
        FreedStep(freed, ahead, it);
        if records[it].finalized {
          freed := freed + [it];
          records := records - {it};
        }
        ahead := ahead - {it};
      }
      assert keys - ahead == keys;
    }

    /** `ForceDeallocateAll`: everything is given back, the table is left as it was. */
    method ForceDeallocateAll() returns (freed: seq<Address>)
      ensures forall a :: a in freed <==> a in records
      ensures Increasing(freed)
    {
      freed := [];
      var ahead := records.Keys;
      ghost var keys := records.Keys;
      while ahead != {}
        invariant ahead <= keys
        invariant forall a :: a in freed <==> a in keys - ahead
        invariant Increasing(freed) && AllBelow(freed, ahead)
        decreases |ahead|
      {
        var it := NextKey(ahead);
        FreedStep(freed, ahead, it);
        freed := freed + [it];
        ahead := ahead - {it};
      }
    }

    method IsFinalizedAt(a: Address, generation: nat) returns (finalized: bool)
      ensures finalized == IsFinalized(records, a, generation)
      ensures !finalized <==> a in records && records[a].generation == generation && !records[a].finalized
    {
      if a !in records {
        return true;
      }
      if records[a].generation == generation {
        return records[a].finalized;
      }
      return true;
    }

    method HasAllocatedAt(a: Address, generation: nat) returns (found: bool)
      ensures found == HasAllocated(records, a, generation)
      ensures found <==> a in records && records[a].generation == generation
    {
      if a !in records {
        return false;
      }
      return records[a].generation == generation;
    }

    /** `AllocateArrayBase` once the allocator has answered, with a null pointer when it failed. */
    method AllocateArrayBase(memory: Option<Address>) returns (handle: Option<Handle>)
      requires memory.Some? ==> memory.value !in records
      modifies this
      ensures memory.None? ==> handle == None && records == old(records) && generation == old(generation)
      ensures memory.Some? ==>
                && generation == (old(generation) + 1) % TWO_64
                && handle == Some(Handle(memory.value, generation))
                && records == old(records)[memory.value := Record(generation, false)]
                && HasAllocated(records, memory.value, generation)
    {
      if memory.None? {
        return None;
      }
      generation := (generation + 1) % TWO_64;
      records := records[memory.value := Record(generation, false)];
      return Some(Handle(memory.value, generation));
    }
  }

  /** The handle object. Its debug check on construction is what `HasAllocated` promises after an allocation. */
  class TemporaryDeviceMemory {
    const parent: TemporaryMemoryManager
    const memory: Handle

    constructor (parent: TemporaryMemoryManager, memory: Handle)
      requires HasAllocated(parent.records, memory.address, memory.generation)
      ensures this.parent == parent && this.memory == memory
    {
      this.parent, this.memory := parent, memory;
    }

    /** `Finalize`. On a handle not finalized yet it cannot fail, and marks the handle's own record. */
    method Finalize() returns (fatal: bool)
      modifies parent`records
      ensures parent.records == Marked(old(parent.records), memory.address)
      ensures fatal <==> memory.address !in old(parent.records)
      ensures !old(IsFinalized(parent.records, memory.address, memory.generation)) ==>
                && !fatal
                && parent.records == old(parent.records)[memory.address := Record(memory.generation, true)]
      ensures IsFinalized(parent.records, memory.address, memory.generation)
    {
      fatal := parent.MarkFinalized(memory.address, memory.generation, true);
    }

    /** The destructor: never fatal, and harmless after a `Finalize` unless the address has a new record by then. */
    method Destroy()
      modifies parent`records
      ensures parent.records == Marked(old(parent.records), memory.address)
      ensures memory.address !in old(parent.records) || old(parent.records)[memory.address].finalized ==>
                parent.records == old(parent.records)
    {
      var fatal := parent.MarkFinalized(memory.address, memory.generation, false);
    }

    method IsFinalizedNow() returns (finalized: bool)
      ensures finalized == IsFinalized(parent.records, memory.address, memory.generation)
    {
      finalized := parent.IsFinalizedAt(memory.address, memory.generation);
    }

    method IsAllocated() returns (live: bool)
      ensures live == HasAllocated(parent.records, memory.address, memory.generation)
    {
      live := parent.HasAllocatedAt(memory.address, memory.generation);
    }
  }

  /** Erasing, or passing over, one more key of the table `all` whose keys not in `ahead` are done. */
  lemma EraseStep(all: Records, ahead: set<Address>, it: Address)
    requires it in ahead && ahead <= all.Keys
    ensures var keys := FinalizedKeys(all);
            var rest := all - (keys - ahead);
            && it in rest && rest[it] == all[it]
            && all - (keys - (ahead - {it})) == (if all[it].finalized then rest - {it} else rest)
  {
    var keys := FinalizedKeys(all);
    if all[it].finalized {
      assert keys - (ahead - {it}) == (keys - ahead) + {it};
    } else {
      assert keys - (ahead - {it}) == keys - ahead;
    }
  }

  ghost predicate Increasing(s: seq<Address>) {
    forall i, j :: 0 <= i < j < |s| ==> s[i] < s[j]
  }

  ghost predicate AllBelow(s: seq<Address>, ahead: set<Address>) {
    forall i, a :: 0 <= i < |s| && a in ahead ==> s[i] < a
  }

  lemma FreedStep(freed: seq<Address>, ahead: set<Address>, it: Address)
    requires Increasing(freed) && AllBelow(freed, ahead) && it in ahead && forall a :: a in ahead ==> it <= a
    ensures AllBelow(freed, ahead - {it})
    ensures Increasing(freed + [it]) && AllBelow(freed + [it], ahead - {it})
    ensures forall a :: a in freed + [it] <==> a in freed || a == it
  {
  }

  /** The next key of an ordered table: the least of those ahead. */
  method NextKey(ahead: set<Address>) returns (it: Address)
    requires ahead != {}
    ensures it in ahead && forall a :: a in ahead ==> it <= a
  {
    it :| it in ahead;
    var rest := ahead - {it};
    while rest != {}
      invariant it in ahead && rest <= ahead
      invariant forall a :: a in ahead && a !in rest ==> it <= a
      decreases |rest|
    {
      var other :| other in rest;
      if other < it {
        it := other;
      }
      rest := rest - {other};
    }
  }

  // --- the system -----------------------------------------------------------

  /**
   The table with the allocator and the handles around it. `held` are the
   addresses the allocator has handed out and `obtained` those of them whose
   record is still to be made. Handles are numbered in the order of their records:
   `serialAt` tells which allocation a record stands for, `asked` which handles
   have been finalized or destroyed, `released` what the sweeps gave back.
   `start` is the value the counter happened to have.
   */
  datatype System = System(
    records: Records,
    generation: nat,
    start: nat,
    held: set<Address>,
    obtained: set<Address>,
    handles: seq<Handle>,
    serialAt: map<Address, nat>,
    asked: set<nat>,
    destroyed: set<nat>,
    released: multiset<nat>)

  ghost predicate IsNew(s: System) {
    && s.records == map[] && s.serialAt == map[] && s.generation == s.start <= UINT64_MAX
    && s.obtained == {} && s.handles == [] && s.asked == {} && s.destroyed == {} && s.released == multiset{}
  }

  datatype Event =
    | Obtain(a: Address)     // the allocator answers, outside the manager's mutex
    | Enter(a: Address)      // the record and the handle are made
    | Finalize(i: nat)
    | Destroy(i: nat)
    | Sweep

  /**
   The allocator never hands out what it holds; a handle is finalized at most once,
   as its interface demands, and not used after its destruction. Fewer than 2^64
   allocations are made, though the counter may wrap.
   */
  predicate Enabled(s: System, e: Event) {
    match e
    case Obtain(a) => a !in s.held
    case Enter(a) => a in s.obtained && |s.handles| + 1 < TWO_64
    case Finalize(i) =>
      && i < |s.handles| && i !in s.destroyed
      && !IsFinalized(s.records, s.handles[i].address, s.handles[i].generation)
    case Destroy(i) => i < |s.handles| && i !in s.destroyed
    case Sweep => true
  }

  /** The allocations that a sweep releases. */
  function SweptSerials(s: System): set<nat> {
    set a | a in s.records && s.records[a].finalized && a in s.serialAt :: s.serialAt[a]
  }

  function Apply(s: System, e: Event): System
    requires Enabled(s, e)
  {
    match e
    case Obtain(a) => s.(held := s.held + {a}, obtained := s.obtained + {a})
    case Enter(a) =>
      var g := (s.generation + 1) % TWO_64;
      s.(generation := g, records := s.records[a := Record(g, false)], obtained := s.obtained - {a},
         handles := s.handles + [Handle(a, g)], serialAt := s.serialAt[a := |s.handles|])
    case Finalize(i) =>
      s.(records := Marked(s.records, s.handles[i].address), asked := s.asked + {i})
    case Destroy(i) =>
      s.(records := Marked(s.records, s.handles[i].address), asked := s.asked + {i}, destroyed := s.destroyed + {i})
    case Sweep =>
      var keys := FinalizedKeys(s.records);
      s.(records := Swept(s.records), serialAt := s.serialAt - keys, held := s.held - keys,
         released := s.released + multiset(SweptSerials(s)))
  }

  /** What the destructor and a request to finalize share: the mark, and that it has been asked for. */
  lemma StepMeaning(s: System, e: Event)
    requires Enabled(s, e)
    ensures var t := Apply(s, e);
            && t.start == s.start && (!e.Enter? ==> t.handles == s.handles && t.generation == s.generation)
            && (e.Obtain? ==> t.held == s.held + {e.a} && t.obtained == s.obtained + {e.a} && t.records == s.records)
            && (e.Enter? ==> t.obtained == s.obtained - {e.a} && e.a in t.records && !t.records[e.a].finalized
                             && |t.handles| == |s.handles| + 1 && t.handles[|s.handles|].address == e.a
                             && t.records[e.a].generation == t.generation == t.handles[|s.handles|].generation)
            && ((e.Finalize? || e.Destroy?) ==> t.asked == s.asked + {e.i} && t.records.Keys == s.records.Keys)
            && (!(e.Finalize? || e.Destroy?) ==> t.asked == s.asked)
            && t.destroyed == (if e.Destroy? then s.destroyed + {e.i} else s.destroyed)
            && (!e.Sweep? ==> t.released == s.released && s.held <= t.held)
            && (e.Sweep? ==> forall a :: a in s.records && s.records[a].finalized ==> a !in t.records && a !in t.held)
  {
  }

  /** The generation of allocation `i`. */
  function GenerationOf(start: nat, i: nat): nat {
    (start + i + 1) % TWO_64
  }

  lemma GenerationsDiffer(start: nat, i: nat, j: nat)
    requires i < j < TWO_64
    ensures GenerationOf(start, i) != GenerationOf(start, j)
  {
    var x, y := start + i + 1, start + j + 1;
    assert x == (x / TWO_64) * TWO_64 + x % TWO_64 && y == (y / TWO_64) * TWO_64 + y % TWO_64;
    assert y - x == j - i;
  }

  /** Each record stands for one allocation and carries that allocation's address and generation. */
  ghost predicate RecordsMatch(s: System) {
    && s.serialAt.Keys == s.records.Keys
    && forall a :: a in s.records ==>
         s.serialAt[a] < |s.handles| && s.handles[s.serialAt[a]] == Handle(a, s.records[a].generation)
  }

  ghost predicate Generations(s: System) {
    && |s.handles| < TWO_64
    && s.generation == (s.start + |s.handles|) % TWO_64
    && forall i :: 0 <= i < |s.handles| ==> s.handles[i].generation == GenerationOf(s.start, i)
  }

  ghost predicate Memory(s: System) {
    s.records.Keys !! s.obtained && s.records.Keys + s.obtained <= s.held
  }

  /** Allocation `i` has a record. */
  predicate Live(s: System, i: nat) {
    i < |s.handles| && s.handles[i].address in s.serialAt && s.serialAt[s.handles[i].address] == i
  }

  /** Every allocation made is live or has been released, never both, and never released twice. */
  ghost predicate Accounted(s: System) {
    forall i {:trigger s.released[i]} {:trigger Live(s, i)} ::
      s.released[i] == if 0 <= i < |s.handles| && !Live(s, i) then 1 else 0
  }

  /** What a handle has asked for is on record. */
  ghost predicate AskedIsMarked(s: System) {
    && (forall a :: a in s.records && a in s.serialAt && s.serialAt[a] in s.asked ==> s.records[a].finalized)
    && (forall i :: i in s.asked ==> i < |s.handles|)
  }

  ghost predicate Invariant(s: System) {
    RecordsMatch(s) && Generations(s) && Memory(s) && Accounted(s) && AskedIsMarked(s)
  }

  lemma NewIsInvariant(s: System)
    requires IsNew(s)
    ensures Invariant(s) && Honest(s)
  {
  }

  lemma EnterKeepsInvariant(s: System, a: Address)
    requires Invariant(s) && Enabled(s, Enter(a))
    ensures Invariant(Apply(s, Enter(a)))
  {
    EnterKeepsRecords(s, a);
    EnterKeepsGenerations(s, a);
    EnterKeepsAccount(s, a);
  }

  lemma EnterKeepsRecords(s: System, a: Address)
    requires Invariant(s) && Enabled(s, Enter(a))
    ensures RecordsMatch(Apply(s, Enter(a))) && Memory(Apply(s, Enter(a))) && AskedIsMarked(Apply(s, Enter(a)))
  {
  }

  lemma EnterKeepsGenerations(s: System, a: Address)
    requires Invariant(s) && Enabled(s, Enter(a))
    ensures Generations(Apply(s, Enter(a)))
  {
    CounterStep(s.start + |s.handles|);
  }

  /** Incrementing a wrapped counter is wrapping the incremented one. */
  lemma CounterStep(n: nat)
    ensures (n % TWO_64 + 1) % TWO_64 == (n + 1) % TWO_64
  {
  }

  lemma EnterKeepsAccount(s: System, a: Address)
    requires Invariant(s) && Enabled(s, Enter(a))
    ensures Accounted(Apply(s, Enter(a)))
  {
    var next := Apply(s, Enter(a));
    forall i | 0 <= i < |s.handles| ensures Live(next, i) == Live(s, i) {
    }
    assert Live(next, |s.handles|);
    assert next.released == s.released;
  }

  lemma MarkKeepsInvariant(s: System, e: Event)
    requires Invariant(s) && Enabled(s, e) && (e.Finalize? || e.Destroy?)
    ensures Invariant(Apply(s, e))
  {
    MarkKeepsAsked(s, e);
    MarkKeepsAccount(s, e);
  }

  lemma MarkKeepsAsked(s: System, e: Event)
    requires Invariant(s) && Enabled(s, e) && (e.Finalize? || e.Destroy?)
    ensures RecordsMatch(Apply(s, e)) && AskedIsMarked(Apply(s, e))
  {
  }

  lemma MarkKeepsAccount(s: System, e: Event)
    requires Invariant(s) && Enabled(s, e) && (e.Finalize? || e.Destroy?)
    ensures Generations(Apply(s, e)) && Memory(Apply(s, e)) && Accounted(Apply(s, e))
  {
    var next := Apply(s, e);
    assert next.handles == s.handles && next.released == s.released && next.serialAt == s.serialAt;
    forall i | 0 <= i < |s.handles| ensures Live(next, i) == Live(s, i) {
    }
  }

  lemma SweepKeepsInvariant(s: System)
    requires Invariant(s)
    ensures Invariant(Apply(s, Sweep))
  {
    var next := Apply(s, Sweep);
    forall i | 0 <= i < |s.handles| ensures Live(next, i) <==> Live(s, i) && i !in SweptSerials(s) {
      LiveAfterSweep(s, i);
    }
    forall i | i in SweptSerials(s) ensures 0 <= i < |s.handles| && Live(s, i) {
    }
  }

  lemma LiveAfterSweep(s: System, i: nat)
    requires RecordsMatch(s) && i < |s.handles|
    ensures Live(Apply(s, Sweep), i) <==> Live(s, i) && i !in SweptSerials(s)
  {
    var a := s.handles[i].address;
    if Live(s, i) {
      assert s.records[a].finalized ==> s.serialAt[a] in SweptSerials(s);
    }
  }

  lemma StepKeepsInvariant(s: System, e: Event)
    requires Invariant(s) && Enabled(s, e)
    ensures Invariant(Apply(s, e))
  {
    match e
    case Obtain(a) =>
      forall i | 0 <= i < |s.handles| ensures Live(Apply(s, e), i) == Live(s, i) {
      }
    case Enter(a) => EnterKeepsInvariant(s, a);
    case Finalize(_) => MarkKeepsInvariant(s, e);
    case Destroy(_) => MarkKeepsInvariant(s, e);
    case Sweep => SweepKeepsInvariant(s);
  }

  // --- no temporary is taken from its handle --------------------------------

  /** Every record marked for release was marked by its own handle. */
  ghost predicate Honest(s: System) {
    forall a :: a in s.records && a in s.serialAt && s.records[a].finalized ==> s.serialAt[a] in s.asked
  }

  /**
   The destruction of a handle harms nobody unless its address has meanwhile been
   given to another temporary that is still in use: the mark then falls on that one.
   */
  predicate Harmless(s: System, e: Event) {
    e.Destroy? && e.i < |s.handles| && s.handles[e.i].address in s.records ==>
      var r := s.records[s.handles[e.i].address];
      r.generation == s.handles[e.i].generation || r.finalized
  }

  /** One step from an honest state leads to an honest state exactly when it is harmless. */
  lemma HonestIffHarmless(s: System, e: Event)
    requires Invariant(s) && Honest(s) && Enabled(s, e)
    ensures Honest(Apply(s, e)) <==> Harmless(s, e)
  {
    var next := Apply(s, e);
    if e.Finalize? || e.Destroy? {
      var a := s.handles[e.i].address;
      if a in s.records {
        SerialByGeneration(s, a, e.i);
        assert next.records[a].finalized;
      }
    }
  }

  /** A record with the generation of a handle at its address is that handle's own. */
  lemma SerialByGeneration(s: System, a: Address, i: nat)
    requires Invariant(s) && a in s.records && i < |s.handles|
    ensures s.records[a].generation == s.handles[i].generation <==> s.serialAt[a] == i
  {
    var j := s.serialAt[a];
    if i < j {
      GenerationsDiffer(s.start, i, j);
    } else if j < i {
      GenerationsDiffer(s.start, j, i);
    }
  }

  function Exec(s: System, events: seq<Event>): System
    requires Legal(s, events)
    decreases |events|
  {
    if events == [] then s else Exec(Apply(s, events[0]), events[1..])
  }

  predicate Legal(s: System, events: seq<Event>)
    decreases |events|
  {
    events == [] || (Enabled(s, events[0]) && Legal(Apply(s, events[0]), events[1..]))
  }

  /** Honest in every state along the run. */
  ghost predicate AlwaysHonest(s: System, events: seq<Event>)
    requires Legal(s, events)
    decreases |events|
  {
    Honest(s) && (events == [] || AlwaysHonest(Apply(s, events[0]), events[1..]))
  }

  predicate AllHarmless(s: System, events: seq<Event>)
    requires Legal(s, events)
    decreases |events|
  {
    events == [] || (Harmless(s, events[0]) && AllHarmless(Apply(s, events[0]), events[1..]))
  }

  /** Over a whole run: no record is marked behind its handle's back if and only if every destruction was harmless. */
  lemma {:induction false} AlwaysHonestIffAllHarmless(s: System, events: seq<Event>)
    requires Invariant(s) && Honest(s) && Legal(s, events)
    ensures AlwaysHonest(s, events) <==> AllHarmless(s, events)
    decreases |events|
  {
    if events != [] {
      HonestIffHarmless(s, events[0]);
      StepKeepsInvariant(s, events[0]);
      if Harmless(s, events[0]) {
        AlwaysHonestIffAllHarmless(Apply(s, events[0]), events[1..]);
      }
    }
  }

  /** Nothing was released before its own handle asked. */
  ghost predicate ReleasedOnRequest(s: System) {
    forall i :: i in s.released ==> i in s.asked
  }

  lemma SweepReleasesOnRequestIffHonest(s: System)
    requires Invariant(s) && ReleasedOnRequest(s)
    ensures ReleasedOnRequest(Apply(s, Sweep)) <==> Honest(s)
  {
    var next := Apply(s, Sweep);
    if ReleasedOnRequest(next) {
      forall a | a in s.records && a in s.serialAt && s.records[a].finalized ensures s.serialAt[a] in s.asked {
        assert s.serialAt[a] in SweptSerials(s);
        assert s.serialAt[a] in next.released;
      }
    }
  }

  /** In a run of harmless destructions no temporary is released before its own handle is finalized or destroyed. */
  lemma {:induction false} HarmlessRunReleasesOnRequest(s: System, events: seq<Event>)
    requires Invariant(s) && Honest(s) && ReleasedOnRequest(s) && Legal(s, events) && AllHarmless(s, events)
    ensures Invariant(Exec(s, events)) && Honest(Exec(s, events)) && ReleasedOnRequest(Exec(s, events))
    decreases |events|
  {
    if events != [] {
      HonestIffHarmless(s, events[0]);
      StepKeepsInvariant(s, events[0]);
      if events[0].Sweep? {
        SweepReleasesOnRequestIffHonest(s);
      }
      HarmlessRunReleasesOnRequest(Apply(s, events[0]), events[1..]);
    }
  }

  /** Released on request in every state along the run. */
  ghost predicate AlwaysOnRequest(s: System, events: seq<Event>)
    requires Legal(s, events)
    decreases |events|
  {
    ReleasedOnRequest(s) && (events == [] || AlwaysOnRequest(Apply(s, events[0]), events[1..]))
  }

  /** Every sweep of the run finds an honest state. */
  ghost predicate SweepsHonest(s: System, events: seq<Event>)
    requires Legal(s, events)
    decreases |events|
  {
    events == [] || ((events[0].Sweep? ==> Honest(s)) && SweepsHonest(Apply(s, events[0]), events[1..]))
  }

  /** Over a whole run: nothing is released before its handle asks if and only if every sweep finds an honest state. */
  lemma {:induction false} AlwaysOnRequestIffSweepsHonest(s: System, events: seq<Event>)
    requires Invariant(s) && ReleasedOnRequest(s) && Legal(s, events)
    ensures AlwaysOnRequest(s, events) <==> SweepsHonest(s, events)
    decreases |events|
  {
    if events != [] {
      var e, next := events[0], Apply(s, events[0]);
      StepKeepsInvariant(s, e);
      if e.Sweep? {
        SweepReleasesOnRequestIffHonest(s);
      } else {
        assert next.released == s.released;
      }
      if ReleasedOnRequest(next) {
        AlwaysOnRequestIffSweepsHonest(next, events[1..]);
      } else {
        assert !AlwaysOnRequest(next, events[1..]);
      }
    }
  }

  /** While nothing is released unasked, the construction check holds for every handle that has not asked yet. */
  lemma UnaskedIsAllocated(s: System, i: nat)
    requires Invariant(s) && ReleasedOnRequest(s) && i < |s.handles| && i !in s.asked
    ensures HasAllocated(s.records, s.handles[i].address, s.handles[i].generation)
  {
    assert s.released[i] == 0;
    assert Live(s, i);
  }

  lemma {:induction false} RunKeepsInvariant(s: System, events: seq<Event>)
    requires Invariant(s) && Legal(s, events)
    ensures Invariant(Exec(s, events))
    decreases |events|
  {
    if events != [] {
      StepKeepsInvariant(s, events[0]);
      RunKeepsInvariant(Apply(s, events[0]), events[1..]);
    }
  }

  /** The next sweep releases everything that was asked for and is not released yet, and each allocation once. */
  lemma SweepReleasesAsked(start: System, events: seq<Event>, i: nat)
    requires IsNew(start) && Legal(start, events) && i in Exec(start, events).asked
    ensures Apply(Exec(start, events), Sweep).released[i] == 1
  {
    NewIsInvariant(start);
    RunKeepsInvariant(start, events);
    var s := Exec(start, events);
    SweepKeepsInvariant(s);
    LiveAfterSweep(s, i);
    if Live(s, i) {
      assert s.serialAt[s.handles[i].address] in SweptSerials(s);
    }
  }

  /** Releases are never repeated, harmless destructions or not. */
  lemma NeverReleasedTwice(start: System, events: seq<Event>, i: nat)
    requires IsNew(start) && Legal(start, events)
    ensures Exec(start, events).released[i] <= 1
    ensures Exec(start, events).released[i] == 1 ==> i < |Exec(start, events).handles| && !Live(Exec(start, events), i)
  {
    NewIsInvariant(start);
    RunKeepsInvariant(start, events);
  }

  // --- generations ----------------------------------------------------------

  /** Records of different addresses have different generations. */
  lemma LiveGenerationsDiffer(s: System, a: Address, b: Address)
    requires Invariant(s) && a in s.records && b in s.records && a != b
    ensures s.records[a].generation != s.records[b].generation
  {
    SerialByGeneration(s, a, s.serialAt[b]);
  }

  /** The answers to handle `h` can change from one table to the next only in these directions. */
  ghost predicate AnswersKept(before: Records, after: Records, h: Handle) {
    && (!HasAllocated(before, h.address, h.generation) ==> !HasAllocated(after, h.address, h.generation))
    && (IsFinalized(before, h.address, h.generation) ==> IsFinalized(after, h.address, h.generation))
  }

  lemma MarkAndSweepKeepAnswers(records: Records, a: Address, h: Handle)
    ensures AnswersKept(records, Marked(records, a), h)
    ensures AnswersKept(records, Swept(records), h)
  {
  }

  lemma EnterKeepsAnswers(s: System, a: Address, i: nat)
    requires Invariant(s) && Enabled(s, Enter(a)) && i < |s.handles|
    ensures AnswersKept(s.records, Apply(s, Enter(a)).records, s.handles[i])
  {
    EnterKeepsGenerations(s, a);
    GenerationsDiffer(s.start, i, |s.handles|);
    assert Apply(s, Enter(a)).handles[|s.handles|].generation == GenerationOf(s.start, |s.handles|);
  }

  lemma StepKeepsAnswers(s: System, e: Event, i: nat)
    requires Invariant(s) && Enabled(s, e) && i < |s.handles|
    ensures i < |Apply(s, e).handles| && Apply(s, e).handles[i] == s.handles[i]
    ensures AnswersKept(s.records, Apply(s, e).records, s.handles[i])
  {
    match e
    case Obtain(_) =>
    case Enter(a) => EnterKeepsAnswers(s, a, i);
    case Finalize(j) => MarkAndSweepKeepAnswers(s.records, s.handles[j].address, s.handles[i]);
    case Destroy(j) => MarkAndSweepKeepAnswers(s.records, s.handles[j].address, s.handles[i]);
    case Sweep => MarkAndSweepKeepAnswers(s.records, 0, s.handles[i]);
  }

  /** What a handle has lost it has lost for good, and a finalized one stays so, whatever becomes of the address. */
  lemma {:induction false} AnswersAreStable(s: System, events: seq<Event>, i: nat)
    requires Invariant(s) && Legal(s, events) && i < |s.handles|
    ensures i < |Exec(s, events).handles| && Exec(s, events).handles[i] == s.handles[i]
    ensures AnswersKept(s.records, Exec(s, events).records, s.handles[i])
    decreases |events|
  {
    if events != [] {
      StepKeepsInvariant(s, events[0]);
      StepKeepsAnswers(s, events[0], i);
      AnswersAreStable(Apply(s, events[0]), events[1..], i);
    }
  }

  /** What `HasAllocated` answers to a handle is the truth: its own allocation is live. */
  lemma HasAllocatedMeansLive(s: System, i: nat)
    requires Invariant(s) && i < |s.handles|
    ensures HasAllocated(s.records, s.handles[i].address, s.handles[i].generation) <==> Live(s, i)
  {
    if s.handles[i].address in s.records {
      SerialByGeneration(s, s.handles[i].address, i);
    }
  }

  // --- a harmful run --------------------------------------------------------

  /**
   A handle is finalized and its memory swept; the address goes to a second
   temporary; then the first handle is destroyed. The next sweep releases the
   second temporary although its handle is still in use.
   */
  lemma LateDestructionReleasesAnother(s: System, a: Address)
    requires IsNew(s) && a !in s.held
    ensures var events := [Obtain(a), Enter(a), Finalize(0), Sweep, Obtain(a), Enter(a), Destroy(0), Sweep];
            Legal(s, events) && 1 in Exec(s, events).released && 1 !in Exec(s, events).asked
  {
    var rest := [Obtain(a), Enter(a), Destroy(0), Sweep];
    var s4 := AfterFirstUse(s, a, rest);
    SecondUse(s4, a);
    assert [Obtain(a), Enter(a), Finalize(0), Sweep, Obtain(a), Enter(a), Destroy(0), Sweep] ==
           [Obtain(a), Enter(a), Finalize(0), Sweep] + rest;
  }

  lemma SecondUse(s4: System, a: Address)
    requires a !in s4.held && s4.records == map[] && 1 !in s4.asked && s4.destroyed == {}
    requires |s4.handles| == 1 && s4.handles[0].address == a && s4.serialAt == map[]
    ensures var rest := [Obtain(a), Enter(a), Destroy(0), Sweep];
            Legal(s4, rest) && 1 in Exec(s4, rest).released && 1 !in Exec(s4, rest).asked
  {
    var s5 := Apply(s4, Obtain(a));
    var s6 := Apply(s5, Enter(a));
    var s7 := Apply(s6, Destroy(0));
    assert s7.records[a].finalized && s7.serialAt[a] == 1;
    assert 1 in SweptSerials(s7);
    Cons(s7, Sweep, []);
    Cons(s6, Destroy(0), [Sweep]);
    Cons(s5, Enter(a), [Destroy(0)] + [Sweep]);
    Cons(s4, Obtain(a), [Enter(a)] + ([Destroy(0)] + [Sweep]));
    assert [Obtain(a), Enter(a), Destroy(0), Sweep] == [Obtain(a)] + ([Enter(a)] + ([Destroy(0)] + [Sweep]));
  }

  /** The first temporary is used up; its address is free again, its handle not yet destroyed. */
  lemma AfterFirstUse(s: System, a: Address, rest: seq<Event>) returns (s4: System)
    requires IsNew(s) && a !in s.held
    ensures a !in s4.held && s4.records == map[] && s4.obtained == {} && 1 !in s4.asked && s4.destroyed == {}
    ensures |s4.handles| == 1 && s4.handles[0].address == a && s4.serialAt == map[]
    ensures var events := [Obtain(a), Enter(a), Finalize(0), Sweep] + rest;
            Legal(s4, rest) ==> Legal(s, events) && Exec(s, events) == Exec(s4, rest)
  {
    var s1 := Apply(s, Obtain(a));
    var s2 := Apply(s1, Enter(a));
    var s3 := Apply(s2, Finalize(0));
    s4 := Apply(s3, Sweep);
    assert FinalizedKeys(s3.records) == {a};
    if Legal(s4, rest) {
      Cons(s3, Sweep, rest);
      Cons(s2, Finalize(0), [Sweep] + rest);
      Cons(s1, Enter(a), [Finalize(0)] + ([Sweep] + rest));
      Cons(s, Obtain(a), [Enter(a)] + ([Finalize(0)] + ([Sweep] + rest)));
      assert [Obtain(a), Enter(a), Finalize(0), Sweep] + rest ==
             [Obtain(a)] + ([Enter(a)] + ([Finalize(0)] + ([Sweep] + rest)));
    }
  }

  /** A run that begins with `e`. */
  lemma Cons(s: System, e: Event, rest: seq<Event>)
    requires Enabled(s, e) && Legal(Apply(s, e), rest)
    ensures Legal(s, [e] + rest) && Exec(s, [e] + rest) == Exec(Apply(s, e), rest)
  {
    assert ([e] + rest)[1..] == rest;
  }
}
