/**
 Occupancy of a device core and the search for the largest register budget that
 reaches a target occupancy (stream_executor/device_description.cc).
 */
module Occupancy {
  import opened Arithmetic
  import opened MachineInts

  /** The fields of a device description that the computation reads. */
  datatype Device = Device(
    registersPerThreadLimit: nat,
    threadsPerWarp: nat,
    warpAllocGranularity: nat,
    registerAllocGranularity: nat,
    registersPerBlockLimit: nat,
    sharedMemoryPerCore: nat,
    blocksPerCoreLimit: nat,
    sharedMemoryAllocGranularity: nat,
    threadsPerCoreLimit: nat)

  /** The kernel: threads of a block in three dimensions, and its shared memory. */
  datatype Kernel = Kernel(x: nat, y: nat, z: nat, sharedMemoryPerBlock: nat) {
    function Threads(): nat {
      Mul(Mul(x, y), z)
    }
  }

  function Mul(a: nat, b: nat): nat {
    a * b
  }

  function CeilOfRatio(value: nat, n: nat): nat
    requires n > 0
  {
    (value + n - 1) / n
  }

  function RoundUp(value: nat, n: nat): nat
    requires n > 0
  {
    Mul(CeilOfRatio(value, n), n)
  }

  function RoundDown(value: nat, n: nat): nat
    requires n > 0
  {
    Mul(value / n, n)
  }

  /** The seven fields the code insists on; the other two are used unchecked. */
  predicate Initialized(d: Device) {
    && d.registersPerThreadLimit != UINT64_MAX
    && d.threadsPerWarp != UINT64_MAX
    && d.warpAllocGranularity != UINT64_MAX
    && d.registerAllocGranularity != UINT64_MAX
    && d.registersPerBlockLimit != UINT64_MAX
    && d.sharedMemoryPerCore != UINT64_MAX
    && d.blocksPerCoreLimit != UINT64_MAX
  }

  predicate PositiveGranularities(d: Device) {
    && d.threadsPerWarp > 0 && d.warpAllocGranularity > 0
    && d.registerAllocGranularity > 0 && d.sharedMemoryAllocGranularity > 0
  }

  /** No division of the computation is by zero. */
  predicate Divisible(d: Device, k: Kernel) {
    PositiveGranularities(d) && k.Threads() > 0
  }

  function WarpsPerBlock(d: Device, k: Kernel): nat
    requires Divisible(d, k)
  {
    CeilOfRatio(k.Threads(), d.threadsPerWarp)
  }

  function AllocWarps(d: Device, k: Kernel): nat
    requires Divisible(d, k)
  {
    RoundUp(WarpsPerBlock(d, k), d.warpAllocGranularity)
  }

  function AllocRegsPerWarp(d: Device, r: nat): nat
    requires d.registerAllocGranularity > 0
  {
    RoundUp(Mul(d.threadsPerWarp, r), d.registerAllocGranularity)
  }

  function RegsPerBlock(d: Device, k: Kernel, r: nat): nat
    requires Divisible(d, k)
  {
    Mul(AllocWarps(d, k), AllocRegsPerWarp(d, r))
  }

  function SharedPerBlock(d: Device, k: Kernel): nat
    requires Divisible(d, k)
  {
    RoundUp(k.sharedMemoryPerBlock, d.sharedMemoryAllocGranularity)
  }

  function ThreadsPerBlock(d: Device, k: Kernel): nat
    requires Divisible(d, k)
  {
    Mul(WarpsPerBlock(d, k), d.threadsPerWarp)
  }

  function Min(a: nat, b: nat): nat {
    if a <= b then a else b
  }

  /** `CalculateOccupancy` in exact arithmetic. */
  function CalculateOccupancy(d: Device, k: Kernel, registersPerThread: nat): nat
    requires Initialized(d) && registersPerThread <= d.registersPerThreadLimit ==>
               Divisible(d, k) && registersPerThread > 0
  {
    if !Initialized(d) then 0
    else if registersPerThread > d.registersPerThreadLimit then 0
    else
      PositiveDemands(d, k, registersPerThread);
      PositiveWarps(d, k);
      LeastLimit(d, RegsPerBlock(d, k, registersPerThread), SharedPerBlock(d, k), ThreadsPerBlock(d, k))
  }

  /** The least of the block, shared memory and thread limits. */
  function OtherLimits(d: Device, k: Kernel): nat
    requires Divisible(d, k)
  {
    PositiveWarps(d, k);
    LeastOther(d, SharedPerBlock(d, k), ThreadsPerBlock(d, k))
  }

  /** The same, given what one block takes of shared memory and threads. */
  function LeastOther(d: Device, shared: nat, threads: nat): nat
    requires threads > 0
  {
    var sharedLimit := if shared > 0 then d.sharedMemoryPerCore / shared else d.blocksPerCoreLimit;
    Min(Min(d.blocksPerCoreLimit, sharedLimit), d.threadsPerCoreLimit / threads)
  }

  // --- arithmetic -----------------------------------------------------------

  lemma MulPositive(a: nat, b: nat)
    requires a > 0 && b > 0
    ensures Mul(a, b) > 0
  {
  }

  /** Division is adjoint to multiplication. */
  lemma DivAdjoint(m: nat, r: nat, p: nat)
    requires p > 0
    ensures m <= r / p <==> Mul(m, p) <= r
  {
    var q := r / p;
    assert q * p <= r < q * p + p;
    if m <= q {
      MulMonotone(m, q, p);
    } else {
      MulMonotone(q + 1, m, p);
    }
  }

  /** So is the ceiling, from the other side. */
  lemma CeilAdjoint(x: nat, n: nat, m: nat)
    requires n > 0
    ensures CeilOfRatio(x, n) <= m <==> x <= Mul(m, n)
  {
    DivAdjoint(m + 1, x + n - 1, n);
    assert Mul(m + 1, n) == Mul(m, n) + n;
  }

  lemma CeilPositive(x: nat, n: nat)
    requires n > 0 && x > 0
    ensures CeilOfRatio(x, n) > 0
  {
    CeilAdjoint(x, n, 0);
  }

  lemma CeilMonotone(x: nat, y: nat, n: nat)
    requires n > 0 && x <= y
    ensures CeilOfRatio(x, n) <= CeilOfRatio(y, n)
  {
    CeilAdjoint(y, n, CeilOfRatio(y, n));
    CeilAdjoint(x, n, CeilOfRatio(y, n));
  }

  lemma RoundUpMonotone(x: nat, y: nat, n: nat)
    requires n > 0 && x <= y
    ensures RoundUp(x, n) <= RoundUp(y, n)
  {
    CeilMonotone(x, y, n);
    MulMonotone(CeilOfRatio(x, n), CeilOfRatio(y, n), n);
  }

  lemma PositiveWarps(d: Device, k: Kernel)
    requires Divisible(d, k)
    ensures WarpsPerBlock(d, k) > 0 && AllocWarps(d, k) > 0 && ThreadsPerBlock(d, k) > 0
  {
    CeilPositive(k.Threads(), d.threadsPerWarp);
    CeilPositive(WarpsPerBlock(d, k), d.warpAllocGranularity);
    MulPositive(CeilOfRatio(WarpsPerBlock(d, k), d.warpAllocGranularity), d.warpAllocGranularity);
    MulPositive(WarpsPerBlock(d, k), d.threadsPerWarp);
  }

  lemma PositiveDemands(d: Device, k: Kernel, r: nat)
    requires Divisible(d, k) && r > 0
    ensures RegsPerBlock(d, k, r) > 0
  {
    PositiveWarps(d, k);
    MulPositive(d.threadsPerWarp, r);
    CeilPositive(Mul(d.threadsPerWarp, r), d.registerAllocGranularity);
    MulPositive(CeilOfRatio(Mul(d.threadsPerWarp, r), d.registerAllocGranularity), d.registerAllocGranularity);
    MulPositive(AllocWarps(d, k), AllocRegsPerWarp(d, r));
  }

  // --- the computation in 64 bits -------------------------------------------

  function Wrap(a: nat): nat {
    a % TWO_64
  }

  datatype Outcome = Blocks(n: nat) | Trap

  /** The demands of one block as the code computes them: every product wraps at 64 bits. */
  function WrappedWarps(d: Device, k: Kernel): nat
    requires d.threadsPerWarp > 0
  {
    CeilOfRatio(Wrap(Mul(Wrap(Mul(k.x, k.y)), k.z)), d.threadsPerWarp)
  }

  function WrappedThreads(d: Device, k: Kernel): nat
    requires d.threadsPerWarp > 0
  {
    Wrap(Mul(WrappedWarps(d, k), d.threadsPerWarp))
  }

  function WrappedRegs(d: Device, k: Kernel, r: nat): nat
    requires d.threadsPerWarp > 0 && d.warpAllocGranularity > 0 && d.registerAllocGranularity > 0
  {
    var allocWarps := Wrap(RoundUp(WrappedWarps(d, k), d.warpAllocGranularity));
    var allocRegs := Wrap(RoundUp(Wrap(Mul(d.threadsPerWarp, r)), d.registerAllocGranularity));
    Wrap(Mul(allocWarps, allocRegs))
  }

  function WrappedShared(d: Device, k: Kernel): nat
    requires d.sharedMemoryAllocGranularity > 0
  {
    Wrap(RoundUp(k.sharedMemoryPerBlock, d.sharedMemoryAllocGranularity))
  }

  /** `CalculateOccupancy` as it runs; a zero divisor traps. */
  function WrappedOccupancy(d: Device, k: Kernel, registersPerThread: nat): Outcome {
    if !Initialized(d) || registersPerThread > d.registersPerThreadLimit then Blocks(0)
    else if !PositiveGranularities(d) then Trap
    else
      var regs, shared, threads := WrappedRegs(d, k, registersPerThread), WrappedShared(d, k), WrappedThreads(d, k);
      if regs == 0 || threads == 0 then Trap else Blocks(LeastLimit(d, regs, shared, threads))
  }

  /** The least of the four limits, given what one block takes of each resource. */
  function LeastLimit(d: Device, regs: nat, shared: nat, threads: nat): nat
    requires regs > 0 && threads > 0
  {
    Min(LeastOther(d, shared, threads), d.registersPerBlockLimit / regs)
  }

  /** What one block demands of each resource is less than 2^64. */
  predicate FitsWord(d: Device, k: Kernel, r: nat)
    requires Divisible(d, k)
  {
    && k.Threads() < TWO_64 && RegsPerBlock(d, k, r) < TWO_64
    && SharedPerBlock(d, k) < TWO_64 && ThreadsPerBlock(d, k) < TWO_64
  }

  lemma WrapSmall(a: nat)
    requires a < TWO_64
    ensures Wrap(a) == a
  {
  }

  /** A product is at least each of its positive factors. */
  lemma FactorBelow(a: nat, b: nat)
    requires b > 0
    ensures a <= Mul(a, b) && a <= Mul(b, a)
  {
    MulMonotone(1, b, a);
  }

  lemma RoundUpAbove(v: nat, n: nat)
    requires n > 0
    ensures v <= RoundUp(v, n)
  {
    CeilAdjoint(v, n, CeilOfRatio(v, n));
  }

  /** If the demands of one block fit 64 bits, so does all that leads to them: the code computes the exact occupancy. */
  lemma OccupancyWithoutWrap(d: Device, k: Kernel, r: nat)
    requires Divisible(d, k) && r > 0 && FitsWord(d, k, r)
    ensures WrappedOccupancy(d, k, r) == Blocks(CalculateOccupancy(d, k, r))
  {
    if Initialized(d) && r <= d.registersPerThreadLimit {
      PositiveDemands(d, k, r);
      PositiveWarps(d, k);
      FactorBelow(Mul(k.x, k.y), k.z) by {
        assert k.z == 0 ==> Mul(Mul(k.x, k.y), k.z) == 0;
      }
      WrapSmall(Mul(k.x, k.y));
      WrapSmall(k.Threads());
      RegsFitWord(d, k, r);
      WrapSmall(SharedPerBlock(d, k));
      WrapSmall(ThreadsPerBlock(d, k));
    }
  }

  lemma RegsFitWord(d: Device, k: Kernel, r: nat)
    requires Divisible(d, k) && r > 0 && RegsPerBlock(d, k, r) < TWO_64
    ensures Wrap(AllocWarps(d, k)) == AllocWarps(d, k) && Wrap(Mul(d.threadsPerWarp, r)) == Mul(d.threadsPerWarp, r)
    ensures Wrap(AllocRegsPerWarp(d, r)) == AllocRegsPerWarp(d, r)
    ensures Wrap(RegsPerBlock(d, k, r)) == RegsPerBlock(d, k, r)
  {
    PositiveWarps(d, k);
    MulPositive(d.threadsPerWarp, r);
    RoundUpAbove(Mul(d.threadsPerWarp, r), d.registerAllocGranularity);
    FactorBelow(AllocWarps(d, k), AllocRegsPerWarp(d, r));
    FactorBelow(AllocRegsPerWarp(d, r), AllocWarps(d, k));
    WrapSmall(AllocWarps(d, k));
    WrapSmall(Mul(d.threadsPerWarp, r));
    WrapSmall(AllocRegsPerWarp(d, r));
    WrapSmall(RegsPerBlock(d, k, r));
  }

  // --- exactly when the wrapping does no harm -------------------------------

  /** The resources of a core. */
  datatype Limits = Limits(registers: nat, shared: nat, blocks: nat, threads: nat)

  function WithLimits(d: Device, l: Limits): Device {
    d.(registersPerBlockLimit := l.registers, sharedMemoryPerCore := l.shared,
       blocksPerCoreLimit := l.blocks, threadsPerCoreLimit := l.threads)
  }

  /** Initialized 64-bit values. The limit on threads is the one that the code does not check. */
  predicate WordLimits(l: Limits) {
    l.registers < UINT64_MAX && l.shared < UINT64_MAX && l.blocks < UINT64_MAX && l.threads <= UINT64_MAX
  }

  /** The code computes the exact occupancy, whatever resources the core has. */
  ghost predicate ExactForAllLimits(d: Device, k: Kernel, r: nat)
    requires Divisible(d, k) && r > 0
  {
    forall l :: WordLimits(l) ==>
      WrappedOccupancy(WithLimits(d, l), k, r) == Blocks(CalculateOccupancy(WithLimits(d, l), k, r))
  }

  /**
   A wrapped demand of 2^64 - 1 is more than any initialized limit, so the code
   finds room for no block; no demand that wraps leaves room for one either.
   */
  predicate Starved(d: Device, k: Kernel, r: nat)
    requires PositiveGranularities(d)
  {
    && WrappedRegs(d, k, r) > 0 && WrappedThreads(d, k) > 0
    && (WrappedRegs(d, k, r) == UINT64_MAX || WrappedShared(d, k) == UINT64_MAX)
  }

  /** A demand of 2^64 or more leaves no room for a block on any core. */
  lemma NoRoom(d: Device, k: Kernel, r: nat, l: Limits)
    requires Divisible(d, k) && r > 0 && !FitsWord(d, k, r) && WordLimits(l)
    ensures CalculateOccupancy(WithLimits(d, l), k, r) == 0
  {
    var e := WithLimits(d, l);
    if Initialized(e) && r <= e.registersPerThreadLimit {
      PositiveWarps(d, k);
      RoundUpAbove(k.Threads(), d.threadsPerWarp);
      OccupancyIsFit(e, k, r, 1);
    }
  }

  /** With the largest limits the code finds room for a block, or traps, unless it is starved. */
  lemma RoomAtLargest(d: Device, regs: nat, shared: nat, threads: nat)
    requires 0 < regs < UINT64_MAX && shared < UINT64_MAX && 0 < threads <= UINT64_MAX
    ensures var l := Limits(UINT64_MAX - 1, UINT64_MAX - 1, UINT64_MAX - 1, UINT64_MAX);
            LeastLimit(WithLimits(d, l), regs, shared, threads) > 0
  {
    DivAdjoint(1, UINT64_MAX - 1, regs);
    DivAdjoint(1, UINT64_MAX, threads);
    if shared > 0 {
      DivAdjoint(1, UINT64_MAX - 1, shared);
    }
  }

  /**
   For a kernel, allocation parameters and a number of registers: the wrapping
   computation is exact on every core if and only if the demands of one block are
   below 2^64, or the code is starved.
   */
  lemma ExactForAllLimitsIff(d: Device, k: Kernel, r: nat)
    requires Divisible(d, k) && 0 < r <= d.registersPerThreadLimit && d.registersPerThreadLimit != UINT64_MAX
    requires d.threadsPerWarp != UINT64_MAX && d.warpAllocGranularity != UINT64_MAX
    requires d.registerAllocGranularity != UINT64_MAX
    ensures ExactForAllLimits(d, k, r) <==> FitsWord(d, k, r) || Starved(d, k, r)
  {
    if FitsWord(d, k, r) {
      forall l | WordLimits(l)
        ensures WrappedOccupancy(WithLimits(d, l), k, r) == Blocks(CalculateOccupancy(WithLimits(d, l), k, r))
      {
        OccupancyWithoutWrap(WithLimits(d, l), k, r);
      }
    } else if Starved(d, k, r) {
      forall l | WordLimits(l)
        ensures WrappedOccupancy(WithLimits(d, l), k, r) == Blocks(CalculateOccupancy(WithLimits(d, l), k, r))
      {
        NoRoom(d, k, r, l);
        StarvedFindsNone(d, k, r, l);
      }
    } else {
      var l := Limits(UINT64_MAX - 1, UINT64_MAX - 1, UINT64_MAX - 1, UINT64_MAX);
      NoRoom(d, k, r, l);
      if WrappedRegs(d, k, r) > 0 && WrappedThreads(d, k) > 0 {
        RoomAtLargest(d, WrappedRegs(d, k, r), WrappedShared(d, k), WrappedThreads(d, k));
      }
      assert WordLimits(l);
      assert WrappedOccupancy(WithLimits(d, l), k, r) != Blocks(CalculateOccupancy(WithLimits(d, l), k, r));
    }
  }

  lemma StarvedFindsNone(d: Device, k: Kernel, r: nat, l: Limits)
    requires PositiveGranularities(d) && Starved(d, k, r) && WordLimits(l)
    requires Initialized(WithLimits(d, l)) && r <= d.registersPerThreadLimit
    ensures WrappedOccupancy(WithLimits(d, l), k, r) == Blocks(0)
  {
    DivAdjoint(1, l.registers, WrappedRegs(d, k, r));
    if WrappedShared(d, k) > 0 {
      DivAdjoint(1, l.shared, WrappedShared(d, k));
    }
  }

  /** The code can be starved although a demand wraps: registers come to 2^64 - 1, shared memory to 2^64. */
  lemma StarvedWithoutFitting(d: Device, k: Kernel)
    requires d.threadsPerWarp == 1 && Mul(d.warpAllocGranularity, d.registerAllocGranularity) == UINT64_MAX
    requires d.sharedMemoryAllocGranularity == 2 && k == Kernel(1, 1, 1, UINT64_MAX)
    ensures Divisible(d, k) && !FitsWord(d, k, 1) && Starved(d, k, 1)
  {
    var w, g := d.warpAllocGranularity, d.registerAllocGranularity;
    assert w > 0 && g > 0 by {
      assert w == 0 || g == 0 ==> Mul(w, g) == 0;
    }
    FactorBelow(w, g);
    FactorBelow(g, w);
    UnitBlock(k);
    RoundUpOne(1);
    RoundUpOne(w);
    RoundUpOne(g);
    WrapSmall(w);
    WrapSmall(g);
    WrapSmall(UINT64_MAX);
    assert WrappedWarps(d, k) == 1;
    assert WrappedRegs(d, k, 1) == UINT64_MAX;
    assert CeilOfRatio(UINT64_MAX, 2) == 0x8000_0000_0000_0000;
  }

  /** Such a device: 2^64 - 1 is three times 0x5555555555555555. */
  lemma StarvedExample(d: Device)
    requires d == Device(1, 1, 3, 0x5555_5555_5555_5555, 0, 0, 0, 2, 0)
    ensures Starved(d, Kernel(1, 1, 1, UINT64_MAX), 1) && !FitsWord(d, Kernel(1, 1, 1, UINT64_MAX), 1)
  {
    assert Mul(3, 0x5555_5555_5555_5555) == UINT64_MAX;
    StarvedWithoutFitting(d, Kernel(1, 1, 1, UINT64_MAX));
  }

  lemma UnitBlock(k: Kernel)
    requires k.x == 1 && k.y == 1 && k.z == 1
    ensures k.Threads() == 1 && Wrap(Mul(Wrap(Mul(k.x, k.y)), k.z)) == 1 && Mul(1, 1) == 1 && Wrap(1) == 1
  {
  }

  lemma RoundUpOne(n: nat)
    requires n > 0
    ensures CeilOfRatio(1, n) == 1 && RoundUp(1, n) == n
  {
    CeilAdjoint(1, n, 1);
    CeilPositive(1, n);
  }

  // --- soundness and maximality ---------------------------------------------

  /** `n` resident blocks stay within every limit of the core. */
  ghost predicate Fits(d: Device, k: Kernel, r: nat, n: nat)
    requires Divisible(d, k)
  {
    && n <= d.blocksPerCoreLimit
    && Mul(n, RegsPerBlock(d, k, r)) <= d.registersPerBlockLimit
    && Mul(n, SharedPerBlock(d, k)) <= d.sharedMemoryPerCore
    && Mul(n, ThreadsPerBlock(d, k)) <= d.threadsPerCoreLimit
  }

  /** The occupancy is exactly the number of blocks that fit: fewer always do, more never. */
  lemma OccupancyIsFit(d: Device, k: Kernel, r: nat, n: nat)
    requires Initialized(d) && Divisible(d, k) && 0 < r <= d.registersPerThreadLimit
    ensures Fits(d, k, r, n) <==> n <= CalculateOccupancy(d, k, r)
  {
    PositiveWarps(d, k);
    PositiveDemands(d, k, r);
    DivAdjoint(n, d.registersPerBlockLimit, RegsPerBlock(d, k, r));
    DivAdjoint(n, d.threadsPerCoreLimit, ThreadsPerBlock(d, k));
    if SharedPerBlock(d, k) > 0 {
      DivAdjoint(n, d.sharedMemoryPerCore, SharedPerBlock(d, k));
    } else {
      assert Mul(n, SharedPerBlock(d, k)) == 0;
    }
  }

  /** `m` is the least multiple of `n` that is at least `v`. */
  predicate LeastMultiple(m: nat, n: nat, v: nat) {
    n > 0 && m % n == 0 && v <= m < v + n
  }

  lemma RoundUpIsLeast(v: nat, n: nat)
    requires n > 0
    ensures LeastMultiple(RoundUp(v, n), n, v)
  {
    RoundUpAbove(v, n);
    RoundUpBelow(v, n);
    MultipleModulo(CeilOfRatio(v, n), n);
  }

  lemma MultipleModulo(c: nat, n: nat)
    requires n > 0
    ensures (c * n) % n == 0 && (c * n) / n == c
  {
    var q, m := (c * n) / n, (c * n) % n;
    assert c * n == q * n + m;
    assert (q + 1) * n == q * n + n && (c + 1) * n == c * n + n;
    if q < c {
      MulMonotone(q + 1, c, n);
    } else if q > c {
      MulMonotone(c + 1, q, n);
    }
  }

  lemma LeastIsRoundUp(m: nat, n: nat, v: nat)
    requires LeastMultiple(m, n, v)
    ensures m == RoundUp(v, n) && m / n == CeilOfRatio(v, n)
  {
    var q := m / n;
    assert m == q * n;
    CeilAdjoint(v, n, q);
    if q > 0 {
      CeilAdjoint(v, n, q - 1);
      assert Mul(q - 1, n) == q * n - n;
    }
  }

  /** What one block takes: whole warps of threads, allocated warps, registers allocated to a warp, shared memory. */
  datatype Demand = Demand(threads: nat, warps: nat, warpRegs: nat, shared: nat)

  /** The demand of a block with so many threads, and so many registers requested by a warp, in terms of the fields. */
  predicate IsDemand(d: Device, q: Demand, threads: nat, warpRegs: nat, shared: nat) {
    && LeastMultiple(q.threads, d.threadsPerWarp, threads)
    && LeastMultiple(q.warps, d.warpAllocGranularity, q.threads / d.threadsPerWarp)
    && LeastMultiple(q.warpRegs, d.registerAllocGranularity, warpRegs)
    && LeastMultiple(q.shared, d.sharedMemoryAllocGranularity, shared)
  }

  /** `n` blocks of a demand stay within every limit of the core. */
  predicate Room(d: Device, regs: nat, shared: nat, threads: nat, n: nat) {
    && n <= d.blocksPerCoreLimit
    && n * regs <= d.registersPerBlockLimit
    && n * shared <= d.sharedMemoryPerCore
    && n * threads <= d.threadsPerCoreLimit
  }

  /** The computed demands are the least multiples of the granularities that cover what is requested. */
  lemma DemandsOfBlock(d: Device, k: Kernel, r: nat, q: Demand)
    requires Divisible(d, k) && IsDemand(d, q, k.x * k.y * k.z, d.threadsPerWarp * r, k.sharedMemoryPerBlock)
    ensures ThreadsPerBlock(d, k) == q.threads && AllocWarps(d, k) == q.warps
    ensures AllocRegsPerWarp(d, r) == q.warpRegs && SharedPerBlock(d, k) == q.shared
    ensures RegsPerBlock(d, k, r) == q.warps * q.warpRegs
  {
    LeastIsRoundUp(q.threads, d.threadsPerWarp, k.Threads());
    LeastIsRoundUp(q.warps, d.warpAllocGranularity, WarpsPerBlock(d, k));
    LeastIsRoundUp(q.warpRegs, d.registerAllocGranularity, Mul(d.threadsPerWarp, r));
    LeastIsRoundUp(q.shared, d.sharedMemoryAllocGranularity, k.sharedMemoryPerBlock);
  }

  /** The exact occupancy, in terms of the fields: the largest number of blocks that the core has room for. */
  lemma OccupancyIsMaximal(d: Device, k: Kernel, r: nat, q: Demand, n: nat)
    requires Initialized(d) && Divisible(d, k) && 0 < r <= d.registersPerThreadLimit
    requires IsDemand(d, q, k.x * k.y * k.z, d.threadsPerWarp * r, k.sharedMemoryPerBlock)
    ensures n <= CalculateOccupancy(d, k, r) <==> Room(d, q.warps * q.warpRegs, q.shared, q.threads, n)
  {
    DemandsOfBlock(d, k, r, q);
    OccupancyIsFit(d, k, r, n);
  }

  /** The demands that the code computes: threads, a warp's registers, and every result are reduced modulo 2^64. */
  lemma WrappedDemands(d: Device, k: Kernel, r: nat, q: Demand)
    requires PositiveGranularities(d)
    requires IsDemand(d, q, (k.x * k.y * k.z) % TWO_64, (d.threadsPerWarp * r) % TWO_64, k.sharedMemoryPerBlock)
    ensures WrappedThreads(d, k) == q.threads % TWO_64 && WrappedShared(d, k) == q.shared % TWO_64
    ensures WrappedRegs(d, k, r) == (q.warps * q.warpRegs) % TWO_64
  {
    WrapFactor(Mul(k.x, k.y), k.z);
    LeastIsRoundUp(q.threads, d.threadsPerWarp, (k.x * k.y * k.z) % TWO_64);
    LeastIsRoundUp(q.warps, d.warpAllocGranularity, WrappedWarps(d, k));
    LeastIsRoundUp(q.warpRegs, d.registerAllocGranularity, (d.threadsPerWarp * r) % TWO_64);
    LeastIsRoundUp(q.shared, d.sharedMemoryAllocGranularity, k.sharedMemoryPerBlock);
    WrapFactor(q.warps, Wrap(q.warpRegs));
    WrapFactor(q.warpRegs, q.warps);
    assert Wrap(q.warps) * Wrap(q.warpRegs) == Mul(Wrap(q.warps), Wrap(q.warpRegs));
    assert q.warps * Wrap(q.warpRegs) == Wrap(q.warpRegs) * q.warps;
  }

  /** One of the seven fields that the code checks holds the value of an unset field. */
  predicate Unset(d: Device) {
    UINT64_MAX in {d.registersPerThreadLimit, d.threadsPerWarp, d.warpAllocGranularity, d.registerAllocGranularity,
                   d.registersPerBlockLimit, d.sharedMemoryPerCore, d.blocksPerCoreLimit}
  }

  /**
   What the code computes, in terms of the fields: zero for an unset field or too
   many registers, a trap for a zero divisor, and otherwise the largest number of
   blocks that the core has room for, by the wrapped demands.
   */
  lemma CodeOccupancy(d: Device, k: Kernel, r: nat, q: Demand, n: nat)
    requires PositiveGranularities(d) ==>
               IsDemand(d, q, (k.x * k.y * k.z) % TWO_64, (d.threadsPerWarp * r) % TWO_64, k.sharedMemoryPerBlock)
    ensures Unset(d) || r > d.registersPerThreadLimit ==> WrappedOccupancy(d, k, r) == Blocks(0)
    ensures !Unset(d) && r <= d.registersPerThreadLimit ==>
              var regs, shared, threads := (q.warps * q.warpRegs) % TWO_64, q.shared % TWO_64, q.threads % TWO_64;
              if d.threadsPerWarp == 0 || d.warpAllocGranularity == 0 || d.registerAllocGranularity == 0
                 || d.sharedMemoryAllocGranularity == 0 || regs == 0 || threads == 0
              then WrappedOccupancy(d, k, r) == Trap
              else WrappedOccupancy(d, k, r).Blocks?
                   && (n <= WrappedOccupancy(d, k, r).n <==> Room(d, regs, shared, threads, n))
  {
    if !Unset(d) && r <= d.registersPerThreadLimit && PositiveGranularities(d) {
      WrappedDemands(d, k, r, q);
      var regs, shared, threads := WrappedRegs(d, k, r), WrappedShared(d, k), WrappedThreads(d, k);
      if regs > 0 && threads > 0 {
        LeastLimitIsRoom(d, regs, shared, threads, n);
      }
    }
  }

  lemma LeastLimitIsRoom(d: Device, regs: nat, shared: nat, threads: nat, n: nat)
    requires regs > 0 && threads > 0
    ensures n <= LeastLimit(d, regs, shared, threads) <==> Room(d, regs, shared, threads, n)
  {
    DivAdjoint(n, d.registersPerBlockLimit, regs);
    DivAdjoint(n, d.threadsPerCoreLimit, threads);
    if shared > 0 {
      DivAdjoint(n, d.sharedMemoryPerCore, shared);
    }
  }

  /** An instance: a request for shared memory that rounds up to 2^64 counts as none. */
  lemma WrapHidesDemand()
    ensures var d, k := Device(1, 1, 1, 1, 1, 0, 1, 2, 1), Kernel(1, 1, 1, UINT64_MAX);
            Divisible(d, k) && !FitsWord(d, k, 1) && WrappedOccupancy(d, k, 1) == Blocks(1) && !Fits(d, k, 1, 1)
  {
    var d, k := Device(1, 1, 1, 1, 1, 0, 1, 2, 1), Kernel(1, 1, 1, UINT64_MAX);
    assert k.Threads() == 1;
    assert CeilOfRatio(UINT64_MAX, 2) == 0x8000_0000_0000_0000;
    assert SharedPerBlock(d, k) == TWO_64 && Wrap(TWO_64) == 0;
    assert RoundUp(1, 1) == 1 && CeilOfRatio(1, 1) == 1;
  }

  /** More registers per thread, or more shared memory per block, never raise the occupancy. */
  lemma OccupancyAntitone(d: Device, k: Kernel, k': Kernel, r: nat, r': nat)
    requires Divisible(d, k) && k' == k.(sharedMemoryPerBlock := k'.sharedMemoryPerBlock)
    requires 0 < r <= r' && k.sharedMemoryPerBlock <= k'.sharedMemoryPerBlock
    ensures CalculateOccupancy(d, k', r') <= CalculateOccupancy(d, k, r)
  {
    if Initialized(d) && r' <= d.registersPerThreadLimit {
      var n := CalculateOccupancy(d, k', r');
      OccupancyIsFit(d, k', r', n);
      OccupancyIsFit(d, k, r, n);
      RegsPerBlockMonotone(d, k, r, r');
      MulMonotone(RegsPerBlock(d, k, r), RegsPerBlock(d, k, r'), n);
      RoundUpMonotone(k.sharedMemoryPerBlock, k'.sharedMemoryPerBlock, d.sharedMemoryAllocGranularity);
      MulMonotone(SharedPerBlock(d, k), SharedPerBlock(d, k'), n);
    }
  }

  lemma RegsPerBlockMonotone(d: Device, k: Kernel, r: nat, r': nat)
    requires Divisible(d, k) && r <= r'
    ensures RegsPerBlock(d, k, r) <= RegsPerBlock(d, k, r')
  {
    MulMonotone(r, r', d.threadsPerWarp);
    RoundUpMonotone(Mul(d.threadsPerWarp, r), Mul(d.threadsPerWarp, r'), d.registerAllocGranularity);
    MulMonotone(AllocRegsPerWarp(d, r), AllocRegsPerWarp(d, r'), AllocWarps(d, k));
  }

  // --- the register search --------------------------------------------------

  /** Registers per thread found, with 0 for none; or the loop steps by zero and divides by it. */
  datatype Search = Registers(r: nat) | DivideByZero

  predicate Meets(d: Device, k: Kernel, target: nat, r: nat)
    requires Divisible(d, k) && r > 0
  {
    CalculateOccupancy(d, k, r) >= target
  }

  /** The loop from candidate `r` down, jumping to multiples of `step`. */
  function SearchFrom(d: Device, k: Kernel, target: nat, step: nat, r: nat): Search
    requires Divisible(d, k)
    decreases r
  {
    if r == 0 then Registers(0)
    else if Meets(d, k, target, r) then Registers(r)
    else if step == 0 then DivideByZero
    else
      RoundDownBounds(r - 1, step);
      SearchFrom(d, k, target, step, RoundDown(r - 1, step))
  }

  lemma RoundDownBounds(v: nat, n: nat)
    requires n > 0
    ensures v - n < RoundDown(v, n) <= v
  {
  }

  /** The step, narrowed to `int` and converted to an unsigned 64-bit argument. */
  function RegStep(d: Device): nat
    requires d.threadsPerWarp > 0
  {
    ToInt32(d.registerAllocGranularity / d.threadsPerWarp) % TWO_64
  }

  /** The first candidate: the limit narrowed to `int`. A negative one ends the loop at once. */
  function FirstCandidate(d: Device): nat {
    var r := ToInt32(d.registersPerThreadLimit);
    if r > 0 then r else 0
  }

  function RegisterSearch(d: Device, k: Kernel, target: nat): Search
    requires Divisible(d, k)
  {
    SearchFrom(d, k, target, RegStep(d), FirstCandidate(d))
  }

  /** The loop with the occupancy computed in 64 bits; a trap ends it. */
  function WrappedSearchFrom(d: Device, k: Kernel, target: nat, step: nat, r: nat): Search
    decreases r
  {
    if r == 0 then Registers(0)
    else
      match WrappedOccupancy(d, k, r)
      case Trap => DivideByZero
      case Blocks(n) =>
        if n >= target then Registers(r)
        else if step == 0 then DivideByZero
        else
          RoundDownBounds(r - 1, step);
          WrappedSearchFrom(d, k, target, step, RoundDown(r - 1, step))
  }

  function WrappedSearch(d: Device, k: Kernel, target: nat): Search {
    if d.threadsPerWarp == 0 then DivideByZero else WrappedSearchFrom(d, k, target, RegStep(d), FirstCandidate(d))
  }

  /** `CalculateRegisterLimitForTargetOccupancy`: the loop over the `int` variable `r`. */
  method CalculateRegisterLimitForTargetOccupancy(d: Device, k: Kernel, target: nat) returns (result: Search)
    ensures result == WrappedSearch(d, k, target)
  {
    if d.threadsPerWarp == 0 {
      return DivideByZero;
    }
    var regStep := ToInt32(d.registerAllocGranularity / d.threadsPerWarp) % TWO_64;
    var r := ToInt32(d.registersPerThreadLimit);
    while r > 0
      invariant WrappedSearch(d, k, target) == WrappedSearchFrom(d, k, target, regStep, if r > 0 then r else 0)
      decreases r
    {
      var occupancy := WrappedOccupancy(d, k, r);
      if occupancy.Trap? {
        return DivideByZero;
      }
      if occupancy.n >= target {
        return Registers(r);
      }
      if regStep == 0 {
        return DivideByZero;
      }
      RoundDownBounds(r - 1, regStep);
      r := RoundDown(r - 1, regStep);
    }
    return Registers(0);
  }

  lemma {:induction false} SearchFromWithoutWrap(d: Device, k: Kernel, target: nat, step: nat, r: nat, top: nat)
    requires Divisible(d, k) && r <= top && FitsWord(d, k, top)
    ensures WrappedSearchFrom(d, k, target, step, r) == SearchFrom(d, k, target, step, r)
    decreases r
  {
    if r > 0 {
      RegsPerBlockMonotone(d, k, r, top);
      OccupancyWithoutWrap(d, k, r);
      if step > 0 {
        RoundDownBounds(r - 1, step);
        SearchFromWithoutWrap(d, k, target, step, RoundDown(r - 1, step), top);
      }
    }
  }

  /** If a block at the first candidate fits 64 bits, no candidate of the search wraps. */
  lemma SearchWithoutWrap(d: Device, k: Kernel, target: nat)
    requires Divisible(d, k) && FitsWord(d, k, FirstCandidate(d))
    ensures WrappedSearch(d, k, target) == RegisterSearch(d, k, target)
  {
    SearchFromWithoutWrap(d, k, target, RegStep(d), FirstCandidate(d), FirstCandidate(d));
  }

  /** The limit on registers, as a 32-bit `int` sees it. */
  lemma FirstCandidateMeaning(d: Device)
    ensures var low := d.registersPerThreadLimit % TWO_32; FirstCandidate(d) == if low <= INT32_MAX then low else 0
  {
  }

  /** The quotient of granularity and warp size, as a 32-bit `int` sees it and an unsigned 64-bit argument takes it. */
  lemma RegStepMeaning(d: Device)
    requires d.threadsPerWarp > 0
    ensures var low := (d.registerAllocGranularity / d.threadsPerWarp) % TWO_32;
            RegStep(d) == if low <= INT32_MAX then low else TWO_64 - TWO_32 + low
  {
    var s := d.registerAllocGranularity / d.threadsPerWarp;
    NarrowedMeaning(s);
  }

  lemma NarrowedMeaning(s: nat)
    ensures var low := s % TWO_32; ToInt32(s) % TWO_64 == if low <= INT32_MAX then low else TWO_64 - TWO_32 + low
  {
    var low := s % TWO_32;
    if low > INT32_MAX {
      WrapShift(low - TWO_32, 1);
    }
  }

  /** The values that the loop may look at: the first candidate, and the multiples of the step below it. */
  predicate IsCandidate(first: nat, step: nat, r: nat) {
    0 < r <= first && (r == first || (step > 0 && r % step == 0))
  }

  /** The occupancy at `r` is computed, and misses the target. */
  predicate Misses(d: Device, k: Kernel, target: nat, r: nat) {
    WrappedOccupancy(d, k, r).Blocks? && WrappedOccupancy(d, k, r).n < target
  }

  /** The loop ends at `r` with a division by zero. */
  predicate Divides(d: Device, k: Kernel, target: nat, step: nat, r: nat) {
    WrappedOccupancy(d, k, r).Trap? || (step == 0 && Misses(d, k, target, r))
  }

  /** The loop's answer is at the largest candidate that does not just miss the target. */
  ghost predicate IsAnswer(d: Device, k: Kernel, target: nat, first: nat, step: nat, result: Search) {
    match result
    case Registers(r) =>
      && (r > 0 ==> IsCandidate(first, step, r) && WrappedOccupancy(d, k, r).Blocks? && !Misses(d, k, target, r))
      && (forall c: nat :: IsCandidate(first, step, c) && c > r ==> Misses(d, k, target, c))
      && (r == 0 && first > 0 ==> step > 0)
    case DivideByZero =>
      exists r: nat :: IsCandidate(first, step, r) && Divides(d, k, target, step, r) &&
                  forall c: nat :: IsCandidate(first, step, c) && c > r ==> Misses(d, k, target, c)
  }

  /** For every device, kernel and target, good step or not: the code looks at the candidates from the largest down. */
  lemma SearchMeaning(d: Device, k: Kernel, target: nat)
    ensures if d.threadsPerWarp == 0 then WrappedSearch(d, k, target) == DivideByZero
            else IsAnswer(d, k, target, FirstCandidate(d), RegStep(d), WrappedSearch(d, k, target))
  {
    if d.threadsPerWarp > 0 {
      SearchFromMeaning(d, k, target, RegStep(d), FirstCandidate(d));
    }
  }

  lemma {:induction false} SearchFromMeaning(d: Device, k: Kernel, target: nat, step: nat, first: nat)
    ensures IsAnswer(d, k, target, first, step, WrappedSearchFrom(d, k, target, step, first))
    decreases first
  {
    var result := WrappedSearchFrom(d, k, target, step, first);
    if first > 0 {
      assert IsCandidate(first, step, first);
      if Misses(d, k, target, first) && step > 0 {
        var next := RoundDown(first - 1, step);
        RoundDownBounds(first - 1, step);
        SearchFromMeaning(d, k, target, step, next);
        forall c: nat ensures IsCandidate(first, step, c) <==> c == first || IsCandidate(next, step, c) {
          NextCandidates(first, step, c);
        }
      }
    }
  }

  lemma NextCandidates(first: nat, step: nat, c: nat)
    requires first > 0 && step > 0
    ensures IsCandidate(first, step, c) <==> c == first || IsCandidate(RoundDown(first - 1, step), step, c)
  {
    var q := (first - 1) / step;
    MultipleModulo(q, step);
    if c < first && c % step == 0 {
      DivAdjoint(c / step, first - 1, step);
      MulMonotone(c / step, q, step);
      assert c == (c / step) * step;
    }
  }

  /** `result` is the largest register count in 1..limit that meets the target, or 0 when none does. */
  ghost predicate IsLargest(d: Device, k: Kernel, target: nat, limit: nat, result: Search)
    requires Divisible(d, k)
  {
    && result.Registers?
    && result.r <= limit
    && (result.r > 0 ==> Meets(d, k, target, result.r))
    && forall r :: result.r < r <= limit ==> !Meets(d, k, target, r)
  }

  /** Values that allocate the same registers have the same occupancy. */
  lemma MeetsByAllocation(d: Device, k: Kernel, target: nat, r: nat, r': nat)
    requires Divisible(d, k) && 0 < r <= r' <= d.registersPerThreadLimit
    requires AllocRegsPerWarp(d, r) == AllocRegsPerWarp(d, r')
    ensures Meets(d, k, target, r) <==> Meets(d, k, target, r')
  {
  }

  /** When the warp size divides the granularity, the allocation depends on ceil(r / step) only. */
  lemma AllocationByStep(d: Device, r: nat)
    requires d.threadsPerWarp > 0 && d.registerAllocGranularity > 0
    requires d.registerAllocGranularity % d.threadsPerWarp == 0
    ensures var s := d.registerAllocGranularity / d.threadsPerWarp;
            s > 0 && AllocRegsPerWarp(d, r) == Mul(CeilOfRatio(r, s), d.registerAllocGranularity)
  {
    var t, g := d.threadsPerWarp, d.registerAllocGranularity;
    var s := g / t;
    assert g == s * t;
    var c := CeilOfRatio(r, s);
    CeilScaled(t, r, s, c);
    CeilScaled(t, r, s, CeilOfRatio(Mul(t, r), g));
    CeilAdjoint(Mul(t, r), g, c);
    CeilAdjoint(r, s, c);
    CeilAdjoint(Mul(t, r), g, CeilOfRatio(Mul(t, r), g));
    CeilAdjoint(r, s, CeilOfRatio(Mul(t, r), g));
  }

  lemma CeilScaled(t: nat, r: nat, s: nat, m: nat)
    requires t > 0 && s > 0
    ensures Mul(t, r) <= Mul(m, s * t) <==> r <= Mul(m, s)
  {
    var b := Mul(m, s);
    assert Mul(m, s * t) == b * t;
    if r <= b {
      MulMonotone(r, b, t);
    } else {
      MulMonotone(b + 1, r, t);
      assert (b + 1) * t == b * t + t;
    }
  }

  /** The step the code means to take: registers per thread in one allocation unit of a warp. */
  function TrueStep(d: Device): nat
    requires d.threadsPerWarp > 0
  {
    d.registerAllocGranularity / d.threadsPerWarp
  }

  /** The warp size divides the granularity, or the step is one: no allocation class is skipped. */
  predicate GoodStep(warp: nat, granularity: nat)
    requires warp > 0
  {
    granularity % warp == 0 || granularity / warp == 1
  }

  /**
   Up to candidate `top` the loop passes over no allocation class. With a step that
   leaves a remainder, class ceil(warp / remainder) is the first to hold a value
   that the loop passes over.
   */
  predicate NoClassSkipped(d: Device, top: nat)
    requires PositiveGranularities(d)
  {
    var s, rem := TrueStep(d), d.registerAllocGranularity % d.threadsPerWarp;
    s > 0 && (s > INT32_MAX || s == 1 || rem == 0 || top <= Mul(CeilOfRatio(d.threadsPerWarp, rem), s) + 1)
  }

  lemma RegStepIsTrueStep(d: Device)
    requires d.threadsPerWarp > 0 && TrueStep(d) <= INT32_MAX
    ensures RegStep(d) == TrueStep(d)
  {
    NoWrap64(TrueStep(d));
  }

  lemma FirstCandidateBound(d: Device)
    ensures FirstCandidate(d) <= d.registersPerThreadLimit
    ensures FirstCandidate(d) == d.registersPerThreadLimit <==> d.registersPerThreadLimit <= INT32_MAX
  {
    var k :| d.registersPerThreadLimit == ToInt32(d.registersPerThreadLimit) + k * TWO_32;
  }

  /** A candidate allocates what every value down to the next one does. */
  lemma SkippedAllocation(d: Device, r: nat, r': nat, top: nat)
    requires PositiveGranularities(d) && NoClassSkipped(d, top) && RegStep(d) > 0
    requires 0 < r <= top <= INT32_MAX && RoundDown(r - 1, RegStep(d)) < r' <= r
    ensures AllocRegsPerWarp(d, r) == AllocRegsPerWarp(d, r')
  {
    var t, g, s := d.threadsPerWarp, d.registerAllocGranularity, TrueStep(d);
    var rem := g % t;
    if s > INT32_MAX {
      FirstClass(t, g, s, r);
      FirstClass(t, g, s, r');
    } else {
      RegStepIsTrueStep(d);
      SameCeiling(r, r', s);
      if rem == 0 {
        AllocationByStep(d, r);
        AllocationByStep(d, r');
      } else if s > 1 {
        EarlyClass(t, g, s, r, r');
      }
    }
  }

  lemma FirstClass(t: nat, g: nat, s: nat, r: nat)
    requires t > 0 && g > 0 && s == g / t && 0 < r <= s
    ensures CeilOfRatio(Mul(t, r), g) == 1
  {
    MulMonotone(r, s, t);
    DivAdjoint(s, g, t);
    CeilAdjoint(Mul(t, r), g, 1);
    MulPositive(t, r);
    CeilPositive(Mul(t, r), g);
    assert Mul(1, g) == g;
  }

  /** Up to k*s + 1, with k = ceil(t / rem), the class of a value is that of its candidate. */
  lemma EarlyClass(t: nat, g: nat, s: nat, r: nat, r': nat)
    requires t > 0 && g > 0 && s == g / t && s > 1 && g % t > 0 && 0 < r' <= r
    requires r <= Mul(CeilOfRatio(t, g % t), s) + 1 && CeilOfRatio(r, s) == CeilOfRatio(r', s)
    ensures CeilOfRatio(Mul(t, r), g) == CeilOfRatio(Mul(t, r'), g)
  {
    var rem, k, m := g % t, CeilOfRatio(t, g % t), CeilOfRatio(r, s) - 1;
    CeilAdjoint(r, s, m);
    CeilAdjoint(r, s, m + 1);
    CeilAdjoint(r', s, m);
    CeilAdjoint(r', s, m + 1);
    if m < k {
      CeilAdjoint(t, rem, m);
      ClassInside(t, g, s, rem, m, r);
      ClassInside(t, g, s, rem, m, r');
    } else {
      MulMonotone(k, m, s);
    }
  }

  lemma ClassInside(t: nat, g: nat, s: nat, rem: nat, m: nat, r: nat)
    requires g > 0 && g == s * t + rem && Mul(m, rem) < t && Mul(m, s) < r <= Mul(m + 1, s)
    ensures CeilOfRatio(Mul(t, r), g) == m + 1
  {
    var ms, v := Mul(m, s), Mul(t, r);
    Distribute(m, s, t, rem);
    Distribute(m + 1, s, t, rem);
    OneMoreTime(ms, t);
    MulMonotone(ms + 1, r, t);
    MulMonotone(r, Mul(m + 1, s), t);
    assert v == Mul(r, t);
    CeilAdjoint(v, g, m);
    CeilAdjoint(v, g, m + 1);
  }

  lemma Distribute(m: nat, s: nat, t: nat, rem: nat)
    ensures Mul(m, s * t + rem) == Mul(Mul(m, s), t) + Mul(m, rem)
  {
    assert m * (s * t) == (m * s) * t;
  }

  lemma OneMoreTime(a: nat, t: nat)
    ensures Mul(a + 1, t) == Mul(a, t) + t
  {
  }

  /** A candidate that fails rules out everything down to the next one. */
  lemma SkippedFail(d: Device, k: Kernel, target: nat, r: nat, r': nat, top: nat)
    requires Divisible(d, k) && NoClassSkipped(d, top) && RegStep(d) > 0
    requires 0 < r <= top <= INT32_MAX && r <= d.registersPerThreadLimit && !Meets(d, k, target, r)
    requires RoundDown(r - 1, RegStep(d)) < r' <= r
    ensures !Meets(d, k, target, r')
  {
    SkippedAllocation(d, r, r', top);
    MeetsByAllocation(d, k, target, r', r);
  }

  lemma SameCeiling(r: nat, r': nat, s: nat)
    requires s > 0 && r > 0 && RoundDown(r - 1, s) < r' <= r
    ensures CeilOfRatio(r, s) == CeilOfRatio(r', s)
    ensures s == 1 ==> r' == r
  {
    var q := (r - 1) / s;
    DivAdjoint(q + 1, r - 1, s);
    DivAdjoint(q, r - 1, s);
    CeilAdjoint(r, s, q + 1);
    CeilAdjoint(r', s, q + 1);
    CeilAdjoint(r', s, q);
    CeilMonotone(r', r, s);
  }

  /** The stepping loop finds the largest value in its range although it skips candidates. */
  lemma {:induction false} SearchFromExact(d: Device, k: Kernel, target: nat, r: nat, top: nat)
    requires Divisible(d, k) && NoClassSkipped(d, top) && RegStep(d) > 0
    requires r <= top <= INT32_MAX && r <= d.registersPerThreadLimit
    ensures IsLargest(d, k, target, r, SearchFrom(d, k, target, RegStep(d), r))
    decreases r
  {
    if r > 0 && !Meets(d, k, target, r) {
      var next := RoundDown(r - 1, RegStep(d));
      RoundDownBounds(r - 1, RegStep(d));
      SearchFromExact(d, k, target, next, top);
      forall r' | next < r' <= r ensures !Meets(d, k, target, r') {
        SkippedFail(d, k, target, r, r', top);
      }
    }
  }

  lemma GoodStepPositive(d: Device)
    requires d.threadsPerWarp > 0 && d.registerAllocGranularity > 0
    requires GoodStep(d.threadsPerWarp, d.registerAllocGranularity)
    ensures TrueStep(d) > 0
  {
    if d.registerAllocGranularity % d.threadsPerWarp == 0 {
      AllocationByStep(d, 0);
    }
  }

  /** The whole search, for every limit: the largest value up to the limit as the code narrows it. */
  lemma SearchExact(d: Device, k: Kernel, target: nat)
    requires Divisible(d, k) && NoClassSkipped(d, FirstCandidate(d)) && RegStep(d) > 0
    ensures IsLargest(d, k, target, FirstCandidate(d), RegisterSearch(d, k, target))
  {
    FirstCandidateBound(d);
    SearchFromExact(d, k, target, FirstCandidate(d), FirstCandidate(d));
  }

  /** With a good step that fits an `int` no class is skipped, however far the search goes. */
  lemma GoodStepSkipsNone(d: Device, top: nat)
    requires PositiveGranularities(d) && TrueStep(d) <= INT32_MAX
    requires GoodStep(d.threadsPerWarp, d.registerAllocGranularity)
    ensures NoClassSkipped(d, top) && RegStep(d) > 0
  {
    GoodStepPositive(d);
    RegStepIsTrueStep(d);
  }

  /** What the code returns is the largest value up to the limit that meets the target. */
  ghost predicate ExactAnswer(d: Device, k: Kernel, target: nat)
    requires Divisible(d, k)
  {
    IsLargest(d, k, target, d.registersPerThreadLimit, WrappedSearch(d, k, target))
  }

  /** The least demanding kernel: one thread, no shared memory. */
  const ONE_THREAD: Kernel := Kernel(1, 1, 1, 0)

  lemma OneThreadDemandsLeast(d: Device, k: Kernel, r: nat)
    requires Divisible(d, k) && FitsWord(d, k, r)
    ensures Divisible(d, ONE_THREAD) && FitsWord(d, ONE_THREAD, r)
  {
    var one := ONE_THREAD;
    UnitBlock(one);
    CeilMonotone(1, k.Threads(), d.threadsPerWarp);
    MulMonotone(WarpsPerBlock(d, one), WarpsPerBlock(d, k), d.threadsPerWarp);
    RoundUpMonotone(WarpsPerBlock(d, one), WarpsPerBlock(d, k), d.warpAllocGranularity);
    MulMonotone(AllocWarps(d, one), AllocWarps(d, k), AllocRegsPerWarp(d, r));
    RoundUpMonotone(0, k.sharedMemoryPerBlock, d.sharedMemoryAllocGranularity);
  }

  /**
   For 64-bit warp sizes and granularities. A step of zero matters only if some
   block fits 64 bits. A step beyond an `int` is narrowed, but all candidates are in
   one class then, and it only must not narrow to zero. A step with a remainder
   skips no class if the first value it would skip is no candidate: because it is
   no `int`, or because its candidate does not fit 64 bits.
   */
  predicate ExactStep(warp: nat, granularity: nat)
    requires warp > 0 && granularity > 0
  {
    var s, rem := granularity / warp, granularity % warp;
    if s == 0 then RoundUp(warp, granularity) >= TWO_64
    else if s > INT32_MAX then s % TWO_32 != 0
    else
      s == 1 || rem == 0 ||
      var k := CeilOfRatio(warp, rem);
      Mul(k, s) + 2 > INT32_MAX || Mul(k + 1, granularity) >= TWO_64
  }

  lemma FittingAllocation(d: Device, k: Kernel, r: nat)
    requires Divisible(d, k) && r > 0 && FitsWord(d, k, r)
    ensures RoundUp(d.threadsPerWarp, d.registerAllocGranularity) <= AllocRegsPerWarp(d, r) < TWO_64
  {
    PositiveWarps(d, k);
    FactorBelow(AllocRegsPerWarp(d, r), AllocWarps(d, k));
    FactorBelow(d.threadsPerWarp, r);
    RoundUpMonotone(d.threadsPerWarp, Mul(d.threadsPerWarp, r), d.registerAllocGranularity);
  }

  /** An exact step skips no class among the candidates that fit 64 bits. */
  lemma ExactStepSkipsNone(d: Device, k: Kernel, top: nat)
    requires Divisible(d, k) && 0 < top <= INT32_MAX && FitsWord(d, k, top)
    requires ExactStep(d.threadsPerWarp, d.registerAllocGranularity)
    ensures NoClassSkipped(d, top) && RegStep(d) > 0
  {
    var t, g, s := d.threadsPerWarp, d.registerAllocGranularity, TrueStep(d);
    FittingAllocation(d, k, top);
    if s <= INT32_MAX {
      RegStepIsTrueStep(d);
      if s > 1 && g % t > 0 {
        SkippedIsBeyond(d, top);
      }
    } else {
      NarrowedToZero(s);
    }
  }

  lemma NarrowedToZero(s: int)
    ensures ToInt32(s) % TWO_64 == 0 <==> s % TWO_32 == 0
  {
  }

  lemma SkippedIsBeyond(d: Device, top: nat)
    requires PositiveGranularities(d) && ExactStep(d.threadsPerWarp, d.registerAllocGranularity)
    requires 1 < TrueStep(d) <= INT32_MAX && d.registerAllocGranularity % d.threadsPerWarp > 0
    requires top <= INT32_MAX && AllocRegsPerWarp(d, top) < TWO_64
    ensures NoClassSkipped(d, top)
  {
    var t, g, s := d.threadsPerWarp, d.registerAllocGranularity, TrueStep(d);
    var k := SkippedValue(t, s, g % t, g);
    if top >= Mul(k, s) + 2 {
      MulMonotone(Mul(k, s) + 2, top, t);
      AllocWithin(d, top, k);
      CeilAdjoint(Mul(t, top), g, k);
      MulMonotone(k + 1, CeilOfRatio(Mul(t, top), g), g);
    }
  }

  /** So the code's answer is exact up to its first candidate. */
  lemma FittingSearchExact(d: Device, k: Kernel, target: nat)
    requires Divisible(d, k) && FitsWord(d, k, FirstCandidate(d))
    requires ExactStep(d.threadsPerWarp, d.registerAllocGranularity)
    ensures IsLargest(d, k, target, FirstCandidate(d), WrappedSearch(d, k, target))
  {
    SearchWithoutWrap(d, k, target);
    if FirstCandidate(d) > 0 {
      ExactStepSkipsNone(d, k, FirstCandidate(d));
      SearchExact(d, k, target);
    }
  }

  /**
   For a device with an exact step: the code's answer is exact for every kernel that
   fits 64 bits and every target if and only if the limit fits an `int` (or no
   kernel fits at all).
   */
  lemma ExactIffLimitIsInt(d: Device)
    requires PositiveGranularities(d) && ExactStep(d.threadsPerWarp, d.registerAllocGranularity)
    ensures
      (forall k, target :: Divisible(d, k) && FitsWord(d, k, FirstCandidate(d)) ==> ExactAnswer(d, k, target)) <==>
      d.registersPerThreadLimit <= INT32_MAX ||
      !(Divisible(d, ONE_THREAD) && FitsWord(d, ONE_THREAD, FirstCandidate(d)))
  {
    FirstCandidateBound(d);
    UnitBlock(ONE_THREAD);
    if d.registersPerThreadLimit <= INT32_MAX {
      forall k, target | Divisible(d, k) && FitsWord(d, k, FirstCandidate(d)) ensures ExactAnswer(d, k, target) {
        FittingSearchExact(d, k, target);
      }
    } else if FitsWord(d, ONE_THREAD, FirstCandidate(d)) {
      FittingSearchExact(d, ONE_THREAD, 0);
      assert Meets(d, ONE_THREAD, 0, d.registersPerThreadLimit);
      assert !ExactAnswer(d, ONE_THREAD, 0);
    } else {
      forall k | Divisible(d, k) ensures !FitsWord(d, k, FirstCandidate(d)) {
        if FitsWord(d, k, FirstCandidate(d)) {
          OneThreadDemandsLeast(d, k, FirstCandidate(d));
        }
      }
    }
  }

  /** Registers that one step of registers per thread costs the target number of blocks. */
  function StepCost(d: Device, k: Kernel, target: nat): (cost: nat)
    requires Divisible(d, k) && target > 0
    ensures cost > 0
  {
    PositiveWarps(d, k);
    MulPositive(AllocWarps(d, k), d.registerAllocGranularity);
    MulPositive(target, Mul(AllocWarps(d, k), d.registerAllocGranularity));
    Mul(target, Mul(AllocWarps(d, k), d.registerAllocGranularity))
  }

  /** Registers per thread that the register file affords the target number of blocks. */
  function Affordable(d: Device, k: Kernel, target: nat): nat
    requires Divisible(d, k) && target > 0
  {
    Mul(d.registersPerBlockLimit / StepCost(d, k, target), TrueStep(d))
  }

  /**
   The closed form the code asks for in a comment: when the warp size divides
   the granularity, the search is one division, cut off at the first candidate.
   */
  lemma ClosedForm(d: Device, k: Kernel, target: nat)
    requires Initialized(d) && Divisible(d, k) && target > 0
    requires d.registerAllocGranularity % d.threadsPerWarp == 0 && TrueStep(d) <= INT32_MAX
    ensures RegisterSearch(d, k, target) ==
            Registers(if OtherLimits(d, k) < target then 0 else Min(FirstCandidate(d), Affordable(d, k, target)))
  {
    var bound, some := Affordable(d, k, target), OtherLimits(d, k) >= target;
    GoodStepPositive(d);
    GoodStepSkipsNone(d, FirstCandidate(d));
    FirstCandidateBound(d);
    SearchExact(d, k, target);
    forall r | 0 < r <= FirstCandidate(d)
      ensures Meets(d, k, target, r) <==> some && r <= bound
    {
      MeetsBelowQuotient(d, k, target, r);
    }
    LargestBelowThreshold(d, k, target, FirstCandidate(d), RegisterSearch(d, k, target), some, bound);
  }

  /** The closed form of what the code returns when a block at the first candidate fits 64 bits. */
  lemma ClosedFormOfCode(d: Device, k: Kernel, target: nat)
    requires Initialized(d) && Divisible(d, k) && target > 0 && FitsWord(d, k, FirstCandidate(d))
    requires d.registerAllocGranularity % d.threadsPerWarp == 0 && TrueStep(d) <= INT32_MAX
    ensures WrappedSearch(d, k, target) ==
            Registers(if OtherLimits(d, k) < target then 0 else Min(FirstCandidate(d), Affordable(d, k, target)))
  {
    SearchWithoutWrap(d, k, target);
    ClosedForm(d, k, target);
  }

  lemma LargestBelowThreshold(d: Device, k: Kernel, target: nat, limit: nat, result: Search, some: bool, bound: nat)
    requires Divisible(d, k) && IsLargest(d, k, target, limit, result)
    requires forall r :: 0 < r <= limit ==> (Meets(d, k, target, r) <==> some && r <= bound)
    ensures result == Registers(if some then Min(limit, bound) else 0)
  {
    var best := if some then Min(limit, bound) else 0;
    if best > 0 {
      assert Meets(d, k, target, best);
    }
  }

  lemma MeetsBelowQuotient(d: Device, k: Kernel, target: nat, r: nat)
    requires Initialized(d) && Divisible(d, k) && 0 < r <= d.registersPerThreadLimit && target > 0
    requires d.registerAllocGranularity % d.threadsPerWarp == 0 && TrueStep(d) > 0
    ensures Meets(d, k, target, r) <==> OtherLimits(d, k) >= target && r <= Affordable(d, k, target)
  {
    var cost, c := StepCost(d, k, target), CeilOfRatio(r, TrueStep(d));
    PositiveDemands(d, k, r);
    DivAdjoint(target, d.registersPerBlockLimit, RegsPerBlock(d, k, r));
    AllocationByStep(d, r);
    Rearrange(target, AllocWarps(d, k), c, d.registerAllocGranularity);
    DivAdjoint(c, d.registersPerBlockLimit, cost);
    CeilAdjoint(r, TrueStep(d), d.registersPerBlockLimit / cost);
  }

  lemma Rearrange(t: nat, w: nat, c: nat, g: nat)
    ensures Mul(t, Mul(w, Mul(c, g))) == Mul(c, Mul(t, Mul(w, g)))
  {
    assert w * (c * g) == c * (w * g);
    var wg := w * g;
    assert t * (c * wg) == c * (t * wg);
  }

  // --- when the search is not exact -----------------------------------------

  /** A device and a kernel of one warp that can run one block exactly up to `regs` registers per block. */
  function Probe(warp: nat, granularity: nat, limit: nat, regs: nat): Device {
    Device(limit, warp, 1, granularity, regs, 0, 1, 1, warp)
  }

  /** A device of 64-bit values with the given warp size and granularity, and a limit that fits an `int`. */
  predicate Receivable(d: Device, warp: nat, granularity: nat) {
    && d.threadsPerWarp == warp && d.registerAllocGranularity == granularity
    && d.registersPerThreadLimit <= INT32_MAX
    && d.warpAllocGranularity <= UINT64_MAX && d.registersPerBlockLimit <= UINT64_MAX
    && d.sharedMemoryPerCore <= UINT64_MAX && d.blocksPerCoreLimit <= UINT64_MAX
    && d.sharedMemoryAllocGranularity <= UINT64_MAX && d.threadsPerCoreLimit <= UINT64_MAX
  }

  /** The probes are devices that the code can be given; their one kernel fits 64 bits if a warp's registers do. */
  lemma ProbeFits(warp: nat, granularity: nat, limit: nat, regs: nat)
    requires 0 < warp <= UINT64_MAX && 0 < granularity && 0 < limit <= INT32_MAX && regs <= UINT64_MAX
    requires RoundUp(Mul(warp, limit), granularity) < TWO_64
    ensures var d := Probe(warp, granularity, limit, regs);
            && Receivable(d, warp, granularity) && Divisible(d, ONE_THREAD) && FirstCandidate(d) == limit
            && FitsWord(d, ONE_THREAD, limit)
            && WrappedSearch(d, ONE_THREAD, 1) == RegisterSearch(d, ONE_THREAD, 1)
  {
    var d := Probe(warp, granularity, limit, regs);
    UnitBlock(ONE_THREAD);
    RoundUpOne(warp);
    RoundUpOne(1);
    RoundUpBelow(0, 1);
    FirstCandidateBound(d);
    assert FitsWord(d, ONE_THREAD, limit);
    SearchWithoutWrap(d, ONE_THREAD, 1);
  }

  lemma RoundUpBelow(v: nat, n: nat)
    requires n > 0
    ensures RoundUp(v, n) < v + n
  {
    var c := CeilOfRatio(v, n);
    if c > 0 {
      CeilAdjoint(v, n, c - 1);
      assert Mul(c - 1, n) == Mul(c, n) - n;
    }
  }

  lemma ProbeMeets(warp: nat, granularity: nat, limit: nat, regs: nat, r: nat)
    requires 0 < warp < UINT64_MAX && 0 < granularity < UINT64_MAX
    requires 0 < r <= limit < UINT64_MAX && regs < UINT64_MAX
    ensures var d := Probe(warp, granularity, limit, regs);
            Divisible(d, ONE_THREAD) && (Meets(d, ONE_THREAD, 1, r) <==> AllocRegsPerWarp(d, r) <= regs)
  {
    var d := Probe(warp, granularity, limit, regs);
    assert ONE_THREAD.Threads() == 1;
    CeilAdjoint(1, warp, 1);
    CeilPositive(1, warp);
    assert WarpsPerBlock(d, ONE_THREAD) == 1;
    assert AllocWarps(d, ONE_THREAD) == 1;
    assert SharedPerBlock(d, ONE_THREAD) == 0;
    PositiveDemands(d, ONE_THREAD, r);
    DivAdjoint(1, regs, RegsPerBlock(d, ONE_THREAD, r));
    assert OtherLimits(d, ONE_THREAD) == 1;
  }

  /** With granularity s*t + rem, 0 < rem < t, class k = ceil(t / rem) holds one value past k*s. */
  lemma SkippedValue(t: nat, s: nat, rem: nat, g: nat) returns (k: nat)
    requires s >= 2 && 0 < rem < t && g == s * t + rem
    ensures 0 < k && Mul(k, s) + 1 <= g
    ensures k == CeilOfRatio(t, rem) && Mul(t, Mul(k, s) + 1) <= Mul(k, g) < Mul(t, Mul(k, s) + 2) <= Mul(k + 1, g)
    ensures k < t + 1 && Mul(k, g) <= Mul(t, g)
  {
    k := CeilOfRatio(t, rem);
    CeilClass(t, rem, k);
    ClassBounds(t, s, rem, g, k);
    MulMonotone(k, t, s);
    MulMonotone(k, t, g);
    assert Mul(t, s) == s * t;
  }

  lemma CeilClass(t: nat, rem: nat, k: nat)
    requires 0 < rem < t && k == CeilOfRatio(t, rem)
    ensures 0 < k <= t && t <= Mul(k, rem) < t + rem
  {
    CeilAdjoint(t, rem, k);
    CeilPositive(t, rem);
    CeilAdjoint(t, rem, k - 1);
    assert Mul(k - 1, rem) == Mul(k, rem) - rem;
    CeilAdjoint(t, rem, t);
    MulMonotone(1, rem, t);
    assert Mul(1, t) == t;
  }

  lemma ClassBounds(t: nat, s: nat, rem: nat, g: nat, k: nat)
    requires s > 0 && g == s * t + rem && t <= Mul(k, rem) < t + rem <= 2 * t
    ensures Mul(t, Mul(k, s) + 1) <= Mul(k, g) < Mul(t, Mul(k, s) + 2) <= Mul(k + 1, g)
  {
    var ks := k * s;
    assert k * (s * t) == ks * t;
    assert k * g == k * (s * t) + k * rem;
    assert t * (ks + 1) == ks * t + t && t * (ks + 2) == ks * t + 2 * t;
    assert (k + 1) * g == k * g + g;
    MulMonotone(1, s, t);
  }

  /** Without an exact step there is a device with that warp size and granularity on which the search is wrong. */
  lemma BadStepMisses(warp: nat, granularity: nat) returns (d: Device)
    requires 0 < warp <= UINT64_MAX && 0 < granularity <= UINT64_MAX && !ExactStep(warp, granularity)
    ensures Receivable(d, warp, granularity) && Divisible(d, ONE_THREAD) && FitsWord(d, ONE_THREAD, FirstCandidate(d))
    ensures !ExactAnswer(d, ONE_THREAD, 1)
  {
    if StepNarrowsAway(warp, granularity) {
      StepToZero(warp, granularity);
      d := StuckDevice(warp, granularity);
    } else {
      d := RemainderMisses(warp, granularity);
    }
  }

  predicate StepNarrowsAway(warp: nat, granularity: nat)
    requires warp > 0
  {
    granularity / warp == 0 || granularity / warp > INT32_MAX
  }

  lemma StepToZero(warp: nat, granularity: nat)
    requires 0 < warp && 0 < granularity <= UINT64_MAX && !ExactStep(warp, granularity)
    requires StepNarrowsAway(warp, granularity)
    ensures (granularity / warp) % TWO_32 == 0 && RoundUp(warp, granularity) < TWO_64
  {
    if granularity / warp > 0 {
      OneClass(warp, granularity);
    }
  }

  lemma RemainderMisses(warp: nat, granularity: nat) returns (d: Device)
    requires 0 < warp <= UINT64_MAX && 0 < granularity && !ExactStep(warp, granularity)
    requires !StepNarrowsAway(warp, granularity)
    ensures Receivable(d, warp, granularity) && Divisible(d, ONE_THREAD) && FitsWord(d, ONE_THREAD, FirstCandidate(d))
    ensures !ExactAnswer(d, ONE_THREAD, 1)
  {
    var k := FirstSkipped(warp, granularity);
    d := MissDevice(warp, granularity, granularity / warp, k);
  }

  lemma OneClass(warp: nat, granularity: nat)
    requires 0 < warp && 0 < granularity && granularity / warp > 0
    ensures RoundUp(warp, granularity) == granularity
  {
    FirstClass(warp, granularity, granularity / warp, 1);
    assert Mul(1, granularity) == granularity && Mul(warp, 1) == warp;
  }

  lemma FirstSkipped(warp: nat, granularity: nat) returns (k: nat)
    requires 0 < warp && 0 < granularity && !ExactStep(warp, granularity) && !StepNarrowsAway(warp, granularity)
    ensures var s := granularity / warp;
            && 2 <= s <= INT32_MAX && k > 0
            && Mul(k, s) + 2 <= INT32_MAX && Mul(k + 1, granularity) < TWO_64
            && Mul(warp, Mul(k, s) + 1) <= Mul(k, granularity)
            && Mul(k, granularity) < Mul(warp, Mul(k, s) + 2) <= Mul(k + 1, granularity)
  {
    var s, rem := granularity / warp, granularity % warp;
    assert granularity == s * warp + rem;
    k := SkippedValue(warp, s, rem, granularity);
  }

  /** The step is narrowed to zero and the only candidate fails: the loop divides by zero. */
  lemma StuckDevice(warp: nat, granularity: nat) returns (d: Device)
    requires 0 < warp <= UINT64_MAX && 0 < granularity && RoundUp(warp, granularity) < TWO_64
    requires (granularity / warp) % TWO_32 == 0
    ensures Receivable(d, warp, granularity) && Divisible(d, ONE_THREAD) && FitsWord(d, ONE_THREAD, FirstCandidate(d))
    ensures !ExactAnswer(d, ONE_THREAD, 1)
  {
    d := Probe(warp, granularity, 1, 0);
    assert Mul(warp, 1) == warp;
    ProbeFits(warp, granularity, 1, 0);
    PositiveDemands(d, ONE_THREAD, 1);
    DivAdjoint(1, 0, RegsPerBlock(d, ONE_THREAD, 1));
    assert !Meets(d, ONE_THREAD, 1, 1);
    NarrowedToZero(TrueStep(d));
    assert RegisterSearch(d, ONE_THREAD, 1) == DivideByZero;
  }

  /** The search starts at k*s + 2, fails there, and jumps over k*s + 1. */
  lemma MissDevice(warp: nat, granularity: nat, s: nat, k: nat) returns (d: Device)
    requires 0 < warp <= UINT64_MAX && 0 < granularity && s == granularity / warp && 2 <= s <= INT32_MAX
    requires k > 0 && Mul(k, s) + 2 <= INT32_MAX && Mul(k + 1, granularity) < TWO_64
    requires Mul(warp, Mul(k, s) + 1) <= Mul(k, granularity) < Mul(warp, Mul(k, s) + 2) <= Mul(k + 1, granularity)
    ensures Receivable(d, warp, granularity) && Divisible(d, ONE_THREAD) && FitsWord(d, ONE_THREAD, FirstCandidate(d))
    ensures !ExactAnswer(d, ONE_THREAD, 1)
  {
    var r, regs := Mul(k, s) + 1, Mul(k, granularity);
    d := Probe(warp, granularity, r + 1, regs);
    MissBounds(warp, granularity, s, k);
    ProbeMeets(warp, granularity, r + 1, regs, r);
    ProbeMeets(warp, granularity, r + 1, regs, r + 1);
    AllocWithin(d, r, k);
    AllocWithin(d, r + 1, k);
    AllocWithin(d, r + 1, k + 1);
    assert Meets(d, ONE_THREAD, 1, r) && !Meets(d, ONE_THREAD, 1, r + 1);
    ProbeFits(warp, granularity, r + 1, regs);
    RegStepIsTrueStep(d);
    JumpsOver(d, s, k);
  }

  lemma JumpsOver(d: Device, s: nat, k: nat)
    requires Divisible(d, ONE_THREAD) && s >= 2 && RegStep(d) == s && FirstCandidate(d) == Mul(k, s) + 2
    requires !Meets(d, ONE_THREAD, 1, Mul(k, s) + 2)
    ensures var result := RegisterSearch(d, ONE_THREAD, 1); result.Registers? && result.r <= Mul(k, s)
  {
    NextCandidate(k, s);
    SearchFromBelow(d, ONE_THREAD, 1, s, Mul(k, s));
  }

  lemma MissBounds(warp: nat, granularity: nat, s: nat, k: nat)
    requires 0 < warp && s == granularity / warp && s >= 2 && k > 0 && Mul(k + 1, granularity) < TWO_64
    ensures warp < UINT64_MAX && granularity < UINT64_MAX && Mul(k, granularity) < UINT64_MAX
  {
    DivAdjoint(2, granularity, warp);
    assert Mul(k + 1, granularity) == Mul(k, granularity) + granularity;
    MulMonotone(1, k, granularity);
  }

  lemma AllocWithin(d: Device, r: nat, k: nat)
    requires d.registerAllocGranularity > 0
    ensures var regs := Mul(k, d.registerAllocGranularity);
            AllocRegsPerWarp(d, r) <= regs <==> Mul(d.threadsPerWarp, r) <= regs
  {
    var g, c := d.registerAllocGranularity, CeilOfRatio(Mul(d.threadsPerWarp, r), d.registerAllocGranularity);
    CeilAdjoint(Mul(d.threadsPerWarp, r), g, k);
    if c <= k {
      MulMonotone(c, k, g);
    } else {
      MulMonotone(k + 1, c, g);
      assert Mul(k + 1, g) == Mul(k, g) + g;
    }
  }

  lemma NextCandidate(k: nat, s: nat)
    requires s >= 2
    ensures RoundDown(Mul(k, s) + 1, s) == Mul(k, s)
  {
    var v := Mul(k, s) + 1;
    DivAdjoint(k, v, s);
    DivAdjoint(k + 1, v, s);
    assert Mul(k + 1, s) == Mul(k, s) + s;
  }

  lemma {:induction false} SearchFromBelow(d: Device, k: Kernel, target: nat, step: nat, r: nat)
    requires Divisible(d, k) && step > 0
    ensures var result := SearchFrom(d, k, target, step, r); result.Registers? && result.r <= r
    decreases r
  {
    if r > 0 && !Meets(d, k, target, r) {
      RoundDownBounds(r - 1, step);
      SearchFromBelow(d, k, target, step, RoundDown(r - 1, step));
    }
  }

  /**
   What the code returns is right for every device of 64-bit values with the given
   warp size and granularity, every kernel that fits 64 bits, and every target.
   */
  ghost predicate AlwaysExact(warp: nat, granularity: nat) {
    forall d, k, target ::
      Receivable(d, warp, granularity) && Divisible(d, k) && FitsWord(d, k, FirstCandidate(d)) ==>
        ExactAnswer(d, k, target)
  }

  /** For every 64-bit warp size and granularity: that is so exactly when the step is exact. */
  lemma AlwaysExactIffExactStep(warp: nat, granularity: nat)
    requires 0 < warp <= UINT64_MAX && 0 < granularity <= UINT64_MAX
    ensures AlwaysExact(warp, granularity) <==> ExactStep(warp, granularity)
  {
    if ExactStep(warp, granularity) {
      forall d, k, target | Receivable(d, warp, granularity) && Divisible(d, k) && FitsWord(d, k, FirstCandidate(d))
        ensures ExactAnswer(d, k, target)
      {
        FirstCandidateBound(d);
        FittingSearchExact(d, k, target);
      }
    } else {
      var d := BadStepMisses(warp, granularity);
    }
  }

  /** Below 2^31 that means: the warp size divides the granularity, or the step between candidates is one. */
  lemma AlwaysExactIffGoodStep(warp: nat, granularity: nat)
    requires 0 < warp < INT32_MAX && 0 < granularity < INT32_MAX
    ensures AlwaysExact(warp, granularity) <==> GoodStep(warp, granularity)
  {
    AlwaysExactIffExactStep(warp, granularity);
    SmallExactStep(warp, granularity);
  }

  lemma SmallExactStep(warp: nat, granularity: nat)
    requires 0 < warp < INT32_MAX && 0 < granularity < INT32_MAX
    ensures ExactStep(warp, granularity) <==> GoodStep(warp, granularity)
  {
    var s, rem := granularity / warp, granularity % warp;
    assert granularity == s * warp + rem;
    DivAdjoint(s, granularity, warp);
    MulMonotone(1, warp, s);
    if s == 0 {
      RoundUpBelow(warp, granularity);
    } else if s > 1 && rem > 0 {
      var k := SkippedValue(warp, s, rem, granularity);
      MulMonotone(k + 1, INT32_MAX, granularity);
      MulMonotone(granularity, INT32_MAX, INT32_MAX);
    }
  }
}
