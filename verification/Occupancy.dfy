/** Occupancy of a GPU core and the search for the largest register count that reaches a target
    (tensorflow/stream_executor/device_description.cc). Machine words wrap at 2^64. */
module Occupancy {
  import opened Arith

  const TWO_32: nat := 0x1_0000_0000
  const TWO_31: nat := 0x8000_0000

  type uint64 = x: int | 0 <= x < TWO_64

  const UNINITIALIZED: uint64 := TWO_64 - 1

  function Wrap(n: int): uint64 {
    n % TWO_64
  }

  /** Conversion of a 64-bit word to a 32-bit signed int. */
  function ToInt(n: uint64): int {
    var low := n % TWO_32;
    if low < TWO_31 then low else low - TWO_32
  }

  datatype ThreadDim = ThreadDim(x: uint64, y: uint64, z: uint64)

  datatype Device = Device(
    registersPerThreadLimit: uint64,
    threadsPerWarp: uint64,
    warpAllocGranularity: uint64,
    registerAllocGranularity: uint64,
    sharedMemoryAllocGranularity: uint64,
    registersPerBlockLimit: uint64,
    sharedMemoryPerCore: uint64,
    blocksPerCoreLimit: uint64,
    threadsPerCoreLimit: uint64,
    threadsPerBlockLimit: uint64)

  // ---- Rounding ----

  /** The quotient rounded up, as the source computes it: divide, multiply back, adjust. */
  function CeilOfRatio(n: nat, d: nat): nat
    requires 0 < d
  {
    var q := n / d;
    if q * d < n then q + 1 else q
  }

  function RoundUp(value: nat, n: nat): nat
    requires 0 < n
  {
    CeilOfRatio(value, n) * n
  }

  function RoundDown(value: nat, n: nat): nat
    requires 0 < n
  {
    value / n * n
  }

  /** k multiples of d reach n exactly from the rounded-up quotient on. */
  lemma CeilIsLeast(n: nat, d: nat, k: nat)
    requires 0 < d
    ensures n <= k * d <==> CeilOfRatio(n, d) <= k
  {
    Division(n, d);
    var c := CeilOfRatio(n, d);
    if c <= k {
      MulMonotone(c, k, d);
    } else {
      MulMonotone(k, c - 1, d);
    }
  }

  lemma RoundUpMonotone(a: nat, b: nat, n: nat)
    requires a <= b && 0 < n
    ensures RoundUp(a, n) <= RoundUp(b, n)
  {
    CeilIsLeast(b, n, CeilOfRatio(b, n));
    CeilIsLeast(a, n, CeilOfRatio(b, n));
    MulMonotone(CeilOfRatio(a, n), CeilOfRatio(b, n), n);
  }

  lemma RoundUpReaches(v: nat, n: nat)
    requires 0 < n
    ensures v <= RoundUp(v, n)
  {
    CeilIsLeast(v, n, CeilOfRatio(v, n));
  }

  /** Rounding t * r up to a multiple of k * t is t times rounding r up to a multiple of k. */
  lemma RoundUpScales(r: nat, k: nat, t: nat)
    requires 0 < k && 0 < t
    ensures 0 < k * t && RoundUp(t * r, k * t) == t * RoundUp(r, k)
  {
    MulPositive(k, t);
    var c := CeilOfRatio(r, k);
    ScaledMultiple(r, k, t, c);
    CeilIsLeast(r, k, c);
    if 0 < c {
      ScaledMultiple(r, k, t, c - 1);
      CeilIsLeast(r, k, c - 1);
    }
    CeilIs(t * r, k * t, c);
    Regroup(c, k, t);
  }

  lemma CeilIs(n: nat, d: nat, c: nat)
    requires 0 < d && n <= c * d && (0 < c ==> (c - 1) * d < n)
    ensures CeilOfRatio(n, d) == c
  {
    CeilIsLeast(n, d, c);
    if 0 < c {
      CeilIsLeast(n, d, c - 1);
    }
  }

  lemma Regroup(c: int, k: int, t: int)
    ensures c * (k * t) == t * (c * k)
  {
  }

  lemma ScaledMultiple(r: nat, k: nat, t: nat, c: nat)
    requires 0 < k && 0 < t
    ensures t * r <= c * (k * t) <==> r <= c * k
  {
    assert c * (k * t) == (c * k) * t && t * r == r * t;
    if r <= c * k {
      MulMonotone(r, c * k, t);
    } else {
      MulMonotone(c * k + 1, r, t);
    }
  }

  // ---- What a block takes from a core ----

  function Warps(d: Device, dims: ThreadDim): nat
    requires 0 < d.threadsPerWarp
  {
    CeilOfRatio(dims.x * dims.y * dims.z, d.threadsPerWarp)
  }

  function WarpRegisters(d: Device, regs: nat): nat
    requires 0 < d.registerAllocGranularity
  {
    RoundUp(d.threadsPerWarp * regs, d.registerAllocGranularity)
  }

  function BlockRegisters(d: Device, regs: nat, dims: ThreadDim): nat
    requires Granular(d)
  {
    RoundUp(Warps(d, dims), d.warpAllocGranularity) * WarpRegisters(d, regs)
  }

  function BlockThreads(d: Device, dims: ThreadDim): nat
    requires 0 < d.threadsPerWarp
  {
    Warps(d, dims) * d.threadsPerWarp
  }

  predicate Granular(d: Device) {
    && 0 < d.threadsPerWarp
    && 0 < d.warpAllocGranularity
    && 0 < d.registerAllocGranularity
    && 0 < d.sharedMemoryAllocGranularity
  }

  /** The fields that CalculateOccupancy insists on have been set. */
  predicate Initialized(d: Device) {
    UNINITIALIZED !in [d.registersPerThreadLimit, d.threadsPerWarp, d.warpAllocGranularity,
                       d.registerAllocGranularity, d.registersPerBlockLimit, d.sharedMemoryPerCore,
                       d.blocksPerCoreLimit]
  }

  /** Nothing on the way to the limits overflows 64 bits. */
  predicate Fits(d: Device, regs: uint64, smem: uint64, dims: ThreadDim)
    requires Granular(d)
  {
    && dims.x * dims.y < TWO_64 && dims.x * dims.y * dims.z < TWO_64
    && RoundUp(Warps(d, dims), d.warpAllocGranularity) < TWO_64
    && d.threadsPerWarp * regs < TWO_64
    && WarpRegisters(d, regs) < TWO_64
    && BlockRegisters(d, regs, dims) < TWO_64
    && RoundUp(smem, d.sharedMemoryAllocGranularity) < TWO_64
    && BlockThreads(d, dims) < TWO_64
  }

  /** A launch that uses at least one thread and one register. */
  predicate Launches(regs: nat, dims: ThreadDim) {
    0 < regs && 0 < dims.x && 0 < dims.y && 0 < dims.z
  }

  /** n blocks fit on a core under all four limits at once. */
  predicate Feasible(d: Device, regs: nat, smem: nat, dims: ThreadDim, n: nat)
    requires Granular(d)
  {
    && n <= d.blocksPerCoreLimit
    && n * BlockRegisters(d, regs, dims) <= d.registersPerBlockLimit
    && n * RoundUp(smem, d.sharedMemoryAllocGranularity) <= d.sharedMemoryPerCore
    && n * BlockThreads(d, dims) <= d.threadsPerCoreLimit
  }

  // ---- CalculateOccupancy ----

  function Min(a: nat, b: nat): nat {
    if a < b then a else b
  }

  /** The divisors of CalculateOccupancy, with the machine's wrap-around. */
  function RegsPerBlock(d: Device, regs: uint64, dims: ThreadDim): uint64
    requires Granular(d)
  {
    var warps := CeilOfRatio(Wrap(Wrap(dims.x * dims.y) * dims.z), d.threadsPerWarp);
    var allocWarps := Wrap(RoundUp(warps, d.warpAllocGranularity));
    var allocRegs := Wrap(RoundUp(Wrap(d.threadsPerWarp * regs), d.registerAllocGranularity));
    Wrap(allocWarps * allocRegs)
  }

  function ThreadsPerBlock(d: Device, dims: ThreadDim): uint64
    requires 0 < d.threadsPerWarp
  {
    Wrap(CeilOfRatio(Wrap(Wrap(dims.x * dims.y) * dims.z), d.threadsPerWarp) * d.threadsPerWarp)
  }

  predicate GivesUp(d: Device, regs: uint64) {
    !Initialized(d) || d.registersPerThreadLimit < regs
  }

  function CalculateOccupancy(d: Device, regs: uint64, smem: uint64, dims: ThreadDim): nat
    requires !GivesUp(d, regs) ==> Granular(d) && RegsPerBlock(d, regs, dims) != 0 && ThreadsPerBlock(d, dims) != 0
  {
    if GivesUp(d, regs) then 0
    else
      LeastLimit(d.blocksPerCoreLimit,
                 d.registersPerBlockLimit, RegsPerBlock(d, regs, dims),
                 d.sharedMemoryPerCore, Wrap(RoundUp(smem, d.sharedMemoryAllocGranularity)),
                 d.threadsPerCoreLimit, ThreadsPerBlock(d, dims))
  }

  /** The smallest of the four limits; a block without shared memory is not limited by it. */
  function LeastLimit(blocks: nat, regCap: nat, regs: nat, smemCap: nat, smem: nat, threadCap: nat, threads: nat): nat
    requires 0 < regs && 0 < threads
  {
    var smemLimit := if 0 < smem then smemCap / smem else blocks;
    Min(Min(blocks, regCap / regs), Min(smemLimit, threadCap / threads))
  }

  lemma LeastLimitIsGreatest(blocks: nat, regCap: nat, regs: nat, smemCap: nat, smem: nat, threadCap: nat, threads: nat, n: nat)
    requires 0 < regs && 0 < threads
    ensures n <= LeastLimit(blocks, regCap, regs, smemCap, smem, threadCap, threads)
       <==> n <= blocks && n * regs <= regCap && n * smem <= smemCap && n * threads <= threadCap
  {
    QuotientIsGreatest(regCap, regs, n);
    QuotientIsGreatest(threadCap, threads, n);
    if 0 < smem {
      QuotientIsGreatest(smemCap, smem, n);
    }
  }

  lemma RoundUpPositive(v: nat, n: nat)
    requires 0 < v && 0 < n
    ensures 0 < RoundUp(v, n) && 0 < CeilOfRatio(v, n)
  {
    CeilIsLeast(v, n, 0);
    MulPositive(CeilOfRatio(v, n), n);
  }

  lemma WrapExact(n: nat)
    requires n < TWO_64
    ensures Wrap(n) == n
  {
  }

  /** Without overflow the machine's warp and thread counts are the exact ones, and they are not zero. */
  lemma ThreadsExact(d: Device, dims: ThreadDim)
    requires 0 < d.threadsPerWarp && 0 < dims.x && 0 < dims.y && 0 < dims.z
    requires dims.x * dims.y < TWO_64 && dims.x * dims.y * dims.z < TWO_64 && BlockThreads(d, dims) < TWO_64
    ensures CeilOfRatio(Wrap(Wrap(dims.x * dims.y) * dims.z), d.threadsPerWarp) == Warps(d, dims) != 0
    ensures ThreadsPerBlock(d, dims) == BlockThreads(d, dims) != 0
  {
    MulPositive(dims.x, dims.y);
    MulPositive(dims.x * dims.y, dims.z);
    WrapExact(dims.x * dims.y);
    WrapExact(dims.x * dims.y * dims.z);
    RoundUpPositive(dims.x * dims.y * dims.z, d.threadsPerWarp);
    MulPositive(Warps(d, dims), d.threadsPerWarp);
    WrapExact(BlockThreads(d, dims));
  }

  /** Without overflow the machine's divisors are the exact ones, and they are not zero. */
  lemma DivisorsExact(d: Device, regs: uint64, smem: uint64, dims: ThreadDim)
    requires Granular(d) && Fits(d, regs, smem, dims) && Launches(regs, dims)
    ensures RegsPerBlock(d, regs, dims) == BlockRegisters(d, regs, dims) != 0
    ensures ThreadsPerBlock(d, dims) == BlockThreads(d, dims) != 0
  {
    ThreadsExact(d, dims);
    var allocWarps := RoundUp(Warps(d, dims), d.warpAllocGranularity);
    RoundUpPositive(Warps(d, dims), d.warpAllocGranularity);
    MulPositive(d.threadsPerWarp, regs);
    RoundUpPositive(d.threadsPerWarp * regs, d.registerAllocGranularity);
    WrapExact(allocWarps);
    WrapExact(d.threadsPerWarp * regs);
    WrapExact(WarpRegisters(d, regs));
    WrapExact(BlockRegisters(d, regs, dims));
    MulPositive(allocWarps, WarpRegisters(d, regs));
  }

  /** The occupancy is exactly the greatest number of blocks that fit under every limit. */
  lemma OccupancyIsGreatestFeasible(d: Device, regs: uint64, smem: uint64, dims: ThreadDim, n: nat)
    requires !GivesUp(d, regs) && Granular(d) && Fits(d, regs, smem, dims) && Launches(regs, dims)
    ensures RegsPerBlock(d, regs, dims) != 0 && ThreadsPerBlock(d, dims) != 0
    ensures Feasible(d, regs, smem, dims, n) <==> n <= CalculateOccupancy(d, regs, smem, dims)
  {
    DivisorsExact(d, regs, smem, dims);
    var allocSmem := RoundUp(smem, d.sharedMemoryAllocGranularity);
    WrapExact(allocSmem);
    LeastLimitIsGreatest(d.blocksPerCoreLimit, d.registersPerBlockLimit, BlockRegisters(d, regs, dims),
                         d.sharedMemoryPerCore, allocSmem, d.threadsPerCoreLimit, BlockThreads(d, dims), n);
  }

  // ---- The same, spelled out ----

  /** k units of the given size hold the demand. */
  predicate Covers(k: nat, size: nat, demand: nat) {
    demand <= k * size
  }

  ghost predicate IsLeastCount(w: nat, size: nat, demand: nat) {
    Covers(w, size, demand) && forall k: nat :: Covers(k, size, demand) ==> w <= k
  }

  /** m is a multiple of g that reaches v. */
  predicate ReachesBy(m: nat, g: nat, v: nat)
    requires 0 < g
  {
    m % g == 0 && v <= m
  }

  ghost predicate IsLeastMultiple(m: nat, g: nat, v: nat)
    requires 0 < g
  {
    ReachesBy(m, g, v) && forall k: nat :: ReachesBy(k, g, v) ==> m <= k
  }

  lemma LeastCountIs(w: nat, size: nat, demand: nat)
    requires 0 < size && IsLeastCount(w, size, demand)
    ensures w == CeilOfRatio(demand, size)
  {
    CeilIsLeast(demand, size, w);
    CeilIsLeast(demand, size, CeilOfRatio(demand, size));
    assert Covers(CeilOfRatio(demand, size), size, demand);
  }

  lemma LeastMultipleIs(m: nat, g: nat, v: nat)
    requires 0 < g && IsLeastMultiple(m, g, v)
    ensures m == RoundUp(v, g)
  {
    RoundUpReaches(v, g);
    DivisionUnique(RoundUp(v, g), g, CeilOfRatio(v, g), 0);
    assert ReachesBy(RoundUp(v, g), g, v);
    Division(m, g);
    CeilIsLeast(v, g, m / g);
    MulMonotone(CeilOfRatio(v, g), m / g, g);
  }

  /** The occupancy in the terms of the device: with w warps a block, rounded up to aw, with ar registers for a
      warp and sm bytes of shared memory for a block, each rounded up to its granularity, n blocks fit
      exactly if blocks, registers, shared memory and threads suffice. */
  lemma OccupancySpelled(d: Device, regs: uint64, smem: uint64, dims: ThreadDim, w: nat, aw: nat, ar: nat, sm: nat, n: nat)
    requires UNINITIALIZED != d.registersPerThreadLimit && UNINITIALIZED != d.threadsPerWarp && UNINITIALIZED != d.warpAllocGranularity
    requires UNINITIALIZED != d.registerAllocGranularity && UNINITIALIZED != d.registersPerBlockLimit
    requires UNINITIALIZED != d.sharedMemoryPerCore && UNINITIALIZED != d.blocksPerCoreLimit
    requires 0 < d.threadsPerWarp && 0 < d.warpAllocGranularity && 0 < d.registerAllocGranularity && 0 < d.sharedMemoryAllocGranularity
    requires 0 < regs <= d.registersPerThreadLimit && 0 < dims.x && 0 < dims.y && 0 < dims.z
    requires IsLeastCount(w, d.threadsPerWarp, dims.x * dims.y * dims.z)
    requires IsLeastMultiple(aw, d.warpAllocGranularity, w)
    requires IsLeastMultiple(ar, d.registerAllocGranularity, d.threadsPerWarp * regs)
    requires IsLeastMultiple(sm, d.sharedMemoryAllocGranularity, smem)
    requires dims.x * dims.y * dims.z < TWO_64 && w * d.threadsPerWarp < TWO_64 && d.threadsPerWarp * regs < TWO_64
    requires aw < TWO_64 && ar < TWO_64 && aw * ar < TWO_64 && sm < TWO_64
    ensures Granular(d) && RegsPerBlock(d, regs, dims) != 0 && ThreadsPerBlock(d, dims) != 0
    ensures n <= CalculateOccupancy(d, regs, smem, dims) <==>
      && n <= d.blocksPerCoreLimit && n * (aw * ar) <= d.registersPerBlockLimit
      && n * sm <= d.sharedMemoryPerCore && n * (w * d.threadsPerWarp) <= d.threadsPerCoreLimit
  {
    LeastCountIs(w, d.threadsPerWarp, dims.x * dims.y * dims.z);
    LeastMultipleIs(aw, d.warpAllocGranularity, w);
    LeastMultipleIs(ar, d.registerAllocGranularity, d.threadsPerWarp * regs);
    LeastMultipleIs(sm, d.sharedMemoryAllocGranularity, smem);
    MulPositive(dims.x, dims.y);
    MulMonotone(1, dims.z, dims.x * dims.y);
    OccupancyIsGreatestFeasible(d, regs, smem, dims, n);
  }

  const CORE := Device(63, 32, 2, 64, 128, 32768, 49152, 8, 1536, 1024)
  const BLOCK := ThreadDim(96, 1, 1)

  /** 96 threads are three warps, allocated as four, of 1280 registers each. */
  lemma SixBlocksDemand()
    ensures Granular(CORE) && Warps(CORE, BLOCK) == 3 && RoundUp(3, 2) == 4 && RoundUp(0, 128) == 0
    ensures WarpRegisters(CORE, 40) == 1280 && BlockRegisters(CORE, 40, BLOCK) == 5120 && BlockThreads(CORE, BLOCK) == 96
  {
    CeilIs(96, 32, 3);
    CeilIs(3, 2, 2);
    CeilIs(1280, 64, 20);
    CeilIs(0, 128, 0);
  }

  /** So six blocks fit 32768 registers. */
  lemma SixBlocks()
    ensures !GivesUp(CORE, 40) && Granular(CORE) && RegsPerBlock(CORE, 40, BLOCK) != 0 && ThreadsPerBlock(CORE, BLOCK) != 0
    ensures CalculateOccupancy(CORE, 40, 0, BLOCK) == 6
  {
    SixBlocksDemand();
    OccupancyIsGreatestFeasible(CORE, 40, 0, BLOCK, 6);
    OccupancyIsGreatestFeasible(CORE, 40, 0, BLOCK, 7);
  }

  /** Without the values it needs, or above the device's limit, no block fits. */
  lemma NoBlocks(d: Device, regs: uint64, smem: uint64, dims: ThreadDim)
    requires !GivesUp(d, regs) ==> Granular(d) && RegsPerBlock(d, regs, dims) != 0 && ThreadsPerBlock(d, dims) != 0
    ensures d.registersPerThreadLimit < regs ==> CalculateOccupancy(d, regs, smem, dims) == 0
    ensures UNINITIALIZED == d.registersPerThreadLimit || UNINITIALIZED == d.threadsPerWarp || UNINITIALIZED == d.warpAllocGranularity
         || UNINITIALIZED == d.registerAllocGranularity || UNINITIALIZED == d.registersPerBlockLimit
         || UNINITIALIZED == d.sharedMemoryPerCore || UNINITIALIZED == d.blocksPerCoreLimit
         ==> CalculateOccupancy(d, regs, smem, dims) == 0
  {
  }

  lemma BlockRegistersMonotone(d: Device, r1: nat, r2: nat, dims: ThreadDim)
    requires Granular(d) && r1 <= r2
    ensures WarpRegisters(d, r1) <= WarpRegisters(d, r2)
    ensures BlockRegisters(d, r1, dims) <= BlockRegisters(d, r2, dims)
  {
    MulMonotone(r1, r2, d.threadsPerWarp);
    RoundUpMonotone(d.threadsPerWarp * r1, d.threadsPerWarp * r2, d.registerAllocGranularity);
    MulMonotone(WarpRegisters(d, r1), WarpRegisters(d, r2), RoundUp(Warps(d, dims), d.warpAllocGranularity));
  }

  /** What does not overflow for a larger demand does not overflow for a smaller one. */
  lemma FitsMonotone(d: Device, r1: uint64, r2: uint64, s1: uint64, s2: uint64, dims: ThreadDim)
    requires Granular(d) && Fits(d, r2, s2, dims) && r1 <= r2 && s1 <= s2
    ensures Fits(d, r1, s1, dims)
  {
    BlockRegistersMonotone(d, r1, r2, dims);
    MulMonotone(r1, r2, d.threadsPerWarp);
    RoundUpMonotone(s1, s2, d.sharedMemoryAllocGranularity);
  }

  /** Asking for more registers or more shared memory never raises the occupancy. */
  lemma OccupancyNeverIncreases(d: Device, r1: uint64, r2: uint64, s1: uint64, s2: uint64, dims: ThreadDim)
    requires Granular(d) && Fits(d, r2, s2, dims) && Launches(r1, dims) && r1 <= r2 && s1 <= s2
    ensures RegsPerBlock(d, r1, dims) != 0 && RegsPerBlock(d, r2, dims) != 0 && ThreadsPerBlock(d, dims) != 0
    ensures CalculateOccupancy(d, r2, s2, dims) <= CalculateOccupancy(d, r1, s1, dims)
  {
    FitsMonotone(d, r1, r2, s1, s2, dims);
    DivisorsExact(d, r1, s1, dims);
    DivisorsExact(d, r2, s2, dims);
    if !GivesUp(d, r2) {
      var n := CalculateOccupancy(d, r2, s2, dims);
      OccupancyIsGreatestFeasible(d, r2, s2, dims, n);
      BlockRegistersMonotone(d, r1, r2, dims);
      RoundUpMonotone(s1, s2, d.sharedMemoryAllocGranularity);
      MulMonotone(BlockRegisters(d, r1, dims), BlockRegisters(d, r2, dims), n);
      MulMonotone(RoundUp(s1, d.sharedMemoryAllocGranularity), RoundUp(s2, d.sharedMemoryAllocGranularity), n);
      OccupancyIsGreatestFeasible(d, r1, s1, dims, n);
    }
  }

  // ---- The register search ----

  /** The quotient as an int, and again as a 64-bit word, which a negative int makes huge. */
  function Step(d: Device): uint64
    requires 0 < d.threadsPerWarp
  {
    Wrap(ToInt(d.registerAllocGranularity / d.threadsPerWarp))
  }

  /** The register counts at which the search looks: the limit, and every multiple of the step below it. */
  predicate Visited(d: Device, r: int)
    requires 0 < d.threadsPerWarp
  {
    && 0 < r <= ToInt(d.registersPerThreadLimit)
    && (r == ToInt(d.registersPerThreadLimit) || (Step(d) != 0 && r % Step(d) == 0))
  }

  /** The occupancy can be calculated at every register count that the search may look at. */
  predicate Searchable(d: Device, dims: ThreadDim) {
    && Granular(d)
    && (forall r :: 0 < r <= ToInt(d.registersPerThreadLimit) ==> RegsPerBlock(d, r, dims) != 0)
    && ThreadsPerBlock(d, dims) != 0
  }

  predicate Meets(d: Device, r: int, smem: uint64, dims: ThreadDim, target: uint64)
    requires Searchable(d, dims) && 0 < r <= ToInt(d.registersPerThreadLimit)
  {
    target <= CalculateOccupancy(d, r, smem, dims)
  }

  /** limit is the greatest visited register count that meets the target, or 0 if there is none. */
  ghost predicate Found(d: Device, smem: uint64, dims: ThreadDim, target: uint64, limit: uint64)
    requires Searchable(d, dims)
  {
    && (limit != 0 ==> Visited(d, limit) && Meets(d, limit, smem, dims, target))
    && (forall r :: limit < r && Visited(d, r) ==> !Meets(d, r, smem, dims, target))
  }

  /** limit is the greatest of all register counts up to the device's limit that meets the target, or 0. */
  ghost predicate Maximal(d: Device, smem: uint64, dims: ThreadDim, target: uint64, limit: uint64)
    requires Searchable(d, dims)
  {
    && (limit != 0 ==> limit <= ToInt(d.registersPerThreadLimit) && Meets(d, limit, smem, dims, target))
    && (forall r :: limit < r <= ToInt(d.registersPerThreadLimit) ==> !Meets(d, r, smem, dims, target))
  }

  datatype SearchResult = Limit(registers: uint64) | DividesByZero

  /** The step is zero, and the search has to take one. */
  predicate MustStepByZero(d: Device, smem: uint64, dims: ThreadDim, target: uint64)
    requires Searchable(d, dims)
  {
    Step(d) == 0 && 0 < ToInt(d.registersPerThreadLimit) && !Meets(d, ToInt(d.registersPerThreadLimit), smem, dims, target)
  }

  ghost predicate IsResult(d: Device, smem: uint64, dims: ThreadDim, target: uint64, result: SearchResult)
    requires Searchable(d, dims)
  {
    match result
    case Limit(limit) => !MustStepByZero(d, smem, dims, target) && Found(d, smem, dims, target, limit)
    case DividesByZero => MustStepByZero(d, smem, dims, target)
  }

  /** The linear search, from the limit down through the multiples of the step. */
  method RegisterLimitForTargetOccupancy(d: Device, smem: uint64, dims: ThreadDim, target: uint64) returns (result: SearchResult)
    requires Searchable(d, dims)
    ensures IsResult(d, smem, dims, target, result)
  {
    var step := Step(d);
    var r := ToInt(d.registersPerThreadLimit);
    while 0 < r
      invariant r <= ToInt(d.registersPerThreadLimit) && (0 < r ==> Visited(d, r))
      invariant r < ToInt(d.registersPerThreadLimit) ==> step != 0
      invariant forall q :: r < q && Visited(d, q) ==> !Meets(d, q, smem, dims, target)
      decreases r
    {
      var occupancy := CalculateOccupancy(d, r, smem, dims);
      if target <= occupancy {
        return Limit(r);
      }
      if step == 0 {
        return DividesByZero;
      }
      NextVisited(r, step);
      r := RoundDown(r - 1, step);
    }
    return Limit(0);
  }

  /** The result is determined. */
  lemma OneResult(d: Device, smem: uint64, dims: ThreadDim, target: uint64, a: SearchResult, b: SearchResult)
    requires Searchable(d, dims) && IsResult(d, smem, dims, target, a) && IsResult(d, smem, dims, target, b)
    ensures a == b
  {
  }

  /** Between r and the next multiple of the step below it there is no other multiple. */
  lemma NextVisited(r: int, step: int)
    requires 0 < r && 0 < step
    ensures 0 <= RoundDown(r - 1, step) < r && RoundDown(r - 1, step) % step == 0
    ensures forall q :: RoundDown(r - 1, step) < q < r ==> q % step != 0
  {
    var m := (r - 1) / step;
    Division(r - 1, step);
    DivisionUnique(m * step, step, m, 0);
    forall q | m * step < q < r
      ensures q % step != 0
    {
      DivisionUnique(q, step, m, q - m * step);
    }
  }

  /** A device whose register counts and step fit an int and whose occupancies do not overflow. */
  predicate SmallSearch(d: Device, smem: uint64, dims: ThreadDim) {
    && Granular(d)
    && d.registersPerThreadLimit < TWO_31
    && d.registerAllocGranularity / d.threadsPerWarp < TWO_31
    && 0 < dims.x && 0 < dims.y && 0 < dims.z
    && Fits(d, d.registersPerThreadLimit, smem, dims)
  }

  lemma RegistersNotZero(d: Device, smem: uint64, dims: ThreadDim, r: uint64)
    requires SmallSearch(d, smem, dims) && 0 < r <= d.registersPerThreadLimit
    ensures Fits(d, r, smem, dims) && RegsPerBlock(d, r, dims) != 0
  {
    FitsMonotone(d, r, d.registersPerThreadLimit, smem, smem, dims);
    DivisorsExact(d, r, smem, dims);
  }

  lemma SmallSearchIsSearchable(d: Device, smem: uint64, dims: ThreadDim)
    requires SmallSearch(d, smem, dims)
    ensures Searchable(d, dims) && ToInt(d.registersPerThreadLimit) == d.registersPerThreadLimit
    ensures Step(d) == d.registerAllocGranularity / d.threadsPerWarp
  {
    forall r: uint64 | 0 < r <= d.registersPerThreadLimit
      ensures RegsPerBlock(d, r, dims) != 0
    {
      RegistersNotZero(d, smem, dims, r);
    }
    ThreadsExact(d, dims);
    IntExact(d.registersPerThreadLimit);
    StepExact(d);
  }

  lemma StepExact(d: Device)
    requires 0 < d.threadsPerWarp && d.registerAllocGranularity / d.threadsPerWarp < TWO_31
    ensures Step(d) == d.registerAllocGranularity / d.threadsPerWarp
  {
    Division(d.registerAllocGranularity, d.threadsPerWarp);
    IntExact(d.registerAllocGranularity / d.threadsPerWarp);
    WrapExact(d.registerAllocGranularity / d.threadsPerWarp);
  }

  /** Of a wider word an int keeps the low 32 bits, and reads them as signed. */
  lemma IntOfWord(n: uint64)
    ensures 0 - TWO_31 <= ToInt(n) < TWO_31 && (n - ToInt(n)) % TWO_32 == 0
  {
  }

  lemma IntExact(n: uint64)
    requires n < TWO_31
    ensures ToInt(n) == n
  {
  }

  // ---- When the search is exact ----

  /** The register count the search visits for q: the next multiple of the step, or the limit if that is smaller. */
  function GridPoint(d: Device, q: uint64): int
    requires 0 < d.threadsPerWarp && 0 < d.registerAllocGranularity / d.threadsPerWarp
  {
    var up := RoundUp(q, d.registerAllocGranularity / d.threadsPerWarp);
    if up <= d.registersPerThreadLimit then up else d.registersPerThreadLimit
  }

  lemma GridPointVisited(d: Device, smem: uint64, dims: ThreadDim, q: uint64)
    requires SmallSearch(d, smem, dims) && 0 < q <= d.registersPerThreadLimit
    requires 0 < d.registerAllocGranularity / d.threadsPerWarp
    ensures Searchable(d, dims) && q <= GridPoint(d, q) && Visited(d, GridPoint(d, q))
  {
    SmallSearchIsSearchable(d, smem, dims);
    var k := Step(d);
    RoundUpReaches(q, k);
    DivisionUnique(RoundUp(q, k), k, CeilOfRatio(q, k), 0);
  }

  lemma RoundUpBetween(q: nat, v: nat, k: nat)
    requires 0 < k && q <= v <= RoundUp(q, k)
    ensures RoundUp(v, k) == RoundUp(q, k)
  {
    RoundUpMonotone(q, v, k);
    CeilIsLeast(v, k, CeilOfRatio(q, k));
    MulMonotone(CeilOfRatio(v, k), CeilOfRatio(q, k), k);
  }

  /** Between grid points the registers allocated to a warp, and so the occupancy, stay the same. */
  lemma OccupancyConstantBetweenGridPoints(d: Device, smem: uint64, dims: ThreadDim, q: uint64)
    requires SmallSearch(d, smem, dims) && 0 < q <= d.registersPerThreadLimit
    requires d.registerAllocGranularity % d.threadsPerWarp == 0
    ensures 0 < d.registerAllocGranularity / d.threadsPerWarp
    ensures Searchable(d, dims) && q <= GridPoint(d, q) && Visited(d, GridPoint(d, q))
    ensures WarpRegisters(d, GridPoint(d, q)) == WarpRegisters(d, q)
    ensures CalculateOccupancy(d, GridPoint(d, q), smem, dims) == CalculateOccupancy(d, q, smem, dims)
  {
    var k, t := d.registerAllocGranularity / d.threadsPerWarp, d.threadsPerWarp;
    Division(d.registerAllocGranularity, t);
    var v := GridPoint(d, q);
    GridPointVisited(d, smem, dims, q);
    RoundUpBetween(q, v, k);
    RoundUpScales(q, k, t);
    RoundUpScales(v, k, t);
    SameWarpRegisters(d, smem, dims, q, v);
  }

  lemma SameWarpRegisters(d: Device, smem: uint64, dims: ThreadDim, q: uint64, v: uint64)
    requires SmallSearch(d, smem, dims) && 0 < q <= d.registersPerThreadLimit && 0 < v <= d.registersPerThreadLimit
    requires WarpRegisters(d, q) == WarpRegisters(d, v)
    ensures RegsPerBlock(d, q, dims) == RegsPerBlock(d, v, dims) != 0 && ThreadsPerBlock(d, dims) != 0
    ensures CalculateOccupancy(d, q, smem, dims) == CalculateOccupancy(d, v, smem, dims)
  {
    RegistersNotZero(d, smem, dims, q);
    RegistersNotZero(d, smem, dims, v);
    DivisorsExact(d, q, smem, dims);
    DivisorsExact(d, v, smem, dims);
  }

  /** When the granularity is a multiple of the warp size, or the step is one, the search ends with the
      maximum over all register counts. */
  lemma SearchFindsMaximum(d: Device, smem: uint64, dims: ThreadDim, target: uint64, result: SearchResult)
    requires SmallSearch(d, smem, dims) && Searchable(d, dims) && IsResult(d, smem, dims, target, result)
    requires d.registerAllocGranularity % d.threadsPerWarp == 0 || d.registerAllocGranularity / d.threadsPerWarp == 1
    ensures result.Limit? && Maximal(d, smem, dims, target, result.registers)
  {
    SmallSearchIsSearchable(d, smem, dims);
    Division(d.registerAllocGranularity, d.threadsPerWarp);
    assert Step(d) != 0 && result.Limit?;
    forall q: int | result.registers < q <= d.registersPerThreadLimit
      ensures !Meets(d, q, smem, dims, target)
    {
      if d.registerAllocGranularity % d.threadsPerWarp == 0 {
        OccupancyConstantBetweenGridPoints(d, smem, dims, q);
        assert !Meets(d, GridPoint(d, q), smem, dims, target);
      } else {
        assert Visited(d, q);
      }
    }
  }

  // ---- When it is not ----

  /** A device on which register granularity g and warp size t make a two-step search skip the maximum:
      room for exactly the registers that j * s + 1 registers a thread need, and not for one grid step more. */
  function SkippingDevice(t: uint64, g: uint64, j: nat, s: nat): Device
    requires j * g < TWO_64 && (j + 1) * s < TWO_64
  {
    Device((j + 1) * s, t, 1, g, 1, j * g, 0, 1, t, t)
  }

  const ONE_THREAD := ThreadDim(1, 1, 1)

  /** The smallest number of granules whose remainders add up to a whole warp. */
  lemma GranulesPerExtraRegister(t: nat, g: nat) returns (j: nat)
    requires 0 < t <= g && g % t != 0
    ensures 1 <= j <= t
    ensures (j - 1) * (g % t) < t <= j * (g % t)
  {
    var m := g % t;
    Division(g, t);
    j := CeilOfRatio(t, m);
    CeilIsLeast(t, m, j);
    CeilIsLeast(t, m, j - 1);
    CeilIsLeast(t, m, t);
    MulMonotone(1, m, t);
  }

  /** j * s + 1 registers need j granules a warp; (j + 1) * s need more. */
  lemma GranulesNeeded(t: nat, g: nat, j: nat)
    requires 0 < t <= g && g % t != 0 && 2 <= g / t
    requires 1 <= j && (j - 1) * (g % t) < t <= j * (g % t)
    ensures RoundUp(t * (j * (g / t) + 1), g) == j * g
    ensures j * g < RoundUp(t * ((j + 1) * (g / t)), g)
  {
    var s, m := g / t, g % t;
    Division(g, t);
    Spread(j, s, t, m);
    Spread(j - 1, s, t, m);
    Spread(1, s, t, m);
    MulMonotone(2, s, t);
    CeilIs(t * (j * s + 1), g, j);
    RoundUpReaches(t * ((j + 1) * s), g);
  }

  /** The products of j granules of s * t + m, multiplied out. */
  lemma Spread(j: int, s: int, t: int, m: int)
    ensures j * (s * t + m) == j * s * t + j * m
    ensures t * (j * s + 1) == j * s * t + t
    ensures t * ((j + 1) * s) == j * s * t + s * t
    ensures (j - 1) * s * t == j * s * t - s * t && (j - 1) * m == j * m - m
  {
  }

  /** The numbers of the skipping device stay far below the machine's bounds. */
  lemma SkippingDeviceNumbers(t: uint64, g: uint64, j: nat)
    requires 0 < t <= g && (t + 2) * g < TWO_31 && 1 <= j <= t
    ensures j * g <= (j + 1) * g < TWO_31
    ensures 0 < (j + 1) * (g / t) <= t * ((j + 1) * (g / t))
    ensures t * ((j + 1) * (g / t)) <= RoundUp(t * ((j + 1) * (g / t)), g) <= (j + 1) * g
  {
    var s, m := g / t, g % t;
    Division(g, t);
    MulMonotone(j, j + 1, g);
    MulMonotone(j + 1, t + 2, g);
    QuotientIsGreatest(g, t, 1);
    MulPositive(j + 1, s);
    MulMonotone(1, t, (j + 1) * s);
    ScaledGranules(t, g, j);
    var x := t * ((j + 1) * s);
    RoundUpReaches(x, g);
    CeilIsLeast(x, g, j + 1);
    MulMonotone(CeilOfRatio(x, g), j + 1, g);
  }

  lemma ScaledGranules(t: nat, g: nat, j: nat)
    requires 0 < t
    ensures t * ((j + 1) * (g / t)) <= (j + 1) * g
  {
    Division(g, t);
    Spread(j, g / t, t, g % t);
    MulMonotone(0, g % t, j + 1);
    Spread(j + 1, g / t, t, g % t);
    assert (j + 1) * g == (j + 1) * (g / t * t + g % t);
  }

  lemma SkippingDeviceIsSmall(t: uint64, g: uint64, j: nat)
    requires 0 < t <= g && (t + 2) * g < TWO_31 && 1 <= j <= t
    ensures j * g < TWO_31 && 0 < (j + 1) * (g / t) < TWO_31
    ensures SmallSearch(SkippingDevice(t, g, j, g / t), 0, ONE_THREAD)
    ensures Warps(SkippingDevice(t, g, j, g / t), ONE_THREAD) == 1
  {
    SkippingDeviceNumbers(t, g, j);
    MulMonotone(1, t + 2, g);
    QuotientIsGreatest(g, t, 1);
    Division(g, t);
    MulMonotone(1, t, g / t);
    CeilIs(1, t, 1);
    CeilIs(1, 1, 1);
    CeilIs(0, 1, 0);
  }

  /** On the skipping device r registers a thread fit exactly when a warp's registers fit the limit. */
  lemma SkippingDeviceMeets(t: uint64, g: uint64, j: nat, r: uint64)
    requires 0 < t <= g && (t + 2) * g < TWO_31 && 1 <= j <= t
    requires j * g < TWO_31 && 0 < r <= (j + 1) * (g / t) < TWO_31
    ensures var d := SkippingDevice(t, g, j, g / t);
      Searchable(d, ONE_THREAD) && r <= ToInt(d.registersPerThreadLimit) &&
      (Meets(d, r, 0, ONE_THREAD, 1) <==> RoundUp(t * r, g) <= j * g)
  {
    var d := SkippingDevice(t, g, j, g / t);
    SkippingDeviceIsSmall(t, g, j);
    SmallSearchIsSearchable(d, 0, ONE_THREAD);
    RegistersNotZero(d, 0, ONE_THREAD, r);
    OccupancyIsGreatestFeasible(d, r, 0, ONE_THREAD, 1);
    CeilIs(1, 1, 1);
    CeilIs(0, 1, 0);
  }

  /** When the step is at least two and the granularity is no multiple of the warp size, the
      skipping device makes the search return 0 although j * s + 1 registers meet the target. */
  lemma SearchSkipsMaximum(t: uint64, g: uint64) returns (d: Device)
    requires 0 < t <= g && (t + 2) * g < TWO_31
    requires g % t != 0 && 2 <= g / t
    ensures d.threadsPerWarp == t && d.registerAllocGranularity == g
    ensures SmallSearch(d, 0, ONE_THREAD) && Searchable(d, ONE_THREAD) && Step(d) != 0
    ensures exists r :: Skipped(d, r)
  {
    var s := g / t;
    var j := GranulesPerExtraRegister(t, g);
    SkippingDeviceIsSmall(t, g, j);
    d := SkippingDevice(t, g, j, s);
    SmallSearchIsSearchable(d, 0, ONE_THREAD);
    GranulesNeeded(t, g, j);
    var q := j * s + 1;
    assert q < (j + 1) * s by {
      assert (j + 1) * s == j * s + s;
    }
    MulPositive(j, s);
    SkippingDeviceMeets(t, g, j, q);
    forall r | q <= r && Visited(d, r)
      ensures !Meets(d, r, 0, ONE_THREAD, 1)
    {
      NoMultipleBetween(j, s, r);
      SkippingDeviceMeets(t, g, j, r);
    }
    assert Skipped(d, q);
  }

  /** r meets target 1, and nothing the search visits from r on does. */
  ghost predicate Skipped(d: Device, r: int)
    requires Searchable(d, ONE_THREAD)
  {
    && 0 < r <= ToInt(d.registersPerThreadLimit) && Meets(d, r, 0, ONE_THREAD, 1)
    && forall v :: r <= v && Visited(d, v) ==> !Meets(d, v, 0, ONE_THREAD, 1)
  }

  lemma NoMultipleBetween(j: nat, s: nat, r: nat)
    requires 2 <= s && j * s + 1 <= r <= (j + 1) * s && (r == (j + 1) * s || r % s == 0)
    ensures r == (j + 1) * s
  {
    if r < (j + 1) * s {
      assert (j + 1) * s == j * s + s;
      DivisionUnique(r, s, j, r - j * s);
    }
  }

  /** On every device with warp size t and register granularity g, whatever the search is for, it ends with
      the true maximum. */
  ghost predicate ExactFor(t: uint64, g: uint64) {
    forall d: Device, smem: uint64, dims: ThreadDim, target: uint64, result: SearchResult ::
      d.threadsPerWarp == t && d.registerAllocGranularity == g && SmallSearch(d, smem, dims)
      && Searchable(d, dims) && IsResult(d, smem, dims, target, result)
      ==> result.Limit? && Maximal(d, smem, dims, target, result.registers)
  }

  /** The search finds the true maximum on every device exactly when the register granularity is a
      multiple of the warp size or the step between visited register counts is one. */
  lemma SearchExactIff(t: uint64, g: uint64)
    requires 0 < t && 0 < g && (t + 2) * g < TWO_31
    ensures ExactFor(t, g) <==> g % t == 0 || g / t == 1
  {
    if g % t == 0 || g / t == 1 {
      ExactThen(t, g);
    } else {
      InexactOtherwise(t, g);
    }
  }

  lemma ExactThen(t: uint64, g: uint64)
    requires 0 < t && (g % t == 0 || g / t == 1)
    ensures ExactFor(t, g)
  {
    forall d: Device, smem: uint64, dims: ThreadDim, target: uint64, result: SearchResult |
      d.threadsPerWarp == t && d.registerAllocGranularity == g && SmallSearch(d, smem, dims)
      && Searchable(d, dims) && IsResult(d, smem, dims, target, result)
      ensures result.Limit? && Maximal(d, smem, dims, target, result.registers)
    {
      SearchFindsMaximum(d, smem, dims, target, result);
    }
  }

  lemma InexactOtherwise(t: uint64, g: uint64)
    requires 0 < t && 0 < g && (t + 2) * g < TWO_31 && g % t != 0 && g / t != 1
    ensures !ExactFor(t, g)
  {
    if g < t {
      MulMonotone(1, g, t + 2);
      var d := SearchDividesByZero(t, g);
    } else {
      QuotientIsGreatest(g, t, 1);
      var d := SearchSkipsMaximum(t, g);
      var r :| Skipped(d, r);
      ResultBelow(d, r);
    }
  }

  /** When the granularity is smaller than the warp, the step is zero, and on a device without registers
      for a block the search for one block divides by it. */
  lemma SearchDividesByZero(t: uint64, g: uint64) returns (d: Device)
    requires 0 < g < t < TWO_31
    ensures d.threadsPerWarp == t && d.registerAllocGranularity == g
    ensures SmallSearch(d, 0, ONE_THREAD) && Searchable(d, ONE_THREAD) && IsResult(d, 0, ONE_THREAD, 1, DividesByZero)
  {
    d := Device(1, t, 1, g, 1, 0, 0, 1, t, t);
    DivisionUnique(g, t, 0, g);
    CeilIs(1, t, 1);
    CeilIs(1, 1, 1);
    CeilIs(0, 1, 0);
    RoundUpBelow(t, g);
    SmallSearchIsSearchable(d, 0, ONE_THREAD);
    RegistersNotZero(d, 0, ONE_THREAD, 1);
    assert CalculateOccupancy(d, 1, 0, ONE_THREAD) == 0 by {
      OccupancyIsGreatestFeasible(d, 1, 0, ONE_THREAD, 1);
      DivisorsExact(d, 1, 0, ONE_THREAD);
    }
  }

  lemma RoundUpBelow(v: nat, n: nat)
    requires 0 < n
    ensures RoundUp(v, n) < v + n
  {
    var c := CeilOfRatio(v, n);
    if 0 < c {
      CeilIsLeast(v, n, c - 1);
      assert (c - 1) * n == c * n - n;
    }
  }

  /** Whatever the search finds on a device with a skipped register count, it is not the maximum. */
  lemma ResultBelow(d: Device, r: int)
    requires SmallSearch(d, 0, ONE_THREAD) && Searchable(d, ONE_THREAD) && Skipped(d, r) && Step(d) != 0
    ensures exists result :: IsResult(d, 0, ONE_THREAD, 1, result) && !(result.Limit? && Maximal(d, 0, ONE_THREAD, 1, result.registers))
  {
    var limit := GreatestVisited(d, r);
    assert IsResult(d, 0, ONE_THREAD, 1, Limit(limit)) && !Maximal(d, 0, ONE_THREAD, 1, limit);
  }

  lemma {:induction false} GreatestVisited(d: Device, r: int) returns (limit: uint64)
    requires SmallSearch(d, 0, ONE_THREAD) && Searchable(d, ONE_THREAD)
    requires 0 < r <= ToInt(d.registersPerThreadLimit)
    requires forall v :: r <= v && Visited(d, v) ==> !Meets(d, v, 0, ONE_THREAD, 1)
    ensures limit < r && Found(d, 0, ONE_THREAD, 1, limit)
    decreases r
  {
    if r == 1 {
      limit := 0;
    } else if Visited(d, r - 1) && Meets(d, r - 1, 0, ONE_THREAD, 1) {
      limit := r - 1;
    } else {
      limit := GreatestVisited(d, r - 1);
    }
  }
}
