/** Temporary device memory of a stream: address-keyed records with generations, device allocation
    outside the lock, release inside it (tensorflow/stream_executor/temporary_memory_manager.cc and
    temporary_device_memory.cc). */
module TempMemory {
  import opened Wrappers
  import opened Arith

  type Addr = nat
  type Tid = nat

  /** The generation counter is kept unwrapped; the source stores and compares its low 64 bits. */
  function Word(generation: nat): nat {
    generation % TWO_64
  }

  /** The record of one address. alloc is a history variable: the number of the device allocation it stands for. */
  datatype Record = Record(generation: nat, finalized: bool, alloc: nat)

  type Records = map<Addr, Record>

  /** What the owner of a temporary holds. */
  datatype Handle = Handle(addr: Addr, generation: nat)

  // ---- The operations of the manager on its records ----

  function MarkFinalized(records: Records, addr: Addr): Records {
    if addr in records then records[addr := records[addr].(finalized := true)] else records
  }

  predicate IsFinalized(records: Records, h: Handle) {
    h.addr in records && Word(records[h.addr].generation) == Word(h.generation) ==> records[h.addr].finalized
  }

  predicate HasAllocated(records: Records, h: Handle) {
    h.addr in records && Word(records[h.addr].generation) == Word(h.generation)
  }

  function FinalizedAddrs(records: Records): set<Addr> {
    set a | a in records && records[a].finalized
  }

  function Unfinalized(records: Records): Records {
    records - FinalizedAddrs(records)
  }

  // ---- The device ----

  datatype Owner = Temp(alloc: nat) | Foreign

  /** The allocations that are live, by address; how often each temporary was freed; whether an
      address was freed that was not a live temporary. */
  datatype Device = Device(live: map<Addr, Owner>, next: nat, freed: multiset<nat>, faulted: bool) {

    function Allocate(a: Addr): Device {
      this.(live := live[a := Temp(next)], next := next + 1)
    }

    function Deallocate(a: Addr): Device {
      if a in live && live[a].Temp? then
        this.(live := live - {a}, freed := freed + multiset{live[a].alloc})
      else this.(faulted := true)
    }
  }

  // ---- Threads interleaved ----

  /** Where a thread stands: between operations; holding device memory for which it has not yet
      inserted a record; or holding the lock in a sweep that began with the records `start` and
      still has to release `todo`, possibly between freeing an address and erasing its record. */
  datatype Pc =
    | Idle
    | Pending(addr: Addr, alloc: nat)
    | Sweeping(start: Records, todo: set<Addr>)
    | Erasing(start: Records, todo: set<Addr>, addr: Addr)

  datatype State = State(
    records: Records,
    first: nat,
    generation: nat,
    lock: Option<Tid>,
    threads: map<Tid, Pc>,
    device: Device,
    issued: set<Handle>)
  {
    predicate At(t: Tid) {
      t in threads
    }

    /** The address that has been freed but whose record is not erased yet. */
    function Gap(): Option<Addr> {
      if lock.Some? && lock.value in threads && threads[lock.value].Erasing?
      then Some(threads[lock.value].addr) else None
    }
  }

  datatype Step =
    | DeviceAllocate(t: Tid, addr: Addr)
    | Insert(t: Tid)
    | Mark(h: Handle)
    | Lock(t: Tid)
    | Free(t: Tid, addr: Addr)
    | Erase(t: Tid)
    | Unlock(t: Tid)
    | ForeignAllocate(addr: Addr)
    | ForeignFree(addr: Addr)

  predicate Enabled(s: State, step: Step) {
    match step
    case DeviceAllocate(t, a) => s.At(t) && s.threads[t].Idle? && a != 0 && a !in s.device.live
    case Insert(t) => s.At(t) && s.threads[t].Pending? && s.lock.None?
    case Mark(h) => h in s.issued && s.lock.None?
    case Lock(t) => s.At(t) && s.threads[t].Idle? && s.lock.None?
    case Free(t, a) => s.At(t) && s.threads[t].Sweeping? && a in s.threads[t].todo
    case Erase(t) => s.At(t) && s.threads[t].Erasing?
    case Unlock(t) => s.At(t) && s.threads[t].Sweeping? && s.threads[t].todo == {}
    case ForeignAllocate(a) => a != 0 && a !in s.device.live
    case ForeignFree(a) => a in s.device.live && s.device.live[a].Foreign?
  }

  function Apply(s: State, step: Step): State
    requires Enabled(s, step)
  {
    match step
    case DeviceAllocate(t, a) =>
      s.(device := s.device.Allocate(a), threads := s.threads[t := Pending(a, s.device.next)])
    case Insert(t) =>
      var a, g := s.threads[t].addr, s.generation + 1;
      s.(generation := g, records := s.records[a := Record(g, false, s.threads[t].alloc)],
         issued := s.issued + {Handle(a, g)}, threads := s.threads[t := Idle])
    case Mark(h) => s.(records := MarkFinalized(s.records, h.addr))
    case Lock(t) =>
      s.(lock := Some(t), threads := s.threads[t := Sweeping(s.records, FinalizedAddrs(s.records))])
    case Free(t, a) =>
      s.(device := s.device.Deallocate(a), threads := s.threads[t := Erasing(s.threads[t].start, s.threads[t].todo, a)])
    case Erase(t) =>
      var a := s.threads[t].addr;
      s.(records := s.records - {a}, threads := s.threads[t := Sweeping(s.threads[t].start, s.threads[t].todo - {a})])
    case Unlock(t) => s.(lock := None, threads := s.threads[t := Idle])
    case ForeignAllocate(a) => s.(device := s.device.(live := s.device.live[a := Foreign]))
    case ForeignFree(a) => s.(device := s.device.(live := s.device.live - {a}))
  }

  predicate Initial(s: State) {
    && s.records == map[] && s.lock.None? && s.issued == {} && s.generation == s.first
    && (forall t :: t in s.threads ==> s.threads[t].Idle?)
    && (forall a :: a in s.device.live ==> s.device.live[a].Foreign?)
    && s.device.next == 0 && s.device.freed == multiset{} && !s.device.faulted
  }

  predicate IsRun(s: State, steps: seq<Step>)
    decreases |steps|
  {
    steps == [] || (Enabled(s, steps[0]) && IsRun(Apply(s, steps[0]), steps[1..]))
  }

  function Final(s: State, steps: seq<Step>): State
    requires IsRun(s, steps)
    decreases |steps|
  {
    if steps == [] then s else Final(Apply(s, steps[0]), steps[1..])
  }

  // ---- The invariant ----

  /** The lock is held by exactly the thread that sweeps. */
  ghost predicate LockInv(s: State) {
    && (s.lock.Some? ==> s.lock.value in s.threads)
    && forall t :: t in s.threads ==> (s.threads[t].Sweeping? || s.threads[t].Erasing? <==> s.lock == Some(t))
  }

  /** Every record stands for a live device allocation, except the one being erased. */
  ghost predicate RecordsLive(s: State) {
    forall a :: a in s.records ==>
      s.Gap() == Some(a) || (a in s.device.live && s.device.live[a] == Temp(s.records[a].alloc))
  }

  /** The allocation of the record being erased has been freed. */
  ghost predicate GapFreed(s: State) {
    s.Gap().Some? ==> s.Gap().value in s.records && s.records[s.Gap().value].alloc in s.device.freed
  }

  ghost predicate PendingLive(s: State) {
    forall t :: t in s.threads && s.threads[t].Pending? ==>
      s.threads[t].addr in s.device.live && s.device.live[s.threads[t].addr] == Temp(s.threads[t].alloc)
  }

  /** No two records or pending threads stand for the same device allocation. */
  ghost predicate AllocsDistinct(s: State) {
    && (forall t, u :: t in s.threads && u in s.threads && t != u && s.threads[t].Pending? && s.threads[u].Pending?
          ==> s.threads[t].alloc != s.threads[u].alloc)
    && (forall t, a :: t in s.threads && a in s.records && s.threads[t].Pending?
          ==> s.threads[t].alloc != s.records[a].alloc)
    && (forall a, b :: a in s.records && b in s.records && a != b ==> s.records[a].alloc != s.records[b].alloc)
    && (forall t :: t in s.threads && s.threads[t].Pending? ==> s.threads[t].alloc < s.device.next)
    && (forall a :: a in s.records ==> s.records[a].alloc < s.device.next)
  }

  /** Live temporaries are numbered apart, have not been freed, and nothing was freed twice or by mistake. */
  ghost predicate DeviceInv(d: Device) {
    && !d.faulted
    && (forall a :: a in d.live && d.live[a].Temp? ==> d.live[a].alloc < d.next && d.live[a].alloc !in d.freed)
    && (forall a, b :: a in d.live && b in d.live && a != b && d.live[a].Temp? ==> d.live[a] != d.live[b])
    && (forall n :: n in d.freed ==> d.freed[n] == 1 && n < d.next)
  }

  /** The records during a sweep: those it began with, less the finalized ones already released. */
  ghost predicate SweepInv(s: State) {
    forall t :: t in s.threads && (s.threads[t].Sweeping? || s.threads[t].Erasing?) ==>
      && s.threads[t].todo <= FinalizedAddrs(s.threads[t].start)
      && s.records == s.threads[t].start - (FinalizedAddrs(s.threads[t].start) - s.threads[t].todo)
      && (s.threads[t].Erasing? ==> s.threads[t].addr in s.threads[t].todo)
  }

  /** Every record belongs to an issued handle, and no two handles share a generation. */
  ghost predicate GenerationInv(s: State) {
    && s.first <= s.generation
    && (forall h :: h in s.issued ==> s.first < h.generation <= s.generation)
    && (forall h, k :: h in s.issued && k in s.issued && h.generation == k.generation ==> h == k)
    && (forall a :: a in s.records ==> Handle(a, s.records[a].generation) in s.issued)
  }

  /** Every temporary ever allocated is live or has been freed, and a live one is pending or recorded. */
  ghost predicate Accounted(s: State) {
    && (forall n :: 0 <= n < s.device.next ==> n in s.device.freed || Held(s, n))
    && (forall a :: a in s.device.live && s.device.live[a].Temp? ==> Owned(s, a, s.device.live[a].alloc))
  }

  ghost predicate Held(s: State, n: nat) {
    exists a :: a in s.device.live && s.device.live[a] == Temp(n)
  }

  ghost predicate Owned(s: State, a: Addr, n: nat) {
    || (a in s.records && s.records[a].alloc == n)
    || exists t :: t in s.threads && s.threads[t] == Pending(a, n)
  }

  ghost predicate Inv(s: State) {
    && LockInv(s) && RecordsLive(s) && GapFreed(s) && PendingLive(s) && AllocsDistinct(s)
    && DeviceInv(s.device) && SweepInv(s) && GenerationInv(s) && Accounted(s)
  }

  lemma InitialInv(s: State)
    requires Initial(s)
    ensures Inv(s)
  {
  }

  /** At the moment a record is inserted its address has none: the source's DCHECK holds, although
      the address was allocated without the lock and may be one that a sweep has just freed. */
  lemma InsertFindsNoRecord(s: State, t: Tid)
    requires Inv(s) && Enabled(s, Insert(t))
    ensures s.threads[t].addr !in s.records
  {
    var a := s.threads[t].addr;
    assert s.device.live[a] == Temp(s.threads[t].alloc);
  }

  lemma FreeIsOfLiveTemporary(s: State, t: Tid, a: Addr)
    requires Inv(s) && Enabled(s, Free(t, a))
    ensures a in s.records && a in s.device.live && s.device.live[a] == Temp(s.records[a].alloc)
  {
    assert s.lock == Some(t);
    assert s.Gap() == None;
  }

  // ---- Every step keeps the invariant ----

  lemma LockKept(s: State, step: Step)
    requires LockInv(s) && Enabled(s, step)
    ensures LockInv(Apply(s, step))
  {
  }

  lemma RecordsLiveKept(s: State, step: Step)
    requires LockInv(s) && RecordsLive(s) && PendingLive(s) && Enabled(s, step)
    ensures RecordsLive(Apply(s, step))
  {
    match step
    case DeviceAllocate(t, a) => assert Apply(s, step).Gap() == s.Gap();
    case Insert(t) =>
    case Mark(h) =>
    case Lock(t) => assert s.Gap() == None;
    case Free(t, a) => assert s.lock == Some(t) && s.Gap() == None;
    case Erase(t) => assert s.lock == Some(t);
    case Unlock(t) => assert s.lock == Some(t) && s.Gap() == None;
    case ForeignAllocate(a) => assert Apply(s, step).Gap() == s.Gap();
    case ForeignFree(a) => assert Apply(s, step).Gap() == s.Gap();
  }

  lemma PendingLiveKept(s: State, step: Step)
    requires Inv(s) && Enabled(s, step)
    ensures PendingLive(Apply(s, step))
  {
    if step.Free? {
      FreeIsOfLiveTemporary(s, step.t, step.addr);
    }
  }

  lemma AllocsDistinctKept(s: State, step: Step)
    requires AllocsDistinct(s) && Enabled(s, step)
    ensures AllocsDistinct(Apply(s, step))
  {
    if step.DeviceAllocate? {
      AllocsDistinctAllocated(s, step.t, step.addr);
    } else if step.Insert? {
      AllocsDistinctInserted(s, step.t);
    } else {
      NoNewAllocs(s, step);
      AllocsDistinctStays(s, Apply(s, step));
    }
  }

  /** No temporary is new in s', neither with a record nor pending. */
  ghost predicate AddsNoAllocs(s: State, s': State) {
    && s'.device.next == s.device.next
    && (forall a :: a in s'.records ==> a in s.records && s'.records[a].alloc == s.records[a].alloc)
    && (forall t :: t in s'.threads && s'.threads[t].Pending? ==> t in s.threads && s'.threads[t] == s.threads[t])
  }

  lemma NoNewAllocs(s: State, step: Step)
    requires Enabled(s, step) && !step.DeviceAllocate? && !step.Insert?
    ensures AddsNoAllocs(s, Apply(s, step))
  {
  }

  lemma AllocsDistinctStays(s: State, s': State)
    requires AllocsDistinct(s) && AddsNoAllocs(s, s')
    ensures AllocsDistinct(s')
  {
  }

  lemma AllocsDistinctAllocated(s: State, t: Tid, a: Addr)
    requires AllocsDistinct(s) && Enabled(s, DeviceAllocate(t, a))
    ensures AllocsDistinct(Apply(s, DeviceAllocate(t, a)))
  {
  }

  lemma AllocsDistinctInserted(s: State, t: Tid)
    requires AllocsDistinct(s) && Enabled(s, Insert(t))
    ensures AllocsDistinct(Apply(s, Insert(t)))
  {
  }

  lemma DeviceKept(s: State, step: Step)
    requires DeviceInv(s.device) && Enabled(s, step)
    requires step.Free? ==> step.addr in s.device.live && s.device.live[step.addr].Temp?
    ensures DeviceInv(Apply(s, step).device)
  {
  }

  lemma SweepKept(s: State, step: Step)
    requires LockInv(s) && SweepInv(s) && Enabled(s, step)
    ensures SweepInv(Apply(s, step))
  {
  }

  lemma GenerationKept(s: State, step: Step)
    requires GenerationInv(s) && Enabled(s, step)
    ensures GenerationInv(Apply(s, step))
  {
  }

  lemma GapFreedKept(s: State, step: Step)
    requires LockInv(s) && GapFreed(s) && Enabled(s, step)
    requires step.Free? ==> step.addr in s.records && step.addr in s.device.live
    requires step.Free? ==> s.device.live[step.addr] == Temp(s.records[step.addr].alloc)
    ensures GapFreed(Apply(s, step))
  {
    match step
    case DeviceAllocate(t, a) => assert Apply(s, step).Gap() == s.Gap();
    case Insert(t) =>
    case Mark(h) =>
    case Lock(t) =>
    case Free(t, a) => assert s.lock == Some(t);
    case Erase(t) => assert s.lock == Some(t);
    case Unlock(t) => assert s.lock == Some(t);
    case ForeignAllocate(a) => assert Apply(s, step).Gap() == s.Gap();
    case ForeignFree(a) => assert Apply(s, step).Gap() == s.Gap();
  }

  lemma HeldKept(s: State, step: Step, n: nat)
    requires Accounted(s) && Enabled(s, step) && n < Apply(s, step).device.next
    ensures n in Apply(s, step).device.freed || Held(Apply(s, step), n)
  {
    var s' := Apply(s, step);
    if n == s.device.next {
      assert s'.device.live[step.addr] == Temp(n);
    } else if n !in s.device.freed {
      var a :| a in s.device.live && s.device.live[a] == Temp(n);
      if !(step.Free? && step.addr == a) {
        assert a in s'.device.live && s'.device.live[a] == Temp(n);
      }
    }
  }

  lemma OwnedKept(s: State, step: Step, a: Addr)
    requires LockInv(s) && GapFreed(s) && DeviceInv(s.device) && Accounted(s) && Enabled(s, step)
    requires step.Insert? ==> s.threads[step.t].addr !in s.records
    requires var d := Apply(s, step).device; a in d.live && d.live[a].Temp?
    ensures Owned(Apply(s, step), a, Apply(s, step).device.live[a].alloc)
  {
    var s' := Apply(s, step);
    var n := s'.device.live[a].alloc;
    if step.DeviceAllocate? && step.addr == a {
      assert s'.threads[step.t] == Pending(a, n);
    } else {
      assert a in s.device.live && s.device.live[a].alloc == n && Owned(s, a, n);
      if a in s.records && s.records[a].alloc == n {
        if step.Erase? {
          assert s.lock == Some(step.t);
        }
        assert a in s'.records && s'.records[a].alloc == n;
      } else {
        var t :| t in s.threads && s.threads[t] == Pending(a, n);
        if !(step.Insert? && step.t == t) {
          assert s'.threads[t] == Pending(a, n);
        }
      }
    }
  }

  lemma AccountedKept(s: State, step: Step)
    requires Inv(s) && Enabled(s, step)
    ensures Accounted(Apply(s, step))
  {
    var s' := Apply(s, step);
    if step.Insert? {
      InsertFindsNoRecord(s, step.t);
    }
    forall n | 0 <= n < s'.device.next
      ensures n in s'.device.freed || Held(s', n)
    {
      HeldKept(s, step, n);
    }
    forall a | a in s'.device.live && s'.device.live[a].Temp?
      ensures Owned(s', a, s'.device.live[a].alloc)
    {
      OwnedKept(s, step, a);
    }
  }

  lemma InvKept(s: State, step: Step)
    requires Inv(s) && Enabled(s, step)
    ensures Inv(Apply(s, step))
  {
    if step.Free? {
      FreeIsOfLiveTemporary(s, step.t, step.addr);
    }
    LockKept(s, step);
    RecordsLiveKept(s, step);
    GapFreedKept(s, step);
    PendingLiveKept(s, step);
    AllocsDistinctKept(s, step);
    DeviceKept(s, step);
    SweepKept(s, step);
    GenerationKept(s, step);
    AccountedKept(s, step);
  }

  /** Every state of every interleaving satisfies the invariant. */
  lemma {:induction false} InvAlways(s: State, steps: seq<Step>)
    requires Inv(s) && IsRun(s, steps)
    ensures Inv(Final(s, steps))
    decreases |steps|
  {
    if steps != [] {
      InvKept(s, steps[0]);
      InvAlways(Apply(s, steps[0]), steps[1..]);
    }
  }

  // ---- What every interleaving guarantees ----

  /** In every state of every interleaving: an insertion finds no record at its address; outside a
      sweep every record is a live device allocation; no allocation has been freed twice, and
      nothing else has been freed; every allocation ever made is live or freed. */
  lemma InterleavingsAreSafe(s: State, steps: seq<Step>)
    requires Initial(s) && IsRun(s, steps)
    ensures var f := Final(s, steps);
      && !f.device.faulted
      && (forall t :: Enabled(f, Insert(t)) ==> f.threads[t].addr !in f.records)
      && (f.lock.None? ==> forall a :: a in f.records ==>
            a in f.device.live && f.device.live[a] == Temp(f.records[a].alloc))
      && (forall n :: f.device.freed[n] <= 1)
      && (forall n :: 0 <= n < f.device.next ==> (n in f.device.freed <==> !Held(f, n)))
  {
    var f := Final(s, steps);
    InitialInv(s);
    InvAlways(s, steps);
    forall t | Enabled(f, Insert(t))
      ensures f.threads[t].addr !in f.records
    {
      InsertFindsNoRecord(f, t);
    }
  }

  /** A sweep releases exactly the records that were finalized when it took the lock, whatever other
      threads do meanwhile. */
  lemma SweepReleasesExactlyFinalized(s: State, steps: seq<Step>, t: Tid)
    requires Initial(s) && IsRun(s, steps) && Enabled(Final(s, steps), Unlock(t))
    ensures Final(s, steps).records == Unfinalized(Final(s, steps).threads[t].start)
  {
    InitialInv(s);
    InvAlways(s, steps);
    var f := Final(s, steps);
    assert FinalizedAddrs(f.threads[t].start) - f.threads[t].todo == FinalizedAddrs(f.threads[t].start);
  }

  // ---- Handles over whole runs ----

  /** Fewer than 2^64 temporaries have been issued, so no two of them share a generation word. */
  predicate NoWrap(s: State) {
    s.generation - s.first < TWO_64
  }

  lemma WordsDiffer(x: nat, y: nat)
    requires x < y < x + TWO_64
    ensures Word(x) != Word(y)
  {
    var p, q := x / TWO_64, y / TWO_64;
    assert x == TWO_64 * p + Word(x) && y == TWO_64 * q + Word(y);
  }

  lemma {:induction false} GenerationGrows(s: State, steps: seq<Step>)
    requires IsRun(s, steps)
    ensures s.generation <= Final(s, steps).generation && s.first == Final(s, steps).first
    ensures s.issued <= Final(s, steps).issued
    decreases |steps|
  {
    if steps != [] {
      GenerationGrows(Apply(s, steps[0]), steps[1..]);
    }
  }

  lemma StepKeepsVerdict(s: State, step: Step, h: Handle)
    requires GenerationInv(s) && Enabled(s, step) && h in s.issued && NoWrap(Apply(s, step))
    ensures IsFinalized(s.records, h) ==> IsFinalized(Apply(s, step).records, h)
    ensures !HasAllocated(s.records, h) ==> !HasAllocated(Apply(s, step).records, h)
  {
    if step.Insert? {
      WordsDiffer(h.generation, s.generation + 1);
    }
  }

  /** Once an issued handle is finalized it stays finalized, and once it is released it is never
      reported allocated again, even when its address is handed out again. */
  lemma {:induction false} VerdictsAreFinal(s: State, steps: seq<Step>, h: Handle)
    requires Inv(s) && IsRun(s, steps) && h in s.issued && NoWrap(Final(s, steps))
    ensures IsFinalized(s.records, h) ==> IsFinalized(Final(s, steps).records, h)
    ensures !HasAllocated(s.records, h) ==> !HasAllocated(Final(s, steps).records, h)
    decreases |steps|
  {
    if steps != [] {
      var s' := Apply(s, steps[0]);
      GenerationGrows(s', steps[1..]);
      StepKeepsVerdict(s, steps[0], h);
      InvKept(s, steps[0]);
      VerdictsAreFinal(s', steps[1..], h);
    }
  }

  /** h still owns its memory: it has a record, and nobody finalized it. */
  predicate InUse(s: State, h: Handle) {
    HasAllocated(s.records, h) && !IsFinalized(s.records, h)
  }

  predicate Marks(step: Step, addr: Addr) {
    step.Mark? && step.h.addr == addr
  }

  predicate NeverMarked(steps: seq<Step>, addr: Addr) {
    forall i :: 0 <= i < |steps| ==> !Marks(steps[i], addr)
  }

  lemma NeverMarkedSplit(steps: seq<Step>, addr: Addr)
    requires steps != []
    ensures NeverMarked(steps, addr) <==> !Marks(steps[0], addr) && NeverMarked(steps[1..], addr)
  {
    if !Marks(steps[0], addr) && NeverMarked(steps[1..], addr) {
      forall i | 0 <= i < |steps|
        ensures !Marks(steps[i], addr)
      {
        assert 0 < i ==> steps[i] == steps[1..][i - 1];
      }
    }
  }

  lemma StepKeepsInUse(s: State, step: Step, h: Handle)
    requires Inv(s) && Enabled(s, step) && InUse(s, h)
    ensures InUse(Apply(s, step), h) <==> !Marks(step, h.addr)
  {
    if step.Insert? {
      InsertFindsNoRecord(s, step.t);
      InsertKeepsInUse(s, step.t, h);
    } else if step.Erase? {
      EraseKeepsInUse(s, step.t, h);
    } else {
      OthersKeepInUse(s, step, h);
    }
  }

  lemma InsertKeepsInUse(s: State, t: Tid, h: Handle)
    requires Enabled(s, Insert(t)) && s.threads[t].addr !in s.records && InUse(s, h)
    ensures InUse(Apply(s, Insert(t)), h)
  {
  }

  lemma EraseKeepsInUse(s: State, t: Tid, h: Handle)
    requires LockInv(s) && SweepInv(s) && Enabled(s, Erase(t)) && InUse(s, h)
    ensures InUse(Apply(s, Erase(t)), h)
  {
    ErasesFinalized(s, t);
  }

  lemma OthersKeepInUse(s: State, step: Step, h: Handle)
    requires Enabled(s, step) && !step.Insert? && !step.Erase? && InUse(s, h)
    ensures InUse(Apply(s, step), h) <==> !Marks(step, h.addr)
  {
    RecordsStay(s, step);
  }

  /** Only insertions, marks and erasures change the records. */
  lemma RecordsStay(s: State, step: Step)
    requires Enabled(s, step) && !step.Insert? && !step.Erase?
    ensures step.Mark? ==> Apply(s, step).records == MarkFinalized(s.records, step.h.addr)
    ensures !step.Mark? ==> Apply(s, step).records == s.records
  {
  }

  lemma ErasesFinalized(s: State, t: Tid)
    requires LockInv(s) && SweepInv(s) && Enabled(s, Erase(t))
    ensures s.threads[t].addr in s.threads[t].todo && s.threads[t].todo <= FinalizedAddrs(s.records)
  {
    assert s.lock == Some(t);
  }

  /** A handle stays in use to the end of a run exactly when nobody, in the whole run, marks its
      address finalized. */
  lemma {:induction false} KeepsMemoryIff(s: State, steps: seq<Step>, h: Handle)
    requires Inv(s) && IsRun(s, steps) && h in s.issued && InUse(s, h) && NoWrap(Final(s, steps))
    ensures InUse(Final(s, steps), h) <==> NeverMarked(steps, h.addr)
    decreases |steps|
  {
    if steps != [] {
      var s', rest := Apply(s, steps[0]), steps[1..];
      InvKept(s, steps[0]);
      StepKeepsInUse(s, steps[0], h);
      NeverMarkedSplit(steps, h.addr);
      if Marks(steps[0], h.addr) {
        assert IsFinalized(s'.records, h);
        VerdictsAreFinal(s', rest, h);
      } else {
        KeepsMemoryIff(s', rest, h);
      }
    }
  }

  // ---- When a record is lost ----

  /** The addresses that the sweep under way has not erased yet. */
  function Todo(s: State): set<Addr> {
    if s.lock.Some? && s.lock.value in s.threads then
      match s.threads[s.lock.value]
      case Sweeping(_, todo) => todo
      case Erasing(_, todo, _) => todo
      case _ => {}
    else {}
  }

  /** h has lost its record, or the sweep that is under way will erase it. */
  predicate Doomed(s: State, h: Handle) {
    !HasAllocated(s.records, h) || h.addr in Todo(s)
  }

  lemma TodoStays(s: State, step: Step)
    requires LockInv(s) && Enabled(s, step) && !step.Erase? && !step.Lock?
    ensures Todo(Apply(s, step)) == Todo(s)
  {
  }

  lemma SweepBegins(s: State, t: Tid)
    requires LockInv(s) && Enabled(s, Lock(t))
    ensures Todo(s) == {} && Todo(Apply(s, Lock(t))) == FinalizedAddrs(s.records)
  {
  }

  lemma EraseDooms(s: State, t: Tid, h: Handle)
    requires LockInv(s) && SweepInv(s) && Enabled(s, Erase(t))
    ensures Doomed(Apply(s, Erase(t)), h) <==> Doomed(s, h)
  {
    assert s.lock == Some(t);
  }

  /** A handle is doomed by a sweep that begins when it is finalized, and by nothing else. */
  lemma StepDoomsIff(s: State, step: Step, h: Handle)
    requires Inv(s) && Enabled(s, step) && h in s.issued && NoWrap(Apply(s, step))
    ensures Doomed(Apply(s, step), h) <==> Doomed(s, h) || (step.Lock? && IsFinalized(s.records, h))
  {
    if step.Erase? {
      EraseDooms(s, step.t, h);
    } else if step.Lock? {
      LockDooms(s, step.t, h);
    } else if step.Insert? {
      InsertFindsNoRecord(s, step.t);
      InsertDooms(s, step.t, h);
    } else {
      OthersDoomNothing(s, step, h);
    }
  }

  lemma LockDooms(s: State, t: Tid, h: Handle)
    requires LockInv(s) && Enabled(s, Lock(t))
    ensures Doomed(Apply(s, Lock(t)), h) <==> Doomed(s, h) || IsFinalized(s.records, h)
  {
    SweepBegins(s, t);
  }

  lemma InsertDooms(s: State, t: Tid, h: Handle)
    requires LockInv(s) && GenerationInv(s) && Enabled(s, Insert(t)) && h in s.issued && NoWrap(Apply(s, Insert(t)))
    requires s.threads[t].addr !in s.records
    ensures Doomed(Apply(s, Insert(t)), h) <==> Doomed(s, h)
  {
    TodoStays(s, Insert(t));
    InsertKeepsAllocated(s, t, h);
  }

  lemma OthersDoomNothing(s: State, step: Step, h: Handle)
    requires LockInv(s) && Enabled(s, step) && !step.Erase? && !step.Lock? && !step.Insert?
    ensures Doomed(Apply(s, step), h) <==> Doomed(s, h)
  {
    TodoStays(s, step);
    RecordsStay(s, step);
  }

  lemma InsertKeepsAllocated(s: State, t: Tid, h: Handle)
    requires GenerationInv(s) && Enabled(s, Insert(t)) && h in s.issued && NoWrap(Apply(s, Insert(t)))
    requires s.threads[t].addr !in s.records
    ensures HasAllocated(Apply(s, Insert(t)).records, h) <==> HasAllocated(s.records, h)
  {
    StepKeepsVerdict(s, Insert(t), h);
  }

  /** A sweep begins at some point at which h is finalized. */
  predicate SweptFinalized(s: State, steps: seq<Step>, h: Handle)
    requires IsRun(s, steps)
    decreases |steps|
  {
    steps != [] && ((steps[0].Lock? && IsFinalized(s.records, h)) || SweptFinalized(Apply(s, steps[0]), steps[1..], h))
  }

  lemma {:induction false} DoomedIff(s: State, steps: seq<Step>, h: Handle)
    requires Inv(s) && IsRun(s, steps) && h in s.issued && NoWrap(Final(s, steps))
    ensures Doomed(Final(s, steps), h) <==> Doomed(s, h) || SweptFinalized(s, steps, h)
    decreases |steps|
  {
    if steps != [] {
      GenerationGrows(Apply(s, steps[0]), steps[1..]);
      StepDoomsIff(s, steps[0], h);
      InvKept(s, steps[0]);
      DoomedIff(Apply(s, steps[0]), steps[1..], h);
    }
  }

  /** Somebody marks the address, and a sweep begins after that. */
  predicate MarkedThenSwept(steps: seq<Step>, addr: Addr) {
    exists i, j :: 0 <= i < j < |steps| && Marks(steps[i], addr) && steps[j].Lock?
  }

  predicate Swept(steps: seq<Step>) {
    exists j :: 0 <= j < |steps| && steps[j].Lock?
  }

  lemma SweptSplit(steps: seq<Step>)
    requires steps != []
    ensures Swept(steps) <==> steps[0].Lock? || Swept(steps[1..])
  {
    if Swept(steps[1..]) {
      var j :| 0 <= j < |steps[1..]| && steps[1..][j].Lock?;
      assert steps[j + 1].Lock?;
    }
    if Swept(steps) && !steps[0].Lock? {
      var j :| 0 <= j < |steps| && steps[j].Lock?;
      assert steps[1..][j - 1].Lock?;
    }
  }

  lemma MarkedThenSweptSplit(steps: seq<Step>, addr: Addr)
    requires steps != []
    ensures MarkedThenSwept(steps, addr) <==> (Marks(steps[0], addr) && Swept(steps[1..])) || MarkedThenSwept(steps[1..], addr)
  {
    if Marks(steps[0], addr) && Swept(steps[1..]) {
      var j :| 0 <= j < |steps[1..]| && steps[1..][j].Lock?;
      assert Marks(steps[0], addr) && steps[j + 1].Lock?;
    }
    if MarkedThenSwept(steps[1..], addr) {
      var i, j :| 0 <= i < j < |steps[1..]| && Marks(steps[1..][i], addr) && steps[1..][j].Lock?;
      assert Marks(steps[i + 1], addr) && steps[j + 1].Lock?;
    }
    if MarkedThenSwept(steps, addr) {
      var i, j :| 0 <= i < j < |steps| && Marks(steps[i], addr) && steps[j].Lock?;
      assert steps[1..][j - 1].Lock?;
      assert 0 < i ==> Marks(steps[1..][i - 1], addr);
    }
  }

  /** Once h is finalized the next sweep takes it, and a handle in use must be marked first. */
  lemma {:induction false} SweptFinalizedIff(s: State, steps: seq<Step>, h: Handle)
    requires Inv(s) && IsRun(s, steps) && h in s.issued && NoWrap(Final(s, steps))
    ensures IsFinalized(s.records, h) ==> (SweptFinalized(s, steps, h) <==> Swept(steps))
    ensures InUse(s, h) ==> (SweptFinalized(s, steps, h) <==> MarkedThenSwept(steps, h.addr))
    decreases |steps|
  {
    if steps != [] {
      var s', rest := Apply(s, steps[0]), steps[1..];
      GenerationGrows(s', rest);
      StepKeepsVerdict(s, steps[0], h);
      InvKept(s, steps[0]);
      SweptSplit(steps);
      MarkedThenSweptSplit(steps, h.addr);
      if InUse(s, h) {
        StepKeepsInUse(s, steps[0], h);
        MarkedIsFinalized(s, steps[0], h);
      }
      SweptFinalizedIff(s', rest, h);
      LaterMarks(rest, h.addr);
    }
  }

  lemma LaterMarks(steps: seq<Step>, addr: Addr)
    ensures MarkedThenSwept(steps, addr) ==> Swept(steps)
  {
  }

  lemma MarkedIsFinalized(s: State, step: Step, h: Handle)
    requires Enabled(s, step)
    ensures Marks(step, h.addr) ==> IsFinalized(Apply(s, step).records, h)
  {
  }

  /** Between two moments outside of sweeps a handle in use loses its record exactly when somebody marks its
      address, with whatever handle, and a sweep begins after that. */
  lemma LosesRecordIff(s: State, steps: seq<Step>, h: Handle)
    requires Inv(s) && IsRun(s, steps) && h in s.issued && InUse(s, h) && NoWrap(Final(s, steps))
    requires s.lock.None? && Final(s, steps).lock.None?
    ensures !HasAllocated(Final(s, steps).records, h) <==> MarkedThenSwept(steps, h.addr)
  {
    DoomedIff(s, steps, h);
    SweptFinalizedIff(s, steps, h);
  }

  /** Of the handles that own a record, only h itself has h's address. */
  lemma OnlyOwnerHasRecord(s: State, h: Handle, k: Handle)
    requires Inv(s) && NoWrap(s) && h in s.issued && k in s.issued && h.addr == k.addr
    requires HasAllocated(s.records, h) && HasAllocated(s.records, k)
    ensures h == k
  {
    if h.generation < k.generation {
      WordsDiffer(h.generation, k.generation);
    } else if k.generation < h.generation {
      WordsDiffer(k.generation, h.generation);
    }
  }

  /** A run in which every handle is finalized or destroyed only while it still has its own record. */
  predicate Disciplined(s: State, steps: seq<Step>)
    requires IsRun(s, steps)
    decreases |steps|
  {
    steps != [] ==>
      && (steps[0].Mark? ==> HasAllocated(s.records, steps[0].h))
      && Disciplined(Apply(s, steps[0]), steps[1..])
  }

  /** In a disciplined run a handle that is itself never marked keeps its record through every sweep. */
  lemma {:induction false} DisciplinedRunKeepsMemory(s: State, steps: seq<Step>, h: Handle)
    requires Inv(s) && IsRun(s, steps) && h in s.issued && InUse(s, h) && NoWrap(Final(s, steps))
    requires Disciplined(s, steps) && Mark(h) !in steps
    ensures InUse(Final(s, steps), h)
    decreases |steps|
  {
    if steps != [] {
      GenerationGrows(Apply(s, steps[0]), steps[1..]);
      assert steps[0] in steps;
      if Marks(steps[0], h.addr) {
        OnlyOwnerHasRecord(s, h, steps[0].h);
        assert false;
      }
      InvKept(s, steps[0]);
      StepKeepsInUse(s, steps[0], h);
      DisciplinedRunKeepsMemory(Apply(s, steps[0]), steps[1..], h);
    }
  }

  lemma {:induction false} RunAppend(s: State, steps: seq<Step>, last: Step)
    requires IsRun(s, steps) && Enabled(Final(s, steps), last)
    ensures IsRun(s, steps + [last]) && Final(s, steps + [last]) == Apply(Final(s, steps), last)
    decreases |steps|
  {
    if steps == [] {
      assert (steps + [last])[1..] == [];
    } else {
      RunAppend(Apply(s, steps[0]), steps[1..], last);
      assert (steps + [last])[1..] == steps[1..] + [last];
    }
  }

  // ---- A late destructor ----

  /** t allocates address a and inserts its record, with nobody in between. */
  lemma AppendAllocation(s: State, steps: seq<Step>, t: Tid, a: Addr) returns (more: seq<Step>)
    requires IsRun(s, steps)
    requires var f := Final(s, steps);
      f.At(t) && f.threads[t].Idle? && f.lock.None? && a != 0 && a !in f.device.live
    ensures more == steps + [DeviceAllocate(t, a)] + [Insert(t)] && IsRun(s, more)
    ensures var f, g := Final(s, steps), Final(s, steps).generation + 1;
      Final(s, more) == f.(records := f.records[a := Record(g, false, f.device.next)], generation := g,
                           issued := f.issued + {Handle(a, g)}, device := f.device.Allocate(a))
  {
    RunAppend(s, steps, DeviceAllocate(t, a));
    more := steps + [DeviceAllocate(t, a)];
    RunAppend(s, more, Insert(t));
    more := more + [Insert(t)];
    assert Final(s, more).threads == Final(s, steps).threads;
  }

  /** t sweeps, with nobody in between; a is the only finalized address. */
  lemma AppendSweep(s: State, steps: seq<Step>, t: Tid, a: Addr) returns (more: seq<Step>)
    requires IsRun(s, steps)
    requires var f := Final(s, steps);
      f.At(t) && f.threads[t].Idle? && f.lock.None? && FinalizedAddrs(f.records) == {a}
    ensures more == steps + [Lock(t)] + [Free(t, a)] + [Erase(t)] + [Unlock(t)] && IsRun(s, more)
    ensures var f := Final(s, steps);
      Final(s, more) == f.(records := f.records - {a}, device := f.device.Deallocate(a))
  {
    RunAppend(s, steps, Lock(t));
    more := steps + [Lock(t)];
    RunAppend(s, more, Free(t, a));
    more := more + [Free(t, a)];
    RunAppend(s, more, Erase(t));
    more := more + [Erase(t)];
    RunAppend(s, more, Unlock(t));
    more := more + [Unlock(t)];
    assert Final(s, more).threads == Final(s, steps).threads;
  }

  const FIRST := Handle(7, 1)
  const SECOND := Handle(7, 2)

  const START := State(map[], 0, 0, None, map[0 := Idle], Device(map[], 0, multiset{}, false), {})

  /** The one finalized address of a one-record map. */
  lemma OneFinalized(a: Addr, r: Record)
    requires r.finalized
    ensures FinalizedAddrs(map[a := r]) == {a} && map[a := r] - {a} == map[]
  {
  }

  /** A temporary is allocated, finalized and swept. */
  lemma AddressFreed() returns (steps: seq<Step>)
    ensures IsRun(START, steps) && Mark(SECOND) !in steps
    ensures Final(START, steps) ==
      START.(generation := 1, issued := {FIRST}, device := Device(map[], 1, multiset{0}, false))
  {
    steps := AppendAllocation(START, [], 0, 7);
    RunAppend(START, steps, Mark(FIRST));
    steps := steps + [Mark(FIRST)];
    assert Final(START, steps).records == map[7 := Record(1, true, 0)];
    OneFinalized(7, Record(1, true, 0));
    steps := AppendSweep(START, steps, 0, 7);
    assert Final(START, steps).device.live == map[];
  }

  /** Then its address goes to a second temporary. */
  lemma AddressReused() returns (steps: seq<Step>)
    ensures IsRun(START, steps) && Mark(SECOND) !in steps
    ensures Final(START, steps) ==
      START.(records := map[7 := Record(2, false, 1)], generation := 2, issued := {FIRST, SECOND},
             device := Device(map[7 := Temp(1)], 2, multiset{0}, false))
  {
    steps := AddressFreed();
    steps := AppendAllocation(START, steps, 0, 7);
  }

  /** The proviso is needed: a handle that is finalized, swept, and destroyed only after its address
      went to a second handle makes the next sweep release the second handle's memory, although that
      handle was never finalized. The destructor's mark does not look at its generation. */
  lemma LateDestructorTakesMemory() returns (s: State, steps: seq<Step>, h: Handle)
    ensures Initial(s) && IsRun(s, steps) && NoWrap(Final(s, steps))
    ensures h in Final(s, steps).issued && Mark(h) !in steps
    ensures !HasAllocated(Final(s, steps).records, h)
  {
    s, h := START, SECOND;
    steps := AddressReused();
    RunAppend(s, steps, Mark(FIRST));
    steps := steps + [Mark(FIRST)];
    assert Final(s, steps).records == map[7 := Record(2, true, 1)];
    OneFinalized(7, Record(2, true, 1));
    steps := AppendSweep(s, steps, 0, 7);
  }
}
