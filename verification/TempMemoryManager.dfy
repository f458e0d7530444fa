/** The temporary memory manager as the object a stream owns, one critical section at a time
    (tensorflow/stream_executor/temporary_memory_manager.cc, temporary_device_memory.cc). */
module TempMemoryManager {
  import opened Wrappers
  import opened TempMemory

  /** after is the device before with exactly the allocations of the records at addrs freed once more. */
  ghost predicate Released(before: Device, after: Device, records: Records, addrs: set<Addr>)
    requires addrs <= records.Keys
  {
    && after.live == before.live - addrs && after.next == before.next && after.faulted == before.faulted
    && forall n: nat :: after.freed[n] == before.freed[n] + (if n in Allocs(records, addrs) then 1 else 0)
  }

  ghost function Allocs(records: Records, addrs: set<Addr>): set<nat>
    requires addrs <= records.Keys
  {
    set a | a in addrs :: records[a].alloc
  }

  /** Every record is backed by a live allocation of its own. */
  ghost predicate Backed(records: Records, d: Device) {
    && (forall a :: a in records ==> a in d.live && d.live[a] == Temp(records[a].alloc))
    && (forall a, b :: a in records && b in records && a != b ==> records[a].alloc != records[b].alloc)
  }

  class Manager {
    var records: Records
    var generation: nat
    var device: Device

    constructor (generation: nat, device: Device)
      ensures records == map[] && this.generation == generation && this.device == device
    {
      this.records, this.generation, this.device := map[], generation, device;
    }

    /** Marks by address alone; fatal reports the source's LOG(FATAL). */
    method Mark(addr: Addr, mustExist: bool) returns (fatal: bool)
      modifies this`records
      ensures fatal <==> mustExist && addr !in old(records)
      ensures records == MarkFinalized(old(records), addr)
    {
      if addr !in records {
        return mustExist;
      }
      records := records[addr := records[addr].(finalized := true)];
      fatal := false;
    }

    method Finalized(h: Handle) returns (b: bool)
      ensures b == IsFinalized(records, h)
    {
      if h.addr !in records {
        return true;
      }
      if Word(records[h.addr].generation) == Word(h.generation) {
        return records[h.addr].finalized;
      }
      return true;
    }

    method Allocated(h: Handle) returns (b: bool)
      ensures b == HasAllocated(records, h)
    {
      if h.addr !in records {
        return false;
      }
      return Word(records[h.addr].generation) == Word(h.generation);
    }

    /** Frees every finalized record's memory and erases the record, erasing while iterating. */
    method DeallocateFinalizedTemporaries()
      requires Backed(records, device)
      modifies this`records, this`device
      ensures records == Unfinalized(old(records)) && Backed(records, device)
      ensures Released(old(device), device, old(records), FinalizedAddrs(old(records)))
    {
      ghost var start, before := records, device;
      ghost var done: set<Addr> := {};
      var todo := records.Keys;
      while todo != {}
        invariant todo !! done && todo + done == start.Keys
        invariant records == start - (FinalizedAddrs(start) * done)
        invariant Backed(records, device)
        invariant Released(before, device, start, FinalizedAddrs(start) * done)
        decreases todo
      {
        var a :| a in todo;
        assert a in records && records[a] == start[a];
        if records[a].finalized {
          ReleaseOne(before, device, start, FinalizedAddrs(start) * done, a);
          device := device.Deallocate(a);
          records := records - {a};
          assert FinalizedAddrs(start) * (done + {a}) == FinalizedAddrs(start) * done + {a};
        } else {
          assert FinalizedAddrs(start) * (done + {a}) == FinalizedAddrs(start) * done;
        }
        todo, done := todo - {a}, done + {a};
      }
      assert FinalizedAddrs(start) * done == FinalizedAddrs(start);
    }

    /** Frees the memory of every record; the records stay, so this is the manager's last act. */
    method ForceDeallocateAll()
      requires Backed(records, device)
      modifies this`device
      ensures Released(old(device), device, records, records.Keys)
    {
      ghost var before, done := device, {};
      var todo := records.Keys;
      while todo != {}
        invariant todo !! done && todo + done == records.Keys
        invariant Released(before, device, records, done)
        decreases todo
      {
        var a :| a in todo;
        ReleaseOne(before, device, records, done, a);
        device := device.Deallocate(a);
        todo, done := todo - {a}, done + {a};
      }
    }

    /** The device answers with an address, or 0 for failure; a record and a handle follow. */
    method AllocateArrayBase(answer: Addr) returns (h: Option<Handle>)
      requires answer !in device.live && Backed(records, device)
      requires forall a :: a in records ==> records[a].alloc < device.next
      modifies this
      ensures answer == 0 ==> h == None && records == old(records) && generation == old(generation) && device == old(device)
      ensures answer != 0 ==> h == Some(Handle(answer, generation)) && generation == old(generation) + 1
      ensures answer != 0 ==> device == old(device).Allocate(answer) && answer !in old(records)
      ensures answer != 0 ==> records == old(records)[answer := Record(generation, false, old(device).next)]
      ensures Backed(records, device)
      ensures h.Some? ==> HasAllocated(records, h.value) && !IsFinalized(records, h.value)
    {
      if answer == 0 {
        return None;
      }
      var alloc := device.next;
      device := device.Allocate(answer);
      generation := generation + 1;
      assert answer !in records;
      records := records[answer := Record(generation, false, alloc)];
      h := Some(Handle(answer, generation));
    }

    /** Finalize on a handle that is not finalized yet: the record exists, so the fatal branch is unreachable. */
    method FinalizeHandle(h: Handle)
      requires !IsFinalized(records, h)
      modifies this`records
      ensures IsFinalized(records, h) && HasAllocated(records, h)
      ensures records == MarkFinalized(old(records), h.addr)
    {
      var fatal := Mark(h.addr, true);
      assert !fatal;
    }

    /** Destroying a handle marks whatever record its address has now. */
    method DestroyHandle(h: Handle)
      modifies this`records
      ensures IsFinalized(records, h) && records == MarkFinalized(old(records), h.addr)
    {
      var fatal := Mark(h.addr, false);
      assert !fatal;
    }
  }

  lemma ReleaseOne(before: Device, d: Device, records: Records, done: set<Addr>, a: Addr)
    requires a in records && done <= records.Keys && a !in done && Released(before, d, records, done)
    requires a in d.live && d.live[a] == Temp(records[a].alloc)
    requires forall b :: b in done ==> records[b].alloc != records[a].alloc
    ensures Released(before, d.Deallocate(a), records, done + {a})
  {
    assert Allocs(records, done + {a}) == Allocs(records, done) + {records[a].alloc};
    assert before.live - done - {a} == before.live - (done + {a});
  }

  /** When a stream is destroyed with no operation under way, releasing every record leaves each
      temporary it ever allocated freed exactly once, and none live. */
  lemma DestructionFreesEverythingOnce(s: State, steps: seq<Step>, after: Device)
    requires Initial(s) && IsRun(s, steps)
    requires var f := Final(s, steps); f.lock.None? && forall t :: t in f.threads ==> f.threads[t].Idle?
    requires Released(Final(s, steps).device, after, Final(s, steps).records, Final(s, steps).records.Keys)
    ensures Backed(Final(s, steps).records, Final(s, steps).device)
    ensures !after.faulted && forall a :: a in after.live ==> after.live[a].Foreign?
    ensures forall n :: 0 <= n < after.next ==> after.freed[n] == 1
  {
    var f := Final(s, steps);
    InitialInv(s);
    InvAlways(s, steps);
    AllFreedOnce(f, after);
    OnlyForeignLeft(f, after);
    RecordsBacked(f);
  }

  lemma RecordsBacked(f: State)
    requires RecordsLive(f) && AllocsDistinct(f) && DeviceInv(f.device) && f.lock.None?
    ensures Backed(f.records, f.device)
  {
  }

  lemma OnlyForeignLeft(f: State, after: Device)
    requires Accounted(f) && DeviceInv(f.device) && (forall t :: t in f.threads ==> f.threads[t].Idle?)
    requires Released(f.device, after, f.records, f.records.Keys)
    ensures !after.faulted && forall a :: a in after.live ==> after.live[a].Foreign?
  {
    forall a | a in after.live
      ensures after.live[a].Foreign?
    {
      assert f.device.live[a].Temp? ==> Owned(f, a, f.device.live[a].alloc);
    }
  }

  lemma AllFreedOnce(f: State, after: Device)
    requires Inv(f) && f.lock.None? && (forall t :: t in f.threads ==> f.threads[t].Idle?)
    requires Released(f.device, after, f.records, f.records.Keys)
    ensures forall n :: 0 <= n < after.next ==> after.freed[n] == 1
  {
    forall n | 0 <= n < after.next
      ensures after.freed[n] == 1
    {
      FreedOnceAtEnd(f, after, n);
    }
  }

  lemma FreedOnceAtEnd(f: State, after: Device, n: nat)
    requires Inv(f) && f.lock.None? && (forall t :: t in f.threads ==> f.threads[t].Idle?)
    requires Released(f.device, after, f.records, f.records.Keys) && n < after.next
    ensures after.freed[n] == 1
  {
    if n in f.device.freed {
      assert f.device.freed[n] == 1;
      forall a | a in f.records
        ensures f.records[a].alloc != n
      {
        assert f.device.live[a] == Temp(f.records[a].alloc);
      }
    } else {
      var a :| a in f.device.live && f.device.live[a] == Temp(n);
      assert Owned(f, a, n);
      assert f.records[a].alloc in Allocs(f.records, f.records.Keys);
    }
  }
}
