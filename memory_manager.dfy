/** The simulator object the web layer drives: physical memory as an array of
    frames, the page table, the replacement metadata, the counters and the
    operation log, updated in place. Every method is proved to move the object
    exactly as the matching function of EngineSpec moves an `Engine` value, so
    everything proved about those functions holds of the object. */
module Manager {
  import opened EngineTypes
  import opened EngineLists
  import opened EngineSpec
  import opened EngineInvariant
  import opened EngineCounters

  /** What `get_current_state` hands to the front end. */
  datatype Snapshot = Snapshot(
    technique: Technique, memorySize: nat, pageSize: nat, algorithm: Algorithm,
    totalFrames: nat, memory: seq<Frame>, pageTable: map<nat, seq<nat>>,
    pageFaults: nat, memoryAccesses: nat, pageHits: nat, operations: seq<Operation>)

  /** What `get_results` reports; ratios are exact rationals here. */
  datatype Report = Report(
    pageFaults: nat, memoryAccesses: nat, pageHits: nat,
    hitRatio: real, missRatio: real, memoryUtilization: real,
    allocatedFrames: nat, totalFrames: nat)

  /** `operations[-10:]`: the last ten log entries, or all of them when fewer. */
  function LastTen(ops: seq<Operation>): (r: seq<Operation>)
    ensures |r| == Min(10, |ops|)
    ensures ops == ops[..|ops| - |r|] + r
  {
    if |ops| <= 10 then ops else ops[|ops| - 10..]
  }

  /** `count / max(1, total) if total > 0 else 0`. */
  function Ratio(count: nat, total: nat): (r: real)
    ensures total == 0 ==> r == 0.0
    ensures total > 0 ==> r * total as real == count as real
    ensures count <= total ==> 0.0 <= r <= 1.0
  {
    if total > 0 then count as real / Max(1, total) as real else 0.0
  }

  /** The smallest time among the first j + 1 entries, from that among the first j. */
  lemma FirstMinIndexStep(stamps: seq<Stamp>, j: nat)
    requires 0 < j < |stamps|
    ensures FirstMinIndex(stamps[..j + 1]) ==
              var k := FirstMinIndex(stamps[..j]);
              if stamps[j].time < stamps[k].time then j else k
  {
    assert stamps[..j + 1][..j] == stamps[..j];
  }

  /** Replacement stops once no victim is found. */
  lemma ReplacePagesStops(alg: Algorithm, s: Engine, m: nat)
    requires PopVictim(alg, s).None?
    ensures ReplacePages(alg, s, m) == s
  {
  }

  /** One round of the placement loop, unfolded. */
  lemma PlaceStep(alg: Algorithm, s: Engine, s': Engine, pid: nat, all: seq<nat>, rest: seq<nat>)
    requires rest != [] && rest[0] < |s.frames| && forall f :: f in rest ==> f < |s.frames|
    requires s' == RecordPage(alg, s.(frames := s.frames[rest[0] := Allocated(pid)], pageTable := s.pageTable[pid := all]),
                              PageKey(pid, rest[0]))
    ensures forall f :: f in rest[1..] ==> f < |s'.frames|
    ensures Place(alg, s, pid, all, rest) == Place(alg, s', pid, all, rest[1..])
  {
    assert rest[0] in rest && forall g :: g in rest[1..] ==> g in rest;
  }

  /** One round of the release loop, unfolded. */
  lemma ReleaseStep(alg: Algorithm, s: Engine, s': Engine, pid: nat, rest: seq<nat>)
    requires rest != []
    requires s' == if rest[0] < |s.frames| then DropMetadata(alg, s.(frames := s.frames[rest[0] := Free]), pid) else s
    ensures Release(alg, s, pid, rest) == Release(alg, s', pid, rest[1..])
  {
  }

  class MemoryManager {
    const technique: Technique
    const memorySize: nat
    const pageSize: nat
    const algorithm: Algorithm
    const totalFrames: nat
    /** One slot per frame. */
    const memory: array<Frame>
    var pageTable: map<nat, seq<nat>>
    /** The FIFO deque of page keys. */
    var pageQueue: seq<PageKey>
    /** The LRU dictionary, in insertion order. */
    var pageAccessTime: seq<Stamp>
    var pageFaults: nat
    var memoryAccesses: nat
    var pageHits: nat
    var operations: seq<Operation>
    var nextId: nat

    function Cfg(): Config {
      Config(technique, memorySize, pageSize, algorithm)
    }

    /** The configuration is one the web layer accepts and the array has one
        slot per frame. */
    ghost predicate Structural() {
      ValidConfig(Cfg()) && totalFrames == TotalFrames(Cfg()) && memory.Length == totalFrames
    }

    /** The object's fields as an engine value. */
    ghost function State(): Engine
      reads this, memory
    {
      Engine(memory[..], pageTable, pageQueue, pageAccessTime, pageFaults, memoryAccesses,
             pageHits, operations, nextId)
    }

    /** The class invariant: the configuration is sound and the state consistent. */
    ghost predicate Valid()
      reads this, memory
    {
      Structural() && Consistent(Cfg(), State())
    }

    /** `MemoryManager(technique, memory_size, page_size, algorithm)`. */
    constructor (technique: Technique, memorySize: nat, pageSize: nat, algorithm: Algorithm)
      requires ValidConfig(Config(technique, memorySize, pageSize, algorithm))
      ensures Cfg() == Config(technique, memorySize, pageSize, algorithm)
      ensures State() == Initial(Cfg())
      ensures Valid() && fresh(memory)
    {
      this.technique := technique;
      this.memorySize := memorySize;
      this.pageSize := pageSize;
      this.algorithm := algorithm;
      var n := TotalFrames(Config(technique, memorySize, pageSize, algorithm));
      totalFrames := n;
      memory := new Frame[n](_ => Free);
      pageTable := map[];
      pageQueue := [];
      pageAccessTime := [];
      pageFaults := 0;
      memoryAccesses := 0;
      pageHits := 0;
      operations := [];
      nextId := 1;
      new;
      assert memory[..] == seq(n, _ => Free);
      InitialConsistent(Cfg());
    }

    /** The frame indices with the given status, in ascending order. */
    method ScanFrames(inUse: bool) returns (r: seq<nat>)
      ensures r == FramesWith(memory[..], inUse)
    {
      r := [];
      var i := 0;
      while i < memory.Length
        invariant 0 <= i <= memory.Length
        invariant r == FramesWith(memory[..i], inUse)
      {
        assert memory[..i + 1][..i] == memory[..i];
        if memory[i].Allocated? == inUse {
          r := r + [i];
        }
        i := i + 1;
      }
      assert memory[..i] == memory[..];
    }

    /** The position of the least recently used entry: the first smallest time. */
    method LeastRecentIndex() returns (k: nat)
      requires pageAccessTime != []
      ensures k == FirstMinIndex(pageAccessTime)
    {
      var stamps := pageAccessTime;
      k := 0;
      var j := 1;
      while j < |stamps|
        invariant 1 <= j <= |stamps| && k < j
        invariant k == FirstMinIndex(stamps[..j])
      {
        FirstMinIndexStep(stamps, j);
        if stamps[j].time < stamps[k].time {
          k := j;
        }
        j := j + 1;
      }
      assert stamps[..j] == stamps;
    }

    /** The victim choice at the top of a `_replace_pages` round: the FIFO
        head or the least recently used entry, taken out of the metadata, or
        the lowest allocated frame when the metadata is empty. */
    method PopVictim() returns (found: bool, victim: PageKey)
      modifies this
      ensures found <==> EngineSpec.PopVictim(algorithm, old(State())).Some?
      ensures found ==> EngineSpec.PopVictim(algorithm, old(State())) == Some((victim, State()))
      ensures !found ==> State() == old(State())
    {
      var fallback := match algorithm
        case FIFO => pageQueue == []
        case LRU => pageAccessTime == [];
      if fallback {
        var taken := ScanFrames(true);
        if taken == [] {
          return false, PageKey(0, 0);
        }
        FramesWithStatus(memory[..], true);
        found, victim := true, PageKey(memory[taken[0]].owner, taken[0]);
      } else if algorithm == FIFO {
        found, victim := true, pageQueue[0];
        pageQueue := pageQueue[1..];
      } else {
        var i := LeastRecentIndex();
        found, victim := true, pageAccessTime[i].key;
        pageAccessTime := RemoveAt(pageAccessTime, i);
      }
    }

    /** The rest of a round: free the victim's frame, drop it from its owner's
        page-table list and count a page fault; a victim outside memory is skipped. */
    method EvictFrame(victim: PageKey)
      modifies this, memory
      ensures State() == EngineSpec.EvictFrame(old(State()), victim)
    {
      if victim.frame < memory.Length {
        memory[victim.frame] := Free;
        pageTable := DropFrame(pageTable, victim.owner, victim.frame);
        pageFaults := pageFaults + 1;
        assert memory[..] == old(memory[..])[victim.frame := Free];
      }
    }

    /** One round of the `_replace_pages` loop; false when no victim was found. */
    method EvictRound() returns (evicted: bool)
      modifies this, memory
      ensures evicted <==> EngineSpec.PopVictim(algorithm, old(State())).Some?
      ensures State() == EvictVictim(algorithm, old(State()))
    {
      var victim;
      evicted, victim := PopVictim();
      if evicted {
        EvictFrame(victim);
      }
    }

    /** One round of the `_replace_pages` loop, seen from the whole replacement:
        after an eviction `m - 1` rounds remain; without one the replacement ends here. */
    method ReplaceRound(ghost m: nat) returns (evicted: bool)
      requires m > 0
      modifies this, memory
      ensures evicted ==> EngineSpec.ReplacePages(algorithm, old(State()), m) == EngineSpec.ReplacePages(algorithm, State(), m - 1)
      ensures !evicted ==> EngineSpec.ReplacePages(algorithm, old(State()), m) == State()
    {
      ghost var s := State();
      evicted := EvictRound();
      if !evicted {
        ReplacePagesStops(algorithm, s, m);
      }
    }

    /** `_replace_pages(num_pages)`: up to `num_pages` evictions. */
    method ReplacePages(numPages: int)
      modifies this, memory
      ensures numPages <= 0 ==> State() == old(State())
      ensures numPages > 0 ==> State() == EngineSpec.ReplacePages(algorithm, old(State()), numPages)
    {
      if numPages <= 0 {
        return;
      }
      ghost var s0 := State();
      var k := 0;
      while k < numPages
        invariant 0 <= k <= numPages
        invariant EngineSpec.ReplacePages(algorithm, s0, numPages) == EngineSpec.ReplacePages(algorithm, State(), numPages - k)
      {
        var evicted := ReplaceRound(numPages - k);
        if !evicted {
          break;
        }
        k := k + 1;
      }
    }

    /** `_handle_page_fault(frame_num)`. */
    method HandlePageFault(f: nat)
      requires Structural() && f < memory.Length
      modifies this, memory
      ensures State() == EngineSpec.HandlePageFault(algorithm, old(State()), f)
    {
      if memory[f].Allocated? {
        return;
      }
      var pid := nextId;
      nextId := nextId + 1;
      memory[f] := Allocated(pid);
      if pid in pageTable {
        pageTable := pageTable[pid := pageTable[pid] + [f]];
      } else {
        pageTable := pageTable[pid := [f]];
      }
      RecordPage(PageKey(pid, f));
    }

    /** Records a new page in the active algorithm's metadata: appended to the
        FIFO queue, or stamped with the current access count for LRU. */
    method RecordPage(k: PageKey)
      modifies this
      ensures State() == EngineSpec.RecordPage(algorithm, old(State()), k)
    {
      match algorithm {
        case FIFO => pageQueue := pageQueue + [k];
        case LRU => pageAccessTime := SetStamp(pageAccessTime, k, memoryAccesses);
      }
    }

    /** The loop of `allocate_memory` that hands the frames `chosen` to `pid`,
        storing `chosen` as its page-table entry and recording each page. */
    method PlaceFrames(pid: nat, chosen: seq<nat>)
      requires forall f :: f in chosen ==> f < memory.Length
      modifies this, memory
      ensures State() == Place(algorithm, old(State()), pid, chosen, chosen)
    {
      ghost var start := State();
      var i := 0;
      while i < |chosen|
        invariant 0 <= i <= |chosen|
        invariant forall g :: g in chosen[i..] ==> g < memory.Length
        invariant Place(algorithm, start, pid, chosen, chosen) == Place(algorithm, State(), pid, chosen, chosen[i..])
      {
        ghost var s := State();
        var f := chosen[i];
        assert f in chosen[i..];
        memory[f] := Allocated(pid);
        pageTable := pageTable[pid := chosen];
        assert memory[..] == s.frames[f := Allocated(pid)];
        RecordPage(PageKey(pid, f));
        PlaceStep(algorithm, s, State(), pid, chosen, chosen[i..]);
        assert chosen[i..][1..] == chosen[i + 1..];
        i := i + 1;
      }
    }

    /** The first half of `allocate_memory`: when fewer than `needed` frames
        are free, replacement evicts the shortfall; returns the free frames
        after that. */
    method MakeRoom(needed: nat) returns (free: seq<nat>)
      modifies this, memory
      ensures State() == EngineSpec.MakeRoom(algorithm, old(State()), needed)
      ensures free == FreeFrames(memory[..])
    {
      free := ScanFrames(false);
      if |free| < needed {
        ReplacePages(needed - |free|);
        free := ScanFrames(false);
      }
    }

    /** `allocate_memory(size)`: the base address of the first frame handed
        out, or the error raised. */
    method AllocateMemory(size: int) returns (r: Result<int>)
      requires Structural() && size > 0
      modifies this, memory
      ensures (State(), r) == EngineSpec.Allocate(Cfg(), old(State()), size)
      ensures old(Valid()) ==> Valid()
    {
      if Valid() {
        AllocateKeepsConsistent(Cfg(), State(), size);
      }
      var needed := (size + pageSize - 1) / pageSize;
      assert needed == PagesNeeded(size, pageSize);
      if needed > totalFrames {
        return Err(CapacityExceeded);
      }
      var free := MakeRoom(needed);
      r := AssignFrames(needed, size, free);
    }

    /** The second half of `allocate_memory`: a fresh id takes the first
        `needed` free frames, and the allocation is logged. */
    method AssignFrames(needed: nat, size: int, free: seq<nat>) returns (r: Result<int>)
      requires Structural() && free == FreeFrames(memory[..])
      modifies this, memory
      ensures (State(), r) == EngineSpec.AssignFrames(Cfg(), old(State()), needed, size)
    {
      var pid := nextId;
      nextId := nextId + 1;
      var chosen := free[..Min(needed, |free|)];
      assert forall g :: g in chosen ==> g in free;
      PlaceFrames(pid, chosen);
      operations := operations + [AllocateOp(pid, size, chosen)];
      if chosen == [] {
        r := Err(NoFrameChosen);
      } else {
        r := Ok(chosen[0] * pageSize);
      }
    }

    /** The loop of `deallocate_memory` over the owner's frames: each one inside
        memory is freed and the owner's metadata dropped. */
    method ReleaseFrames(pid: nat, frames: seq<nat>)
      modifies this, memory
      ensures State() == Release(algorithm, old(State()), pid, frames)
    {
      ghost var start := State();
      var i := 0;
      while i < |frames|
        invariant 0 <= i <= |frames|
        invariant Release(algorithm, start, pid, frames) == Release(algorithm, State(), pid, frames[i..])
      {
        ghost var s := State();
        var f := frames[i];
        if f < memory.Length {
          memory[f] := Free;
          match algorithm {
            case FIFO => pageQueue := DropOwner(pageQueue, pid);
            case LRU => pageAccessTime := DropOwnerStamps(pageAccessTime, pid);
          }
          assert memory[..] == s.frames[f := Free];
        }
        ReleaseStep(algorithm, s, State(), pid, frames[i..]);
        assert frames[i..][1..] == frames[i + 1..];
        i := i + 1;
      }
    }

    /** `deallocate_memory(address)`: frees every frame of the owner of the
        addressed frame (or, when that frame is free, of the lowest allocated one). */
    method DeallocateMemory(address: int) returns (r: Result<()>)
      requires Structural()
      modifies this, memory
      ensures (State(), r) == EngineSpec.Deallocate(Cfg(), old(State()), address)
      ensures old(Valid()) ==> Valid()
    {
      if Valid() {
        DeallocateKeepsConsistent(Cfg(), State(), address);
      }
      var frameNum := address / pageSize;
      if frameNum >= memory.Length || frameNum < 0 {
        return Err(InvalidAddress);
      }
      if memory[frameNum].Free? {
        var taken := ScanFrames(true);
        if taken == [] {
          return Err(NothingAllocated);
        }
        FramesWithStatus(memory[..], true);
        frameNum := taken[0];
      }
      var pid := memory[frameNum].owner;
      var processFrames := if pid in pageTable then pageTable[pid] else [];
      if processFrames == [] {
        processFrames := [frameNum];
      }
      ReleaseFrames(pid, processFrames);
      if pid in pageTable {
        pageTable := pageTable - {pid};
      } else {
        assert pageTable - {pid} == pageTable;
      }
      operations := operations + [DeallocateOp(pid, frameNum * pageSize, processFrames)];
      r := Ok(());
    }

    /** `access_memory(address)`: true on a page hit, false on a page fault. */
    method AccessMemory(address: int) returns (hit: bool)
      requires Structural()
      modifies this, memory
      ensures (State(), hit) == EngineSpec.Access(Cfg(), old(State()), address)
      ensures old(Valid()) ==> Valid()
    {
      ghost var s0 := State();
      ghost var wasValid := Valid();
      var frameNum := address / pageSize;
      if frameNum >= memory.Length || frameNum < 0 {
        frameNum := Min(Max(0, frameNum), memory.Length - 1);
      }
      assert frameNum == AccessFrame(address, pageSize, memory.Length);
      memoryAccesses := memoryAccesses + 1;
      if memory[frameNum].Free? {
        CountFault(address, frameNum);
        hit := false;
      } else {
        CountHit(address, frameNum);
        hit := true;
      }
      if wasValid {
        AccessKeepsConsistent(Cfg(), s0, address);
      }
    }

    /** The miss path of `access_memory`. */
    method CountFault(address: int, f: nat)
      requires Structural() && f < memory.Length
      modifies this, memory
      ensures State() == EngineSpec.CountFault(algorithm, old(State()), address, f)
    {
      pageFaults := pageFaults + 1;
      HandlePageFault(f);
      operations := operations + [AccessOp(address, false)];
    }

    /** The hit path of `access_memory`. */
    method CountHit(address: int, f: nat)
      requires f < memory.Length && memory[f].Allocated?
      modifies this
      ensures State() == EngineSpec.CountHit(algorithm, old(State()), address, f)
    {
      pageHits := pageHits + 1;
      if algorithm == LRU {
        pageAccessTime := SetStamp(pageAccessTime, PageKey(memory[f].owner, f), memoryAccesses);
      }
      operations := operations + [AccessOp(address, true)];
    }

    /** `get_current_state()`: the configuration, a copy of memory, the page
        table, the counters and the last ten log entries. */
    function GetCurrentState(): (v: Snapshot)
      reads this, memory
      ensures v.technique == technique && v.memorySize == memorySize && v.pageSize == pageSize
      ensures v.algorithm == algorithm && v.totalFrames == totalFrames
      ensures v.memory == memory[..] && v.pageTable == pageTable
      ensures v.pageFaults == pageFaults && v.memoryAccesses == memoryAccesses && v.pageHits == pageHits
      ensures |v.operations| == Min(10, |operations|)
      ensures operations == operations[..|operations| - |v.operations|] + v.operations
    {
      Snapshot(technique, memorySize, pageSize, algorithm, totalFrames, memory[..], pageTable,
               pageFaults, memoryAccesses, pageHits, LastTen(operations))
    }

    /** `get_results()`: counters, ratios and the number of allocated frames. */
    method GetResults() returns (r: Report)
      requires Valid()
      ensures r.allocatedFrames == |AllocatedFrames(memory[..])| <= totalFrames
      ensures r.pageFaults == pageFaults && r.memoryAccesses == memoryAccesses && r.pageHits == pageHits
      ensures r.totalFrames == totalFrames
      ensures r.hitRatio == Ratio(pageHits, memoryAccesses) && r.missRatio == Ratio(pageFaults, memoryAccesses)
      ensures r.memoryUtilization == Ratio(r.allocatedFrames, totalFrames)
      ensures 0.0 <= r.hitRatio <= 1.0 && 0.0 <= r.memoryUtilization <= 1.0
    {
      var count := 0;
      var i := 0;
      while i < memory.Length
        invariant 0 <= i <= memory.Length
        invariant count == |AllocatedFrames(memory[..i])|
      {
        assert memory[..i + 1][..i] == memory[..i];
        if memory[i].Allocated? {
          count := count + 1;
        }
        i := i + 1;
      }
      assert memory[..i] == memory[..];
      FreePlusAllocated(memory[..]);
      r := Report(pageFaults, memoryAccesses, pageHits,
                  Ratio(pageHits, memoryAccesses), Ratio(pageFaults, memoryAccesses),
                  Ratio(count, totalFrames), count, totalFrames);
    }
  }
}
