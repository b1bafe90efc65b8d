/** The counters, the id counter and the log never go back, on any state; the
    consistency invariant survives every public operation; and
    `page_hits + page_faults == memory_accesses` survives every operation
    except an allocation that has to evict. */
module EngineCounters {
  import opened EngineTypes
  import opened EngineLists
  import opened EngineSpec
  import opened EngineInvariant
  import opened EngineAllocate
  import opened EngineDeallocate
  import opened EngineAccess

  /** r is a later state than s: no counter decreased and the log only grew. */
  ghost predicate CountersGrow(s: Engine, r: Engine) {
    && s.pageFaults <= r.pageFaults && s.memoryAccesses <= r.memoryAccesses
    && s.pageHits <= r.pageHits && s.nextId <= r.nextId
    && s.log <= r.log
  }

  /** One eviction round counts at most one page fault and touches no other counter. */
  lemma EvictVictimCounters(alg: Algorithm, s: Engine)
    ensures var r := EvictVictim(alg, s);
            && s.pageFaults <= r.pageFaults <= s.pageFaults + 1
            && r.memoryAccesses == s.memoryAccesses && r.pageHits == s.pageHits
            && r.nextId == s.nextId && r.log == s.log
  {
  }

  /** Replacement counts page faults and touches no other counter. */
  lemma {:induction false} ReplacePagesCounters(alg: Algorithm, s: Engine, n: nat)
    ensures var r := ReplacePages(alg, s, n);
            && s.pageFaults <= r.pageFaults <= s.pageFaults + n
            && r.memoryAccesses == s.memoryAccesses && r.pageHits == s.pageHits
            && r.nextId == s.nextId && r.log == s.log
    decreases n
  {
    if n > 0 && PopVictim(alg, s).Some? {
      var s' := EvictVictim(alg, s);
      EvictVictimCounters(alg, s);
      ReplacePagesCounters(alg, s', n - 1);
      ReplacePagesStep(alg, s, n);
    }
  }

  /** The placement loop touches no counter. */
  lemma {:induction false} PlaceCounters(alg: Algorithm, s: Engine, pid: nat, all: seq<nat>, rest: seq<nat>)
    requires forall f :: f in rest ==> f < |s.frames|
    ensures var r := Place(alg, s, pid, all, rest);
            && r.pageFaults == s.pageFaults && r.memoryAccesses == s.memoryAccesses
            && r.pageHits == s.pageHits && r.nextId == s.nextId && r.log == s.log
    decreases |rest|
  {
    if rest != [] {
      var f := rest[0];
      assert f in rest && forall g :: g in rest[1..] ==> g in rest;
      var s1 := s.(frames := s.frames[f := Allocated(pid)], pageTable := s.pageTable[pid := all]);
      PlaceCounters(alg, RecordPage(alg, s1, PageKey(pid, f)), pid, all, rest[1..]);
    }
  }

  /** The release loop touches no counter. */
  lemma {:induction false} ReleaseCounters(alg: Algorithm, s: Engine, pid: nat, rest: seq<nat>)
    ensures var r := Release(alg, s, pid, rest);
            && r.pageFaults == s.pageFaults && r.memoryAccesses == s.memoryAccesses
            && r.pageHits == s.pageHits && r.nextId == s.nextId && r.log == s.log
    decreases |rest|
  {
    if rest != [] {
      var f := rest[0];
      var s1 := if f < |s.frames| then DropMetadata(alg, s.(frames := s.frames[f := Free]), pid) else s;
      ReleaseCounters(alg, s1, pid, rest[1..]);
    }
  }

  /** Placing the chosen frames touches no counter but the id counter, and
      logs one entry. */
  lemma AssignFramesCounters(c: Config, s1: Engine, needed: nat, size: int)
    ensures var r := AssignFrames(c, s1, needed, size).0;
            && r.pageFaults == s1.pageFaults && r.memoryAccesses == s1.memoryAccesses
            && r.pageHits == s1.pageHits && r.nextId == s1.nextId + 1
            && |r.log| == |s1.log| + 1 && s1.log <= r.log
  {
    var free := FreeFrames(s1.frames);
    var chosen := free[..Min(needed, |free|)];
    assert forall f :: f in chosen ==> f in free;
    PlaceCounters(c.algorithm, s1.(nextId := s1.nextId + 1), s1.nextId, chosen, chosen);
  }

  /** Making room counts the evictions and touches no other counter. */
  lemma MakeRoomCounters(alg: Algorithm, s: Engine, needed: nat)
    ensures var r := MakeRoom(alg, s, needed);
            && s.pageFaults <= r.pageFaults
            && r.memoryAccesses == s.memoryAccesses && r.pageHits == s.pageHits
            && r.nextId == s.nextId && r.log == s.log
  {
    var free := FreeFrames(s.frames);
    if |free| < needed {
      ReplacePagesCounters(alg, s, needed - |free|);
    }
  }

  /** `allocate_memory` never turns a counter back, whatever the state. */
  lemma AllocateGrows(c: Config, s: Engine, size: int)
    requires ValidConfig(c) && size > 0
    ensures CountersGrow(s, Allocate(c, s, size).0)
  {
    var needed := PagesNeeded(size, c.pageSize);
    if needed <= TotalFrames(c) {
      var s1 := MakeRoom(c.algorithm, s, needed);
      MakeRoomCounters(c.algorithm, s, needed);
      AssignFramesCounters(c, s1, needed, size);
      GrowsThrough(s, s1, AssignFrames(c, s1, needed, size).0);
    }
  }

  /** CountersGrow is transitive. */
  lemma GrowsThrough(s: Engine, s1: Engine, r: Engine)
    requires CountersGrow(s, s1) && CountersGrow(s1, r)
    ensures CountersGrow(s, r)
  {
  }

  /** `deallocate_memory` never turns a counter back, whatever the state. */
  lemma DeallocateGrows(c: Config, s: Engine, address: int)
    requires ValidConfig(c)
    ensures var r := Deallocate(c, s, address).0;
            && CountersGrow(s, r)
            && r.pageFaults == s.pageFaults && r.memoryAccesses == s.memoryAccesses
            && r.pageHits == s.pageHits
  {
    var frameNum := address / c.pageSize;
    if 0 <= frameNum < |s.frames| && !(s.frames[frameNum].Free? && AllocatedFrames(s.frames) == []) {
      var f := TargetFrame(s, frameNum);
      var pid := s.frames[f].owner;
      var listed := if pid in s.pageTable then s.pageTable[pid] else [];
      var owned := if listed == [] then [f] else listed;
      ReleaseCounters(c.algorithm, s, pid, owned);
    }
  }

  /** `access_memory` never turns a counter back, whatever the state. */
  lemma AccessGrows(c: Config, s: Engine, address: int)
    requires ValidConfig(c) && |s.frames| > 0
    ensures CountersGrow(s, Access(c, s, address).0)
  {
    AccessCounts(c, s, address);
  }

  /** `allocate_memory` keeps the invariant. */
  lemma AllocateKeepsConsistent(c: Config, s: Engine, size: int)
    requires Consistent(c, s) && size > 0
    ensures Consistent(c, Allocate(c, s, size).0)
  {
    if PagesNeeded(size, c.pageSize) <= TotalFrames(c) {
      AllocateSuccess(c, s, size);
    }
  }

  /** `deallocate_memory` keeps the invariant. */
  lemma DeallocateKeepsConsistent(c: Config, s: Engine, address: int)
    requires Consistent(c, s)
    ensures Consistent(c, Deallocate(c, s, address).0)
  {
    var frameNum := address / c.pageSize;
    if 0 <= frameNum < |s.frames| && !(s.frames[frameNum].Free? && AllocatedFrames(s.frames) == []) {
      DeallocateSuccess(c, s, address);
    }
  }

  /** `access_memory` keeps the invariant. */
  lemma AccessKeepsConsistent(c: Config, s: Engine, address: int)
    requires Consistent(c, s)
    ensures Consistent(c, Access(c, s, address).0)
  {
    if s.frames[AccessFrame(address, c.pageSize, |s.frames|)].Allocated? {
      AccessHit(c, s, address);
    } else {
      AccessMiss(c, s, address);
    }
  }

  /** Hits plus faults equal accesses: true of a history without evictions. */
  predicate Balanced(s: Engine) {
    s.pageHits + s.pageFaults == s.memoryAccesses
  }

  /** An access counts itself once, as a hit or as a fault. */
  lemma AccessBalance(c: Config, s: Engine, address: int)
    requires ValidConfig(c) && |s.frames| > 0
    ensures Balanced(Access(c, s, address).0) <==> Balanced(s)
  {
    AccessCounts(c, s, address);
  }

  /** A deallocation counts nothing. */
  lemma DeallocateBalance(c: Config, s: Engine, address: int)
    requires ValidConfig(c)
    ensures Balanced(Deallocate(c, s, address).0) <==> Balanced(s)
  {
    DeallocateGrows(c, s, address);
  }

  /** An allocation on a consistent engine keeps the balance exactly when it
      needs no eviction, because every eviction counts a page fault that no
      access accounts for. */
  lemma AllocateBalance(c: Config, s: Engine, size: int)
    requires Consistent(c, s) && size > 0 && Balanced(s)
    ensures Balanced(Allocate(c, s, size).0) <==>
              PagesNeeded(size, c.pageSize) > TotalFrames(c)
              || PagesNeeded(size, c.pageSize) <= |FreeFrames(s.frames)|
  {
    var needed := PagesNeeded(size, c.pageSize);
    if needed <= TotalFrames(c) {
      var evicted := Max(0, needed - |FreeFrames(s.frames)|);
      var room := MakeRoom(c.algorithm, s, needed);
      AllocateSuccess(c, s, size);
      assert room.pageFaults == s.pageFaults + evicted;
      AssignFramesCounters(c, room, needed, size);
    }
  }
}
