/** What `deallocate_memory` does: every frame of the owner found at the
    address becomes free, the owner leaves the page table and the metadata,
    and nothing else changes. Also: deallocating what was just allocated
    undoes the allocation. */
module EngineDeallocate {
  import opened EngineTypes
  import opened EngineLists
  import opened EngineSpec
  import opened EngineInvariant
  import opened EngineAllocate

  /** r is s after the release loop over the frames `rest` of owner pid:
      those frames and nothing else become free, and pid's keys leave the
      active metadata once any frame was released. */
  ghost predicate ReleasedBy(alg: Algorithm, s: Engine, r: Engine, pid: nat, rest: seq<nat>) {
    && |r.frames| == |s.frames|
    && (forall i {:trigger r.frames[i]} :: 0 <= i < |s.frames| ==>
          r.frames[i] == if i in rest then Free else s.frames[i])
    && r.queue == (if alg == FIFO && rest != [] then DropOwner(s.queue, pid) else s.queue)
    && r.stamps == (if alg == LRU && rest != [] then DropOwnerStamps(s.stamps, pid) else s.stamps)
    && r.pageTable == s.pageTable
    && r.pageFaults == s.pageFaults && r.memoryAccesses == s.memoryAccesses
    && r.pageHits == s.pageHits && r.log == s.log && r.nextId == s.nextId
  }

  /** Releasing the head frame, then the rest, is releasing them all. */
  lemma ReleasedByChain(alg: Algorithm, s: Engine, m: Engine, r: Engine, pid: nat, rest: seq<nat>)
    requires rest != []
    requires ReleasedBy(alg, s, m, pid, [rest[0]]) && ReleasedBy(alg, m, r, pid, rest[1..])
    ensures ReleasedBy(alg, s, r, pid, rest)
  {
    DropOwnerTwice(s.queue, pid);
    DropOwnerStampsTwice(s.stamps, pid);
    forall i | 0 <= i < |s.frames|
      ensures r.frames[i] == if i in rest then Free else s.frames[i]
    {
      assert i in rest <==> i == rest[0] || i in rest[1..];
      assert m.frames[i] == if i in [rest[0]] then Free else s.frames[i];
    }
  }

  /** The release loop in closed form, for frames inside memory. */
  lemma {:induction false} ReleaseEffect(alg: Algorithm, s: Engine, pid: nat, rest: seq<nat>)
    requires forall f :: f in rest ==> f < |s.frames|
    ensures ReleasedBy(alg, s, Release(alg, s, pid, rest), pid, rest)
    decreases |rest|
  {
    if rest != [] {
      var f := rest[0];
      assert f in rest;
      assert forall g :: g in rest[1..] ==> g in rest;
      var s1 := DropMetadata(alg, s.(frames := s.frames[f := Free]), pid);
      assert ReleasedBy(alg, s, s1, pid, [f]);
      ReleaseEffect(alg, s1, pid, rest[1..]);
      ReleasedByChain(alg, s, s1, Release(alg, s1, pid, rest[1..]), pid, rest);
    }
  }

  /** Freeing every frame of one owner, removing it from the page table and
      filtering its keys out of the metadata keeps the invariant. */
  lemma RemoveOwnerConsistent(c: Config, s: Engine, r: Engine, pid: nat)
    requires Consistent(c, s)
    requires |r.frames| == |s.frames|
    requires forall i {:trigger r.frames[i]} :: 0 <= i < |s.frames| ==>
               r.frames[i] == if s.frames[i] == Allocated(pid) then Free else s.frames[i]
    requires r.pageTable == s.pageTable - {pid}
    requires ActiveKeys(c.algorithm, r) == DropOwner(ActiveKeys(c.algorithm, s), pid)
    requires InactiveEmpty(c.algorithm, r)
    requires r.nextId == s.nextId && r.pageHits <= r.memoryAccesses
    ensures Consistent(c, r)
  {
    var pt := s.pageTable;
    var pt' := r.pageTable;
    forall i | 0 <= i < |r.frames| && r.frames[i].Allocated?
      ensures 0 < r.frames[i].owner < r.nextId
    {
      assert r.frames[i] == s.frames[i];
    }
    forall p, f | p in pt' && f in pt'[p]
      ensures f < |r.frames| && r.frames[f] == Allocated(p)
    {
      assert p in pt && f in pt[p] && p != pid;
      assert s.frames[f] == Allocated(p);
    }
    forall i | 0 <= i < |r.frames| && r.frames[i].Allocated?
      ensures r.frames[i].owner in pt' && i in pt'[r.frames[i].owner]
    {
      assert r.frames[i] == s.frames[i];
      assert s.frames[i].owner in pt && i in pt[s.frames[i].owner];
    }
    var keys := ActiveKeys(c.algorithm, s);
    var keys' := ActiveKeys(c.algorithm, r);
    forall k | k in keys'
      ensures k.frame < |r.frames| && r.frames[k.frame] == Allocated(k.owner)
    {
      assert k in keys && k.owner != pid;
      assert s.frames[k.frame] == Allocated(k.owner);
    }
    forall i | 0 <= i < |r.frames| && r.frames[i].Allocated?
      ensures PageKey(r.frames[i].owner, i) in keys'
    {
      assert r.frames[i] == s.frames[i];
      assert PageKey(s.frames[i].owner, i) in keys;
    }
  }

  /** The frame `deallocate_memory` resolves an in-range frame number to: the
      frame itself when it is allocated, otherwise the lowest allocated frame. */
  function TargetFrame(s: Engine, frameNum: nat): (f: nat)
    requires frameNum < |s.frames| && !(s.frames[frameNum].Free? && AllocatedFrames(s.frames) == [])
    ensures f < |s.frames| && s.frames[f].Allocated?
    ensures s.frames[frameNum].Allocated? ==> f == frameNum
    ensures s.frames[frameNum].Free? ==> forall i :: 0 <= i < f ==> s.frames[i].Free?
  {
    if s.frames[frameNum].Free? then
      var taken := AllocatedFrames(s.frames);
      assert taken[0] in taken;
      FramesWithStatus(s.frames, true);
      FramesWithIncreasing(s.frames, true);
      assert forall i :: 0 <= i < |s.frames| && s.frames[i].Allocated? ==> i in taken;
      taken[0]
    else frameNum
  }

  /** The facts DeallocateSuccess states about r: the owner's frames, entry
      and keys are gone, the other metadata entries keep their order and LRU
      times, the deallocation is logged, the invariant holds. */
  ghost predicate RemovedBy(c: Config, s: Engine, r: Engine, pid: nat, entry: Operation) {
    && |r.frames| == |s.frames|
    && (forall i {:trigger r.frames[i]} :: 0 <= i < |s.frames| ==>
          r.frames[i] == if s.frames[i] == Allocated(pid) then Free else s.frames[i])
    && r.pageTable == s.pageTable - {pid}
    && ActiveKeys(c.algorithm, r) == DropOwner(ActiveKeys(c.algorithm, s), pid)
    && r.queue == (if c.algorithm == FIFO then DropOwner(s.queue, pid) else s.queue)
    && r.stamps == (if c.algorithm == LRU then DropOwnerStamps(s.stamps, pid) else s.stamps)
    && r.nextId == s.nextId && r.pageFaults == s.pageFaults
    && r.memoryAccesses == s.memoryAccesses && r.pageHits == s.pageHits
    && r.log == s.log + [entry]
    && Consistent(c, r)
  }

  /** `deallocate_memory(address)` reports an invalid address exactly when the
      frame number is outside memory, and an empty memory exactly when the
      frame is free and no frame at all is allocated; either way nothing
      changes. */
  lemma DeallocateErrors(c: Config, s: Engine, address: int)
    requires ValidConfig(c)
    ensures var frameNum := address / c.pageSize;
            var (r, res) := Deallocate(c, s, address);
            && (res == Err(InvalidAddress) <==> !(0 <= frameNum < |s.frames|))
            && (res == Err(NothingAllocated) <==>
                  0 <= frameNum < |s.frames| && s.frames[frameNum].Free? && AllocatedFrames(s.frames) == [])
            && (res.Err? ==> r == s)
  {
  }

  /** `deallocate_memory(address)` on a consistent engine, at an address inside
      memory while something is allocated: the owner of the resolved frame
      loses all of its frames, its page-table entry and its metadata keys,
      nothing else changes, and the invariant is kept. */
  lemma DeallocateSuccess(c: Config, s: Engine, address: int)
    requires Consistent(c, s)
    requires 0 <= address / c.pageSize < |s.frames|
    requires !(s.frames[address / c.pageSize].Free? && AllocatedFrames(s.frames) == [])
    ensures var f := TargetFrame(s, address / c.pageSize);
            var pid := s.frames[f].owner;
            && pid in s.pageTable
            && Deallocate(c, s, address).1 == Ok(())
            && RemovedBy(c, s, Deallocate(c, s, address).0, pid, DeallocateOp(pid, f * c.pageSize, s.pageTable[pid]))
  {
    var f := TargetFrame(s, address / c.pageSize);
    var pid := s.frames[f].owner;
    var owned := s.pageTable[pid];
    assert owned != [];
    ReleaseEffect(c.algorithm, s, pid, owned);
    var s1 := Release(c.algorithm, s, pid, owned);
    var r := s1.(pageTable := s1.pageTable - {pid}, log := s1.log + [DeallocateOp(pid, f * c.pageSize, owned)]);
    assert Deallocate(c, s, address) == (r, Ok(()));
    forall i | 0 <= i < |s.frames|
      ensures r.frames[i] == if s.frames[i] == Allocated(pid) then Free else s.frames[i]
    {
      assert i in owned <==> s.frames[i] == Allocated(pid);
    }
    RemoveOwnerConsistent(c, s, r, pid);
  }

  /** Taking back from pid exactly the free frames it was given restores the
      frames, the page table and the metadata keys. */
  lemma UndoAssign(alg: Algorithm, room: Engine, r: Engine, back: Engine, pid: nat, chosen: seq<nat>)
    requires forall i :: 0 <= i < |room.frames| ==> room.frames[i] != Allocated(pid)
    requires forall f :: f in chosen ==> f < |room.frames| && room.frames[f] == Free
    requires pid !in room.pageTable
    requires forall k :: k in ActiveKeys(alg, room) ==> k.owner != pid
    requires |r.frames| == |room.frames|
    requires forall i {:trigger r.frames[i]} :: 0 <= i < |r.frames| ==>
               r.frames[i] == if i in chosen then Allocated(pid) else room.frames[i]
    requires r.pageTable == room.pageTable[pid := chosen]
    requires ActiveKeys(alg, r) == ActiveKeys(alg, room) + OwnerKeys(pid, chosen)
    requires |back.frames| == |r.frames|
    requires forall i {:trigger back.frames[i]} :: 0 <= i < |r.frames| ==>
               back.frames[i] == if r.frames[i] == Allocated(pid) then Free else r.frames[i]
    requires back.pageTable == r.pageTable - {pid}
    requires ActiveKeys(alg, back) == DropOwner(ActiveKeys(alg, r), pid)
    ensures back.frames == room.frames
    ensures back.pageTable == room.pageTable
    ensures ActiveKeys(alg, back) == ActiveKeys(alg, room)
  {
    forall i | 0 <= i < |room.frames| ensures back.frames[i] == room.frames[i] {
      assert r.frames[i] == if i in chosen then Allocated(pid) else room.frames[i];
    }
    assert back.pageTable == room.pageTable;
    DropOwnerAppendOwned(ActiveKeys(alg, room), OwnerKeys(pid, chosen), pid);
  }

  /** Deallocating at the address an allocation just returned undoes the
      allocation: frames, page table, metadata keys and counters are as they
      were after replacement made room; only the id counter and the log (one
      allocate and one deallocate entry) have moved on. */
  lemma AllocateThenDeallocate(c: Config, s: Engine, size: int)
    requires Consistent(c, s) && size > 0 && PagesNeeded(size, c.pageSize) <= TotalFrames(c)
    ensures Allocate(c, s, size).1.Ok?
    ensures var room := MakeRoom(c.algorithm, s, PagesNeeded(size, c.pageSize));
            var (r, res) := Allocate(c, s, size);
            var (back, res') := Deallocate(c, r, res.value);
            && PagesNeeded(size, c.pageSize) <= |FreeFrames(room.frames)|
            && res' == Ok(())
            && back.frames == room.frames
            && back.pageTable == room.pageTable
            && ActiveKeys(c.algorithm, back) == ActiveKeys(c.algorithm, room)
            && back.nextId == s.nextId + 1
            && back.pageFaults == room.pageFaults && back.memoryAccesses == room.memoryAccesses
            && back.pageHits == room.pageHits
            && |back.log| == |room.log| + 2 && room.log <= back.log
            && back.log[|room.log|] == AllocateOp(s.nextId, size, FreeFrames(room.frames)[..PagesNeeded(size, c.pageSize)])
            && back.log[|room.log| + 1] == DeallocateOp(s.nextId, res.value, FreeFrames(room.frames)[..PagesNeeded(size, c.pageSize)])
  {
    var needed := PagesNeeded(size, c.pageSize);
    var room := MakeRoom(c.algorithm, s, needed);
    AllocateSuccess(c, s, size);
    var chosen := FreeFrames(room.frames)[..needed];
    var r := Allocate(c, s, size).0;
    ChosenFrames(room.frames, needed);
    UndoAllocation(c, room, r, chosen, size);
  }

  /** Deallocating at the first frame of an assignment takes back exactly
      what the assignment handed out. */
  lemma UndoAllocation(c: Config, room: Engine, r: Engine, chosen: seq<nat>, size: int)
    requires Consistent(c, room) && chosen != []
    requires forall f :: f in chosen ==> f < |room.frames| && room.frames[f] == Free
    requires AssignedBy(c, room, r, chosen, size)
    ensures var (back, res) := Deallocate(c, r, chosen[0] * c.pageSize);
            && res == Ok(())
            && back.frames == room.frames
            && back.pageTable == room.pageTable
            && ActiveKeys(c.algorithm, back) == ActiveKeys(c.algorithm, room)
            && back.nextId == room.nextId + 1
            && back.pageFaults == room.pageFaults && back.memoryAccesses == room.memoryAccesses
            && back.pageHits == room.pageHits
            && back.log == room.log + [AllocateOp(room.nextId, size, chosen),
                                       DeallocateOp(room.nextId, chosen[0] * c.pageSize, chosen)]
  {
    var pid := room.nextId;
    var back := Deallocate(c, r, chosen[0] * c.pageSize).0;
    UndoAllocationRemoves(c, room, r, chosen, size);
    NextIdUnused(c, room);
    UndoAssign(c.algorithm, room, r, back, pid, chosen);
  }

  /** The deallocation in `UndoAllocation` resolves to the assigned owner and
      removes it, logging the assigned frames. */
  lemma UndoAllocationRemoves(c: Config, room: Engine, r: Engine, chosen: seq<nat>, size: int)
    requires Consistent(c, room) && chosen != []
    requires forall f :: f in chosen ==> f < |room.frames| && room.frames[f] == Free
    requires AssignedBy(c, room, r, chosen, size)
    ensures Deallocate(c, r, chosen[0] * c.pageSize).1 == Ok(())
    ensures RemovedBy(c, r, Deallocate(c, r, chosen[0] * c.pageSize).0, room.nextId,
                      DeallocateOp(room.nextId, chosen[0] * c.pageSize, chosen))
    ensures var back := Deallocate(c, r, chosen[0] * c.pageSize).0;
            && back.nextId == room.nextId + 1
            && back.pageFaults == room.pageFaults && back.memoryAccesses == room.memoryAccesses
            && back.pageHits == room.pageHits
            && back.log == room.log + [AllocateOp(room.nextId, size, chosen),
                                       DeallocateOp(room.nextId, chosen[0] * c.pageSize, chosen)]
  {
    var f := chosen[0];
    var pid := room.nextId;
    assert f in chosen;
    MulDivCancel(f, c.pageSize);
    assert TargetFrame(r, f) == f;
    DeallocateSuccess(c, r, f * c.pageSize);
    var back := Deallocate(c, r, f * c.pageSize).0;
    AppendTwice(room.log, r.log, back.log, [AllocateOp(pid, size, chosen)], [DeallocateOp(pid, f * c.pageSize, chosen)]);
  }
}
