/** What `access_memory` does: an access to an allocated frame is a hit that
    refreshes the page's LRU time; an access to a free frame is a page fault
    that hands the frame to a brand-new owner. Either way the invariant holds. */
module EngineAccess {
  import opened EngineTypes
  import opened EngineLists
  import opened EngineSpec
  import opened EngineInvariant
  import opened EngineAllocate

  /** Addresses inside memory name their own frame; those below it go to frame
      0 and those above it to the last frame. */
  lemma AccessFrameClamps(address: int, pageSize: nat, total: nat)
    requires pageSize > 0 && total > 0
    ensures var raw := address / pageSize;
            var f := AccessFrame(address, pageSize, total);
            && (0 <= raw < total ==> f == raw)
            && (raw < 0 ==> f == 0)
            && (raw >= total ==> f == total - 1)
  {
  }

  /** Every access is counted, and counted as exactly one of a hit (the frame
      was allocated) or a page fault (it was free); the log records it. */
  lemma AccessCounts(c: Config, s: Engine, address: int)
    requires ValidConfig(c) && |s.frames| > 0
    ensures var f := AccessFrame(address, c.pageSize, |s.frames|);
            var (r, hit) := Access(c, s, address);
            && (hit <==> s.frames[f].Allocated?)
            && r.memoryAccesses == s.memoryAccesses + 1
            && r.pageHits == s.pageHits + (if hit then 1 else 0)
            && r.pageFaults == s.pageFaults + (if hit then 0 else 1)
            && r.log == s.log + [AccessOp(address, hit)]
  {
  }

  /** A hit on a consistent engine changes no frame, no page-table entry and no
      key order; under LRU the page's entry keeps its place and gets the new
      access count as its time. */
  lemma AccessHit(c: Config, s: Engine, address: int)
    requires Consistent(c, s)
    requires s.frames[AccessFrame(address, c.pageSize, |s.frames|)].Allocated?
    ensures var f := AccessFrame(address, c.pageSize, |s.frames|);
            var k := PageKey(s.frames[f].owner, f);
            var (r, hit) := Access(c, s, address);
            && hit
            && r.frames == s.frames && r.pageTable == s.pageTable && r.nextId == s.nextId
            && ActiveKeys(c.algorithm, r) == ActiveKeys(c.algorithm, s)
            && (c.algorithm == FIFO ==> r.queue == s.queue)
            && (c.algorithm == LRU ==>
                  exists j :: 0 <= j < |s.stamps| && s.stamps[j].key == k
                              && r.stamps == s.stamps[j := Stamp(k, s.memoryAccesses + 1)])
            && Consistent(c, r)
  {
    var f := AccessFrame(address, c.pageSize, |s.frames|);
    var k := PageKey(s.frames[f].owner, f);
    assert k in ActiveKeys(c.algorithm, s);
  }

  /** A page fault on a consistent engine hands the free frame to the next id:
      one new page-table entry, one new key at the end of the metadata (with
      the new access count as its LRU time), and the invariant holds. */
  lemma AccessMiss(c: Config, s: Engine, address: int)
    requires Consistent(c, s)
    requires s.frames[AccessFrame(address, c.pageSize, |s.frames|)].Free?
    ensures var f := AccessFrame(address, c.pageSize, |s.frames|);
            var pid := s.nextId;
            var k := PageKey(pid, f);
            var (r, hit) := Access(c, s, address);
            && !hit
            && r.frames == s.frames[f := Allocated(pid)]
            && pid !in s.pageTable && r.pageTable == s.pageTable[pid := [f]]
            && r.nextId == pid + 1
            && ActiveKeys(c.algorithm, r) == ActiveKeys(c.algorithm, s) + [k]
            && (c.algorithm == LRU ==> r.stamps == s.stamps + [Stamp(k, s.memoryAccesses + 1)])
            && Consistent(c, r)
  {
    var f := AccessFrame(address, c.pageSize, |s.frames|);
    var pid := s.nextId;
    var k := PageKey(pid, f);
    NextIdUnused(c, s);
    var r := Access(c, s, address).0;
    assert [f][1..] == [];
    assert OwnerKeys(pid, [f]) == [k];
    if c.algorithm == LRU {
      assert k !in StampKeys(s.stamps);
      StampKeysAppend(s.stamps, [Stamp(k, s.memoryAccesses + 1)]);
    }
    AddOwnerConsistent(c, s, r, [f]);
  }
}
