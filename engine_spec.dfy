/** The engine's operations as functions from the old state to the new one.
    Each follows the original code branch by branch, fallbacks included, so
    none of them needs the consistency invariant to be defined. */
module EngineSpec {
  import opened EngineTypes
  import opened EngineLists

  /** A fresh engine: every frame free, no metadata, counters at zero, ids from 1. */
  function Initial(c: Config): Engine
    requires ValidConfig(c)
  {
    Engine(seq(TotalFrames(c), _ => Free), map[], [], [], 0, 0, 0, [], 1)
  }

  /** `(size + page_size - 1) // page_size`: the number of pages that hold `size` bytes. */
  function PagesNeeded(size: int, pageSize: nat): (n: nat)
    requires size > 0 && pageSize > 0
    ensures (n - 1) * pageSize < size <= n * pageSize
  {
    var n := (size + pageSize - 1) / pageSize;
    var r := (size + pageSize - 1) % pageSize;
    assert size + pageSize - 1 == n * pageSize + r && 0 <= r < pageSize;
    assert n * pageSize - pageSize == (n - 1) * pageSize;
    n
  }

  /** The victim key recorded by the fallback scan: the lowest allocated frame. */
  function FirstAllocatedVictim(s: Engine): Option<(PageKey, Engine)> {
    var taken := AllocatedFrames(s.frames);
    if taken == [] then None
    else
      FramesWithStatus(s.frames, true);
      Some((PageKey(s.frames[taken[0]].owner, taken[0]), s))
  }

  /** Picks the next victim and takes it out of the replacement metadata:
      the queue head for FIFO, the first entry of minimal time for LRU, the
      lowest allocated frame when the metadata is empty, nothing when no frame
      is allocated either. */
  function PopVictim(alg: Algorithm, s: Engine): Option<(PageKey, Engine)> {
    match alg
    case FIFO =>
      if s.queue == [] then FirstAllocatedVictim(s)
      else Some((s.queue[0], s.(queue := s.queue[1..])))
    case LRU =>
      if s.stamps == [] then FirstAllocatedVictim(s)
      else
        var i := FirstMinIndex(s.stamps);
        Some((s.stamps[i].key, s.(stamps := RemoveAt(s.stamps, i))))
  }

  /** The page table after frame f leaves its owner's list; an owner whose list
      becomes empty leaves the table. */
  function DropFrame(pt: map<nat, seq<nat>>, owner: nat, f: nat): map<nat, seq<nat>> {
    if owner in pt then
      var rest := Without(pt[owner], f);
      if rest == [] then pt - {owner} else pt[owner := rest]
    else pt
  }

  /** Frees the victim's frame, updates the page table and counts a page fault;
      an index outside memory is skipped. */
  function EvictFrame(s: Engine, v: PageKey): Engine {
    if v.frame < |s.frames| then
      s.(frames := s.frames[v.frame := Free],
         pageTable := DropFrame(s.pageTable, v.owner, v.frame),
         pageFaults := s.pageFaults + 1)
    else s
  }

  /** One round of `_replace_pages`: pop a victim and free its frame; no change
      when there is no victim. */
  function EvictVictim(alg: Algorithm, s: Engine): Engine {
    match PopVictim(alg, s)
    case None => s
    case Some(pick) => EvictFrame(pick.1, pick.0)
  }

  /** `_replace_pages(n)`: n rounds of eviction, stopping early when no victim is found. */
  function ReplacePages(alg: Algorithm, s: Engine, n: nat): Engine
    decreases n
  {
    if n == 0 || PopVictim(alg, s).None? then s
    else ReplacePages(alg, EvictVictim(alg, s), n - 1)
  }

  /** Replacement runs only for the shortfall of free frames. */
  function MakeRoom(alg: Algorithm, s: Engine, needed: nat): Engine {
    var free := FreeFrames(s.frames);
    if |free| < needed then ReplacePages(alg, s, needed - |free|) else s
  }

  /** Inserts a key into the active algorithm's metadata: appended to the FIFO
      queue, or set in the LRU dictionary to the current access count. */
  function RecordPage(alg: Algorithm, s: Engine, k: PageKey): Engine {
    match alg
    case FIFO => s.(queue := s.queue + [k])
    case LRU => s.(stamps := SetStamp(s.stamps, k, s.memoryAccesses))
  }

  /** The loop that hands the frames `rest` (a suffix of `all`) to owner `pid`;
      each round also stores `all` as the owner's page-table entry. */
  function Place(alg: Algorithm, s: Engine, pid: nat, all: seq<nat>, rest: seq<nat>): Engine
    requires forall f :: f in rest ==> f < |s.frames|
    decreases |rest|
  {
    if rest == [] then s
    else
      var f := rest[0];
      assert f in rest && forall g :: g in rest[1..] ==> g in rest;
      var s1 := s.(frames := s.frames[f := Allocated(pid)], pageTable := s.pageTable[pid := all]);
      Place(alg, RecordPage(alg, s1, PageKey(pid, f)), pid, all, rest[1..])
  }

  /** The second half of `allocate_memory`, after replacement: the first
      `needed` free frames (all of them, if fewer are free) go to the next id,
      and the allocation is logged; no frame at all is an index error. */
  function AssignFrames(c: Config, s1: Engine, needed: nat, size: int): (Engine, Result<int>) {
    var free := FreeFrames(s1.frames);
    var pid := s1.nextId;
    var chosen := free[..Min(needed, |free|)];
    var s2 := Place(c.algorithm, s1.(nextId := pid + 1), pid, chosen, chosen);
    var s3 := s2.(log := s2.log + [AllocateOp(pid, size, chosen)]);
    if chosen == [] then (s3, Err(NoFrameChosen)) else (s3, Ok(chosen[0] * c.pageSize))
  }

  /** `allocate_memory(size)`: the new state and the base address of the first
      frame handed out, or the error raised. */
  function Allocate(c: Config, s: Engine, size: int): (Engine, Result<int>)
    requires ValidConfig(c) && size > 0
  {
    var needed := PagesNeeded(size, c.pageSize);
    if needed > TotalFrames(c) then (s, Err(CapacityExceeded))
    else AssignFrames(c, MakeRoom(c.algorithm, s, needed), needed, size)
  }

  /** Takes an owner's keys out of the active algorithm's metadata. */
  function DropMetadata(alg: Algorithm, s: Engine, pid: nat): Engine {
    match alg
    case FIFO => s.(queue := DropOwner(s.queue, pid))
    case LRU => s.(stamps := DropOwnerStamps(s.stamps, pid))
  }

  /** The loop that frees the frames `rest` of owner `pid`, dropping the owner's
      metadata at every frame inside memory. */
  function Release(alg: Algorithm, s: Engine, pid: nat, rest: seq<nat>): Engine
    decreases |rest|
  {
    if rest == [] then s
    else
      var f := rest[0];
      var s1 := if f < |s.frames| then DropMetadata(alg, s.(frames := s.frames[f := Free]), pid) else s;
      Release(alg, s1, pid, rest[1..])
  }

  /** `deallocate_memory(address)`. */
  function Deallocate(c: Config, s: Engine, address: int): (Engine, Result<()>)
    requires ValidConfig(c)
  {
    var frameNum := address / c.pageSize;
    if frameNum >= |s.frames| || frameNum < 0 then (s, Err(InvalidAddress))
    else
      var taken := AllocatedFrames(s.frames);
      if s.frames[frameNum].Free? && taken == [] then (s, Err(NothingAllocated))
      else
        var f := if s.frames[frameNum].Free? then taken[0] else frameNum;
        FramesWithStatus(s.frames, true);
        var pid := s.frames[f].owner;
        var listed := if pid in s.pageTable then s.pageTable[pid] else [];
        var owned := if listed == [] then [f] else listed;
        var s1 := Release(c.algorithm, s, pid, owned);
        var s2 := s1.(pageTable := s1.pageTable - {pid},
                      log := s1.log + [DeallocateOp(pid, f * c.pageSize, owned)]);
        (s2, Ok(()))
  }

  /** `_handle_page_fault(f)`: a free frame goes to a brand-new owner. */
  function HandlePageFault(alg: Algorithm, s: Engine, f: nat): Engine
    requires f < |s.frames|
  {
    if s.frames[f].Allocated? then s
    else
      var pid := s.nextId;
      var pt := if pid in s.pageTable then s.pageTable[pid := s.pageTable[pid] + [f]] else s.pageTable[pid := [f]];
      RecordPage(alg, s.(frames := s.frames[f := Allocated(pid)], nextId := pid + 1, pageTable := pt), PageKey(pid, f))
  }

  /** The frame an access resolves to: the addressed one, or the nearest end of
      memory for an address outside it. */
  function AccessFrame(address: int, pageSize: nat, total: nat): (f: nat)
    requires pageSize > 0 && total > 0
    ensures f < total
  {
    var raw := address / pageSize;
    if raw >= total || raw < 0 then Min(Max(0, raw), total - 1) else raw
  }

  /** `access_memory(address)`: the new state and whether it was a hit. */
  function Access(c: Config, s: Engine, address: int): (Engine, bool)
    requires ValidConfig(c) && |s.frames| > 0
  {
    var f := AccessFrame(address, c.pageSize, |s.frames|);
    var s1 := s.(memoryAccesses := s.memoryAccesses + 1);
    if s1.frames[f].Free? then (CountFault(c.algorithm, s1, address, f), false)
    else (CountHit(c.algorithm, s1, address, f), true)
  }

  /** The miss path of `access_memory`: a page fault, the frame handed to a
      fresh process, and the log entry. */
  function CountFault(alg: Algorithm, s1: Engine, address: int, f: nat): Engine
    requires f < |s1.frames|
  {
    var s2 := HandlePageFault(alg, s1.(pageFaults := s1.pageFaults + 1), f);
    s2.(log := s2.log + [AccessOp(address, false)])
  }

  /** The hit path of `access_memory`: a page hit, a fresh LRU stamp, and the log entry. */
  function CountHit(alg: Algorithm, s1: Engine, address: int, f: nat): Engine
    requires f < |s1.frames| && s1.frames[f].Allocated?
  {
    var pid := s1.frames[f].owner;
    var s2 := s1.(pageHits := s1.pageHits + 1);
    var s3 := if alg == LRU then s2.(stamps := SetStamp(s2.stamps, PageKey(pid, f), s2.memoryAccesses)) else s2;
    s3.(log := s3.log + [AccessOp(address, true)])
  }
}
