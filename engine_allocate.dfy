/** What `allocate_memory` does to a consistent engine: replacement makes room
    for the shortfall, the lowest free frames go to a fresh owner id, the
    metadata gains one key per frame, and the invariant is kept. */
module EngineAllocate {
  import opened EngineTypes
  import opened EngineLists
  import opened EngineSpec
  import opened EngineInvariant

  /** r is s after the placement loop handed the frames `rest` to owner pid:
      those frames and nothing else change owner, the page table holds `all`
      for pid, the metadata gains pid's keys in frame order, counters stay. */
  ghost predicate PlacedBy(alg: Algorithm, s: Engine, r: Engine, pid: nat, all: seq<nat>, rest: seq<nat>) {
    && |r.frames| == |s.frames|
    && (forall i {:trigger r.frames[i]} :: 0 <= i < |s.frames| ==>
          r.frames[i] == if i in rest then Allocated(pid) else s.frames[i])
    && r.pageTable == (if rest == [] then s.pageTable else s.pageTable[pid := all])
    && r.queue == (if alg == FIFO then s.queue + OwnerKeys(pid, rest) else s.queue)
    && r.stamps == (if alg == LRU then s.stamps + OwnerStamps(pid, rest, s.memoryAccesses) else s.stamps)
    && r.pageFaults == s.pageFaults && r.memoryAccesses == s.memoryAccesses
    && r.pageHits == s.pageHits && r.log == s.log && r.nextId == s.nextId
  }

  /** Appending a, then b, appends a + b. */
  lemma AppendTwice<T>(q0: seq<T>, q1: seq<T>, q2: seq<T>, a: seq<T>, b: seq<T>)
    requires q1 == q0 + a && q2 == q1 + b
    ensures q2 == q0 + (a + b)
  {
  }

  /** The keys of a head frame followed by those of the rest. */
  lemma OwnerKeysCons(pid: nat, rest: seq<nat>)
    requires rest != []
    ensures OwnerKeys(pid, [rest[0]]) == [PageKey(pid, rest[0])]
    ensures OwnerKeys(pid, rest) == [PageKey(pid, rest[0])] + OwnerKeys(pid, rest[1..])
  {
    assert [rest[0]][1..] == [];
  }

  /** The LRU entries of a head frame followed by those of the rest. */
  lemma OwnerStampsCons(pid: nat, rest: seq<nat>, t: nat)
    requires rest != []
    ensures OwnerStamps(pid, [rest[0]], t) == [Stamp(PageKey(pid, rest[0]), t)]
    ensures OwnerStamps(pid, rest, t) == [Stamp(PageKey(pid, rest[0]), t)] + OwnerStamps(pid, rest[1..], t)
  {
    assert [rest[0]][1..] == [];
  }

  /** Placing the head frame, then the rest, is placing them all. */
  lemma PlacedByChain(alg: Algorithm, s: Engine, m: Engine, r: Engine, pid: nat, all: seq<nat>, rest: seq<nat>)
    requires rest != []
    requires PlacedBy(alg, s, m, pid, all, [rest[0]]) && PlacedBy(alg, m, r, pid, all, rest[1..])
    ensures PlacedBy(alg, s, r, pid, all, rest)
  {
    if alg == FIFO {
      QueueChain(s.queue, m.queue, r.queue, pid, rest);
    } else {
      StampsChain(s.stamps, m.stamps, r.stamps, pid, rest, s.memoryAccesses);
    }
    FramesChain(s.frames, m.frames, r.frames, pid, rest);
    TableChain(s.pageTable, m.pageTable, r.pageTable, pid, all, rest[1..]);
  }

  /** The page-table part of PlacedByChain: storing `all` again changes nothing. */
  lemma TableChain(t0: map<nat, seq<nat>>, t1: map<nat, seq<nat>>, t2: map<nat, seq<nat>>, pid: nat, all: seq<nat>, tail: seq<nat>)
    requires t1 == t0[pid := all] && t2 == (if tail == [] then t1 else t1[pid := all])
    ensures t2 == t0[pid := all]
  {
    assert t1[pid := all] == t1;
  }

  /** The FIFO part of PlacedByChain. */
  lemma QueueChain(q0: seq<PageKey>, q1: seq<PageKey>, q2: seq<PageKey>, pid: nat, rest: seq<nat>)
    requires rest != []
    requires q1 == q0 + OwnerKeys(pid, [rest[0]]) && q2 == q1 + OwnerKeys(pid, rest[1..])
    ensures q2 == q0 + OwnerKeys(pid, rest)
  {
    OwnerKeysCons(pid, rest);
    AppendTwice(q0, q1, q2, OwnerKeys(pid, [rest[0]]), OwnerKeys(pid, rest[1..]));
  }

  /** The LRU part of PlacedByChain. */
  lemma StampsChain(q0: seq<Stamp>, q1: seq<Stamp>, q2: seq<Stamp>, pid: nat, rest: seq<nat>, t: nat)
    requires rest != []
    requires q1 == q0 + OwnerStamps(pid, [rest[0]], t) && q2 == q1 + OwnerStamps(pid, rest[1..], t)
    ensures q2 == q0 + OwnerStamps(pid, rest, t)
  {
    OwnerStampsCons(pid, rest, t);
    AppendTwice(q0, q1, q2, OwnerStamps(pid, [rest[0]], t), OwnerStamps(pid, rest[1..], t));
  }

  /** The frames part of PlacedByChain. */
  lemma FramesChain(s: seq<Frame>, m: seq<Frame>, r: seq<Frame>, pid: nat, rest: seq<nat>)
    requires rest != [] && |m| == |s| && |r| == |m|
    requires forall i {:trigger m[i]} :: 0 <= i < |s| ==> m[i] == if i in [rest[0]] then Allocated(pid) else s[i]
    requires forall i {:trigger r[i]} :: 0 <= i < |m| ==> r[i] == if i in rest[1..] then Allocated(pid) else m[i]
    ensures forall i {:trigger r[i]} :: 0 <= i < |s| ==> r[i] == if i in rest then Allocated(pid) else s[i]
  {
    forall i | 0 <= i < |s|
      ensures r[i] == if i in rest then Allocated(pid) else s[i]
    {
      assert i in rest <==> i == rest[0] || i in rest[1..];
      assert m[i] == if i in [rest[0]] then Allocated(pid) else s[i];
    }
  }

  /** The placement loop in closed form, for distinct frames whose keys are
      not in the LRU table yet. */
  lemma {:induction false} PlaceEffect(alg: Algorithm, s: Engine, pid: nat, all: seq<nat>, rest: seq<nat>)
    requires forall f :: f in rest ==> f < |s.frames|
    requires StrictlyIncreasing(rest)
    requires alg == LRU ==> forall k :: k in StampKeys(s.stamps) && k.owner == pid ==> k.frame !in rest
    ensures PlacedBy(alg, s, Place(alg, s, pid, all, rest), pid, all, rest)
    decreases |rest|
  {
    if rest != [] {
      var f := rest[0];
      var tail := rest[1..];
      var t := s.memoryAccesses;
      var k := PageKey(pid, f);
      assert f in rest;
      assert forall g :: g in tail ==> g in rest;
      assert f !in tail by {
        forall j | 0 <= j < |tail| ensures tail[j] != f {
          assert tail[j] == rest[j + 1];
        }
      }
      assert StrictlyIncreasing(tail) by {
        forall i, j | 0 <= i < j < |tail| ensures tail[i] < tail[j] {
          assert tail[i] == rest[i + 1] && tail[j] == rest[j + 1];
        }
      }
      var s1 := s.(frames := s.frames[f := Allocated(pid)], pageTable := s.pageTable[pid := all]);
      var s2 := RecordPage(alg, s1, k);
      OwnerKeysCons(pid, rest);
      OwnerStampsCons(pid, rest, t);
      if alg == LRU {
        assert k !in StampKeys(s.stamps);
        assert s2.stamps == s.stamps + [Stamp(k, t)];
        StampKeysAppend(s.stamps, [Stamp(k, t)]);
        assert StampKeys(s2.stamps) == StampKeys(s.stamps) + [k];
      }
      assert PlacedBy(alg, s, s2, pid, all, [f]);
      PlaceEffect(alg, s2, pid, all, tail);
      PlacedByChain(alg, s, s2, Place(alg, s2, pid, all, tail), pid, all, rest);
    }
  }

  /** Under the invariant the next id owns nothing: no frame, no page-table
      entry, no metadata key. */
  lemma NextIdUnused(c: Config, s: Engine)
    requires Consistent(c, s)
    ensures s.nextId !in s.pageTable
    ensures forall k :: k in ActiveKeys(c.algorithm, s) ==> k.owner < s.nextId
    ensures forall i :: 0 <= i < |s.frames| && s.frames[i].Allocated? ==> s.frames[i].owner < s.nextId
  {
    var keys := ActiveKeys(c.algorithm, s);
    forall p | p in s.pageTable ensures p < s.nextId {
      var l := s.pageTable[p];
      assert l[0] in l;
    }
    forall k | k in keys ensures k.owner < s.nextId {
      assert s.frames[k.frame] == Allocated(k.owner);
    }
  }

  /** Handing distinct free frames fs to the next id, recording them in the
      page table and appending their keys to the metadata keeps the invariant. */
  lemma AddOwnerConsistent(c: Config, s: Engine, r: Engine, fs: seq<nat>)
    requires Consistent(c, s) && fs != [] && StrictlyIncreasing(fs)
    requires forall f :: f in fs ==> f < |s.frames| && s.frames[f] == Free
    requires |r.frames| == |s.frames|
    requires forall i {:trigger r.frames[i]} :: 0 <= i < |s.frames| ==>
               r.frames[i] == if i in fs then Allocated(s.nextId) else s.frames[i]
    requires r.pageTable == s.pageTable[s.nextId := fs]
    requires ActiveKeys(c.algorithm, r) == ActiveKeys(c.algorithm, s) + OwnerKeys(s.nextId, fs)
    requires InactiveEmpty(c.algorithm, r)
    requires r.nextId == s.nextId + 1 && r.pageHits <= r.memoryAccesses
    ensures Consistent(c, r)
  {
    var pid := s.nextId;
    var pt := s.pageTable;
    var pt' := r.pageTable;
    NextIdUnused(c, s);
    // ownership
    forall i | 0 <= i < |r.frames| && r.frames[i].Allocated?
      ensures 0 < r.frames[i].owner < r.nextId
    {
      if i !in fs {
        assert r.frames[i] == s.frames[i];
      }
    }
    // page table
    forall p | p in pt' ensures pt'[p] != [] {
      if p != pid {
        assert pt'[p] == pt[p];
      }
    }
    forall p, f | p in pt' && f in pt'[p]
      ensures f < |r.frames| && r.frames[f] == Allocated(p)
    {
      if p != pid {
        assert p in pt && f in pt[p];
        assert s.frames[f] == Allocated(p);
        assert f !in fs;
      }
    }
    forall i | 0 <= i < |r.frames| && r.frames[i].Allocated?
      ensures r.frames[i].owner in pt' && i in pt'[r.frames[i].owner]
    {
      if i !in fs {
        assert r.frames[i] == s.frames[i];
        assert s.frames[i].owner in pt && i in pt[s.frames[i].owner];
      }
    }
    // metadata
    var keys := ActiveKeys(c.algorithm, s);
    var keys' := ActiveKeys(c.algorithm, r);
    DistinctAppendOwner(keys, pid, fs);
    forall k | k in keys'
      ensures k.frame < |r.frames| && r.frames[k.frame] == Allocated(k.owner)
    {
      if k in keys {
        assert s.frames[k.frame] == Allocated(k.owner);
        assert k.frame !in fs;
      } else {
        assert k in OwnerKeys(pid, fs);
      }
    }
    forall i | 0 <= i < |r.frames| && r.frames[i].Allocated?
      ensures PageKey(r.frames[i].owner, i) in keys'
    {
      if i in fs {
        assert PageKey(pid, i) in OwnerKeys(pid, fs);
      } else {
        assert r.frames[i] == s.frames[i];
        assert PageKey(s.frames[i].owner, i) in keys;
      }
    }
  }

  /** `allocate_memory(size)` refuses a request for more frames than memory
      has, and changes nothing then. */
  lemma AllocateRejects(c: Config, s: Engine, size: int)
    requires ValidConfig(c) && size > 0
    ensures Allocate(c, s, size).1 == Err(CapacityExceeded) <==> PagesNeeded(size, c.pageSize) > TotalFrames(c)
    ensures PagesNeeded(size, c.pageSize) > TotalFrames(c) ==> Allocate(c, s, size).0 == s
  {
  }

  /** The first `needed` free frames are distinct, free, inside memory and
      below every free frame left out. */
  lemma ChosenFrames(frames: seq<Frame>, needed: nat)
    requires needed <= |FreeFrames(frames)|
    ensures var chosen := FreeFrames(frames)[..needed];
            && StrictlyIncreasing(chosen)
            && (forall f :: f in chosen ==> f < |frames| && frames[f] == Free)
            && forall i, j :: i in chosen && 0 <= j < |frames| && frames[j] == Free && j !in chosen ==> i < j
  {
    var free := FreeFrames(frames);
    var chosen := free[..needed];
    FramesWithIncreasing(frames, false);
    FramesWithStatus(frames, false);
    assert forall j :: 0 <= j < |chosen| ==> chosen[j] == free[j];
    forall i, j | i in chosen && 0 <= j < |frames| && frames[j] == Free && j !in chosen
      ensures i < j
    {
      var a :| 0 <= a < needed && chosen[a] == i;
      assert j in free;
      var b :| 0 <= b < |free| && free[b] == j;
    }
  }

  /** With at least `needed` free frames, `AssignFrames` places exactly the
      lowest `needed` of them and reports the first one's address. */
  lemma AssignFramesUnfold(c: Config, s: Engine, needed: nat, size: int)
    requires 1 <= needed <= |FreeFrames(s.frames)|
    ensures var chosen := FreeFrames(s.frames)[..needed];
            var pid := s.nextId;
            var s2 := Place(c.algorithm, s.(nextId := pid + 1), pid, chosen, chosen);
            AssignFrames(c, s, needed, size) == (s2.(log := s2.log + [AllocateOp(pid, size, chosen)]), Ok(chosen[0] * c.pageSize))
  {
  }

  /** The facts AssignFramesEffect states, about r = the placed state plus
      the log entry. */
  ghost predicate AssignedBy(c: Config, s: Engine, r: Engine, chosen: seq<nat>, size: int) {
    var pid := s.nextId;
    && StrictlyIncreasing(chosen)
    && pid !in s.pageTable && r.pageTable == s.pageTable[pid := chosen]
    && |r.frames| == |s.frames|
    && (forall i {:trigger r.frames[i]} :: 0 <= i < |r.frames| ==>
          r.frames[i] == if i in chosen then Allocated(pid) else s.frames[i])
    && ActiveKeys(c.algorithm, r) == ActiveKeys(c.algorithm, s) + OwnerKeys(pid, chosen)
    && r.queue == (if c.algorithm == FIFO then s.queue + OwnerKeys(pid, chosen) else s.queue)
    && r.stamps == (if c.algorithm == LRU then s.stamps + OwnerStamps(pid, chosen, s.memoryAccesses) else s.stamps)
    && r.nextId == pid + 1
    && r.pageFaults == s.pageFaults && r.memoryAccesses == s.memoryAccesses && r.pageHits == s.pageHits
    && r.log == s.log + [AllocateOp(pid, size, chosen)]
    && Consistent(c, r)
  }

  /** The placement of `chosen` in closed form, plus the log entry, is an
      assignment that keeps the invariant. */
  lemma PlacedAssigned(c: Config, s: Engine, placed: Engine, chosen: seq<nat>, size: int)
    requires Consistent(c, s) && chosen != []
    requires StrictlyIncreasing(chosen) && forall f :: f in chosen ==> f < |s.frames| && s.frames[f] == Free
    requires PlacedBy(c.algorithm, s.(nextId := s.nextId + 1), placed, s.nextId, chosen, chosen)
    ensures AssignedBy(c, s, placed.(log := placed.log + [AllocateOp(s.nextId, size, chosen)]), chosen, size)
  {
    var pid := s.nextId;
    var r := placed.(log := placed.log + [AllocateOp(pid, size, chosen)]);
    NextIdUnused(c, s);
    if c.algorithm == LRU {
      StampKeysAppend(s.stamps, OwnerStamps(pid, chosen, s.memoryAccesses));
    }
    AddOwnerConsistent(c, s, r, chosen);
  }

  /** Handing out the lowest `needed` free frames of a consistent engine that
      has that many: the address is the first one's, they go to the next id in
      the page table, frames and metadata, the id advances, the allocation is
      logged, and the invariant is kept. */
  lemma AssignFramesEffect(c: Config, s: Engine, needed: nat, size: int)
    requires Consistent(c, s) && 1 <= needed <= |FreeFrames(s.frames)|
    ensures var chosen := FreeFrames(s.frames)[..needed];
            && AssignFrames(c, s, needed, size).1 == Ok(chosen[0] * c.pageSize)
            && AssignedBy(c, s, AssignFrames(c, s, needed, size).0, chosen, size)
  {
    var chosen := FreeFrames(s.frames)[..needed];
    var pid := s.nextId;
    var s1 := s.(nextId := pid + 1);
    ChosenFrames(s.frames, needed);
    NextIdUnused(c, s);
    PlaceEffect(c.algorithm, s1, pid, chosen, chosen);
    AssignFramesUnfold(c, s, needed, size);
    PlacedAssigned(c, s, Place(c.algorithm, s1, pid, chosen, chosen), chosen, size);
  }

  /** `allocate_memory(size)` on a consistent engine, for a request that fits
      in memory: replacement evicts exactly the shortfall of free frames
      (counting one page fault each), after which the request always gets
      its frames. */
  lemma AllocateSuccess(c: Config, s: Engine, size: int)
    requires Consistent(c, s) && size > 0 && PagesNeeded(size, c.pageSize) <= TotalFrames(c)
    ensures var needed := PagesNeeded(size, c.pageSize);
            var room := MakeRoom(c.algorithm, s, needed);
            && EvictedBy(c, s, room, Max(0, needed - |FreeFrames(s.frames)|))
            && needed <= |FreeFrames(room.frames)|
            && Allocate(c, s, size) == AssignFrames(c, room, needed, size)
            && var chosen := FreeFrames(room.frames)[..needed];
               && Allocate(c, s, size).1 == Ok(chosen[0] * c.pageSize)
               && AssignedBy(c, room, Allocate(c, s, size).0, chosen, size)
  {
    var needed := PagesNeeded(size, c.pageSize);
    MakeRoomEffect(c, s, needed);
    AssignFramesEffect(c, MakeRoom(c.algorithm, s, needed), needed, size);
  }
}
