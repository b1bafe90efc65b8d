/** The engine's consistency invariant: frame ownership, the page table and the
    active replacement metadata describe the same allocations. Also: eviction
    keeps it and frees exactly one allocated frame per round. */
module EngineInvariant {
  import opened EngineTypes
  import opened EngineLists
  import opened EngineSpec

  /** The keys of the metadata the configured algorithm uses, oldest first. */
  function ActiveKeys(alg: Algorithm, s: Engine): seq<PageKey> {
    match alg
    case FIFO => s.queue
    case LRU => StampKeys(s.stamps)
  }

  /** The metadata of the other algorithm is never written. */
  predicate InactiveEmpty(alg: Algorithm, s: Engine) {
    match alg
    case FIFO => s.stamps == []
    case LRU => s.queue == []
  }

  /** Owner ids in use were handed out before: ids start at 1 and stay below next_id. */
  ghost predicate OwnersFresh(s: Engine) {
    forall i :: 0 <= i < |s.frames| && s.frames[i].Allocated? ==> 0 < s.frames[i].owner < s.nextId
  }

  /** Frame i is allocated to p exactly when i is in p's (non-empty) page-table list. */
  ghost predicate TableExact(frames: seq<Frame>, pt: map<nat, seq<nat>>) {
    && (forall p :: p in pt ==> pt[p] != [])
    && (forall p, f {:trigger f in pt[p]} :: p in pt && f in pt[p] ==> f < |frames| && frames[f] == Allocated(p))
    && (forall i :: 0 <= i < |frames| && frames[i].Allocated? ==> frames[i].owner in pt && i in pt[frames[i].owner])
  }

  /** (p, i) is a metadata key, at most once, exactly when frame i is allocated to p. */
  ghost predicate MetaExact(frames: seq<Frame>, keys: seq<PageKey>) {
    && Distinct(keys)
    && (forall k {:trigger k in keys} :: k in keys ==> k.frame < |frames| && frames[k.frame] == Allocated(k.owner))
    && (forall i :: 0 <= i < |frames| && frames[i].Allocated? ==> PageKey(frames[i].owner, i) in keys)
  }

  ghost predicate Consistent(c: Config, s: Engine) {
    && ValidConfig(c)
    && |s.frames| == TotalFrames(c)
    && 1 <= s.nextId
    && s.pageHits <= s.memoryAccesses
    && OwnersFresh(s)
    && TableExact(s.frames, s.pageTable)
    && MetaExact(s.frames, ActiveKeys(c.algorithm, s))
    && InactiveEmpty(c.algorithm, s)
  }

  /** A new engine is consistent. */
  lemma InitialConsistent(c: Config)
    requires ValidConfig(c)
    ensures Consistent(c, Initial(c))
    ensures AllocatedFrames(Initial(c).frames) == []
  {
    var s := Initial(c);
    assert forall i :: 0 <= i < |s.frames| ==> s.frames[i] == Free;
    assert ActiveKeys(c.algorithm, s) == [];
    AllFreeNoneAllocated(s.frames);
  }

  /** Under the invariant the metadata is empty exactly when no frame is allocated. */
  lemma MetadataEmptyIffNothingAllocated(c: Config, s: Engine)
    requires Consistent(c, s)
    ensures ActiveKeys(c.algorithm, s) == [] <==> AllocatedFrames(s.frames) == []
  {
    var keys := ActiveKeys(c.algorithm, s);
    var taken := AllocatedFrames(s.frames);
    if taken != [] {
      var i := taken[0];
      FramesWithStatus(s.frames, true);
      assert PageKey(s.frames[i].owner, i) in keys;
    }
    if keys != [] {
      assert keys[0] in keys;
      assert keys[0].frame in taken;
    }
  }

  /** Evicting the key at position idx of the metadata keeps frames, table and
      metadata in agreement. */
  lemma EvictKeyExact(frames: seq<Frame>, pt: map<nat, seq<nat>>, keys: seq<PageKey>, idx: nat)
    requires TableExact(frames, pt) && MetaExact(frames, keys) && idx < |keys| && keys[idx].frame < |frames|
    ensures TableExact(frames[keys[idx].frame := Free], DropFrame(pt, keys[idx].owner, keys[idx].frame))
    ensures MetaExact(frames[keys[idx].frame := Free], RemoveAt(keys, idx))
  {
    var k := keys[idx];
    assert k in keys;
    var frames' := frames[k.frame := Free];
    var pt' := DropFrame(pt, k.owner, k.frame);
    assert k.owner in pt && k.frame in pt[k.owner];
    var rest := Without(pt[k.owner], k.frame);
    assert pt' == if rest == [] then pt - {k.owner} else pt[k.owner := rest];
    forall p | p in pt'
      ensures p in pt && pt'[p] != []
      ensures forall f :: f in pt'[p] ==> f in pt[p] && f != k.frame
    {
      if p == k.owner {
        assert pt'[p] == rest;
      } else {
        assert pt'[p] == pt[p];
        forall f | f in pt[p] ensures f != k.frame {
          assert frames[f] == Allocated(p);
        }
      }
    }
    forall i | 0 <= i < |frames'| && frames'[i].Allocated?
      ensures frames'[i].owner in pt' && i in pt'[frames'[i].owner]
    {
      assert i != k.frame && frames[i] == frames'[i];
      var p := frames[i].owner;
      if p == k.owner {
        assert i in Without(pt[p], k.frame);
      }
    }
    assert forall p :: p in pt' ==> pt'[p] != [];
    forall p, f | p in pt' && f in pt'[p]
      ensures f < |frames'| && frames'[f] == Allocated(p)
    {
      assert p in pt && f in pt[p] && f != k.frame;
      assert f < |frames| && frames[f] == Allocated(p);
    }
    assert forall i :: 0 <= i < |frames'| && frames'[i].Allocated? ==> frames'[i].owner in pt' && i in pt'[frames'[i].owner];
    RemoveAtDistinct(keys, idx);
    var keys' := RemoveAt(keys, idx);
    forall k' | k' in keys'
      ensures k'.frame < |frames'| && frames'[k'.frame] == Allocated(k'.owner)
    {
      assert k' in keys && k' != k;
    }
    forall i | 0 <= i < |frames'| && frames'[i].Allocated?
      ensures PageKey(frames'[i].owner, i) in keys'
    {
      assert i != k.frame;
    }
  }

  /** Under the invariant, with some frame allocated, replacement finds a
      victim in the metadata (the FIFO queue head, or the earliest-inserted LRU
      entry of least time), the victim's frame was allocated to it, that
      frame alone becomes free, and the victim alone leaves the metadata. */
  lemma VictimChoice(c: Config, s: Engine)
    requires Consistent(c, s) && AllocatedFrames(s.frames) != []
    ensures ActiveKeys(c.algorithm, s) != []
    ensures PopVictim(c.algorithm, s).Some?
    ensures var v := PopVictim(c.algorithm, s).value.0;
            && (c.algorithm == FIFO ==> v == s.queue[0])
            && (c.algorithm == LRU ==> s.stamps != [] && v == s.stamps[FirstMinIndex(s.stamps)].key)
            && v.frame < |s.frames| && s.frames[v.frame] == Allocated(v.owner)
            && EvictVictim(c.algorithm, s).frames == s.frames[v.frame := Free]
    ensures c.algorithm == FIFO ==>
              EvictVictim(c.algorithm, s).queue == s.queue[1..] && EvictVictim(c.algorithm, s).stamps == s.stamps
    ensures c.algorithm == LRU ==>
              EvictVictim(c.algorithm, s).stamps == RemoveAt(s.stamps, FirstMinIndex(s.stamps))
              && EvictVictim(c.algorithm, s).queue == s.queue
  {
    MetadataEmptyIffNothingAllocated(c, s);
    var keys := ActiveKeys(c.algorithm, s);
    if c.algorithm == FIFO {
      assert keys[0] in keys;
    } else {
      var i := FirstMinIndex(s.stamps);
      assert keys[i] == s.stamps[i].key && keys[i] in keys;
    }
  }

  /** r is s after n evictions: the invariant holds, n fewer frames are
      allocated, n more page faults are counted, and nothing else moved. */
  ghost predicate EvictedBy(c: Config, s: Engine, r: Engine, n: nat) {
    && Consistent(c, r)
    && |AllocatedFrames(r.frames)| + n == |AllocatedFrames(s.frames)|
    && r.pageFaults == s.pageFaults + n
    && r.nextId == s.nextId && r.memoryAccesses == s.memoryAccesses
    && r.pageHits == s.pageHits && r.log == s.log
  }

  /** One eviction followed by n - 1 more is n evictions. */
  lemma EvictedByChain(c: Config, s: Engine, s': Engine, r: Engine, n: nat)
    requires 0 < n
    ensures EvictedBy(c, s, s', 1) && EvictedBy(c, s', r, n - 1) ==> EvictedBy(c, s, r, n)
  {
  }

  /** One round of replacement under the invariant frees exactly one allocated
      frame, counts one page fault and keeps the invariant. */
  lemma EvictOne(c: Config, s: Engine)
    requires Consistent(c, s) && AllocatedFrames(s.frames) != []
    ensures PopVictim(c.algorithm, s).Some?
    ensures EvictedBy(c, s, EvictVictim(c.algorithm, s), 1)
  {
    VictimChoice(c, s);
    var keys := ActiveKeys(c.algorithm, s);
    var idx: nat := if c.algorithm == FIFO then 0 else FirstMinIndex(s.stamps);
    match c.algorithm {
      case FIFO =>
        assert s.queue[1..] == RemoveAt(s.queue, 0);
      case LRU =>
        StampKeysRemoveAt(s.stamps, idx);
    }
    var pick := PopVictim(c.algorithm, s).value;
    assert pick.0 == keys[idx];
    assert ActiveKeys(c.algorithm, pick.1) == RemoveAt(keys, idx);
    EvictKeyExact(s.frames, s.pageTable, keys, idx);
    AllocatedAfterUpdate(s.frames, keys[idx].frame, Free);
  }

  lemma ReplacePagesStep(alg: Algorithm, s: Engine, n: nat)
    requires n > 0 && PopVictim(alg, s).Some?
    ensures ReplacePages(alg, s, n) == ReplacePages(alg, EvictVictim(alg, s), n - 1)
  {
  }

  /** `_replace_pages(n)` with n no larger than the number of allocated frames
      evicts exactly n frames, counts n page faults and keeps the invariant. */
  lemma {:induction false} ReplacePagesEffect(c: Config, s: Engine, n: nat)
    requires Consistent(c, s) && n <= |AllocatedFrames(s.frames)|
    ensures EvictedBy(c, s, ReplacePages(c.algorithm, s, n), n)
    decreases n, 2
  {
    if n > 0 {
      ReplacePagesRound(c, s, n);
    }
  }

  /** The inductive step of ReplacePagesEffect: one eviction, then n - 1 more. */
  lemma {:induction false} ReplacePagesRound(c: Config, s: Engine, n: nat)
    requires Consistent(c, s) && 0 < n <= |AllocatedFrames(s.frames)|
    ensures EvictedBy(c, s, ReplacePages(c.algorithm, s, n), n)
    decreases n, 1
  {
    EvictOne(c, s);
    ReplacePagesStep(c.algorithm, s, n);
    RoundTail(c, s, EvictVictim(c.algorithm, s), n);
  }

  /** The rest of a round: n - 1 evictions after the first one. */
  lemma {:induction false} RoundTail(c: Config, s: Engine, s': Engine, n: nat)
    requires 0 < n <= |AllocatedFrames(s.frames)|
    requires EvictedBy(c, s, s', 1)
    requires ReplacePages(c.algorithm, s, n) == ReplacePages(c.algorithm, s', n - 1)
    ensures EvictedBy(c, s, ReplacePages(c.algorithm, s, n), n)
    decreases n, 0
  {
    ReplacePagesEffect(c, s', n - 1);
    EvictedByChain(c, s, s', ReplacePages(c.algorithm, s', n - 1), n);
  }

  /** Replacement before an allocation of `needed` frames evicts exactly the
      shortfall, so afterwards exactly max(free, needed) frames are free. */
  lemma MakeRoomEffect(c: Config, s: Engine, needed: nat)
    requires Consistent(c, s) && needed <= TotalFrames(c)
    ensures var r := MakeRoom(c.algorithm, s, needed);
            var free := |FreeFrames(s.frames)|;
            && EvictedBy(c, s, r, Max(0, needed - free))
            && |FreeFrames(r.frames)| == Max(free, needed)
  {
    var free := |FreeFrames(s.frames)|;
    FreePlusAllocated(s.frames);
    if free < needed {
      ReplacePagesEffect(c, s, needed - free);
      FreePlusAllocated(ReplacePages(c.algorithm, s, needed - free).frames);
    } else {
      assert EvictedBy(c, s, s, 0);
    }
  }
}
