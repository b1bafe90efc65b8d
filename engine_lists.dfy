/** The list and dictionary helpers the engine's code builds from comprehensions,
    `min`, filters and dictionary updates. */
module EngineLists {
  import opened EngineTypes

  predicate StrictlyIncreasing(xs: seq<nat>) {
    forall i, j :: 0 <= i < j < |xs| ==> xs[i] < xs[j]
  }

  /** No key occurs twice. Stated recursively, head against tail. */
  predicate Distinct(keys: seq<PageKey>)
    decreases |keys|
  {
    keys == [] || (keys[0] !in keys[1..] && Distinct(keys[1..]))
  }

  /** Distinct keys differ at any two positions. */
  lemma {:induction false} DistinctAt(keys: seq<PageKey>, i: nat, j: nat)
    requires Distinct(keys) && i < j < |keys|
    ensures keys[i] != keys[j]
  {
    if i == 0 {
      assert keys[j] == keys[1..][j - 1];
    } else {
      DistinctAt(keys[1..], i - 1, j - 1);
    }
  }

  /** Appending a key not yet present keeps the keys distinct. */
  lemma {:induction false} DistinctAppend(keys: seq<PageKey>, k: PageKey)
    requires Distinct(keys) && k !in keys
    ensures Distinct(keys + [k])
  {
    if keys == [] {
      assert ([] + [k])[1..] == [];
    } else {
      assert (keys + [k])[1..] == keys[1..] + [k];
      DistinctAppend(keys[1..], k);
    }
  }

  /** Indices of the frames whose status is allocated (`inUse`) or free
      (`!inUse`), in ascending order: the comprehension
      `[i for i, f in enumerate(memory) if f['status'] == ...]`. */
  function FramesWith(frames: seq<Frame>, inUse: bool): (r: seq<nat>)
    ensures forall k :: 0 <= k < |r| ==> r[k] < |frames|
    ensures forall i {:trigger i in r} :: 0 <= i < |frames| && frames[i].Allocated? == inUse ==> i in r
  {
    if frames == [] then []
    else
      var n := |frames| - 1;
      var front := FramesWith(frames[..n], inUse);
      assert forall k :: 0 <= k < |front| ==> front[k] < n;
      front + (if frames[n].Allocated? == inUse then [n] else [])
  }

  /** The scan lists only frames with the requested status. */
  lemma {:induction false} FramesWithStatus(frames: seq<Frame>, inUse: bool)
    ensures forall k :: 0 <= k < |FramesWith(frames, inUse)| ==>
              frames[FramesWith(frames, inUse)[k]].Allocated? == inUse
  {
    if frames != [] {
      var n := |frames| - 1;
      var front := FramesWith(frames[..n], inUse);
      FramesWithStatus(frames[..n], inUse);
      var r := FramesWith(frames, inUse);
      assert r == front + (if frames[n].Allocated? == inUse then [n] else []);
      forall k | 0 <= k < |r|
        ensures frames[r[k]].Allocated? == inUse
      {
        if k < |front| {
          assert r[k] == front[k] && front[k] < n;
          assert frames[front[k]] == frames[..n][front[k]];
        }
      }
    }
  }

  /** The scan lists indices in ascending order. */
  lemma {:induction false} FramesWithIncreasing(frames: seq<Frame>, inUse: bool)
    ensures StrictlyIncreasing(FramesWith(frames, inUse))
  {
    if frames != [] {
      FramesWithIncreasing(frames[..|frames| - 1], inUse);
    }
  }

  function FreeFrames(frames: seq<Frame>): seq<nat> { FramesWith(frames, false) }

  function AllocatedFrames(frames: seq<Frame>): seq<nat> { FramesWith(frames, true) }

  /** Every frame is counted exactly once, as free or as allocated. */
  lemma {:induction false} FreePlusAllocated(frames: seq<Frame>)
    ensures |FreeFrames(frames)| + |AllocatedFrames(frames)| == |frames|
  {
    if frames != [] {
      FreePlusAllocated(frames[..|frames| - 1]);
    }
  }

  /** Memory with every frame free has no allocated frame. */
  lemma {:induction false} AllFreeNoneAllocated(frames: seq<Frame>)
    requires forall i :: 0 <= i < |frames| ==> frames[i] == Free
    ensures AllocatedFrames(frames) == []
  {
    if frames != [] {
      AllFreeNoneAllocated(frames[..|frames| - 1]);
    }
  }

  /** Changing one frame changes the number of allocated frames by at most one,
      in the direction of the change. */
  lemma {:induction false} AllocatedAfterUpdate(frames: seq<Frame>, i: nat, v: Frame)
    requires i < |frames|
    ensures |AllocatedFrames(frames[i := v])|
         == |AllocatedFrames(frames)| - (if frames[i].Allocated? then 1 else 0) + (if v.Allocated? then 1 else 0)
  {
    var n := |frames| - 1;
    var updated := frames[i := v];
    assert updated[..n] == if i < n then frames[..n][i := v] else frames[..n];
    if i < n {
      AllocatedAfterUpdate(frames[..n], i, v);
    }
  }

  /** `[f for f in xs if f != x]`. */
  function Without(xs: seq<nat>, x: nat): (r: seq<nat>)
    ensures forall y :: y in r <==> y in xs && y != x
    ensures |r| <= |xs|
  {
    if xs == [] then []
    else
      var rest := Without(xs[1..], x);
      if xs[0] == x then rest else [xs[0]] + rest
  }

  /** `min(items, key=time)`: the index of the smallest time, the earliest entry on ties. */
  function FirstMinIndex(stamps: seq<Stamp>): (r: nat)
    requires stamps != []
    ensures r < |stamps|
    ensures forall j :: 0 <= j < |stamps| ==> stamps[r].time <= stamps[j].time
    ensures forall j :: 0 <= j < r ==> stamps[r].time < stamps[j].time
  {
    if |stamps| == 1 then 0
    else
      var n := |stamps| - 1;
      var k := FirstMinIndex(stamps[..n]);
      if stamps[n].time < stamps[k].time then n else k
  }

  /** Keys of the LRU dictionary, in insertion order. */
  function StampKeys(stamps: seq<Stamp>): (r: seq<PageKey>)
    ensures |r| == |stamps| && forall i {:trigger r[i]} :: 0 <= i < |stamps| ==> r[i] == stamps[i].key
  {
    seq(|stamps|, i requires 0 <= i < |stamps| => stamps[i].key)
  }

  /** Position of a key in the LRU dictionary, if present. */
  function KeyIndex(stamps: seq<Stamp>, k: PageKey): (r: Option<nat>)
    ensures r.None? <==> k !in StampKeys(stamps)
    ensures r.Some? ==> r.value < |stamps| && stamps[r.value].key == k
  {
    if stamps == [] then None
    else
      assert StampKeys(stamps) == [stamps[0].key] + StampKeys(stamps[1..]);
      if stamps[0].key == k then Some(0)
      else
      match KeyIndex(stamps[1..], k)
      case None => None
      case Some(j) => Some(j + 1)
  }

  /** The keys of two dictionaries laid end to end. */
  lemma StampKeysAppend(a: seq<Stamp>, b: seq<Stamp>)
    ensures StampKeys(a + b) == StampKeys(a) + StampKeys(b)
  {
    var l := StampKeys(a + b);
    var r := StampKeys(a) + StampKeys(b);
    forall i | 0 <= i < |l| ensures l[i] == r[i] {
      if i < |a| {
        assert r[i] == StampKeys(a)[i];
      } else {
        assert r[i] == StampKeys(b)[i - |a|];
      }
    }
  }

  /** `d[k] = t` on an insertion-ordered dictionary: an existing key keeps its
      position and gets the new time, a new key goes last. */
  function SetStamp(stamps: seq<Stamp>, k: PageKey, t: nat): (r: seq<Stamp>)
    ensures StampKeys(r) == if k in StampKeys(stamps) then StampKeys(stamps) else StampKeys(stamps) + [k]
    ensures k !in StampKeys(stamps) ==> r == stamps + [Stamp(k, t)]
    ensures k in StampKeys(stamps) ==>
              exists j :: 0 <= j < |stamps| && stamps[j].key == k && r == stamps[j := Stamp(k, t)]
  {
    match KeyIndex(stamps, k)
    case Some(j) =>
      var r := stamps[j := Stamp(k, t)];
      assert StampKeys(r) == StampKeys(stamps) by {
        forall i | 0 <= i < |r| ensures StampKeys(r)[i] == StampKeys(stamps)[i] { }
      }
      r
    case None =>
      StampKeysAppend(stamps, [Stamp(k, t)]);
      stamps + [Stamp(k, t)]
  }

  /** `(owner, f)` for each frame f of fs, in order: the keys an allocation adds. */
  function OwnerKeys(owner: nat, fs: seq<nat>): (r: seq<PageKey>)
    ensures |r| == |fs|
    ensures forall k :: k in r <==> k.owner == owner && k.frame in fs
  {
    if fs == [] then [] else [PageKey(owner, fs[0])] + OwnerKeys(owner, fs[1..])
  }

  /** The LRU entries an allocation adds: one per frame, all with time t. */
  function OwnerStamps(owner: nat, fs: seq<nat>, t: nat): (r: seq<Stamp>)
    ensures StampKeys(r) == OwnerKeys(owner, fs)
  {
    if fs == [] then []
    else
      var rest := OwnerStamps(owner, fs[1..], t);
      StampKeysAppend([Stamp(PageKey(owner, fs[0]), t)], rest);
      [Stamp(PageKey(owner, fs[0]), t)] + rest
  }

  /** Adding an owner's keys for distinct frames, none of them present yet,
      keeps the keys distinct. */
  lemma {:induction false} DistinctAppendOwner(keys: seq<PageKey>, owner: nat, fs: seq<nat>)
    requires Distinct(keys) && StrictlyIncreasing(fs)
    requires forall k :: k in keys && k.owner == owner ==> k.frame !in fs
    ensures Distinct(keys + OwnerKeys(owner, fs))
    decreases |fs|
  {
    if fs != [] {
      var k0 := PageKey(owner, fs[0]);
      assert fs[0] in fs;
      DistinctAppend(keys, k0);
      OwnerFramesShift(keys, owner, fs);
      IncreasingTail(fs);
      DistinctAppendOwner(keys + [k0], owner, fs[1..]);
      AppendOwnerKeysCons(keys, owner, fs);
    } else {
      assert keys + OwnerKeys(owner, fs) == keys;
    }
  }

  /** The owner's keys for fs, the head frame's first. */
  lemma AppendOwnerKeysCons(keys: seq<PageKey>, owner: nat, fs: seq<nat>)
    requires fs != []
    ensures (keys + [PageKey(owner, fs[0])]) + OwnerKeys(owner, fs[1..]) == keys + OwnerKeys(owner, fs)
  {
    assert OwnerKeys(owner, fs) == [PageKey(owner, fs[0])] + OwnerKeys(owner, fs[1..]);
  }

  /** The tail of a strictly increasing sequence is strictly increasing. */
  lemma IncreasingTail(fs: seq<nat>)
    requires fs != [] && StrictlyIncreasing(fs)
    ensures StrictlyIncreasing(fs[1..])
  {
    forall i, j | 0 <= i < j < |fs| - 1 ensures fs[1..][i] < fs[1..][j] {
      assert fs[1..][i] == fs[i + 1] && fs[1..][j] == fs[j + 1];
    }
  }

  /** After the head frame's key joins the keys, the owner's keys avoid the
      remaining frames. */
  lemma OwnerFramesShift(keys: seq<PageKey>, owner: nat, fs: seq<nat>)
    requires fs != [] && StrictlyIncreasing(fs)
    requires forall k :: k in keys && k.owner == owner ==> k.frame !in fs
    ensures forall k :: k in keys + [PageKey(owner, fs[0])] && k.owner == owner ==> k.frame !in fs[1..]
  {
    forall k | k in keys + [PageKey(owner, fs[0])] && k.owner == owner ensures k.frame !in fs[1..] {
      if k in keys {
        assert forall g :: g in fs[1..] ==> g in fs;
      } else {
        forall j | 0 <= j < |fs[1..]| ensures fs[1..][j] != fs[0] {
          assert fs[1..][j] == fs[j + 1];
        }
      }
    }
  }

  /** Removes the entry at position i. */
  function RemoveAt<T>(s: seq<T>, i: nat): (r: seq<T>)
    requires i < |s|
    ensures |r| == |s| - 1
    ensures forall j {:trigger r[j]} :: 0 <= j < i ==> r[j] == s[j]
    ensures forall j {:trigger r[j]} :: i <= j < |r| ==> r[j] == s[j + 1]
  {
    s[..i] + s[i + 1..]
  }

  /** In a list without repeats, removing position i removes exactly keys[i]. */
  lemma {:induction false} RemoveAtDistinct(keys: seq<PageKey>, i: nat)
    requires i < |keys| && Distinct(keys)
    ensures Distinct(RemoveAt(keys, i))
    ensures forall k :: k in RemoveAt(keys, i) <==> k in keys && k != keys[i]
  {
    var r := RemoveAt(keys, i);
    if i == 0 {
      assert r == keys[1..];
    } else {
      var tail := RemoveAt(keys[1..], i - 1);
      RemoveAtDistinct(keys[1..], i - 1);
      assert r == [keys[0]] + tail;
      assert keys[i] == keys[1..][i - 1];
      assert r[1..] == tail;
    }
  }

  lemma StampKeysRemoveAt(stamps: seq<Stamp>, i: nat)
    requires i < |stamps|
    ensures StampKeys(RemoveAt(stamps, i)) == RemoveAt(StampKeys(stamps), i)
  {
  }

  /** `deque([p for p in queue if p[0] != owner])`. */
  function DropOwner(keys: seq<PageKey>, owner: nat): (r: seq<PageKey>)
    ensures forall k :: k in r <==> k in keys && k.owner != owner
    ensures Distinct(keys) ==> Distinct(r)
  {
    if keys == [] then []
    else
      var rest := DropOwner(keys[1..], owner);
      assert forall k :: k in rest ==> k in keys[1..];
      if keys[0].owner == owner then rest
      else
        assert ([keys[0]] + rest)[1..] == rest;
        [keys[0]] + rest
  }

  /** The filter keeps the surviving keys in their order: filtering a
      concatenation filters each part and concatenates the results. */
  lemma {:induction false} DropOwnerAppend(xs: seq<PageKey>, ys: seq<PageKey>, owner: nat)
    ensures DropOwner(xs + ys, owner) == DropOwner(xs, owner) + DropOwner(ys, owner)
  {
    if xs != [] {
      assert (xs + ys)[0] == xs[0];
      assert (xs + ys)[1..] == xs[1..] + ys;
      DropOwnerAppend(xs[1..], ys, owner);
    } else {
      assert xs + ys == ys;
    }
  }

  /** Filtering an owner out of its own keys leaves nothing. */
  lemma {:induction false} DropOwnerAllOwned(b: seq<PageKey>, owner: nat)
    requires forall k :: k in b ==> k.owner == owner
    ensures DropOwner(b, owner) == []
  {
    if b != [] {
      assert b[0] in b && forall k :: k in b[1..] ==> k in b;
      DropOwnerAllOwned(b[1..], owner);
    }
  }

  /** Filtering out an owner that owns exactly the keys appended at the end
      gives back the front. */
  lemma {:induction false} DropOwnerAppendOwned(a: seq<PageKey>, b: seq<PageKey>, owner: nat)
    requires forall k :: k in a ==> k.owner != owner
    requires forall k :: k in b ==> k.owner == owner
    ensures DropOwner(a + b, owner) == a
  {
    if a == [] {
      assert a + b == b;
      DropOwnerAllOwned(b, owner);
    } else {
      assert (a + b)[0] == a[0] && (a + b)[1..] == a[1..] + b;
      assert a[0] in a && forall k :: k in a[1..] ==> k in a;
      DropOwnerAppendOwned(a[1..], b, owner);
      assert [a[0]] + a[1..] == a;
    }
  }

  /** The LRU dictionary without the keys of one owner, order kept. */
  function DropOwnerStamps(stamps: seq<Stamp>, owner: nat): (r: seq<Stamp>)
    ensures StampKeys(r) == DropOwner(StampKeys(stamps), owner)
  {
    if stamps == [] then []
    else
      var rest := DropOwnerStamps(stamps[1..], owner);
      assert StampKeys(stamps[1..]) == StampKeys(stamps)[1..];
      if stamps[0].key.owner == owner then rest
      else
        assert StampKeys([stamps[0]] + rest) == [stamps[0].key] + StampKeys(rest);
        [stamps[0]] + rest
  }

  /** `del d[key]` leaves the other entries alone: exactly the entries of
      other owners survive, each with its own time. */
  lemma {:induction false} DropOwnerStampsEntries(stamps: seq<Stamp>, owner: nat)
    ensures forall e :: e in DropOwnerStamps(stamps, owner) <==> e in stamps && e.key.owner != owner
  {
    if stamps != [] {
      DropOwnerStampsEntries(stamps[1..], owner);
      assert forall e :: e in stamps <==> e == stamps[0] || e in stamps[1..];
    }
  }

  /** Filtering an owner out twice is filtering it out once. */
  lemma {:induction false} DropOwnerTwice(keys: seq<PageKey>, owner: nat)
    ensures DropOwner(DropOwner(keys, owner), owner) == DropOwner(keys, owner)
  {
    if keys != [] {
      DropOwnerTwice(keys[1..], owner);
      if keys[0].owner != owner {
        var d := DropOwner(keys, owner);
        assert d[0] == keys[0] && d[1..] == DropOwner(keys[1..], owner);
      }
    }
  }

  lemma {:induction false} DropOwnerStampsTwice(stamps: seq<Stamp>, owner: nat)
    ensures DropOwnerStamps(DropOwnerStamps(stamps, owner), owner) == DropOwnerStamps(stamps, owner)
  {
    if stamps != [] {
      DropOwnerStampsTwice(stamps[1..], owner);
      if stamps[0].key.owner != owner {
        var d := DropOwnerStamps(stamps, owner);
        assert d[0] == stamps[0] && d[1..] == DropOwnerStamps(stamps[1..], owner);
      }
    }
  }
}
