/** Values of the paged-memory simulator: its configuration, the frames, the
    replacement metadata keys, the operation log and the whole engine state. */
module EngineTypes {

  datatype Option<T> = None | Some(value: T)

  /** Error kinds raised by the engine (as ValueError/IndexError in the original). */
  datatype Error =
    | CapacityExceeded   // allocation needs more frames than memory has
    | InvalidAddress     // deallocation address outside memory
    | NothingAllocated   // deallocation while every frame is free
    | NoFrameChosen      // allocation found no free frame to hand out (index error)

  datatype Result<T> = Ok(value: T) | Err(error: Error)

  /** 'segmentation' is a label only: it changes no behaviour. */
  datatype Technique = Paging | Segmentation

  datatype Algorithm = FIFO | LRU

  datatype Config = Config(technique: Technique, memorySize: nat, pageSize: nat, algorithm: Algorithm)

  /** What the web layer checks before it builds an engine. */
  predicate ValidConfig(c: Config) {
    0 < c.memorySize <= 4096 && 0 < c.pageSize <= 512 && c.memorySize % c.pageSize == 0
  }

  /** Number of frames; a valid configuration has at least one and covers memory exactly. */
  function TotalFrames(c: Config): (n: nat)
    requires ValidConfig(c)
    ensures 1 <= n && n * c.pageSize == c.memorySize
  {
    var n := c.memorySize / c.pageSize;
    assert c.memorySize == n * c.pageSize + c.memorySize % c.pageSize;
    n
  }

  /** One slot of simulated physical memory: free, or allocated to an owner id. */
  datatype Frame = Free | Allocated(owner: nat)

  /** Key of the replacement metadata: an (owner id, frame index) pair. */
  datatype PageKey = PageKey(owner: nat, frame: nat)

  /** One entry of the LRU table, which is a dictionary kept in insertion order. */
  datatype Stamp = Stamp(key: PageKey, time: nat)

  datatype Operation =
    | AllocateOp(owner: nat, size: int, frames: seq<nat>)
    | DeallocateOp(owner: nat, address: int, frames: seq<nat>)
    | AccessOp(address: int, hit: bool)

  /** The whole mutable state of one engine. */
  datatype Engine = Engine(
    frames: seq<Frame>,
    pageTable: map<nat, seq<nat>>,
    queue: seq<PageKey>,   // FIFO metadata, oldest first
    stamps: seq<Stamp>,    // LRU metadata, in dictionary insertion order
    pageFaults: nat,
    memoryAccesses: nat,
    pageHits: nat,
    log: seq<Operation>,
    nextId: nat)

  /** A nonzero multiple of p is at least p in size. */
  lemma {:induction false} MulBounds(d: int, p: int)
    requires p > 0
    ensures d >= 1 ==> d * p >= p
    ensures d <= -1 ==> d * p <= -p
    decreases if d >= 0 then d else -d
  {
    if d > 1 {
      MulBounds(d - 1, p);
      assert d * p == (d - 1) * p + p;
    } else if d < -1 {
      MulBounds(d + 1, p);
      assert d * p == (d + 1) * p - p;
    }
  }

  /** Dividing f * p by p gives f back. */
  lemma MulDivCancel(f: int, p: int)
    requires p > 0
    ensures (f * p) / p == f
  {
    var q := (f * p) / p;
    var m := (f * p) % p;
    assert f * p == q * p + m && 0 <= m < p;
    assert (f - q) * p == m;
    MulBounds(f - q, p);
  }

  function Min(a: int, b: int): int { if a <= b then a else b }
  function Max(a: int, b: int): int { if a >= b then a else b }
}
