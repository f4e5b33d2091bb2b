/** Module initialisation: every block is set up, then the driver starts with no file open. */
module CmemInit {
  import opened Common
  import opened HeapBlocks
  import opened HeapMem
  import opened CmemState
  import opened CmemInvariant
  import opened CmemSetup
  import opened CmemDriver

  const MAX_POOLS: nat := 4

  /**
   One block as the module parameters give it: `length` bytes of physical memory at `start`, whether they could be
   reserved, and where they were mapped, 0 when that failed.
   */
  datatype BlockParam = BlockParam(start: nat, length: nat, reserved: bool, virtp: nat, table: seq<PoolRequest>) {
    function PhysExtent(): Block { Block(start, length) }
    function VirtExtent(): Block { Block(virtp, length) }
    /** Entries of the pool table it takes: its pools, and its heap when memory is left. */
    function NumEntries(): nat { |table| + (if TableSpan(table) < length then 1 else 0) }

    predicate Mapped() { start != 0 && reserved && virtp != 0 }

    /** Why the block cannot be set up. */
    function Failure(): Option<Errno> {
      if start == 0 then Some(EINVAL)
      else if !reserved || virtp == 0 then Some(EFAULT)
      else if TableSpan(table) > length then Some(ENOMEM)
      else None
    }
  }

  /** What the kernel grants of memory that was mapped. */
  ghost predicate UsableParam(p: BlockParam) {
    && SignedTable(p.table)
    && (p.Mapped() ==>
          && p.virtp % PAGE_SIZE == 0 && p.length % PAGE_SIZE == 0
          && p.virtp + p.length < WORD && p.length < 0x8000_0000)
  }

  ghost predicate DisjointParams(ps: seq<BlockParam>) {
    forall i, j | 0 <= i < j < |ps| && ps[i].Mapped() && ps[j].Mapped() :: ParamsApart(ps[i], ps[j])
  }

  ghost predicate ParamsApart(p: BlockParam, q: BlockParam) {
    Apart(p.PhysExtent(), q.PhysExtent()) && Apart(p.VirtExtent(), q.VirtExtent())
  }

  ghost predicate ParamSetUp(p: BlockParam, bc: BlockConfig, pools: seq<Pool>, free: seq<Block>) {
    p.Mapped() && BlockSetUp(p.virtp, p.virtp - p.start, p.length, p.table, bc, pools, free)
  }

  /** The first failure, in block order. */
  function FirstFailure(ps: seq<BlockParam>): Option<Errno> {
    if ps == [] then None
    else if ps[0].Failure().Some? then ps[0].Failure()
    else FirstFailure(ps[1..])
  }

  lemma {:induction false} FirstFailureIsFirst(ps: seq<BlockParam>) returns (i: nat)
    ensures i <= |ps| && forall j | 0 <= j < i :: ps[j].Failure() == None
    ensures FirstFailure(ps) == if i < |ps| then ps[i].Failure() else None
    ensures i < |ps| ==> ps[i].Failure() != None
    decreases |ps|
  {
    if ps == [] || ps[0].Failure().Some? {
      i := 0;
    } else {
      var k := FirstFailureIsFirst(ps[1..]);
      i := k + 1;
    }
  }

  /** Too many pools for some block are noticed before anything is set up. */
  predicate TooManyPools(ps: seq<BlockParam>) {
    exists i | 0 <= i < |ps| :: |ps[i].table| > MAX_POOLS
  }

  // ----- Entries of the pool table -----

  /** Where the entry `[bi][i]` of the pool table lies, counted in entries: rows follow one another. */
  function Entry(bi: nat, i: nat): nat { bi * MAX_POOLS + i }

  ghost predicate InUse(cfg: Config, bi: nat, i: nat) {
    bi < |cfg| && i < cfg[bi].NumPools()
  }

  /** The pools set up, heaps included, have different entries, and all of them lie in the table. */
  ghost predicate EntriesApart(cfg: Config) {
    && (forall bi, i | InUse(cfg, bi, i) :: Entry(bi, i) < NBLOCKS * MAX_POOLS)
    && (forall bi, i, bj, j | InUse(cfg, bi, i) && InUse(cfg, bj, j) && (bi, i) != (bj, j) ::
          Entry(bi, i) != Entry(bj, j))
  }

  predicate RowsFit(n: seq<nat>) {
    |n| == 2 ==> n[1] <= MAX_POOLS && (n[1] > 0 ==> n[0] <= MAX_POOLS)
  }

  function Counts(cfg: Config): seq<nat> {
    seq(|cfg|, i requires 0 <= i < |cfg| => cfg[i].NumPools())
  }

  /** No block has as many pools as a row has entries and memory left for a heap, unless nothing follows that row. */
  predicate RoomForHeaps(ps: seq<BlockParam>) {
    RowsFit(seq(|ps|, i requires 0 <= i < |ps| => ps[i].NumEntries()))
  }

  /** The heap entry of the first block is the first entry of the second block's row when the first row is full. */
  lemma EntriesApartIff(cfg: Config)
    requires |cfg| <= NBLOCKS && forall bi | 0 <= bi < |cfg| :: |cfg[bi].pools| <= MAX_POOLS
    ensures EntriesApart(cfg) <==> RowsFit(Counts(cfg))
  {
    if |cfg| == 2 && cfg[1].NumPools() > MAX_POOLS {
      assert InUse(cfg, 1, MAX_POOLS) && Entry(1, MAX_POOLS) == NBLOCKS * MAX_POOLS;
    } else if |cfg| == 2 && cfg[1].NumPools() > 0 && cfg[0].NumPools() > MAX_POOLS {
      assert InUse(cfg, 0, MAX_POOLS) && InUse(cfg, 1, 0) && Entry(0, MAX_POOLS) == Entry(1, 0);
    }
  }

  lemma RoomIffApart(ps: seq<BlockParam>, cfg: Config)
    requires |ps| == |cfg| <= NBLOCKS
    requires forall i | 0 <= i < |cfg| :: |cfg[i].pools| <= MAX_POOLS && cfg[i].NumPools() == ps[i].NumEntries()
    ensures EntriesApart(cfg) <==> RoomForHeaps(ps)
  {
    EntriesApartIff(cfg);
    assert Counts(cfg) == seq(|ps|, i requires 0 <= i < |ps| => ps[i].NumEntries());
  }

  // ----- Initialisation -----

  method InitialiseBlock(p: BlockParam) returns (e: Option<Errno>, bc: BlockConfig, pools: seq<Pool>, heap: Heap)
    requires UsableParam(p)
    ensures e == p.Failure()
    ensures e == Some(EINVAL) <==> p.start == 0
    ensures e == Some(EFAULT) <==> p.start != 0 && (!p.reserved || p.virtp == 0)
    ensures e == Some(ENOMEM) <==> p.Mapped() && TableSpan(p.table) > p.length
    ensures fresh(heap)
    ensures e.None? ==> ParamSetUp(p, bc, pools, heap.blocks) && HeapMatches(heap, bc, heap.blocks)
  {
    heap := new Heap(PAGE_SIZE, 0);
    bc, pools := BlockConfig(0, 0, 0, [], 0), [];
    if p.start == 0 {
      return Some(EINVAL), bc, pools, heap;
    }
    if !p.reserved || p.virtp == 0 {
      return Some(EFAULT), bc, pools, heap;
    }
    var setup := new BlockSetup(p.virtp, p.virtp - p.start, p.length);
    var r := setup.InitBlock(p.table);
    if r.None? {
      return Some(ENOMEM), bc, pools, heap;
    }
    return None, r.value.0, r.value.1, r.value.2;
  }

  /**
   It succeeds exactly when every block can be set up, and reports the first failure else. The driver then starts
   soundly, each pool with an entry of its own, if and only if no pool has buffers of no size and no heap's entry
   falls outside its block's row of the pool table onto another entry or behind the table.
   */
  method Initialise(ps: seq<BlockParam>, useHeap: bool) returns (r: Result<Driver>)
    requires |ps| <= NBLOCKS && (forall i | 0 <= i < |ps| :: UsableParam(ps[i])) && DisjointParams(ps)
    ensures TooManyPools(ps) ==> r == Err(EINVAL)
    ensures !TooManyPools(ps) ==> if FirstFailure(ps).Some? then r == Err(FirstFailure(ps).value) else r.Ok?
    ensures r.Ok? ==> fresh(r.value) && r.value.open == {} && |r.value.cfg| == |ps|
    ensures r.Ok? ==> (EntriesApart(r.value.cfg) <==> RoomForHeaps(ps))
    ensures r.Ok? ==> (r.value.Valid() && EntriesApart(r.value.cfg) <==>
                         RoomForHeaps(ps) && forall i | 0 <= i < |ps| :: SoundTable(ps[i].table))
    ensures r.Ok? ==> |r.value.pools| == |r.value.lists| == |ps| && forall i | 0 <= i < |ps| ::
      ParamSetUp(ps[i], r.value.cfg[i], r.value.pools[i], r.value.lists[i])
  {
    var k := 0;
    while k < |ps|
      invariant 0 <= k <= |ps| && forall i | 0 <= i < k :: |ps[i].table| <= MAX_POOLS
    {
      if |ps[k].table| > MAX_POOLS {
        return Err(EINVAL);
      }
      k := k + 1;
    }
    var e, cfg, heaps, pools, lists := InitialiseBlocks(ps);
    if e.Some? {
      return Err(e.value);
    }
    InitialConfigValid(ps, cfg, pools, lists);
    RoomIffApart(ps, cfg);
    var d := new Driver(cfg, heaps, pools, useHeap, lists);
    r := Ok(d);
  }

  method InitialiseBlocks(ps: seq<BlockParam>)
    returns (e: Option<Errno>, cfg: Config, heaps: seq<Heap>, pools: seq<seq<Pool>>, ghost lists: seq<seq<Block>>)
    requires forall i | 0 <= i < |ps| :: UsableParam(ps[i])
    ensures e == FirstFailure(ps)
    ensures e.None? ==> |ps| == |cfg| == |heaps| == |pools| == |lists|
    ensures e.None? ==> forall i | 0 <= i < |ps| :: ParamSetUp(ps[i], cfg[i], pools[i], lists[i])
    ensures e.None? ==> forall i | 0 <= i < |ps| :: HeapMatches(heaps[i], cfg[i], lists[i])
    ensures e.None? ==> forall i, j | 0 <= i < j < |ps| :: heaps[i] != heaps[j]
  {
    e, cfg, heaps, pools, lists := None, [], [], [], [];
    var bi := 0;
    while bi < |ps|
      invariant 0 <= bi == |cfg| == |heaps| == |pools| == |lists| <= |ps|
      invariant FirstFailure(ps) == FirstFailure(ps[bi..])
      invariant forall i | 0 <= i < bi :: ParamSetUp(ps[i], cfg[i], pools[i], lists[i])
      invariant forall i | 0 <= i < bi :: HeapMatches(heaps[i], cfg[i], lists[i])
      invariant forall i, j | 0 <= i < j < bi :: heaps[i] != heaps[j]
    {
      assert ps[bi..][1..] == ps[bi + 1..];
      var failure, bc, blockPools, heap := InitialiseBlock(ps[bi]);
      if failure.Some? {
        return failure, cfg, heaps, pools, lists;
      }
      cfg, heaps, pools := cfg + [bc], heaps + [heap], pools + [blockPools];
      lists := lists + [heap.blocks];
      bi := bi + 1;
    }
  }

  lemma InitialConfigValid(ps: seq<BlockParam>, cfg: Config, pools: seq<seq<Pool>>, lists: seq<seq<Block>>)
    requires |ps| == |cfg| == |pools| == |lists| && DisjointParams(ps)
    requires forall i | 0 <= i < |ps| :: ParamSetUp(ps[i], cfg[i], pools[i], lists[i])
    ensures ValidConfig(cfg) <==> forall i | 0 <= i < |ps| :: SoundTable(ps[i].table)
    ensures forall i | 0 <= i < |cfg| :: |cfg[i].pools| == |ps[i].table| && cfg[i].NumPools() == ps[i].NumEntries()
    ensures forall i | 0 <= i < |cfg| :: BlockOk(cfg[i], pools[i], lists[i], {})
  {
    forall i | 0 <= i < |cfg|
      ensures (ValidBlock(cfg[i]) <==> SoundTable(ps[i].table)) && BlockOk(cfg[i], pools[i], lists[i], {})
      ensures |cfg[i].pools| == |ps[i].table| && cfg[i].NumPools() == ps[i].NumEntries()
      ensures cfg[i].Extent() == ps[i].PhysExtent() && cfg[i].VirtExtent() == ps[i].VirtExtent()
    {
      assert ParamSetUp(ps[i], cfg[i], pools[i], lists[i]);
    }
    forall i, j | 0 <= i < j < |cfg|
      ensures BlocksApart(cfg[i], cfg[j])
    {
      assert ParamsApart(ps[i], ps[j]);
    }
  }
}
