/**
 The contiguous-memory driver as a value: pools and heaps of every memory block, the buffers on their
 free and busy lists, the files registered for each busy buffer, and what each operation makes of them.
 */
module CmemState {
  import opened HeapBlocks

  type File = nat

  datatype Buffer = Buffer(id: int, physp: int, kvirtp: int, size: nat, users: seq<File>)

  datatype Pool = Pool(size: nat, free: seq<Buffer>, busy: seq<Buffer>)

  /** Where a pool lives: `num` buffers of `size` bytes filling the physical range `region` from its top. */
  datatype PoolConfig = PoolConfig(size: nat, num: nat, region: Block)

  /** A memory block: mapped at `virtp`, pools carved from its top, the bottom `heapSize` bytes are the heap. */
  datatype BlockConfig = BlockConfig(virtp: nat, virtoff: int, length: nat, pools: seq<PoolConfig>, heapSize: nat) {
    /** `npools[bi]`, plus one when the block has a heap pool. */
    function NumPools(): nat { |pools| + (if heapSize > 0 then 1 else 0) }

    /** Virtual range of the heap. */
    function HeapEnd(): nat { virtp + heapSize }

    function Phys(virt: int): int { virt - virtoff }

    /** Physical range of the pool with index `i`, the heap being the last. */
    function Region(i: nat): Block {
      if i < |pools| then pools[i].region else Block(Phys(virtp), heapSize)
    }

    /** Physical range of the whole block. */
    function Extent(): Block { Block(Phys(virtp), length) }

    /** Virtual range of the whole block. */
    function VirtExtent(): Block { Block(virtp, length) }
  }

  type Config = seq<BlockConfig>

  datatype Cmem = Cmem(pools: seq<seq<Pool>>, heaps: seq<seq<Block>>, open: set<File>)

  // ----- What each operation does -----

  datatype Location = At(bi: nat, i: nat, k: nat) | Nowhere

  function FindInList(busy: seq<Buffer>, k: nat, physp: int): (r: nat)
    requires k <= |busy|
    ensures k <= r <= |busy|
    ensures forall j | k <= j < r :: busy[j].physp != physp
    ensures r < |busy| ==> busy[r].physp == physp
    decreases |busy| - k
  {
    if k == |busy| || busy[k].physp == physp then k else FindInList(busy, k + 1, physp)
  }

  function FindInPools(pools: seq<Pool>, bi: nat, i: nat, physp: int): Location
    requires i <= |pools|
    decreases |pools| - i
  {
    if i == |pools| then Nowhere else
    var k := FindInList(pools[i].busy, 0, physp);
    if k < |pools[i].busy| then At(bi, i, k) else FindInPools(pools, bi, i + 1, physp)
  }

  /** The first busy buffer, in block, pool and list order, that starts at `physp`. */
  function FindBusy(pools: seq<seq<Pool>>, bi: nat, physp: int): Location
    requires bi <= |pools|
    decreases |pools| - bi
  {
    if bi == |pools| then Nowhere else
    var l := FindInPools(pools[bi], bi, 0, physp);
    if l.At? then l else FindBusy(pools, bi + 1, physp)
  }

  predicate ValidLocation(s: Cmem, l: Location) {
    && l.At? && l.bi < |s.pools| && l.bi < |s.heaps| && l.i < |s.pools[l.bi]|
    && l.k < |s.pools[l.bi][l.i].busy|
  }

  function BufferAt(s: Cmem, l: Location): Buffer
    requires ValidLocation(s, l)
  {
    s.pools[l.bi][l.i].busy[l.k]
  }

  function RemoveFirst(users: seq<File>, f: File): seq<File>
    decreases |users|
  {
    if users == [] then [] else if users[0] == f then users[1..] else [users[0]] + RemoveFirst(users[1..], f)
  }

  /** All registrations of `f`, or on the last close all registrations, are dropped. */
  function DropUsers(users: seq<File>, f: File, last: bool): seq<File>
    decreases |users|
  {
    if users == [] then []
    else (if last || users[0] == f then [] else [users[0]]) + DropUsers(users[1..], f, last)
  }

  function RemoveAt<T>(s: seq<T>, k: nat): seq<T>
    requires k < |s|
  {
    s[..k] + s[k + 1..]
  }

  /** Give busy buffer `k` the remaining registrations `users`; with none left it is freed. */
  function Unregister(isHeap: bool, p: Pool, h: seq<Block>, k: nat, users: seq<File>): (Pool, seq<Block>)
    requires k < |p.busy|
  {
    var b := p.busy[k].(users := users);
    if users != [] then (p.(busy := p.busy[k := b]), h)
    else if isHeap then (p.(busy := RemoveAt(p.busy, k)), FreeList(h, b.kvirtp, AdjustSize(b.size)))
    else (p.(busy := RemoveAt(p.busy, k), free := [b] + p.free), h)
  }

  function SetPool(s: Cmem, bi: nat, i: nat, p: Pool, h: seq<Block>): Cmem
    requires bi < |s.pools| && bi < |s.heaps| && i < |s.pools[bi]|
  {
    s.(pools := s.pools[bi := s.pools[bi][i := p]], heaps := s.heaps[bi := h])
  }

  predicate IsHeapPool(cfg: Config, bi: nat, i: nat)
    requires bi < |cfg|
  {
    i == |cfg[bi].pools|
  }

  function UnregisterAt(cfg: Config, s: Cmem, l: Location, users: seq<File>): Cmem
    requires ValidLocation(s, l) && l.bi < |cfg|
  {
    var r := Unregister(IsHeapPool(cfg, l.bi, l.i), s.pools[l.bi][l.i], s.heaps[l.bi], l.k, users);
    SetPool(s, l.bi, l.i, r.0, r.1)
  }

  ghost predicate Shaped(cfg: Config, s: Cmem) {
    && |s.pools| == |s.heaps| == |cfg|
    && (forall bi | 0 <= bi < |cfg| :: |s.pools[bi]| == cfg[bi].NumPools())
    && (forall bi | 0 <= bi < |cfg| :: Addressable(s.heaps[bi]))
  }

  ghost predicate Addressable(h: seq<Block>) {
    forall m | 0 <= m < |h| :: h[m].addr >= 0
  }

  /** The same blocks and pools, whatever their lists hold. */
  ghost predicate SameShape(s: Cmem, t: Cmem) {
    && |t.pools| == |s.pools| && |t.heaps| == |s.heaps| && t.open == s.open
    && forall bi | 0 <= bi < |s.pools| :: |t.pools[bi]| == |s.pools[bi]|
  }

  /**
   FREE, with every heap buffer of at least one byte: drop one registration of `f`; nothing happens when `f` has
   none.
   */
  function Free(cfg: Config, s: Cmem, f: File, physp: int): Cmem
    requires Shaped(cfg, s)
  {
    var l := FindBusy(s.pools, 0, physp);
    if ValidLocation(s, l) && f in BufferAt(s, l).users
    then UnregisterAt(cfg, s, l, RemoveFirst(BufferAt(s, l).users, f)) else s
  }

  /** REGUSER */
  function RegUser(s: Cmem, f: File, physp: int): Cmem {
    var l := FindBusy(s.pools, 0, physp);
    if ValidLocation(s, l) then
      var b := BufferAt(s, l);
      var p := s.pools[l.bi][l.i];
      SetPool(s, l.bi, l.i, p.(busy := p.busy[l.k := b.(users := [f] + b.users)]), s.heaps[l.bi])
    else s
  }

  /** ALLOC: the first free buffer of a pool moves to the head of its busy list. */
  function AllocPool(cfg: Config, s: Cmem, f: File, bi: nat, pool: int): Cmem
    requires Shaped(cfg, s)
  {
    if bi < |cfg| && 0 <= pool < |cfg[bi].pools| && s.pools[bi][pool].free != [] then
      var p := s.pools[bi][pool];
      var b := p.free[0];
      SetPool(s, bi, pool, p.(free := p.free[1..], busy := [b.(users := [f] + b.users)] + p.busy), s.heaps[bi])
    else s
  }

  /** ALLOCHEAP, for any size and alignment: a search that fails leaves the heap's list as it is. */
  function AllocHeap(cfg: Config, s: Cmem, f: File, bi: nat, size: nat, align: nat): Cmem
    requires Shaped(cfg, s)
  {
    if bi < |cfg| && cfg[bi].heapSize > 0 then
      var i := |cfg[bi].pools|;
      var p := s.pools[bi][i];
      var n, al := AdjustSize(size), AdjustAlign(align);
      var virtp, h := AllocAddr(s.heaps[bi], n, al), AllocList(s.heaps[bi], n, al);
      if virtp == NULL then SetPool(s, bi, i, p, h) else
      SetPool(s, bi, i, p.(busy := p.busy + [Buffer(i, cfg[bi].Phys(virtp), virtp, size, [f])]), h)
    else s
  }

  // ----- Closing a file -----

  /** Walk the busy list of one pool from entry `k` on. */
  function CloseEntries(cfg: Config, s: Cmem, bi: nat, i: nat, k: nat, f: File, last: bool): (t: Cmem)
    requires bi < |cfg| && bi < |s.pools| && bi < |s.heaps| && i < |s.pools[bi]|
    requires k <= |s.pools[bi][i].busy|
    ensures SameShape(s, t)
    decreases |s.pools[bi][i].busy| - k
  {
    if k == |s.pools[bi][i].busy| then s else
    var users := DropUsers(s.pools[bi][i].busy[k].users, f, last);
    CloseEntries(cfg, UnregisterAt(cfg, s, At(bi, i, k), users), bi, i, if users == [] then k else k + 1, f, last)
  }

  function ClosePools(cfg: Config, s: Cmem, bi: nat, i: nat, f: File, last: bool): (t: Cmem)
    requires bi < |cfg| && bi < |s.pools| && bi < |s.heaps| && i <= |s.pools[bi]|
    ensures SameShape(s, t)
    decreases |s.pools[bi]| - i
  {
    if i == |s.pools[bi]| then s
    else ClosePools(cfg, CloseEntries(cfg, s, bi, i, 0, f, last), bi, i + 1, f, last)
  }

  function CloseBlocks(cfg: Config, s: Cmem, bi: nat, f: File, last: bool): (t: Cmem)
    requires bi <= |cfg| == |s.pools| == |s.heaps|
    ensures SameShape(s, t)
    decreases |cfg| - bi
  {
    if bi == |cfg| then s else CloseBlocks(cfg, ClosePools(cfg, s, bi, 0, f, last), bi + 1, f, last)
  }

  /** RELEASE: the reference count, which counts the open files, reaches zero on the last close. */
  function Close(cfg: Config, s: Cmem, f: File): Cmem
    requires |cfg| == |s.pools| == |s.heaps|
  {
    var t := CloseBlocks(cfg, s, 0, f, |s.open - {f}| == 0);
    t.(open := t.open - {f})
  }

  // ----- Runs -----

  datatype Op =
    | OpOpen(f: File)
    | OpAlloc(f: File, bi: nat, pool: int)
    | OpAllocHeap(f: File, bi: nat, size: nat, align: nat)
    | OpFree(f: File, physp: int)
    | OpRegUser(f: File, physp: int)
    | OpClose(f: File)

  /** What the kernel guarantees of every call: only open files are used, and sizes and alignments are words. */
  ghost predicate Allowed(s: Cmem, op: Op) {
    match op
    case OpOpen(f) => f !in s.open
    case OpAllocHeap(f, _, size, align) => f in s.open && size < WORD && align < WORD
    case _ => op.f in s.open
  }

  ghost function Step(cfg: Config, s: Cmem, op: Op): Cmem
    requires Shaped(cfg, s) && Allowed(s, op)
  {
    match op
    case OpOpen(f) => s.(open := s.open + {f})
    case OpAlloc(f, bi, pool) => AllocPool(cfg, s, f, bi, pool)
    case OpAllocHeap(f, bi, size, align) => AllocHeap(cfg, s, f, bi, size, align)
    case OpFree(f, physp) => Free(cfg, s, f, physp)
    case OpRegUser(f, physp) => RegUser(s, f, physp)
    case OpClose(f) => Close(cfg, s, f)
  }
}
