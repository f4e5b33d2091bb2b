/**
 What every operation of the contiguous-memory driver keeps, and why it makes busy buffers disjoint and
 addressable by their physical address.
 */
module CmemInvariant {
  import opened HeapBlocks
  import opened CmemState
  import opened HeapMem

  // ----- The layout fixed at module initialisation -----

  /** Bytes taken by `n` buffers. */
  function Span(n: nat, size: nat): nat {
    if n == 0 then 0 else Span(n - 1, size) + size
  }

  lemma {:induction false} SpanGrows(i: nat, j: nat, size: nat)
    requires i < j
    ensures Span(i, size) + size <= Span(j, size)
    decreases j
  {
    if i < j - 1 {
      SpanGrows(i, j - 1, size);
    }
  }

  ghost predicate ValidPool(pc: PoolConfig) {
    && (pc.num > 0 ==> pc.size > 0) && pc.size % PAGE_SIZE == 0
    && pc.region.size == Span(pc.num, pc.size)
  }

  /** Where pool `i` ends: pools are carved one below the other from the top of the block. */
  function TopOf(bc: BlockConfig, i: nat): int
    requires i <= |bc.pools|
  {
    if i == 0 then bc.Extent().End() else bc.pools[i - 1].region.addr
  }

  ghost predicate PoolInPlace(bc: BlockConfig, i: nat)
    requires i < |bc.pools|
  {
    ValidPool(bc.pools[i]) && bc.pools[i].region.End() == TopOf(bc, i)
  }

  /** Pool regions and heap tile the block exactly. */
  ghost predicate ValidBlock(bc: BlockConfig) {
    && 0 < bc.virtp && bc.virtp % PAGE_SIZE == 0 && bc.heapSize % PAGE_SIZE == 0
    && bc.virtp + bc.heapSize <= bc.virtp + bc.length < WORD
    && (forall i | 0 <= i < |bc.pools| :: PoolInPlace(bc, i))
    && TopOf(bc, |bc.pools|) == bc.Region(|bc.pools|).End()
  }

  ghost predicate ValidConfig(cfg: Config) {
    && (forall bi | 0 <= bi < |cfg| :: ValidBlock(cfg[bi]))
    && (forall bi, bj | 0 <= bi < bj < |cfg| :: BlocksApart(cfg[bi], cfg[bj]))
  }

  /** Two blocks share no physical byte and no kernel address. */
  ghost predicate BlocksApart(b: BlockConfig, c: BlockConfig) {
    Apart(b.Extent(), c.Extent()) && Apart(b.VirtExtent(), c.VirtExtent())
  }

  /** Translating kernel addresses to physical ones keeps different bytes different. */
  lemma TranslationInjective(cfg: Config, bi: nat, x: int, bj: nat, y: int)
    requires ValidConfig(cfg) && bi < |cfg| && bj < |cfg|
    requires Holds(cfg[bi].VirtExtent(), x) && Holds(cfg[bj].VirtExtent(), y)
    ensures cfg[bi].Phys(x) == cfg[bj].Phys(y) <==> x == y
  {
    if bi != bj {
      var lo, hi := if bi < bj then bi else bj, if bi < bj then bj else bi;
      assert BlocksApart(cfg[lo], cfg[hi]);
    }
  }

  ghost predicate Inside(b: Block, c: Block) {
    c.addr <= b.addr && b.End() <= c.End()
  }

  lemma {:induction false} TopsDescend(bc: BlockConfig, i: nat, j: nat)
    requires ValidBlock(bc) && i <= j <= |bc.pools|
    ensures TopOf(bc, j) <= TopOf(bc, i)
    decreases j - i
  {
    if i < j {
      TopsDescend(bc, i, j - 1);
      assert PoolInPlace(bc, j - 1);
    }
  }

  lemma RegionEnds(bc: BlockConfig, i: nat)
    requires ValidBlock(bc) && i < bc.NumPools()
    ensures bc.Region(i).End() == TopOf(bc, i)
    ensures bc.Region(i).addr == if i < |bc.pools| then TopOf(bc, i + 1) else bc.Extent().addr
  {
    assert i < |bc.pools| ==> PoolInPlace(bc, i);
  }

  lemma RegionInside(bc: BlockConfig, i: nat)
    requires ValidBlock(bc) && i < bc.NumPools()
    ensures Inside(bc.Region(i), bc.Extent())
  {
    RegionEnds(bc, i);
    TopsDescend(bc, 0, i);
    if i < |bc.pools| {
      TopsDescend(bc, i + 1, |bc.pools|);
    }
  }

  lemma RegionBelow(bc: BlockConfig, i: nat, j: nat)
    requires ValidBlock(bc) && i < j < bc.NumPools()
    ensures bc.Region(j).End() <= bc.Region(i).addr
  {
    RegionEnds(bc, i);
    RegionEnds(bc, j);
    TopsDescend(bc, i + 1, j);
  }

  /** No two pools of the machine, heaps included, share a physical byte. */
  lemma RegionsApart(cfg: Config, bi: nat, i: nat, bj: nat, j: nat)
    requires ValidConfig(cfg) && bi < |cfg| && bj < |cfg| && i < cfg[bi].NumPools() && j < cfg[bj].NumPools()
    requires (bi, i) != (bj, j)
    ensures Apart(cfg[bi].Region(i), cfg[bj].Region(j))
  {
    if bi == bj {
      if i < j {
        RegionBelow(cfg[bi], i, j);
      } else {
        RegionBelow(cfg[bi], j, i);
      }
    } else {
      RegionInside(cfg[bi], i);
      RegionInside(cfg[bj], j);
      assert if bi < bj then BlocksApart(cfg[bi], cfg[bj]) else BlocksApart(cfg[bj], cfg[bi]);
    }
  }

  /** How many of the first `n` buffers of a pool were carved at `a`. */
  ghost function LaidOut(pc: PoolConfig, n: nat, a: int): nat {
    if n == 0 then 0
    else LaidOut(pc, n - 1, a) + (if a == pc.region.End() - Span(n, pc.size) then 1 else 0)
  }

  lemma {:induction false} LaidOutAt(pc: PoolConfig, n: nat, a: int) returns (j: nat)
    requires LaidOut(pc, n, a) > 0
    ensures 0 < j <= n && a == pc.region.End() - Span(j, pc.size)
  {
    if a == pc.region.End() - Span(n, pc.size) {
      j := n;
    } else {
      j := LaidOutAt(pc, n - 1, a);
    }
  }

  lemma {:induction false} LaidOutOnce(pc: PoolConfig, n: nat, a: int)
    requires pc.size > 0
    ensures LaidOut(pc, n, a) <= 1
  {
    if n > 0 {
      LaidOutOnce(pc, n - 1, a);
      if LaidOut(pc, n - 1, a) > 0 {
        var j := LaidOutAt(pc, n - 1, a);
        SpanGrows(j, n, pc.size);
      }
    }
  }

  // ----- Counting the buffers of a list by address -----

  ghost function Count(bs: seq<Buffer>, a: int): nat
    decreases |bs|
  {
    if bs == [] then 0 else (if bs[0].physp == a then 1 else 0) + Count(bs[1..], a)
  }

  lemma CountCons(b: Buffer, bs: seq<Buffer>, a: int)
    ensures Count([b] + bs, a) == (if b.physp == a then 1 else 0) + Count(bs, a)
  {
    assert ([b] + bs)[1..] == bs;
  }

  lemma {:induction false} CountAppend(xs: seq<Buffer>, ys: seq<Buffer>, a: int)
    ensures Count(xs + ys, a) == Count(xs, a) + Count(ys, a)
    decreases |xs|
  {
    if xs == [] {
      assert xs + ys == ys;
    } else {
      CountAppend(xs[1..], ys, a);
      assert xs + ys == [xs[0]] + (xs[1..] + ys);
      CountCons(xs[0], xs[1..] + ys, a);
    }
  }

  lemma {:induction false} CountRemove(bs: seq<Buffer>, k: nat, a: int)
    requires k < |bs|
    ensures Count(bs, a) == Count(RemoveAt(bs, k), a) + (if bs[k].physp == a then 1 else 0)
    decreases |bs|
  {
    if k == 0 {
      assert RemoveAt(bs, k) == bs[1..];
    } else {
      CountRemove(bs[1..], k - 1, a);
      assert RemoveAt(bs, k)[1..] == RemoveAt(bs[1..], k - 1);
    }
  }

  lemma {:induction false} CountUpdate(bs: seq<Buffer>, k: nat, b: Buffer, a: int)
    requires k < |bs| && b.physp == bs[k].physp
    ensures Count(bs[k := b], a) == Count(bs, a)
    decreases |bs|
  {
    if k > 0 {
      CountUpdate(bs[1..], k - 1, b, a);
      assert bs[k := b][1..] == bs[1..][k - 1 := b];
    } else {
      assert bs[k := b][1..] == bs[1..];
    }
  }

  lemma CountTwice(bs: seq<Buffer>, j: nat, k: nat)
    requires j < |bs| && k < |bs| && j != k && bs[j].physp == bs[k].physp
    ensures Count(bs, bs[j].physp) >= 2
  {
    CountRemove(bs, k, bs[j].physp);
    CountRemove(RemoveAt(bs, k), if j < k then j else j - 1, bs[j].physp);
  }

  // ----- The invariant -----

  ghost predicate Registered(users: seq<File>, open: set<File>) {
    users != [] && forall f | f in users :: f in open
  }

  ghost predicate NormalPoolOk(pc: PoolConfig, p: Pool, open: set<File>) {
    && p.size == pc.size
    && (forall k | 0 <= k < |p.free| :: p.free[k].size == pc.size && p.free[k].users == [])
    && (forall k | 0 <= k < |p.busy| :: p.busy[k].size == pc.size && Registered(p.busy[k].users, open))
    && (forall a :: Balanced(pc, p, a))
  }

  /** The buffers of the pool are exactly the ones carved for it, each on one of the two lists. */
  ghost predicate Balanced(pc: PoolConfig, p: Pool, a: int) {
    Count(p.free, a) + Count(p.busy, a) == LaidOut(pc, pc.num, a)
  }

  /** The heap range, in virtual addresses, a heap buffer occupies. */
  function HeapRange(b: Buffer): Block { Block(b.kvirtp, RoundUp(b.size)) }

  ghost function LiveBlocks(busy: seq<Buffer>): set<Block> {
    set k | 0 <= k < |busy| :: HeapRange(busy[k])
  }

  ghost predicate HeapBufferOk(bc: BlockConfig, b: Buffer, open: set<File>) {
    b.physp == bc.Phys(b.kvirtp) && RoundUp(b.size) < WORD && Registered(b.users, open)
  }

  ghost predicate HeapPoolOk(bc: BlockConfig, p: Pool, h: seq<Block>, open: set<File>) {
    && (forall k | 0 <= k < |p.busy| :: HeapBufferOk(bc, p.busy[k], open))
    && (forall j, k | 0 <= j < k < |p.busy| :: HeapRange(p.busy[j]) != HeapRange(p.busy[k]))
    && Tiled(h, LiveBlocks(p.busy), bc.virtp, bc.HeapEnd())
  }

  ghost predicate PoolOk(bc: BlockConfig, i: nat, p: Pool, h: seq<Block>, open: set<File>) {
    if i < |bc.pools| then NormalPoolOk(bc.pools[i], p, open) else HeapPoolOk(bc, p, h, open)
  }

  ghost predicate BlockOk(bc: BlockConfig, pools: seq<Pool>, h: seq<Block>, open: set<File>) {
    && |pools| == bc.NumPools()
    && WellFormed(h, bc.virtp, bc.HeapEnd())
    && forall i | 0 <= i < |pools| :: PoolOk(bc, i, pools[i], h, open)
  }

  ghost predicate Inv(cfg: Config, s: Cmem) {
    && ValidConfig(cfg)
    && |s.pools| == |s.heaps| == |cfg|
    && forall bi | 0 <= bi < |cfg| :: BlockOk(cfg[bi], s.pools[bi], s.heaps[bi], s.open)
  }

  /** The heap object holds the free list of the block. */
  ghost predicate HeapMatches(h: Heap, bc: BlockConfig, list: seq<Block>)
    reads h
  {
    h.Valid() && h.lo == bc.virtp && h.hi == bc.HeapEnd() && h.blocks == list
  }

  lemma InvShaped(cfg: Config, s: Cmem)
    requires Inv(cfg, s)
    ensures Shaped(cfg, s)
  {
    forall bi | 0 <= bi < |cfg|
      ensures |s.pools[bi]| == cfg[bi].NumPools() && Addressable(s.heaps[bi])
    {
      assert BlockOk(cfg[bi], s.pools[bi], s.heaps[bi], s.open);
      assert ValidBlock(cfg[bi]);
    }
  }

  // ----- One pool at a time -----

  lemma NormalUnregister(pc: PoolConfig, p: Pool, h: seq<Block>, k: nat, users: seq<File>, open: set<File>)
    requires NormalPoolOk(pc, p, open) && k < |p.busy| && forall f | f in users :: f in open
    ensures NormalPoolOk(pc, Unregister(false, p, h, k, users).0, open)
  {
    var b := p.busy[k].(users := users);
    if users != [] {
      var q := p.(busy := p.busy[k := b]);
      forall a
        ensures Balanced(pc, q, a)
      {
        CountUpdate(p.busy, k, b, a);
        assert Balanced(pc, p, a);
      }
    } else {
      NormalFree(pc, p, k, open);
    }
  }

  lemma NormalFree(pc: PoolConfig, p: Pool, k: nat, open: set<File>)
    requires NormalPoolOk(pc, p, open) && k < |p.busy|
    ensures NormalPoolOk(pc, p.(busy := RemoveAt(p.busy, k), free := [p.busy[k].(users := [])] + p.free), open)
  {
    var b := p.busy[k].(users := []);
    var q := p.(busy := RemoveAt(p.busy, k), free := [b] + p.free);
    forall a
      ensures Balanced(pc, q, a)
    {
      CountRemove(p.busy, k, a);
      CountCons(b, p.free, a);
      assert Balanced(pc, p, a);
    }
  }

  lemma NormalAllocate(pc: PoolConfig, p: Pool, f: File, open: set<File>)
    requires NormalPoolOk(pc, p, open) && p.free != [] && f in open
    ensures var b := p.free[0].(users := [f] + p.free[0].users);
            NormalPoolOk(pc, p.(free := p.free[1..], busy := [b] + p.busy), open)
  {
    var b := p.free[0].(users := [f] + p.free[0].users);
    var q := p.(free := p.free[1..], busy := [b] + p.busy);
    forall a
      ensures Balanced(pc, q, a)
    {
      CountCons(b, p.busy, a);
      assert Balanced(pc, p, a);
    }
  }

  lemma LiveBlocksRemove(busy: seq<Buffer>, k: nat)
    requires k < |busy| && forall i, j | 0 <= i < j < |busy| :: HeapRange(busy[i]) != HeapRange(busy[j])
    ensures LiveBlocks(RemoveAt(busy, k)) == LiveBlocks(busy) - {HeapRange(busy[k])}
  {
    var rest := RemoveAt(busy, k);
    forall j | 0 <= j < |busy| && j != k
      ensures HeapRange(busy[j]) in LiveBlocks(rest)
    {
      assert rest[if j < k then j else j - 1] == busy[j];
    }
    forall j | 0 <= j < |rest|
      ensures HeapRange(rest[j]) in LiveBlocks(busy) && HeapRange(rest[j]) != HeapRange(busy[k])
    {
      assert rest[j] == busy[if j < k then j else j + 1];
    }
  }

  lemma LiveBlocksUpdate(busy: seq<Buffer>, k: nat, b: Buffer)
    requires k < |busy| && HeapRange(b) == HeapRange(busy[k])
    ensures LiveBlocks(busy[k := b]) == LiveBlocks(busy)
  {
    assert forall j | 0 <= j < |busy| :: HeapRange(busy[k := b][j]) == HeapRange(busy[j]);
  }

  lemma HeapUnregister(bc: BlockConfig, p: Pool, h: seq<Block>, k: nat, users: seq<File>, open: set<File>)
    requires ValidBlock(bc) && HeapPoolOk(bc, p, h, open) && k < |p.busy| && forall f | f in users :: f in open
    ensures var r := Unregister(true, p, h, k, users); HeapPoolOk(bc, r.0, r.1, open)
  {
    var b := p.busy[k].(users := users);
    if users != [] {
      LiveBlocksUpdate(p.busy, k, b);
    } else {
      LiveBlocksRemove(p.busy, k);
      FreeKeepsTiled(h, LiveBlocks(p.busy), bc.virtp, bc.HeapEnd(), HeapRange(b));
    }
  }

  lemma HeapAllocate(bc: BlockConfig, p: Pool, h: seq<Block>, id: int, size: nat, align: nat, f: File, open: set<File>)
    requires ValidBlock(bc) && HeapPoolOk(bc, p, h, open) && f in open && size < WORD
    requires Addressable(h) && GoodRequest(h, size, align)
    requires AllocAddr(h, AdjustSize(size), AdjustAlign(align)) != NULL
    ensures var v := AllocAddr(h, AdjustSize(size), AdjustAlign(align));
            HeapPoolOk(bc, p.(busy := p.busy + [Buffer(id, bc.Phys(v), v, size, [f])]),
                       AllocList(h, AdjustSize(size), AdjustAlign(align)), open)
  {
    var n, al := AdjustSize(size), AdjustAlign(align);
    AdjustSizeZero(size);
    AdjustAlignIsPaged(align);
    AllocKeepsTiled(h, LiveBlocks(p.busy), bc.virtp, bc.HeapEnd(), n, al);
    LiveBlocksAppend(p.busy, Buffer(id, bc.Phys(AllocAddr(h, n, al)), AllocAddr(h, n, al), size, [f]));
  }

  lemma LiveBlocksAppend(busy: seq<Buffer>, b: Buffer)
    ensures LiveBlocks(busy + [b]) == LiveBlocks(busy) + {HeapRange(b)}
    ensures forall j | 0 <= j < |busy| :: HeapRange(busy[j]) in LiveBlocks(busy)
  {
    var longer := busy + [b];
    assert longer[|busy|] == b;
    assert forall j | 0 <= j < |busy| :: longer[j] == busy[j];
    assert forall x | x in LiveBlocks(busy) :: x in LiveBlocks(longer);
  }
}
