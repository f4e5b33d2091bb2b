/**
 Setting up one memory block: fixed-size pools are carved from the top, the rest becomes the heap.
 */
module CmemSetup {
  import opened Common
  import opened Bits
  import opened HeapBlocks
  import opened HeapMem
  import opened CmemState
  import opened CmemInvariant

  /** `PAGE_ALIGN(x)` of a word: add, which may wrap around, then apply the mask `~(PAGE_SIZE - 1)`. */
  function PageAlign(x: nat): nat
    requires x < WORD == Pow2(WORD_BITS)
  {
    And(AddWord(x, PAGE_SIZE - 1), Not(PAGE_SIZE - 1, WORD_BITS))
  }

  /** Pools and heap allocations are rounded alike. */
  lemma PageAlignIsAdjustSize(x: nat)
    requires x < WORD == Pow2(WORD_BITS)
    ensures PageAlign(x) == AdjustSize(x) && PageAlign(x) % PAGE_SIZE == 0 && PageAlign(x) < WORD
  {
    var y := AddWord(x, PAGE_SIZE - 1);
    AndNotIsRest(y, PAGE_SIZE - 1, WORD_BITS);
    PageMask(y);
    RestIsAdjustSize(x);
  }

  lemma RestIsAdjustSize(x: nat)
    requires x < WORD
    ensures var y := AddWord(x, PAGE_SIZE - 1);
            y - y % PAGE_SIZE == AdjustSize(x) && AdjustSize(x) % PAGE_SIZE == 0 && AdjustSize(x) < WORD
  {
    PageMask(x);
    AdjustSizeZero(x);
  }

  /** What is left of an address after the mask `PAGE_MASK`. */
  lemma PageMaskKeeps(x: nat)
    requires x < WORD == Pow2(WORD_BITS) && x % PAGE_SIZE == 0
    ensures And(x, Not(PAGE_SIZE - 1, WORD_BITS)) == x
  {
    AndNotIsRest(x, PAGE_SIZE - 1, WORD_BITS);
    PageMask(x);
  }

  /** One entry of the pool table: number and requested size of its buffers, as signed words. */
  datatype PoolRequest = PoolRequest(num: int, reqsize: int) {
    function NumBuffers(): nat { if num < 0 then 0 else num }

    /** A negative size is a very large word, except that the last less than a page from zero is rounded to zero. */
    function BufferSize(): nat { AdjustSize(reqsize % WORD) }

    /** No buffer of the pool is empty. */
    predicate Sound() { num > 0 ==> reqsize > 0 || reqsize + PAGE_SIZE <= 0 }
  }

  lemma SoundIffNotEmpty(r: PoolRequest)
    requires -0x8000_0000 <= r.reqsize < 0x8000_0000
    ensures r.Sound() <==> r.NumBuffers() == 0 || r.BufferSize() > 0
    ensures r.BufferSize() % PAGE_SIZE == 0
    ensures r.reqsize > 0 ==> r.BufferSize() == RoundUp(r.reqsize)
    ensures r.reqsize + PAGE_SIZE <= 0 ==> r.BufferSize() >= 0x8000_0000
  {
    AdjustSizeZero(r.reqsize % WORD);
    RoundUpIsLeastMultiple(r.reqsize % WORD);
  }

  /** Bytes the pools of the table take from the block. */
  function TableSpan(table: seq<PoolRequest>): nat
    decreases |table|
  {
    if table == [] then 0
    else TableSpan(table[..|table| - 1]) +
         Span(table[|table| - 1].NumBuffers(), table[|table| - 1].BufferSize())
  }

  lemma {:induction false} TableSpanGrows(table: seq<PoolRequest>, n: nat)
    requires n <= |table|
    ensures TableSpan(table[..n]) <= TableSpan(table)
    decreases |table| - n
  {
    if n == |table| {
      assert table[..n] == table;
    } else {
      TableSpanGrows(table, n + 1);
      assert table[..n + 1][..n] == table[..n];
    }
  }

  lemma TableSpanStep(table: seq<PoolRequest>, i: nat)
    requires i < |table|
    ensures TableSpan(table[..i + 1]) == TableSpan(table[..i]) + Span(table[i].NumBuffers(), table[i].BufferSize())
    ensures TableSpan(table[..i + 1]) <= TableSpan(table)
  {
    assert table[..i + 1][..i] == table[..i];
    TableSpanGrows(table, i + 1);
  }

  ghost predicate SignedTable(table: seq<PoolRequest>) {
    forall i | 0 <= i < |table| :: -0x8000_0000 <= table[i].reqsize < 0x8000_0000
  }

  ghost predicate SoundTable(table: seq<PoolRequest>) {
    forall i | 0 <= i < |table| :: table[i].Sound()
  }

  /** Buffers of no size are all carved at the same place. */
  lemma {:induction false} EmptyBuffersCollide(pc: PoolConfig, n: nat)
    requires pc.size == 0
    ensures forall a :: LaidOut(pc, n, a) == if a == pc.region.End() then n else 0
  {
    if n > 0 {
      EmptyBuffersCollide(pc, n - 1);
      EmptySpan(n);
    }
  }

  lemma {:induction false} EmptySpan(n: nat)
    ensures Span(n, 0) == 0
  {
    if n > 0 {
      EmptySpan(n - 1);
    }
  }

  class BlockSetup {
    const virtp: nat
    const virtoff: int
    const length: nat
    var avail: nat

    ghost predicate Valid()
      reads this
    {
      && 0 < virtp && virtp % PAGE_SIZE == 0 && length % PAGE_SIZE == 0
      && virtp + length < WORD && length < 0x8000_0000
      && avail <= length && avail % PAGE_SIZE == 0
    }

    /** `length` bytes of physical memory mapped at `virtp`, nothing carved yet. */
    constructor (virtp: nat, virtoff: int, length: nat)
      requires 0 < virtp && virtp % PAGE_SIZE == 0 && length % PAGE_SIZE == 0
      requires virtp + length < WORD && length < 0x8000_0000
      ensures Valid() && avail == length
      ensures this.virtp == virtp && this.virtoff == virtoff && this.length == length
    {
      this.virtp, this.virtoff, this.length, this.avail := virtp, virtoff, length, length;
    }

    /** Carve one buffer from the top of what is left; 0 when it does not fit. */
    method AllocPoolBuffer(size: nat) returns (virt: nat)
      requires Valid() && size % PAGE_SIZE == 0
      modifies this
      ensures Valid()
      ensures virt != 0 <==> size <= old(avail)
      ensures virt != 0 ==> avail == old(avail) - size && virt == virtp + avail
      ensures virt == 0 ==> avail == old(avail)
    {
      if size <= avail {
        avail := avail - size;
        return virtp + avail;
      }
      return 0;
    }

    /** The `i`-th buffer of a pool, at the top of what is left. */
    method CarveBuffer(i: nat, size: nat) returns (b: Option<Buffer>)
      requires Valid() && size % PAGE_SIZE == 0
      modifies this
      ensures Valid() && (b.Some? <==> size <= old(avail))
      ensures avail == if b.Some? then old(avail) - size else old(avail)
      ensures b.Some? ==> b.value == Buffer(i, virtp - virtoff + avail, 0, size, [])
    {
      var virt := AllocPoolBuffer(size);
      if virt == 0 {
        return None;
      }
      return Some(Buffer(i, virt - virtoff, 0, size, []));
    }

    /** Carve a pool. It fails exactly when its buffers do not all fit. */
    method AllocPool(num: int, reqsize: int) returns (r: Option<Pool>, pc: PoolConfig)
      requires Valid()
      modifies this
      ensures Valid()
      ensures pc == PoolConfig(PoolRequest(num, reqsize).BufferSize(), PoolRequest(num, reqsize).NumBuffers(),
        Block(virtp - virtoff + old(avail) - Span(pc.num, pc.size), Span(pc.num, pc.size)))
      ensures r.Some? <==> Span(pc.num, pc.size) <= old(avail)
      ensures r.Some? ==> avail == old(avail) - Span(pc.num, pc.size)
      ensures r.Some? ==> NormalPoolOk(pc, r.value, {}) && r.value.busy == []
      ensures r.Some? ==> |r.value.free| == pc.num && forall k | 0 <= k < pc.num ::
        r.value.free[k] == Buffer(k, pc.region.End() - Span(k + 1, pc.size), 0, pc.size, [])
    {
      WordIsPow2();
      PageAlignIsAdjustSize(reqsize % WORD);
      var size := PageAlign(reqsize % WORD);
      var n: nat := if num < 0 then 0 else num;
      pc := PoolConfig(size, n, Block(virtp - virtoff + avail - Span(n, size), Span(n, size)));
      var free: seq<Buffer> := [];
      var i := 0;
      while i < num
        invariant 0 <= i <= n && Valid() && CarvedSoFar(pc, free, i)
        invariant Span(i, size) <= old(avail) && avail == old(avail) - Span(i, size)
      {
        var b := CarveBuffer(i, size);
        SpanAtMost(i + 1, n, size);
        if b.None? {
          return None, pc;
        }
        OneMoreLaidOut(pc, free, i, b.value);
        free := free + [b.value];
        i := i + 1;
      }
      FreshPoolOk(pc, free);
      r := Some(Pool(size, free, []));
    }

    /** The pools of the table in order; it fails exactly when they do not all fit. */
    method CarvePools(table: seq<PoolRequest>) returns (ok: bool, pools: seq<Pool>, confs: seq<PoolConfig>)
      requires Valid() && avail == length && SignedTable(table)
      modifies this
      ensures Valid() && (ok <==> TableSpan(table) <= length)
      ensures ok ==> avail == length - TableSpan(table) && |confs| == |table|
      ensures ok ==> Carved(virtp - virtoff + length, confs, pools, table)
      ensures ok ==> LowestPool(virtp - virtoff + length, confs) == virtp - virtoff + avail
    {
      pools, confs, ok := [], [], true;
      ghost var top := virtp - virtoff + length;
      var i := 0;
      while i < |table|
        invariant 0 <= i == |confs| <= |table| && Valid()
        invariant TableSpan(table[..i]) <= length && avail == length - TableSpan(table[..i])
        invariant Carved(top, confs, pools, table)
        invariant LowestPool(top, confs) == virtp - virtoff + avail
      {
        TableSpanStep(table, i);
        var p, pc := AllocPool(table[i].num, table[i].reqsize);
        if p.None? {
          return false, pools, confs;
        }
        CarveOneMore(top, confs, pools, table, pc, p.value);
        pools, confs := pools + [p.value], confs + [pc];
        i := i + 1;
      }
      assert table[..i] == table;
    }

    /** The heap is allocated like a pool of one buffer that takes all the rest. */
    method AllocHeapPool(heapSize: nat) returns (p: Pool)
      requires Valid() && 0 < heapSize == avail
      modifies this
      ensures avail == 0 && p.busy == []
    {
      AdjustSizeZero(heapSize);
      RoundUpIsLeastMultiple(heapSize);
      assert heapSize % WORD == heapSize;
      assert Span(1, heapSize) == heapSize;
      var r, _ := AllocPool(1, heapSize);
      p := r.value;
    }

    /** The pools of the table, then whatever is left for the heap. */
    method InitBlock(table: seq<PoolRequest>) returns (r: Option<(BlockConfig, seq<Pool>, Heap)>)
      requires Valid() && avail == length && SignedTable(table)
      modifies this
      ensures r.Some? <==> TableSpan(table) <= length
      ensures r.Some? ==> fresh(r.value.2) && HeapMatches(r.value.2, r.value.0, r.value.2.blocks)
      ensures r.Some? ==> BlockSetUp(virtp, virtoff, length, table, r.value.0, r.value.1, r.value.2.blocks)
    {
      var ok, pools, confs := CarvePools(table);
      if !ok {
        return None;
      }
      WordIsPow2();
      PageMaskKeeps(avail);
      var heapSize := And(avail, Not(PAGE_SIZE - 1, WORD_BITS));
      var bc := BlockConfig(virtp, virtoff, length, confs, heapSize);
      var heap := new Heap(virtp, heapSize);
      TilingIsValid(bc, pools, table);
      if heapSize > 0 {
        var p := AllocHeapPool(heapSize);
        BlockReady(bc, pools, [p], heap.blocks);
        pools := pools + [p];
      } else {
        BlockReady(bc, pools, [], heap.blocks);
        assert pools + [] == pools;
      }
      r := Some((bc, pools, heap));
    }
  }

  lemma FreshPoolOk(pc: PoolConfig, free: seq<Buffer>)
    requires CarvedSoFar(pc, free, pc.num)
    ensures NormalPoolOk(pc, Pool(pc.size, free, []), {})
  {
    assert forall a :: Balanced(pc, Pool(pc.size, free, []), a);
  }

  lemma SpanAtMost(i: nat, n: nat, size: nat)
    requires 0 < i <= n
    ensures Span(i, size) == Span(i - 1, size) + size <= Span(n, size)
  {
    if i < n {
      SpanGrows(i, n, size);
    }
  }

  /** The free list holds the first `i` buffers of the pool, in the order they were carved. */
  ghost predicate CarvedSoFar(pc: PoolConfig, free: seq<Buffer>, i: nat) {
    && |free| == i
    && (forall k | 0 <= k < |free| :: free[k] == Buffer(k, pc.region.End() - Span(k + 1, pc.size), 0, pc.size, []))
    && (forall a :: Count(free, a) == LaidOut(pc, i, a))
  }

  lemma OneMoreLaidOut(pc: PoolConfig, free: seq<Buffer>, i: nat, b: Buffer)
    requires CarvedSoFar(pc, free, i) && b == Buffer(i, pc.region.End() - Span(i + 1, pc.size), 0, pc.size, [])
    ensures CarvedSoFar(pc, free + [b], i + 1)
  {
    forall a
      ensures Count(free + [b], a) == LaidOut(pc, i + 1, a)
    {
      CountAppend(free, [b], a);
      CountCons(b, [], a);
      assert [b] + [] == [b];
    }
  }

  lemma BlockReady(bc: BlockConfig, pools: seq<Pool>, heapPool: seq<Pool>, free: seq<Block>)
    requires bc.virtp <= bc.HeapEnd() && |pools| == |bc.pools| && |heapPool| == (if bc.heapSize > 0 then 1 else 0)
    requires forall j | 0 <= j < |pools| :: NormalPoolOk(bc.pools[j], pools[j], {})
    requires forall j | 0 <= j < |heapPool| :: heapPool[j].busy == []
    requires Tiled(free, {}, bc.virtp, bc.HeapEnd())
    ensures BlockOk(bc, pools + heapPool, free, {})
  {
    var all := pools + heapPool;
    forall i | 0 <= i < |all|
      ensures PoolOk(bc, i, all[i], free, {})
    {
      if i >= |pools| {
        assert all[i] == heapPool[0];
        assert LiveBlocks(all[i].busy) == {};
      }
    }
  }

  /**
   The block is set up from the table: pools from the top, the heap below them. They tile it soundly if and only if
   no pool of the table has buffers of no size.
   */
  ghost predicate BlockSetUp(virtp: nat, virtoff: int, length: nat, table: seq<PoolRequest>,
                             bc: BlockConfig, pools: seq<Pool>, free: seq<Block>) {
    && bc.virtp == virtp && bc.virtoff == virtoff && bc.length == length && |bc.pools| == |table|
    && bc.heapSize == length - TableSpan(table)
    && (forall i | 0 <= i < |table| :: PoolMatches(bc.pools[i], table[i]))
    && (ValidBlock(bc) <==> SoundTable(table)) && BlockOk(bc, pools, free, {})
  }

  ghost predicate PoolMatches(pc: PoolConfig, r: PoolRequest) {
    && pc.size == r.BufferSize() && pc.num == r.NumBuffers() && pc.region.size == Span(pc.num, pc.size)
  }

  function LowestPool(top: int, confs: seq<PoolConfig>): int {
    if confs == [] then top else confs[|confs| - 1].region.addr
  }

  ghost predicate CarvedBelow(top: int, confs: seq<PoolConfig>, j: nat)
    requires j < |confs|
  {
    confs[j].region.End() == LowestPool(top, confs[..j])
  }

  ghost predicate Carved(top: int, confs: seq<PoolConfig>, pools: seq<Pool>, table: seq<PoolRequest>) {
    && |pools| == |confs| <= |table|
    && forall j | 0 <= j < |confs| ::
         PoolMatches(confs[j], table[j]) && NormalPoolOk(confs[j], pools[j], {}) && CarvedBelow(top, confs, j)
  }

  lemma CarveOneMore(top: int, confs: seq<PoolConfig>, pools: seq<Pool>, table: seq<PoolRequest>,
                     pc: PoolConfig, p: Pool)
    requires Carved(top, confs, pools, table) && |confs| < |table|
    requires PoolMatches(pc, table[|confs|]) && NormalPoolOk(pc, p, {})
    requires pc.region.End() == LowestPool(top, confs)
    ensures Carved(top, confs + [pc], pools + [p], table)
  {
    var cs, ps := confs + [pc], pools + [p];
    forall j | 0 <= j < |cs|
      ensures PoolMatches(cs[j], table[j]) && NormalPoolOk(cs[j], ps[j], {}) && CarvedBelow(top, cs, j)
    {
      assert cs[..j] == confs[..j];
      if j < |confs| {
        assert PoolMatches(confs[j], table[j]) && CarvedBelow(top, confs, j);
      } else {
        assert confs[..j] == confs;
      }
    }
  }

  /** Pools carved one below the other above the heap tile the block, soundly iff no buffer is empty. */
  lemma TilingIsValid(bc: BlockConfig, pools: seq<Pool>, table: seq<PoolRequest>)
    requires 0 < bc.virtp && bc.virtp % PAGE_SIZE == 0 && bc.heapSize % PAGE_SIZE == 0
    requires bc.virtp + bc.heapSize <= bc.virtp + bc.length < WORD
    requires Carved(bc.Extent().End(), bc.pools, pools, table) && |bc.pools| == |table| && SignedTable(table)
    requires LowestPool(bc.Extent().End(), bc.pools) == bc.Phys(bc.virtp) + bc.heapSize
    ensures ValidBlock(bc) <==> SoundTable(table)
    ensures forall j | 0 <= j < |bc.pools| ::
      PoolMatches(bc.pools[j], table[j]) && NormalPoolOk(bc.pools[j], pools[j], {})
  {
    forall j | 0 <= j < |bc.pools|
      ensures PoolInPlace(bc, j) <==> table[j].Sound()
    {
      assert PoolMatches(bc.pools[j], table[j]) && CarvedBelow(bc.Extent().End(), bc.pools, j);
      SoundIffNotEmpty(table[j]);
    }
  }

  // ----- The tiling, byte by byte -----

  /** Every byte of a block belongs to one of its pools or to its heap. */
  lemma {:induction false} BlockCovered(bc: BlockConfig, n: nat, x: int) returns (i: nat)
    requires ValidBlock(bc) && n <= |bc.pools| && Holds(bc.Extent(), x) && x < TopOf(bc, n)
    ensures i < bc.NumPools() && Holds(bc.Region(i), x)
    decreases |bc.pools| - n
  {
    if n == |bc.pools| {
      i := n;
      assert bc.Region(n).addr == bc.Extent().addr;
    } else {
      assert PoolInPlace(bc, n);
      if x >= bc.pools[n].region.addr {
        i := n;
      } else {
        i := BlockCovered(bc, n + 1, x);
      }
    }
  }

  /** Every byte of a pool belongs to one of the buffers carved for it. */
  lemma {:induction false} PoolCovered(pc: PoolConfig, n: nat, x: int) returns (j: nat)
    requires pc.region.End() - Span(n, pc.size) <= x < pc.region.End()
    ensures 0 < j <= n && Holds(Block(pc.region.End() - Span(j, pc.size), pc.size), x)
  {
    if x < pc.region.End() - Span(n - 1, pc.size) {
      j := n;
    } else {
      j := PoolCovered(pc, n - 1, x);
    }
  }
}
