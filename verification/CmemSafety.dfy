/** Consequences of the driver's invariant: buffers never overlap, and a physical address names one busy buffer. */
module CmemSafety {
  import opened HeapBlocks
  import opened CmemState
  import opened CmemInvariant

  // ----- No two buffers overlap -----

  /** Physical range of a buffer. */
  function Extent(b: Buffer): Block { Block(b.physp, RoundUp(b.size)) }

  /** The buffers a pool knows: those of its free and busy lists, or the live blocks of a heap. */
  function Buffers(cfg: Config, s: Cmem, bi: nat, i: nat): seq<Buffer>
    requires bi < |cfg| && bi < |s.pools| && i < |s.pools[bi]|
  {
    if i < |cfg[bi].pools| then s.pools[bi][i].free + s.pools[bi][i].busy else s.pools[bi][i].busy
  }

  /** A pool buffer lies where it was carved. */
  lemma NormalBufferPlace(pc: PoolConfig, p: Pool, open: set<File>, m: nat) returns (j: nat)
    requires ValidPool(pc) && NormalPoolOk(pc, p, open) && m < |p.free + p.busy|
    ensures var b := (p.free + p.busy)[m];
            && 0 < j <= pc.num && b.physp == pc.region.End() - Span(j, pc.size)
            && RoundUp(b.size) == pc.size && b.physp + pc.size == pc.region.End() - Span(j - 1, pc.size)
            && Count(p.free + p.busy, b.physp) <= 1
  {
    var all := p.free + p.busy;
    var a := all[m].physp;
    CountAppend(p.free, p.busy, a);
    CountRemove(all, m, a);
    assert Balanced(pc, p, a);
    j := LaidOutAt(pc, pc.num, a);
    LaidOutOnce(pc, pc.num, a);
    assert all[m].size == pc.size;
    RoundUpIsLeastMultiple(pc.size);
  }

  lemma NormalBuffersApart(pc: PoolConfig, p: Pool, open: set<File>, m: nat, n: nat)
    requires ValidPool(pc) && NormalPoolOk(pc, p, open) && m < |p.free + p.busy| && n < |p.free + p.busy|
    ensures Inside(Extent((p.free + p.busy)[m]), pc.region)
    ensures m != n ==> Apart(Extent((p.free + p.busy)[m]), Extent((p.free + p.busy)[n]))
  {
    var j := NormalBufferPlace(pc, p, open, m);
    var k := NormalBufferPlace(pc, p, open, n);
    if j < pc.num {
      SpanGrows(j, pc.num, pc.size);
    }
    if m != n {
      if j == k {
        CountTwice(p.free + p.busy, m, n);
        assert false;
      } else if j < k {
        SpanGrows(j, k, pc.size);
      } else {
        SpanGrows(k, j, pc.size);
      }
    }
  }

  lemma HeapBuffersApart(bc: BlockConfig, p: Pool, h: seq<Block>, open: set<File>, m: nat, n: nat)
    requires ValidBlock(bc) && HeapPoolOk(bc, p, h, open) && m < |p.busy| && n < |p.busy|
    ensures Inside(Extent(p.busy[m]), bc.Region(|bc.pools|)) && RoundUp(p.busy[m].size) > 0
    ensures m != n ==> Apart(Extent(p.busy[m]), Extent(p.busy[n]))
  {
    assert HeapBufferOk(bc, p.busy[m], open) && HeapBufferOk(bc, p.busy[n], open);
    assert HeapRange(p.busy[m]) in LiveBlocks(p.busy) && HeapRange(p.busy[n]) in LiveBlocks(p.busy);
  }

  lemma BufferInRegion(cfg: Config, s: Cmem, bi: nat, i: nat, m: nat)
    requires Inv(cfg, s) && bi < |cfg| && i < |s.pools[bi]| && m < |Buffers(cfg, s, bi, i)|
    ensures i < cfg[bi].NumPools()
    ensures Inside(Extent(Buffers(cfg, s, bi, i)[m]), cfg[bi].Region(i))
    ensures RoundUp(Buffers(cfg, s, bi, i)[m].size) > 0
  {
    assert BlockOk(cfg[bi], s.pools[bi], s.heaps[bi], s.open) && ValidBlock(cfg[bi]);
    assert PoolOk(cfg[bi], i, s.pools[bi][i], s.heaps[bi], s.open);
    if i < |cfg[bi].pools| {
      assert PoolInPlace(cfg[bi], i);
      NormalBuffersApart(cfg[bi].pools[i], s.pools[bi][i], s.open, m, m);
      var j := NormalBufferPlace(cfg[bi].pools[i], s.pools[bi][i], s.open, m);
    } else {
      HeapBuffersApart(cfg[bi], s.pools[bi][i], s.heaps[bi], s.open, m, m);
    }
  }

  /** Busy buffers and free pool buffers occupy pairwise disjoint physical ranges. */
  lemma BuffersApart(cfg: Config, s: Cmem, bi: nat, i: nat, m: nat, bj: nat, j: nat, n: nat)
    requires Inv(cfg, s) && bi < |cfg| && i < |s.pools[bi]| && m < |Buffers(cfg, s, bi, i)|
    requires bj < |cfg| && j < |s.pools[bj]| && n < |Buffers(cfg, s, bj, j)|
    requires (bi, i, m) != (bj, j, n)
    ensures Apart(Extent(Buffers(cfg, s, bi, i)[m]), Extent(Buffers(cfg, s, bj, j)[n]))
  {
    BufferInRegion(cfg, s, bi, i, m);
    BufferInRegion(cfg, s, bj, j, n);
    if (bi, i) != (bj, j) {
      RegionsApart(cfg, bi, i, bj, j);
    } else {
      assert BlockOk(cfg[bi], s.pools[bi], s.heaps[bi], s.open) && ValidBlock(cfg[bi]);
      assert PoolOk(cfg[bi], i, s.pools[bi][i], s.heaps[bi], s.open);
      if i < |cfg[bi].pools| {
        assert PoolInPlace(cfg[bi], i);
        NormalBuffersApart(cfg[bi].pools[i], s.pools[bi][i], s.open, m, n);
      } else {
        HeapBuffersApart(cfg[bi], s.pools[bi][i], s.heaps[bi], s.open, m, n);
      }
    }
  }

  /** ... and none of them touches a free block of any heap. */
  lemma BufferApartFromFreeHeap(cfg: Config, s: Cmem, bi: nat, i: nat, m: nat, bj: nat, n: nat)
    requires Inv(cfg, s) && bi < |cfg| && i < |s.pools[bi]| && m < |Buffers(cfg, s, bi, i)|
    requires bj < |cfg| && cfg[bj].heapSize > 0 && n < |s.heaps[bj]|
    ensures var h := s.heaps[bj][n];
            Apart(Extent(Buffers(cfg, s, bi, i)[m]), Block(cfg[bj].Phys(h.addr), h.size))
  {
    var bc, h := cfg[bj], s.heaps[bj][n];
    var hp := |bc.pools|;
    assert BlockOk(bc, s.pools[bj], s.heaps[bj], s.open);
    assert PoolOk(bc, hp, s.pools[bj][hp], s.heaps[bj], s.open);
    BufferInRegion(cfg, s, bi, i, m);
    if (bi, i) != (bj, hp) {
      RegionsApart(cfg, bi, i, bj, hp);
      assert Inside(Block(bc.Phys(h.addr), h.size), bc.Region(hp));
    } else {
      var b := s.pools[bj][hp].busy[m];
      assert HeapBufferOk(bc, b, s.open) && HeapRange(b) in LiveBlocks(s.pools[bj][hp].busy);
      FreeBlockApart(s.heaps[bj], LiveBlocks(s.pools[bj][hp].busy), bc.virtp, bc.HeapEnd(), n, HeapRange(b));
    }
  }

  lemma FreeBlockApart(free: seq<Block>, live: set<Block>, lo: int, hi: int, n: nat, b: Block)
    requires Tiled(free, live, lo, hi) && n < |free| && b in live
    ensures Apart(b, free[n])
  {
    var h := free[n];
    var x := if h.addr < b.addr then b.addr else h.addr;
    assert Holds(b, x) ==> LiveByte(live, x);
    assert Holds(h, x) ==> Covers(free, x);
    assert Holds(h, x) ==> x in Bytes(free);
  }

  // ----- A physical address names one busy buffer -----

  /** The index of a busy buffer among the buffers of its pool. */
  function IndexOf(cfg: Config, s: Cmem, l: Location): nat
    requires ValidLocation(s, l) && l.bi < |cfg|
  {
    if l.i < |cfg[l.bi].pools| then |s.pools[l.bi][l.i].free| + l.k else l.k
  }

  lemma BusyAddressUnique(cfg: Config, s: Cmem, l: Location, m: Location)
    requires Inv(cfg, s) && ValidLocation(s, l) && ValidLocation(s, m)
    requires BufferAt(s, l).physp == BufferAt(s, m).physp
    ensures l == m
  {
    var x, y := IndexOf(cfg, s, l), IndexOf(cfg, s, m);
    assert Buffers(cfg, s, l.bi, l.i)[x] == BufferAt(s, l);
    assert Buffers(cfg, s, m.bi, m.i)[y] == BufferAt(s, m);
    BufferInRegion(cfg, s, l.bi, l.i, x);
    BufferInRegion(cfg, s, m.bi, m.i, y);
    if (l.bi, l.i, x) != (m.bi, m.i, y) {
      BuffersApart(cfg, s, l.bi, l.i, x, m.bi, m.i, y);
      assert false;
    }
  }

  /** An entry with the address, the first of its list. */
  predicate FirstAt(s: Cmem, l: Location, physp: int) {
    && ValidLocation(s, l) && BufferAt(s, l).physp == physp
    && l.k == FindInList(s.pools[l.bi][l.i].busy, 0, physp)
  }

  lemma {:induction false} FindInPoolsSound(s: Cmem, bi: nat, i: nat, physp: int)
    requires bi < |s.pools| == |s.heaps| && i <= |s.pools[bi]|
    ensures var l := FindInPools(s.pools[bi], bi, i, physp);
            && (l.At? ==> FirstAt(s, l, physp))
            && (l.Nowhere? ==> forall j, k | i <= j < |s.pools[bi]| && 0 <= k < |s.pools[bi][j].busy| ::
                  s.pools[bi][j].busy[k].physp != physp)
    decreases |s.pools[bi]| - i
  {
    if i < |s.pools[bi]| && FindInList(s.pools[bi][i].busy, 0, physp) == |s.pools[bi][i].busy| {
      FindInPoolsSound(s, bi, i + 1, physp);
    }
  }

  lemma {:induction false} FindBusySound(s: Cmem, bi: nat, physp: int)
    requires bi <= |s.pools| == |s.heaps|
    ensures var l := FindBusy(s.pools, bi, physp);
            && (l.At? ==> FirstAt(s, l, physp))
            && (l.Nowhere? ==> forall bj, j, k | bi <= bj < |s.pools| && 0 <= j < |s.pools[bj]|
                  && 0 <= k < |s.pools[bj][j].busy| :: s.pools[bj][j].busy[k].physp != physp)
    decreases |s.pools| - bi
  {
    if bi < |s.pools| {
      FindInPoolsSound(s, bi, 0, physp);
      FindBusySound(s, bi + 1, physp);
    }
  }

  /** The search returns the busy buffer at `physp`, wherever it is; it fails only when there is none. */
  lemma FindBusyIsTheOne(cfg: Config, s: Cmem, l: Location)
    requires Inv(cfg, s) && ValidLocation(s, l)
    ensures FindBusy(s.pools, 0, BufferAt(s, l).physp) == l
  {
    var physp := BufferAt(s, l).physp;
    FindBusySound(s, 0, physp);
    var m := FindBusy(s.pools, 0, physp);
    assert s.pools[l.bi][l.i].busy[l.k].physp == physp;
    assert m.At?;
    BusyAddressUnique(cfg, s, l, m);
  }
}
