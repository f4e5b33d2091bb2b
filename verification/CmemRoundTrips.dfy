/** Each way of acquiring a buffer is undone, to the last list element, by freeing it. */
module CmemRoundTrips {
  import opened HeapBlocks
  import opened CmemState
  import opened CmemInvariant
  import opened CmemSafety
  import opened CmemRuns

  lemma SetPoolBack(s: Cmem, bi: nat, i: nat, p: Pool, h: seq<Block>, q: Pool, g: seq<Block>)
    requires PoolExists(s, bi, i)
    ensures SetPool(SetPool(s, bi, i, p, h), bi, i, q, g) == SetPool(s, bi, i, q, g)
  {
    var t := SetPool(s, bi, i, p, h);
    assert t.pools[bi][i := q] == s.pools[bi][i := q];
    assert t.pools[bi := s.pools[bi][i := q]] == s.pools[bi := s.pools[bi][i := q]];
    assert t.heaps[bi := g] == s.heaps[bi := g];
  }

  lemma SetPoolSame(s: Cmem, bi: nat, i: nat)
    requires PoolExists(s, bi, i)
    ensures SetPool(s, bi, i, s.pools[bi][i], s.heaps[bi]) == s
  {
    assert s.pools[bi][i := s.pools[bi][i]] == s.pools[bi];
    assert s.pools[bi := s.pools[bi]] == s.pools;
    assert s.heaps[bi := s.heaps[bi]] == s.heaps;
  }

  ghost predicate PoolExists(s: Cmem, bi: nat, i: nat) {
    bi < |s.pools| && bi < |s.heaps| && i < |s.pools[bi]|
  }

  /** Freeing the only registration of a busy buffer is taking it off the busy list. */
  lemma FreeOnlyUser(cfg: Config, s: Cmem, l: Location, f: File)
    requires Inv(cfg, s) && Shaped(cfg, s) && ValidLocation(s, l) && BufferAt(s, l).users == [f]
    ensures Free(cfg, s, f, BufferAt(s, l).physp) == UnregisterAt(cfg, s, l, [])
  {
    FindBusyIsTheOne(cfg, s, l);
    assert RemoveFirst([f], f) == [];
  }

  /** ALLOC followed by FREE leaves every list as it was. */
  lemma AllocThenFree(cfg: Config, s: Cmem, f: File, bi: nat, pool: nat)
    requires Inv(cfg, s) && Shaped(cfg, s) && f in s.open
    requires bi < |cfg| && pool < |cfg[bi].pools| && s.pools[bi][pool].free != []
    ensures var t := AllocPool(cfg, s, f, bi, pool);
            && Shaped(cfg, t) && Free(cfg, t, f, s.pools[bi][pool].free[0].physp) == s
  {
    PoolFacts(cfg, s, bi, pool);
    var p := s.pools[bi][pool];
    var b := p.free[0];
    var q := p.(free := p.free[1..], busy := [b.(users := [f])] + p.busy);
    var t := AllocPool(cfg, s, f, bi, pool);
    assert [f] + b.users == [f];
    assert t == SetPool(s, bi, pool, q, s.heaps[bi]);
    AllocPoolKeepsInv(cfg, s, f, bi, pool);
    InvShaped(cfg, t);
    FreeOnlyUser(cfg, t, At(bi, pool, 0), f);
    assert RemoveAt(q.busy, 0) == p.busy && [b] + p.free[1..] == p.free;
    assert b.(users := []) == b;
    assert Unregister(false, q, s.heaps[bi], 0, []) == (p, s.heaps[bi]);
    SetPoolBack(s, bi, pool, q, s.heaps[bi], p, s.heaps[bi]);
    SetPoolSame(s, bi, pool);
  }

  /** A successful ALLOCHEAP followed by FREE restores the free list of the heap exactly. */
  lemma AllocHeapThenFree(cfg: Config, s: Cmem, f: File, bi: nat, size: nat, align: nat)
    requires Inv(cfg, s) && Shaped(cfg, s) && f in s.open && bi < |cfg| && cfg[bi].heapSize > 0
    requires HeapRequest(size, align) && AllocAddr(s.heaps[bi], AdjustSize(size), AdjustAlign(align)) != NULL
    ensures var t := AllocHeap(cfg, s, f, bi, size, align);
            var v := AllocAddr(s.heaps[bi], AdjustSize(size), AdjustAlign(align));
            && Shaped(cfg, t) && Free(cfg, t, f, cfg[bi].Phys(v)) == s
  {
    var i := |cfg[bi].pools|;
    PoolFacts(cfg, s, bi, i);
    var p, h, n, al := s.pools[bi][i], s.heaps[bi], AdjustSize(size), AdjustAlign(align);
    var v := AllocAddr(h, n, al);
    var b := Buffer(i, cfg[bi].Phys(v), v, size, [f]);
    var q, g := p.(busy := p.busy + [b]), AllocList(h, n, al);
    var t := AllocHeap(cfg, s, f, bi, size, align);
    assert t == SetPool(s, bi, i, q, g);
    AllocRequestKeepsInv(cfg, s, f, bi, size, align);
    InvShaped(cfg, t);
    FreeOnlyUser(cfg, t, At(bi, i, |p.busy|), f);
    assert RemoveAt(q.busy, |p.busy|) == p.busy;
    HeapRequestIsGood(h, cfg[bi].virtp, cfg[bi].HeapEnd(), size, align);
    AdjustSizeZero(size);
    AdjustAlignIsPaged(align);
    AllocFreeRoundTrip(h, cfg[bi].virtp, cfg[bi].HeapEnd(), n, al);
    assert Unregister(true, q, g, |p.busy|, []) == (p, h);
    SetPoolBack(s, bi, i, q, g, p, h);
    SetPoolSame(s, bi, i);
  }

  /** REGUSER followed by FREE by the same file gives back the same registrations in the same order. */
  lemma RegisterThenFree(cfg: Config, s: Cmem, f: File, l: Location)
    requires Inv(cfg, s) && Shaped(cfg, s) && f in s.open && ValidLocation(s, l)
    ensures var t := RegUser(s, f, BufferAt(s, l).physp);
            && Shaped(cfg, t) && Free(cfg, t, f, BufferAt(s, l).physp) == s
  {
    var b, p, h := BufferAt(s, l), s.pools[l.bi][l.i], s.heaps[l.bi];
    FindBusyIsTheOne(cfg, s, l);
    RegisteredAt(cfg, s, l);
    var t := RegUser(s, f, b.physp);
    var c := b.(users := [f] + b.users);
    var q := p.(busy := p.busy[l.k := c]);
    assert t == SetPool(s, l.bi, l.i, q, h);
    RegUserKeepsInv(cfg, s, f, b.physp);
    InvShaped(cfg, t);
    assert BufferAt(t, l) == c;
    FindBusyIsTheOne(cfg, t, l);
    assert RemoveFirst(c.users, f) == b.users by {
      assert ([f] + b.users)[1..] == b.users;
    }
    assert q.busy[l.k := b] == p.busy;
    assert Unregister(IsHeapPool(cfg, l.bi, l.i), q, h, l.k, b.users) == (p, h);
    SetPoolBack(s, l.bi, l.i, q, h, p, h);
    SetPoolSame(s, l.bi, l.i);
  }
}
