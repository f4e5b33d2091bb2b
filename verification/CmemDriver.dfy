/**
 The contiguous-memory driver itself: pools, heaps and the reference count, updated in place by the system
 calls. Each method is tied to the value-level operation of the same name.
 */
module CmemDriver {
  import opened Common
  import opened HeapBlocks
  import opened HeapMem
  import opened CmemState
  import opened CmemInvariant
  import opened CmemSafety
  import opened CmemRuns

  datatype Errno = EINVAL | ENOMEM | EFAULT

  datatype Result<+T> = Ok(value: T) | Err(errno: Errno)

  const NBLOCKS: nat := 2

  const INT_MAX: nat := 0x7fff_ffff

  class Driver {
    const cfg: Config
    const useHeapIfPoolUnavailable: bool
    const heaps: seq<Heap>
    var pools: seq<seq<Pool>>
    var referenceCount: int
    ghost var lists: seq<seq<Block>>
    ghost var open: set<File>

    ghost function View(): Cmem
      reads this
    {
      Cmem(pools, lists, open)
    }

    ghost predicate HeapsMatch()
      reads this, heaps
    {
      && |heaps| == |lists| == |cfg|
      && (forall i | 0 <= i < |heaps| :: HeapMatches(heaps[i], cfg[i], lists[i]))
      && (forall i, j | 0 <= i < j < |heaps| :: heaps[i] != heaps[j])
    }

    /** What holds even while a file is being closed. */
    ghost predicate Consistent()
      reads this, heaps
    {
      Inv(cfg, View()) && Shaped(cfg, View()) && HeapsMatch() && |cfg| <= NBLOCKS
    }

    ghost predicate Valid()
      reads this, heaps
    {
      Consistent() && referenceCount == |open|
    }

    /** Module initialisation has set up every block; no file is open. */
    constructor (cfg: Config, heaps: seq<Heap>, pools: seq<seq<Pool>>, useHeap: bool, ghost lists: seq<seq<Block>>)
      requires |heaps| == |pools| == |lists| == |cfg| <= NBLOCKS
      requires forall i | 0 <= i < |cfg| :: HeapMatches(heaps[i], cfg[i], lists[i])
      requires forall i | 0 <= i < |cfg| :: BlockOk(cfg[i], pools[i], lists[i], {})
      requires forall i, j | 0 <= i < j < |heaps| :: heaps[i] != heaps[j]
      ensures ValidConfig(cfg) ==> Valid()
      ensures View() == Cmem(pools, lists, {}) && this.cfg == cfg && this.heaps == heaps && referenceCount == 0
      ensures useHeapIfPoolUnavailable == useHeap
    {
      this.cfg, this.heaps, this.pools, this.referenceCount := cfg, heaps, pools, 0;
      this.useHeapIfPoolUnavailable := useHeap;
      this.open, this.lists := {}, lists;
      new;
      if ValidConfig(cfg) {
        InvShaped(cfg, View());
      }
    }

    method Open(f: File)
      requires Valid() && f !in open
      modifies this
      ensures Valid() && View() == Step(cfg, old(View()), OpOpen(f))
      ensures f in open && referenceCount == old(referenceCount) + 1 && pools == old(pools)
    {
      StepKeepsInv(cfg, View(), OpOpen(f));
      referenceCount := referenceCount + 1;
      open := open + {f};
    }

    /** Search all busy lists for the buffer that starts at `physp`. */
    method FindBusyEntry(physp: int) returns (l: Location)
      requires |pools| == |cfg|
      ensures l == FindBusy(pools, 0, physp)
    {
      var bi := 0;
      while bi < |pools|
        invariant 0 <= bi <= |pools|
        invariant FindBusy(pools, 0, physp) == FindBusy(pools, bi, physp)
      {
        var i := 0;
        while i < |pools[bi]|
          invariant 0 <= i <= |pools[bi]|
          invariant FindInPools(pools[bi], bi, 0, physp) == FindInPools(pools[bi], bi, i, physp)
        {
          var k := 0;
          while k < |pools[bi][i].busy|
            invariant 0 <= k <= |pools[bi][i].busy|
            invariant FindInList(pools[bi][i].busy, 0, physp) == FindInList(pools[bi][i].busy, k, physp)
          {
            if pools[bi][i].busy[k].physp == physp {
              return At(bi, i, k);
            }
            k := k + 1;
          }
          i := i + 1;
        }
        bi := bi + 1;
      }
      return Nowhere;
    }

    /** Physical address of a kernel address inside a block; other addresses are translated elsewhere. */
    method GetPhys(virtp: int) returns (r: Option<int>)
      requires ValidConfig(cfg)
      ensures r.None? <==> forall bi | 0 <= bi < |cfg| :: !Holds(cfg[bi].VirtExtent(), virtp)
      ensures forall bi | 0 <= bi < |cfg| && Holds(cfg[bi].VirtExtent(), virtp) :: r == Some(cfg[bi].Phys(virtp))
    {
      var bi := 0;
      while bi < |cfg|
        invariant 0 <= bi <= |cfg|
        invariant forall bj | 0 <= bj < bi :: !Holds(cfg[bj].VirtExtent(), virtp)
      {
        if virtp >= cfg[bi].virtp && virtp < cfg[bi].virtp + cfg[bi].length {
          assert Holds(cfg[bi].VirtExtent(), virtp);
          return Some(virtp - cfg[bi].virtoff);
        }
        bi := bi + 1;
      }
      return None;
    }

    method SetPoolInPlace(bi: nat, i: nat, p: Pool)
      requires bi < |pools| && i < |pools[bi]|
      modifies `pools
      ensures pools == old(pools)[bi := old(pools)[bi][i := p]]
    {
      pools := pools[bi := pools[bi][i := p]];
    }

    /** ALLOC */
    method AllocBuffer(f: File, bi: nat, pool: int) returns (r: Result<(int, nat)>)
      requires Valid() && f in open
      modifies this`pools
      ensures Valid() && View() == Step(cfg, old(View()), OpAlloc(f, bi, pool))
      ensures r == Err(EINVAL) <==> bi >= |cfg| || pool < 0 || pool >= |cfg[bi].pools|
      ensures r == Err(ENOMEM) <==> bi < |cfg| && 0 <= pool < |cfg[bi].pools| && old(pools)[bi][pool].free == []
      ensures r.Err? ==> r != Err(EFAULT)
      ensures r.Ok? ==> r.value == (old(pools)[bi][pool].free[0].physp, cfg[bi].pools[pool].size)
    {
      StepKeepsInv(cfg, View(), OpAlloc(f, bi, pool));
      if bi >= |cfg| {
        return Err(EINVAL);
      }
      if pool >= |cfg[bi].pools| || pool < 0 {
        return Err(EINVAL);
      }
      PoolFacts(cfg, View(), bi, pool);
      var p := pools[bi][pool];
      if p.free == [] {
        return Err(ENOMEM);
      }
      var entry := p.free[0];
      r := Ok((entry.physp, p.size));
      assert lists[bi := lists[bi]] == lists;
      SetPoolInPlace(bi, pool,
        p.(free := p.free[1..], busy := [entry.(users := [f] + entry.users)] + p.busy));
    }

    /** REGUSER */
    method Register(f: File, physp: int) returns (r: Result<nat>)
      requires Valid() && f in open
      modifies this`pools
      ensures Valid() && View() == Step(cfg, old(View()), OpRegUser(f, physp))
      ensures r.Ok? <==> FindBusy(old(pools), 0, physp).At?
      ensures !r.Ok? ==> r == Err(EFAULT)
      ensures r.Ok? ==> ValidLocation(old(View()), FindBusy(old(pools), 0, physp))
      ensures r.Ok? ==> r.value == BufferAt(old(View()), FindBusy(old(pools), 0, physp)).size
    {
      StepKeepsInv(cfg, View(), OpRegUser(f, physp));
      var l := FindBusyEntry(physp);
      FindBusySound(View(), 0, physp);
      if l.Nowhere? {
        return Err(EFAULT);
      }
      var p := pools[l.bi][l.i];
      var entry := p.busy[l.k];
      r := Ok(entry.size);
      assert lists[l.bi := lists[l.bi]] == lists;
      SetPoolInPlace(l.bi, l.i, p.(busy := p.busy[l.k := entry.(users := [f] + entry.users)]));
    }

    /**
     ALLOCHEAP, for any size and alignment. The driver stays sound exactly when the request is a good one.
     */
    method AllocHeapBuffer(f: File, bi: nat, size: nat, align: nat) returns (r: Result<int>)
      requires Valid() && f in open && size < WORD && align < WORD
      modifies this`pools, this`lists, heaps
      ensures View() == Step(cfg, old(View()), OpAllocHeap(f, bi, size, align))
      ensures !HasHeap(bi) || GoodRequest(old(lists)[bi], size, align) ==> Valid()
      ensures r == Err(EINVAL) <==> !HasHeap(bi)
      ensures r.Ok? ==> r.value == cfg[bi].Phys(AllocAddr(old(lists)[bi], AdjustSize(size), AdjustAlign(align)))
      ensures r == Err(ENOMEM) <==>
        HasHeap(bi) && AllocAddr(old(lists)[bi], AdjustSize(size), AdjustAlign(align)) == NULL
      ensures r.Err? ==> r != Err(EFAULT)
    {
      if !HasHeap(bi) || GoodRequest(lists[bi], size, align) {
        AllocHeapKeepsInv(cfg, View(), f, bi, size, align);
        InvShaped(cfg, AllocHeap(cfg, View(), f, bi, size, align));
      }
      if bi >= |cfg| || cfg[bi].heapSize == 0 {
        return Err(EINVAL);
      }
      assert |pools[bi]| == |cfg[bi].pools| + 1;
      var virtp := TakeFromHeap(bi, size, align);
      var i := |cfg[bi].pools|;
      if virtp == NULL {
        SamePools(pools, bi, i);
        return Err(ENOMEM);
      }
      var entry := Buffer(i, cfg[bi].Phys(virtp), virtp, size, [f]);
      var p := pools[bi][i];
      SetPoolInPlace(bi, i, p.(busy := p.busy + [entry]));
      r := Ok(entry.physp);
    }

    predicate HasHeap(bi: nat) {
      bi < |cfg| && cfg[bi].heapSize > 0
    }

    method TakeFromHeap(bi: nat, size: nat, align: nat) returns (virtp: int)
      requires Consistent() && HasHeap(bi) && size < WORD && align < WORD
      modifies this`lists, heaps
      ensures virtp == AllocAddr(old(lists)[bi], AdjustSize(size), AdjustAlign(align))
      ensures lists == old(lists)[bi := AllocList(old(lists)[bi], AdjustSize(size), AdjustAlign(align))]
      ensures GoodRequest(old(lists)[bi], size, align) ==> HeapsMatch()
    {
      assert HeapMatches(heaps[bi], cfg[bi], lists[bi]);
      virtp := heaps[bi].Alloc(size, align, false);
      lists := lists[bi := heaps[bi].blocks];
    }

    /** The bytes of heap buffer `l` go back to its heap. */
    method GiveBack(l: Location)
      requires Consistent() && ValidLocation(View(), l) && l.i == |cfg[l.bi].pools|
      modifies this`lists, heaps
      ensures HeapsMatch()
      ensures var b := pools[l.bi][l.i].busy[l.k];
              lists == old(lists)[l.bi := FreeList(old(lists)[l.bi], b.kvirtp, AdjustSize(b.size))]
    {
      PoolFacts(cfg, View(), l.bi, l.i);
      var entry := pools[l.bi][l.i].busy[l.k];
      HeapRangeFreeable(cfg[l.bi], pools[l.bi][l.i], lists[l.bi], open, l.k);
      assert HeapMatches(heaps[l.bi], cfg[l.bi], lists[l.bi]);
      heaps[l.bi].Free(entry.kvirtp, entry.size);
      lists := lists[l.bi := heaps[l.bi].blocks];
    }

    /** Give busy buffer `l` the registrations left to it; with none left it is freed. */
    method SetUsers(l: Location, users: seq<File>)
      requires Consistent() && ValidLocation(View(), l) && forall f | f in users :: f in open
      modifies this`pools, this`lists, heaps
      ensures Consistent() && View() == UnregisterAt(cfg, old(View()), l, users)
    {
      if users == [] {
        FreeEntry(l);
      } else {
        UnregisterAtKeepsInv(cfg, View(), l, users);
        InvShaped(cfg, UnregisterAt(cfg, View(), l, users));
        assert lists[l.bi := lists[l.bi]] == lists;
        var p := pools[l.bi][l.i];
        SetPoolInPlace(l.bi, l.i, p.(busy := p.busy[l.k := p.busy[l.k].(users := users)]));
      }
    }

    /** Busy buffer `l` goes back to its heap, or first on the free list of its pool. */
    method FreeEntry(l: Location)
      requires Consistent() && ValidLocation(View(), l)
      modifies this`pools, this`lists, heaps
      ensures Consistent() && View() == UnregisterAt(cfg, old(View()), l, [])
    {
      UnregisterAtKeepsInv(cfg, View(), l, []);
      PoolFacts(cfg, View(), l.bi, l.i);
      InvShaped(cfg, UnregisterAt(cfg, View(), l, []));
      assert lists[l.bi := lists[l.bi]] == lists;
      var p := pools[l.bi][l.i];
      var entry := p.busy[l.k].(users := []);
      if l.i == |cfg[l.bi].pools| {
        GiveBack(l);
        SetPoolInPlace(l.bi, l.i, p.(busy := RemoveAt(p.busy, l.k)));
      } else {
        SetPoolInPlace(l.bi, l.i, p.(busy := RemoveAt(p.busy, l.k), free := [entry] + p.free));
      }
    }

    /** Look for a registration of `f`; the first one found is taken off the list. */
    static method RemoveUser(users: seq<File>, f: File) returns (found: bool, rest: seq<File>)
      ensures found <==> f in users
      ensures rest == RemoveFirst(users, f)
    {
      var u := 0;
      while u < |users|
        invariant 0 <= u <= |users| && f !in users[..u]
      {
        if users[u] == f {
          RemoveFirstAt(users, u, f);
          return true, users[..u] + users[u + 1..];
        }
        u := u + 1;
      }
      RemoveFirstAbsent(users, f);
      return false, users;
    }

    /** FREE */
    method FreeBuffer(f: File, physp: int) returns (r: Result<(nat, nat)>)
      requires Valid() && f in open
      modifies this`pools, this`lists, heaps
      ensures Valid() && View() == Step(cfg, old(View()), OpFree(f, physp))
      ensures var l := FindBusy(old(pools), 0, physp);
        r.Ok? <==> ValidLocation(old(View()), l) && f in BufferAt(old(View()), l).users
      ensures r.Err? ==> r.errno == EFAULT && View() == old(View())
      ensures r.Ok? ==> var l := FindBusy(old(pools), 0, physp); r.value == (BufferAt(old(View()), l).size, l.i)
    {
      var l := FindBusyEntry(physp);
      FindBusySound(View(), 0, physp);
      if l.Nowhere? {
        return Err(EFAULT);
      }
      var entry := pools[l.bi][l.i].busy[l.k];
      var found, rest := RemoveUser(entry.users, f);
      if !found {
        return Err(EFAULT);
      }
      RegisteredAt(cfg, View(), l);
      PoolFacts(cfg, View(), l.bi, l.i);
      RemoveFirstSubset(entry.users, f);
      SetUsers(l, rest);
      r := Ok((if l.i == |cfg[l.bi].pools| then entry.size else pools[l.bi][l.i].size, l.i));
    }

    /** GETPOOL: the best-fitting pool with a free buffer, or -2 for the heap. */
    method GetPool(bi: nat, reqsize: nat) returns (r: Result<int>)
      requires Valid() && reqsize < WORD
      modifies heaps
      ensures Valid() && View() == old(View())
      ensures r == Err(EINVAL) <==> bi >= NBLOCKS
      ensures r.Ok? && r.value >= 0 <==>
        bi < |cfg| && exists i | 0 <= i < |cfg[bi].pools| :: Fitting(pools[bi][i], reqsize)
      ensures r.Ok? && r.value >= 0 ==> BestFit(pools[bi], |cfg[bi].pools|, reqsize, r.value)
      ensures r == Ok(-2) <==>
        && bi < |cfg| && (forall i | 0 <= i < |cfg[bi].pools| :: !Fitting(pools[bi][i], reqsize))
        && cfg[bi].heapSize > 0 && useHeapIfPoolUnavailable
        && AllocAddr(lists[bi], AdjustSize(reqsize), AdjustAlign(PAGE_SIZE)) != NULL
      ensures r.Ok? ==> r.value >= 0 || r.value == -2
    {
      if bi >= NBLOCKS {
        return Err(EINVAL);
      }
      if bi >= |cfg| {
        return Err(ENOMEM);
      }
      var delta, pool := INT_MAX, -1;
      var i := 0;
      while i < |cfg[bi].pools|
        invariant 0 <= i <= |cfg[bi].pools|
        invariant pool == -1 ==> delta == INT_MAX && forall j | 0 <= j < i :: !Fitting(pools[bi][j], reqsize)
        invariant pool != -1 ==> 0 <= pool < i && BestFit(pools[bi], i, reqsize, pool)
        invariant pool != -1 ==> delta == pools[bi][pool].size - reqsize
      {
        var p := pools[bi][i];
        if p.size >= reqsize && p.size - reqsize < delta && p.free != [] {
          delta := p.size - reqsize;
          pool := i;
        }
        i := i + 1;
      }
      if pool == -1 && cfg[bi].heapSize > 0 && useHeapIfPoolUnavailable {
        assert HeapMatches(heaps[bi], cfg[bi], lists[bi]);
        var virtp := heaps[bi].Alloc(reqsize, PAGE_SIZE, true);
        if virtp != NULL {
          pool := -2;
        }
      }
      if pool == -1 {
        return Err(ENOMEM);
      }
      return Ok(pool);
    }

    /** The registrations left when those of `f`, or on the last close all, are dropped. */
    static method DropRegistrations(users: seq<File>, f: File, last: bool) returns (kept: seq<File>)
      ensures kept == DropUsers(users, f, last)
    {
      kept := [];
      var u := 0;
      while u < |users|
        invariant 0 <= u <= |users| && kept == DropUsers(users[..u], f, last)
      {
        DropUsersAppend(users, u, f, last);
        if !(last || users[u] == f) {
          kept := kept + [users[u]];
        }
        u := u + 1;
      }
      assert users[..u] == users;
    }

    /** Release the registrations on one busy list. */
    method ClosePool(bi: nat, i: nat, f: File, last: bool)
      requires Consistent() && bi < |pools| && i < |pools[bi]|
      modifies this`pools, this`lists, heaps
      ensures Consistent() && View() == CloseEntries(cfg, old(View()), bi, i, 0, f, last)
    {
      ghost var was := View();
      var k := 0;
      while k < |pools[bi][i].busy|
        invariant Consistent() && open == was.open && |pools| == |was.pools| && i < |pools[bi]|
        invariant 0 <= k <= |pools[bi][i].busy|
        invariant CloseEntries(cfg, was, bi, i, 0, f, last) == CloseEntries(cfg, View(), bi, i, k, f, last)
        decreases |pools[bi][i].busy| - k
      {
        var kept := CloseEntry(At(bi, i, k), f, last);
        if kept {
          k := k + 1;
        }
      }
    }

    /** Release the registrations of one buffer; `kept` says whether it stays busy. */
    method CloseEntry(l: Location, f: File, last: bool) returns (kept: bool)
      requires Consistent() && ValidLocation(View(), l)
      modifies this`pools, this`lists, heaps
      ensures Consistent()
      ensures var rest := DropUsers(BufferAt(old(View()), l).users, f, last);
              View() == UnregisterAt(cfg, old(View()), l, rest) && (kept <==> rest != [])
    {
      var users := pools[l.bi][l.i].busy[l.k].users;
      var rest := DropRegistrations(users, f, last);
      RegisteredAt(cfg, View(), l);
      DropUsersMembers(users, f, last);
      SetUsers(l, rest);
      kept := rest != [];
    }

    /** Release the registrations in one block. */
    method CloseBlock(bi: nat, f: File, last: bool)
      requires Consistent() && bi < |cfg|
      modifies this`pools, this`lists, heaps
      ensures Consistent() && View() == ClosePools(cfg, old(View()), bi, 0, f, last)
    {
      ghost var was := View();
      var numPools := cfg[bi].NumPools();
      var i := 0;
      while i < numPools
        invariant Consistent() && open == was.open && 0 <= i <= numPools == |pools[bi]|
        invariant |pools| == |lists| == |cfg|
        invariant ClosePools(cfg, was, bi, 0, f, last) == ClosePools(cfg, View(), bi, i, f, last)
      {
        ClosePool(bi, i, f, last);
        i := i + 1;
      }
    }

    /** RELEASE */
    method Release(f: File)
      requires Valid() && f in open
      modifies this, heaps
      ensures Valid() && View() == Step(cfg, old(View()), OpClose(f))
      ensures referenceCount == old(referenceCount) - 1
    {
      ghost var was := View();
      referenceCount := referenceCount - 1;
      assert |open - {f}| == referenceCount;
      CloseAllBlocks(f, referenceCount == 0);
      CloseKeepsInv(cfg, was, f);
      assert View().(open := open - {f}) == Close(cfg, was, f);
      Forget(f);
    }

    /** The file is no longer open; nothing is registered for it any more. */
    ghost method Forget(f: File)
      requires Consistent() && Inv(cfg, View().(open := open - {f}))
      modifies `open
      ensures Consistent() && View() == old(View()).(open := old(open) - {f})
    {
      open := open - {f};
      InvShaped(cfg, View());
    }

    method CloseAllBlocks(f: File, last: bool)
      requires Consistent()
      modifies this`pools, this`lists, heaps
      ensures Consistent() && View() == CloseBlocks(cfg, old(View()), 0, f, last)
    {
      ghost var was := View();
      var bi := 0;
      while bi < |cfg|
        invariant Consistent() && open == was.open && 0 <= bi <= |cfg|
        invariant CloseBlocks(cfg, was, 0, f, last) == CloseBlocks(cfg, View(), bi, f, last)
      {
        CloseBlock(bi, f, last);
        bi := bi + 1;
      }
    }
  }

  /** Pool `p` has a free buffer of at least the requested size, with slack below INT_MAX. */
  predicate Fitting(p: Pool, reqsize: nat) {
    p.size >= reqsize && p.size - reqsize < INT_MAX && p.free != []
  }

  /** Among the first `n` pools, `r` is the lowest-indexed of the fitting ones with the least size. */
  ghost predicate BestFit(pools: seq<Pool>, n: nat, reqsize: nat, r: int) {
    && 0 <= r < n <= |pools| && Fitting(pools[r], reqsize)
    && (forall i | 0 <= i < n && Fitting(pools[i], reqsize) :: pools[r].size <= pools[i].size)
    && (forall i | 0 <= i < r && Fitting(pools[i], reqsize) :: pools[r].size < pools[i].size)
  }

  lemma SamePools(pools: seq<seq<Pool>>, bi: nat, i: nat)
    requires bi < |pools| && i < |pools[bi]|
    ensures pools[bi := pools[bi][i := pools[bi][i]]] == pools
  {
    assert pools[bi][i := pools[bi][i]] == pools[bi];
  }

  lemma {:induction false} RemoveFirstAbsent(users: seq<File>, f: File)
    requires f !in users
    ensures RemoveFirst(users, f) == users
    decreases |users|
  {
    if users != [] {
      RemoveFirstAbsent(users[1..], f);
    }
  }

  /** A busy heap buffer can be given back to the heap. */
  lemma HeapRangeFreeable(bc: BlockConfig, p: Pool, h: seq<Block>, open: set<File>, k: nat)
    requires HeapPoolOk(bc, p, h, open) && k < |p.busy|
    ensures var b := HeapRange(p.busy[k]);
            && b.size == AdjustSize(p.busy[k].size) < WORD && p.busy[k].size < WORD
            && Freeable(h, bc.virtp, bc.HeapEnd(), b)
  {
    assert HeapBufferOk(bc, p.busy[k], open) && HeapRange(p.busy[k]) in LiveBlocks(p.busy);
    FreeKeepsTiled(h, LiveBlocks(p.busy), bc.virtp, bc.HeapEnd(), HeapRange(p.busy[k]));
    RoundUpIsLeastMultiple(p.busy[k].size);
  }

  lemma {:induction false} RemoveFirstAt(users: seq<File>, u: nat, f: File)
    requires u < |users| && users[u] == f && f !in users[..u]
    ensures RemoveFirst(users, f) == users[..u] + users[u + 1..]
    decreases |users|
  {
    if u > 0 {
      assert users[0] in users[..u];
      assert users[1..][..u - 1] == users[..u][1..];
      RemoveFirstAt(users[1..], u - 1, f);
    }
  }

  lemma {:induction false} DropUsersAppend(users: seq<File>, u: nat, f: File, last: bool)
    requires u < |users|
    ensures DropUsers(users[..u + 1], f, last) ==
      DropUsers(users[..u], f, last) + (if last || users[u] == f then [] else [users[u]])
    decreases |users|
  {
    if u == 0 {
      assert users[..1] == [users[0]] + [];
    } else {
      DropUsersAppend(users[1..], u - 1, f, last);
      assert users[..u + 1][1..] == users[1..][..u] && users[..u][1..] == users[1..][..u - 1];
    }
  }
}
