/**
 Whole runs of the contiguous-memory driver: every operation keeps the invariant, hence every run does; and
 what goes wrong with heap requests that break the heap's conditions.
 */
module CmemRuns {
  import opened HeapBlocks
  import opened CmemState
  import opened CmemInvariant
  import opened CmemSafety

  // ----- Every step keeps the invariant -----

  ghost predicate HasPool(cfg: Config, s: Cmem, bi: nat, i: nat) {
    bi < |cfg| && bi < |s.pools| && bi < |s.heaps| && i < |s.pools[bi]|
  }

  lemma PoolFacts(cfg: Config, s: Cmem, bi: nat, i: nat)
    requires Inv(cfg, s) && HasPool(cfg, s, bi, i)
    ensures ValidBlock(cfg[bi]) && BlockOk(cfg[bi], s.pools[bi], s.heaps[bi], s.open)
    ensures i <= |cfg[bi].pools| && PoolOk(cfg[bi], i, s.pools[bi][i], s.heaps[bi], s.open)
    ensures Addressable(s.heaps[bi])
  {
    assert BlockOk(cfg[bi], s.pools[bi], s.heaps[bi], s.open);
    InvShaped(cfg, s);
  }

  lemma SetPoolKeepsInv(cfg: Config, s: Cmem, bi: nat, i: nat, p: Pool, h: seq<Block>)
    requires Inv(cfg, s) && HasPool(cfg, s, bi, i)
    requires PoolOk(cfg[bi], i, p, h, s.open)
    requires if i < |cfg[bi].pools| then h == s.heaps[bi] else WellFormed(h, cfg[bi].virtp, cfg[bi].HeapEnd())
    ensures Inv(cfg, SetPool(s, bi, i, p, h))
  {
    var t := SetPool(s, bi, i, p, h);
    forall bj | 0 <= bj < |cfg|
      ensures BlockOk(cfg[bj], t.pools[bj], t.heaps[bj], t.open)
    {
      assert BlockOk(cfg[bj], s.pools[bj], s.heaps[bj], s.open);
      if bj == bi {
        forall j | 0 <= j < |t.pools[bj]|
          ensures PoolOk(cfg[bj], j, t.pools[bj][j], t.heaps[bj], t.open)
        {
          assert PoolOk(cfg[bj], j, s.pools[bj][j], s.heaps[bj], s.open);
        }
      }
    }
  }

  lemma UnregisterAtKeepsInv(cfg: Config, s: Cmem, l: Location, users: seq<File>)
    requires Inv(cfg, s) && ValidLocation(s, l) && forall f | f in users :: f in s.open
    ensures Inv(cfg, UnregisterAt(cfg, s, l, users))
  {
    var bc, p, h := cfg[l.bi], s.pools[l.bi][l.i], s.heaps[l.bi];
    PoolFacts(cfg, s, l.bi, l.i);
    if l.i < |bc.pools| {
      NormalUnregister(bc.pools[l.i], p, h, l.k, users, s.open);
    } else {
      HeapUnregister(bc, p, h, l.k, users, s.open);
    }
    var r := Unregister(IsHeapPool(cfg, l.bi, l.i), p, h, l.k, users);
    SetPoolKeepsInv(cfg, s, l.bi, l.i, r.0, r.1);
  }

  lemma {:induction false} RemoveFirstSubset(users: seq<File>, f: File)
    ensures forall g | g in RemoveFirst(users, f) :: g in users
    decreases |users|
  {
    if users != [] {
      RemoveFirstSubset(users[1..], f);
    }
  }

  lemma FreeKeepsInv(cfg: Config, s: Cmem, f: File, physp: int)
    requires Inv(cfg, s) && Shaped(cfg, s)
    ensures Inv(cfg, Free(cfg, s, f, physp))
  {
    var l := FindBusy(s.pools, 0, physp);
    if ValidLocation(s, l) && f in BufferAt(s, l).users {
      RegisteredAt(cfg, s, l);
      RemoveFirstSubset(BufferAt(s, l).users, f);
      UnregisterAtKeepsInv(cfg, s, l, RemoveFirst(BufferAt(s, l).users, f));
    }
  }

  /** Every busy buffer has at least one registration, and registrations only name open files. */
  lemma RegisteredAt(cfg: Config, s: Cmem, l: Location)
    requires Inv(cfg, s) && ValidLocation(s, l)
    ensures Registered(BufferAt(s, l).users, s.open)
  {
    PoolFacts(cfg, s, l.bi, l.i);
    if l.i == |cfg[l.bi].pools| {
      assert HeapBufferOk(cfg[l.bi], BufferAt(s, l), s.open);
    }
  }

  lemma RegUserKeepsInv(cfg: Config, s: Cmem, f: File, physp: int)
    requires Inv(cfg, s) && f in s.open
    ensures Inv(cfg, RegUser(s, f, physp))
  {
    var l := FindBusy(s.pools, 0, physp);
    if ValidLocation(s, l) {
      RegisteredAt(cfg, s, l);
      var users := [f] + BufferAt(s, l).users;
      UnregisterAtKeepsInv(cfg, s, l, users);
      assert RegUser(s, f, physp) == UnregisterAt(cfg, s, l, users);
    }
  }

  lemma AllocPoolKeepsInv(cfg: Config, s: Cmem, f: File, bi: nat, pool: int)
    requires Inv(cfg, s) && Shaped(cfg, s) && f in s.open
    ensures Inv(cfg, AllocPool(cfg, s, f, bi, pool))
  {
    if bi < |cfg| && 0 <= pool < |cfg[bi].pools| && s.pools[bi][pool].free != [] {
      PoolFacts(cfg, s, bi, pool);
      var p := s.pools[bi][pool];
      NormalAllocate(cfg[bi].pools[pool], p, f, s.open);
      SetPoolKeepsInv(cfg, s, bi, pool,
        p.(free := p.free[1..], busy := [p.free[0].(users := [f] + p.free[0].users)] + p.busy), s.heaps[bi]);
    }
  }

  lemma AllocHeapKeepsInv(cfg: Config, s: Cmem, f: File, bi: nat, size: nat, align: nat)
    requires Inv(cfg, s) && Shaped(cfg, s) && f in s.open && size < WORD && align < WORD
    requires bi < |cfg| && cfg[bi].heapSize > 0 ==> GoodRequest(s.heaps[bi], size, align)
    ensures Inv(cfg, AllocHeap(cfg, s, f, bi, size, align))
  {
    if bi < |cfg| && cfg[bi].heapSize > 0 {
      var i := |cfg[bi].pools|;
      PoolFacts(cfg, s, bi, i);
      var p, h, n, al := s.pools[bi][i], s.heaps[bi], AdjustSize(size), AdjustAlign(align);
      var v := AllocAddr(h, n, al);
      GoodAllocKeepsOrder(h, cfg[bi].virtp, cfg[bi].HeapEnd(), size, align);
      if v != NULL {
        HeapAllocate(cfg[bi], p, h, i, size, align, f, s.open);
        SetPoolKeepsInv(cfg, s, bi, i, p.(busy := p.busy + [Buffer(i, cfg[bi].Phys(v), v, size, [f])]),
          AllocList(h, n, al));
      } else {
        FailedAllocKeepsList(h, cfg[bi].virtp, cfg[bi].HeapEnd(), size, align);
        SetPoolKeepsInv(cfg, s, bi, i, p, h);
      }
    }
  }

  lemma FailedAllocKeepsList(bs: seq<Block>, lo: nat, hi: int, size: nat, align: nat)
    requires WellFormed(bs, lo, hi) && 0 < lo && hi <= WORD && size < WORD && GoodRequest(bs, size, align)
    requires AllocAddr(bs, AdjustSize(size), AdjustAlign(align)) == NULL
    ensures AllocList(bs, AdjustSize(size), AdjustAlign(align)) == bs
  {
    var n, al := AdjustSize(size), AdjustAlign(align);
    AdjustSizeZero(size);
    if FitIndex(bs, 0, n, al) < |bs| {
      AllocWithoutWrap(bs, lo, hi, n, al);
    }
  }

  lemma AllocRequestKeepsInv(cfg: Config, s: Cmem, f: File, bi: nat, size: nat, align: nat)
    requires Inv(cfg, s) && Shaped(cfg, s) && f in s.open && HeapRequest(size, align)
    ensures Inv(cfg, AllocHeap(cfg, s, f, bi, size, align))
  {
    if bi < |cfg| && cfg[bi].heapSize > 0 {
      PoolFacts(cfg, s, bi, |cfg[bi].pools|);
      HeapRequestIsGood(s.heaps[bi], cfg[bi].virtp, cfg[bi].HeapEnd(), size, align);
    }
    RoundUpIsLeastMultiple(size);
    AllocHeapKeepsInv(cfg, s, f, bi, size, align);
  }

  lemma WiderOpenKeepsInv(cfg: Config, s: Cmem, open: set<File>)
    requires Inv(cfg, s) && s.open <= open
    ensures Inv(cfg, s.(open := open))
  {
    forall bi | 0 <= bi < |cfg|
      ensures BlockOk(cfg[bi], s.pools[bi], s.heaps[bi], open)
    {
      assert BlockOk(cfg[bi], s.pools[bi], s.heaps[bi], s.open);
      forall i | 0 <= i < |s.pools[bi]|
        ensures PoolOk(cfg[bi], i, s.pools[bi][i], s.heaps[bi], open)
      {
        assert PoolOk(cfg[bi], i, s.pools[bi][i], s.heaps[bi], s.open);
      }
    }
  }

  // ----- Closing -----

  lemma {:induction false} DropUsersMembers(users: seq<File>, f: File, last: bool)
    ensures forall g | g in DropUsers(users, f, last) :: g in users && g != f && !last
    ensures !last && f !in users ==> DropUsers(users, f, last) == users
    decreases |users|
  {
    if users != [] {
      DropUsersMembers(users[1..], f, last);
    }
  }

  lemma CloseOneKeepsInv(cfg: Config, s: Cmem, l: Location, f: File, last: bool)
    requires Inv(cfg, s) && ValidLocation(s, l)
    ensures Inv(cfg, UnregisterAt(cfg, s, l, DropUsers(BufferAt(s, l).users, f, last)))
  {
    RegisteredAt(cfg, s, l);
    DropUsersMembers(BufferAt(s, l).users, f, last);
    UnregisterAtKeepsInv(cfg, s, l, DropUsers(BufferAt(s, l).users, f, last));
  }

  /** No busy buffer of the pool is registered for `f`. */
  ghost predicate Forgotten(p: Pool, n: nat, f: File) {
    n <= |p.busy| && forall k | 0 <= k < n :: f !in p.busy[k].users
  }

  /** `t` differs from `s` in one pool only. */
  ghost predicate OnlyPool(s: Cmem, t: Cmem, bi: nat, i: nat) {
    && bi < |s.pools| == |t.pools| && i < |s.pools[bi]| == |t.pools[bi]|
    && t.pools == s.pools[bi := s.pools[bi][i := t.pools[bi][i]]]
    && t.open == s.open
  }

  lemma CloseOneForgets(cfg: Config, s: Cmem, bi: nat, i: nat, k: nat, users: seq<File>, f: File)
    requires HasPool(cfg, s, bi, i) && k < |s.pools[bi][i].busy|
    requires Forgotten(s.pools[bi][i], k, f) && f !in users
    ensures var t := UnregisterAt(cfg, s, At(bi, i, k), users);
            OnlyPool(s, t, bi, i) && Forgotten(t.pools[bi][i], if users == [] then k else k + 1, f)
  {
  }

  lemma OnlyPoolTwice(s: Cmem, t: Cmem, u: Cmem, bi: nat, i: nat)
    requires OnlyPool(s, t, bi, i) && OnlyPool(t, u, bi, i)
    ensures OnlyPool(s, u, bi, i)
  {
    assert t.pools[bi][i := u.pools[bi][i]] == s.pools[bi][i := u.pools[bi][i]];
  }

  lemma {:induction false} CloseEntriesForgets(cfg: Config, s: Cmem, bi: nat, i: nat, k: nat, f: File, last: bool)
    requires HasPool(cfg, s, bi, i) && Forgotten(s.pools[bi][i], k, f)
    ensures var t := CloseEntries(cfg, s, bi, i, k, f, last);
            OnlyPool(s, t, bi, i) && Forgotten(t.pools[bi][i], |t.pools[bi][i].busy|, f)
    decreases |s.pools[bi][i].busy| - k
  {
    var t := CloseEntries(cfg, s, bi, i, k, f, last);
    if k == |s.pools[bi][i].busy| {
      assert s.pools[bi][i := s.pools[bi][i]] == s.pools[bi];
    } else {
      var users := DropUsers(s.pools[bi][i].busy[k].users, f, last);
      var s' := UnregisterAt(cfg, s, At(bi, i, k), users);
      DropUsersMembers(s.pools[bi][i].busy[k].users, f, last);
      CloseOneForgets(cfg, s, bi, i, k, users, f);
      CloseEntriesForgets(cfg, s', bi, i, if users == [] then k else k + 1, f, last);
      OnlyPoolTwice(s, s', t, bi, i);
    }
  }

  lemma {:induction false} CloseEntriesKeepsInv(cfg: Config, s: Cmem, bi: nat, i: nat, k: nat, f: File, last: bool)
    requires Inv(cfg, s) && HasPool(cfg, s, bi, i) && k <= |s.pools[bi][i].busy|
    ensures Inv(cfg, CloseEntries(cfg, s, bi, i, k, f, last))
    decreases |s.pools[bi][i].busy| - k
  {
    if k < |s.pools[bi][i].busy| {
      var users := DropUsers(s.pools[bi][i].busy[k].users, f, last);
      CloseOneKeepsInv(cfg, s, At(bi, i, k), f, last);
      CloseEntriesKeepsInv(cfg, UnregisterAt(cfg, s, At(bi, i, k), users), bi, i,
        if users == [] then k else k + 1, f, last);
    }
  }

  ghost predicate PoolsForgotten(pools: seq<Pool>, n: nat, f: File) {
    n <= |pools| && forall i | 0 <= i < n :: Forgotten(pools[i], |pools[i].busy|, f)
  }

  /** `t` differs from `s` in one block only. */
  ghost predicate OnlyBlock(s: Cmem, t: Cmem, bi: nat) {
    bi < |s.pools| == |t.pools| && t.pools == s.pools[bi := t.pools[bi]]
  }

  lemma {:induction false} ClosePoolsForgets(cfg: Config, s: Cmem, bi: nat, i: nat, f: File, last: bool)
    requires bi < |cfg| && bi < |s.pools| && bi < |s.heaps| && PoolsForgotten(s.pools[bi], i, f)
    ensures var t := ClosePools(cfg, s, bi, i, f, last);
            OnlyBlock(s, t, bi) && PoolsForgotten(t.pools[bi], |t.pools[bi]|, f)
    decreases |s.pools[bi]| - i
  {
    if i < |s.pools[bi]| {
      CloseEntriesForgets(cfg, s, bi, i, 0, f, last);
      ClosePoolsForgets(cfg, CloseEntries(cfg, s, bi, i, 0, f, last), bi, i + 1, f, last);
    }
  }

  lemma {:induction false} ClosePoolsKeepsInv(cfg: Config, s: Cmem, bi: nat, i: nat, f: File, last: bool)
    requires Inv(cfg, s) && bi < |cfg| && i <= |s.pools[bi]|
    ensures Inv(cfg, ClosePools(cfg, s, bi, i, f, last))
    decreases |s.pools[bi]| - i
  {
    if i < |s.pools[bi]| {
      CloseEntriesKeepsInv(cfg, s, bi, i, 0, f, last);
      ClosePoolsKeepsInv(cfg, CloseEntries(cfg, s, bi, i, 0, f, last), bi, i + 1, f, last);
    }
  }

  ghost predicate BlocksForgotten(s: Cmem, n: nat, f: File) {
    n <= |s.pools| && forall bi | 0 <= bi < n :: PoolsForgotten(s.pools[bi], |s.pools[bi]|, f)
  }

  lemma {:induction false} CloseBlocksForgets(cfg: Config, s: Cmem, bi: nat, f: File, last: bool)
    requires |s.pools| == |s.heaps| == |cfg| && bi <= |cfg| && BlocksForgotten(s, bi, f)
    ensures var t := CloseBlocks(cfg, s, bi, f, last);
            BlocksForgotten(t, |t.pools|, f)
    decreases |cfg| - bi
  {
    if bi < |cfg| {
      ClosePoolsForgets(cfg, s, bi, 0, f, last);
      CloseBlocksForgets(cfg, ClosePools(cfg, s, bi, 0, f, last), bi + 1, f, last);
    }
  }

  lemma {:induction false} CloseRestKeepsInv(cfg: Config, t: Cmem, bi: nat, f: File, last: bool)
    requires Inv(cfg, t) && bi < |cfg|
    ensures Inv(cfg, CloseBlocks(cfg, t, bi + 1, f, last))
    decreases |cfg| - bi, 0
  {
    CloseBlocksKeepsInv(cfg, t, bi + 1, f, last);
  }

  lemma {:induction false} CloseBlocksKeepsInv(cfg: Config, s: Cmem, bi: nat, f: File, last: bool)
    requires Inv(cfg, s) && bi <= |cfg|
    ensures Inv(cfg, CloseBlocks(cfg, s, bi, f, last))
    decreases |cfg| - bi, 1
  {
    if bi < |cfg| {
      ClosePoolsKeepsInv(cfg, s, bi, 0, f, last);
      CloseRestKeepsInv(cfg, ClosePools(cfg, s, bi, 0, f, last), bi, f, last);
    }
  }

  lemma ForgottenCanLeave(cfg: Config, s: Cmem, f: File)
    requires Inv(cfg, s) && BlocksForgotten(s, |s.pools|, f)
    ensures Inv(cfg, s.(open := s.open - {f}))
  {
    forall bi | 0 <= bi < |cfg|
      ensures BlockOk(cfg[bi], s.pools[bi], s.heaps[bi], s.open - {f})
    {
      assert BlockOk(cfg[bi], s.pools[bi], s.heaps[bi], s.open);
      assert PoolsForgotten(s.pools[bi], |s.pools[bi]|, f);
      forall i | 0 <= i < |s.pools[bi]|
        ensures PoolOk(cfg[bi], i, s.pools[bi][i], s.heaps[bi], s.open - {f})
      {
        assert PoolOk(cfg[bi], i, s.pools[bi][i], s.heaps[bi], s.open);
        assert Forgotten(s.pools[bi][i], |s.pools[bi][i].busy|, f);
        if i == |cfg[bi].pools| {
          assert forall k | 0 <= k < |s.pools[bi][i].busy| :: HeapBufferOk(cfg[bi], s.pools[bi][i].busy[k], s.open);
        }
      }
    }
  }

  lemma CloseKeepsInv(cfg: Config, s: Cmem, f: File)
    requires Inv(cfg, s)
    ensures Inv(cfg, Close(cfg, s, f)) && Shaped(cfg, Close(cfg, s, f)) && f !in Close(cfg, s, f).open
  {
    var last := |s.open - {f}| == 0;
    CloseBlocksKeepsInv(cfg, s, 0, f, last);
    CloseBlocksForgets(cfg, s, 0, f, last);
    ForgottenCanLeave(cfg, CloseBlocks(cfg, s, 0, f, last), f);
    InvShaped(cfg, Close(cfg, s, f));
  }

  // ----- Requests that break the heap's conditions -----

  /**
   A heap request of any size and alignment keeps the invariant if and only if it finds no block, or its rounded
   size is neither zero nor wrapped around to zero and the sum of size and offset does not wrap around.
   */
  lemma AllocHeapSafeIff(cfg: Config, s: Cmem, f: File, bi: nat, size: nat, align: nat)
    requires Inv(cfg, s) && Shaped(cfg, s) && f in s.open && bi < |cfg| && cfg[bi].heapSize > 0
    requires size < WORD && align < WORD
    ensures Inv(cfg, AllocHeap(cfg, s, f, bi, size, align)) <==> GoodRequest(s.heaps[bi], size, align)
  {
    if GoodRequest(s.heaps[bi], size, align) {
      AllocHeapKeepsInv(cfg, s, f, bi, size, align);
    } else {
      BadRequestBreaksPool(cfg, s, f, bi, size, align);
      var i, t := |cfg[bi].pools|, AllocHeap(cfg, s, f, bi, size, align);
      assert !PoolOk(cfg[bi], i, t.pools[bi][i], t.heaps[bi], t.open);
    }
  }

  lemma BadRequestBreaksPool(cfg: Config, s: Cmem, f: File, bi: nat, size: nat, align: nat)
    requires Inv(cfg, s) && Shaped(cfg, s) && bi < |cfg| && cfg[bi].heapSize > 0
    requires size < WORD && align < WORD && !GoodRequest(s.heaps[bi], size, align)
    ensures var i, t := |cfg[bi].pools|, AllocHeap(cfg, s, f, bi, size, align);
            |s.pools[bi]| == i + 1 && !HeapPoolOk(cfg[bi], t.pools[bi][i], t.heaps[bi], t.open)
  {
    var i, bc, n, al := |cfg[bi].pools|, cfg[bi], AdjustSize(size), AdjustAlign(align);
    PoolFacts(cfg, s, bi, i);
    var p, h, t := s.pools[bi][i], s.heaps[bi], AllocHeap(cfg, s, f, bi, size, align);
    var q := t.pools[bi][i];
    AdjustSizeZero(size);
    AdjustAlignIsPaged(align);
    if !SumFits(h, n, al) {
      if q != p {
        LiveBlocksAppend(p.busy, q.busy[|p.busy|]);
      }
      WrapBreaksTiling(h, LiveBlocks(p.busy), bc.virtp, bc.HeapEnd(), n, al, LiveBlocks(q.busy));
    } else {
      AllocWithoutWrap(h, bc.virtp, bc.HeapEnd(), n, al);
      var b := q.busy[|p.busy|];
      RoundUpIsLeastMultiple(size);
      LiveBlocksAppend(p.busy, b);
      assert size == 0 ==> HeapRange(b).size == 0;
      assert size > 0 ==> !HeapBufferOk(bc, b, t.open);
      assert size == 0 ==> !GoodBlock(HeapRange(b), bc.virtp, bc.HeapEnd());
    }
  }

  // ----- Runs -----

  /** Heap requests of this operation are good ones where it is made. */
  ghost predicate GoodAt(cfg: Config, s: Cmem, op: Op) {
    && Shaped(cfg, s)
    && (op.OpAllocHeap? && op.bi < |cfg| && cfg[op.bi].heapSize > 0 ==> GoodRequest(s.heaps[op.bi], op.size, op.align))
  }

  /** Each of the six operations keeps the invariant if and only if it is not a bad heap request. */
  lemma StepKeepsInv(cfg: Config, s: Cmem, op: Op)
    requires Inv(cfg, s) && Shaped(cfg, s) && Allowed(s, op)
    ensures Inv(cfg, Step(cfg, s, op)) <==> GoodAt(cfg, s, op)
    ensures GoodAt(cfg, s, op) ==> Shaped(cfg, Step(cfg, s, op))
  {
    match op {
      case OpOpen(f) => WiderOpenKeepsInv(cfg, s, s.open + {f});
      case OpAlloc(f, bi, pool) => AllocPoolKeepsInv(cfg, s, f, bi, pool);
      case OpAllocHeap(f, bi, size, align) => AllocHeapKeepsInvIff(cfg, s, f, bi, size, align);
      case OpFree(f, physp) => FreeKeepsInv(cfg, s, f, physp);
      case OpRegUser(f, physp) => RegUserKeepsInv(cfg, s, f, physp);
      case OpClose(f) => CloseKeepsInv(cfg, s, f);
    }
    if GoodAt(cfg, s, op) {
      InvShaped(cfg, Step(cfg, s, op));
    }
  }

  lemma AllocHeapKeepsInvIff(cfg: Config, s: Cmem, f: File, bi: nat, size: nat, align: nat)
    requires Inv(cfg, s) && Shaped(cfg, s) && f in s.open && size < WORD && align < WORD
    ensures Inv(cfg, AllocHeap(cfg, s, f, bi, size, align)) <==> GoodAt(cfg, s, OpAllocHeap(f, bi, size, align))
  {
    if bi < |cfg| && cfg[bi].heapSize > 0 {
      AllocHeapSafeIff(cfg, s, f, bi, size, align);
    }
  }

  /** The states of a run, and the operations between them, each of them allowed when it runs. */
  ghost predicate Trace(cfg: Config, ss: seq<Cmem>, ops: seq<Op>) {
    |ss| == |ops| + 1 && forall i | 0 <= i < |ops| :: TraceStep(cfg, ss, ops, i)
  }

  ghost predicate TraceStep(cfg: Config, ss: seq<Cmem>, ops: seq<Op>, i: nat)
    requires i < |ops| && i + 1 < |ss|
  {
    Shaped(cfg, ss[i]) && Allowed(ss[i], ops[i]) && ss[i + 1] == Step(cfg, ss[i], ops[i])
  }

  lemma TraceStepKeepsInv(cfg: Config, ss: seq<Cmem>, ops: seq<Op>, i: nat)
    requires Trace(cfg, ss, ops) && i < |ops| && Inv(cfg, ss[i])
    ensures Inv(cfg, ss[i + 1]) <==> GoodAt(cfg, ss[i], ops[i])
  {
    assert TraceStep(cfg, ss, ops, i);
    StepKeepsInv(cfg, ss[i], ops[i]);
  }

  ghost predicate InvUpTo(cfg: Config, ss: seq<Cmem>, n: nat) {
    n < |ss| && forall i | 0 <= i <= n :: Inv(cfg, ss[i])
  }

  ghost predicate GoodUpTo(cfg: Config, ss: seq<Cmem>, ops: seq<Op>, n: nat) {
    n <= |ops| < |ss| && forall i | 0 <= i < n :: GoodAt(cfg, ss[i], ops[i])
  }

  lemma GoodOneMore(cfg: Config, ss: seq<Cmem>, ops: seq<Op>, n: nat)
    requires 0 < n <= |ops| < |ss|
    ensures GoodUpTo(cfg, ss, ops, n) <==> GoodUpTo(cfg, ss, ops, n - 1) && GoodAt(cfg, ss[n - 1], ops[n - 1])
  {
  }

  lemma InvOneMore(cfg: Config, ss: seq<Cmem>, ops: seq<Op>, n: nat)
    requires Trace(cfg, ss, ops) && 0 < n < |ss|
    ensures InvUpTo(cfg, ss, n) <==> InvUpTo(cfg, ss, n - 1) && GoodAt(cfg, ss[n - 1], ops[n - 1])
  {
    InvUpToLast(cfg, ss, n);
    if InvUpTo(cfg, ss, n - 1) {
      TraceStepKeepsInv(cfg, ss, ops, n - 1);
    }
  }

  lemma InvUpToLast(cfg: Config, ss: seq<Cmem>, n: nat)
    requires 0 < n < |ss|
    ensures InvUpTo(cfg, ss, n) <==> InvUpTo(cfg, ss, n - 1) && Inv(cfg, ss[n])
    ensures InvUpTo(cfg, ss, n - 1) ==> Inv(cfg, ss[n - 1])
  {
    if InvUpTo(cfg, ss, n - 1) && Inv(cfg, ss[n]) {
      forall i | 0 <= i <= n
        ensures Inv(cfg, ss[i])
      {
        assert i < n ==> Inv(cfg, ss[i]);
      }
    }
  }

  /**
   The invariant holds at every point of a run up to the `n`-th if and only if every heap request made before is a
   good one in the state it is made in.
   */
  lemma {:induction false} RunKeepsInvIff(cfg: Config, ss: seq<Cmem>, ops: seq<Op>, n: nat)
    requires Trace(cfg, ss, ops) && Inv(cfg, ss[0]) && n < |ss|
    ensures InvUpTo(cfg, ss, n) <==> GoodUpTo(cfg, ss, ops, n)
  {
    if n > 0 {
      RunKeepsInvIff(cfg, ss, ops, n - 1);
      InvOneMore(cfg, ss, ops, n);
      GoodOneMore(cfg, ss, ops, n);
    }
  }

  /** `t` is reached from `s` by the operations `ops`, each of them allowed when it runs. */
  ghost predicate Runs(cfg: Config, s: Cmem, ops: seq<Op>, t: Cmem)
    requires Shaped(cfg, s)
    decreases |ops|
  {
    if ops == [] then s == t
    else Allowed(s, ops[0]) && Shaped(cfg, Step(cfg, s, ops[0])) && Runs(cfg, Step(cfg, s, ops[0]), ops[1..], t)
  }

  /** Every heap request is one that is good whatever the state. */
  ghost predicate GoodOps(ops: seq<Op>) {
    forall i | 0 <= i < |ops| :: ops[i].OpAllocHeap? ==> HeapRequest(ops[i].size, ops[i].align)
  }

  /** The invariant holds after every run whose heap requests meet the heap's demands. */
  lemma {:induction false} RunKeepsInv(cfg: Config, s: Cmem, ops: seq<Op>, t: Cmem)
    requires Inv(cfg, s) && Shaped(cfg, s) && Runs(cfg, s, ops, t) && GoodOps(ops)
    ensures Inv(cfg, t)
    decreases |ops|
  {
    if ops != [] {
      HeapRequestIsGoodAt(cfg, s, ops[0]);
      StepKeepsInv(cfg, s, ops[0]);
      RunKeepsInv(cfg, Step(cfg, s, ops[0]), ops[1..], t);
    }
  }

  lemma HeapRequestIsGoodAt(cfg: Config, s: Cmem, op: Op)
    requires Inv(cfg, s) && Shaped(cfg, s) && (op.OpAllocHeap? ==> HeapRequest(op.size, op.align))
    ensures GoodAt(cfg, s, op)
  {
    if op.OpAllocHeap? && op.bi < |cfg| && cfg[op.bi].heapSize > 0 {
      PoolFacts(cfg, s, op.bi, |cfg[op.bi].pools|);
      HeapRequestIsGood(s.heaps[op.bi], cfg[op.bi].virtp, cfg[op.bi].HeapEnd(), op.size, op.align);
    }
  }

  /** In every state of every such run, busy buffers and free pool buffers do not overlap. */
  lemma RunKeepsBuffersApart(cfg: Config, s: Cmem, ops: seq<Op>, t: Cmem,
                             bi: nat, i: nat, m: nat, bj: nat, j: nat, n: nat)
    requires Inv(cfg, s) && Shaped(cfg, s) && Runs(cfg, s, ops, t) && GoodOps(ops)
    requires bi < |cfg| && bi < |t.pools| && i < |t.pools[bi]| && m < |Buffers(cfg, t, bi, i)|
    requires bj < |cfg| && bj < |t.pools| && j < |t.pools[bj]| && n < |Buffers(cfg, t, bj, j)|
    requires (bi, i, m) != (bj, j, n)
    ensures Apart(Extent(Buffers(cfg, t, bi, i)[m]), Extent(Buffers(cfg, t, bj, j)[n]))
  {
    RunKeepsInv(cfg, s, ops, t);
    BuffersApart(cfg, t, bi, i, m, bj, j, n);
  }

  // ----- Two buffers at one address -----

  /**
   After a request of rounded size zero by `f` the next request, by `g`, gets the same address when the first free
   block is large enough. The search then finds the empty buffer, and `g` cannot free the buffer it was given.
   */
  lemma EmptyRequestHidesBuffer(cfg: Config, s: Cmem, f: File, e: nat, g: File, bi: nat, n: nat)
    requires Inv(cfg, s) && Shaped(cfg, s) && f in s.open && g in s.open && f != g
    requires bi < |cfg| && cfg[bi].heapSize > 0 && s.heaps[bi] != []
    requires AdjustSize(e) == 0 && AdjustSize(n) <= s.heaps[bi][0].size
    ensures var t := AllocHeap(cfg, s, f, bi, e, PAGE_SIZE);
            && Shaped(cfg, t)
            && var u := AllocHeap(cfg, t, g, bi, n, PAGE_SIZE);
               var i, k, v := |cfg[bi].pools|, |s.pools[bi][|cfg[bi].pools|].busy|, s.heaps[bi][0].addr;
               && Shaped(cfg, u)
               && u.pools[bi][i].busy == s.pools[bi][i].busy
                    + [Buffer(i, cfg[bi].Phys(v), v, e, [f]), Buffer(i, cfg[bi].Phys(v), v, n, [g])]
               && FindBusy(u.pools, 0, cfg[bi].Phys(v)) == At(bi, i, k)
               && Free(cfg, u, g, cfg[bi].Phys(v)) == u
  {
    var i, v := |cfg[bi].pools|, s.heaps[bi][0].addr;
    PoolFacts(cfg, s, bi, i);
    var b, c := Buffer(i, cfg[bi].Phys(v), v, e, [f]), Buffer(i, cfg[bi].Phys(v), v, n, [g]);
    AllocAtStart(cfg, s, f, bi, e);
    var t := AllocHeap(cfg, s, f, bi, e, PAGE_SIZE);
    AllocAtStart(cfg, t, g, bi, n);
    var u := AllocHeap(cfg, t, g, bi, n, PAGE_SIZE);
    assert s.pools[bi][i].busy + [b] + [c] == s.pools[bi][i].busy + [b, c];
    OnlyPoolTwice(s, t, u, bi, i);
    TwinIsFound(cfg, s, u, bi, b, c);
  }

  lemma AllocAtStart(cfg: Config, s: Cmem, f: File, bi: nat, n: nat)
    requires Shaped(cfg, s) && bi < |cfg| && cfg[bi].heapSize > 0 && ValidBlock(cfg[bi]) && s.heaps[bi] != []
    requires WellFormed(s.heaps[bi], cfg[bi].virtp, cfg[bi].HeapEnd()) && AdjustSize(n) <= s.heaps[bi][0].size
    ensures var i, v, t := |cfg[bi].pools|, s.heaps[bi][0].addr, AllocHeap(cfg, s, f, bi, n, PAGE_SIZE);
            && Shaped(cfg, t) && OnlyPool(s, t, bi, i) && (AdjustSize(n) == 0 ==> t.heaps == s.heaps)
            && t.pools[bi][i].busy == s.pools[bi][i].busy + [Buffer(i, cfg[bi].Phys(v), v, n, [f])]
  {
    var h, m := s.heaps[bi], AdjustSize(n);
    FirstFitAtStart(h, cfg[bi].virtp, cfg[bi].HeapEnd(), m);
    assert AllocList(h, m, AdjustAlign(PAGE_SIZE)) == Pieces(h[0], 0, m) + h[1..];
    assert s.heaps[bi := s.heaps[bi]] == s.heaps;
  }

  /** Two busy entries at an address where there was none before: the search returns the earlier one. */
  lemma TwinIsFound(cfg: Config, s: Cmem, u: Cmem, bi: nat, b: Buffer, c: Buffer)
    requires Inv(cfg, s) && bi < |cfg| && cfg[bi].heapSize > 0 && s.heaps[bi] != []
    requires OnlyPool(s, u, bi, |cfg[bi].pools|) && |u.heaps| == |u.pools|
    requires u.pools[bi][|cfg[bi].pools|].busy == s.pools[bi][|cfg[bi].pools|].busy + [b, c]
    requires b.physp == c.physp == cfg[bi].Phys(s.heaps[bi][0].addr)
    ensures FindBusy(u.pools, 0, b.physp) == At(bi, |cfg[bi].pools|, |s.pools[bi][|cfg[bi].pools|].busy|)
  {
    var i := |cfg[bi].pools|;
    var k := |s.pools[bi][i].busy|;
    FindBusySound(u, 0, b.physp);
    var l := FindBusy(u.pools, 0, b.physp);
    assert u.pools[bi][i].busy[k].physp == b.physp;
    if (l.bi, l.i) != (bi, i) || l.k < k {
      assert ValidLocation(s, l) && BufferAt(s, l) == BufferAt(u, l);
      NotFreeToo(cfg, s, l, bi);
      assert false;
    }
  }

  lemma NotFreeToo(cfg: Config, s: Cmem, l: Location, bi: nat)
    requires Inv(cfg, s) && ValidLocation(s, l) && bi < |cfg| && cfg[bi].heapSize > 0 && s.heaps[bi] != []
    ensures BufferAt(s, l).physp != cfg[bi].Phys(s.heaps[bi][0].addr)
  {
    var m := IndexOf(cfg, s, l);
    assert Buffers(cfg, s, l.bi, l.i)[m] == BufferAt(s, l);
    PoolFacts(cfg, s, bi, |cfg[bi].pools|);
    BufferInRegion(cfg, s, l.bi, l.i, m);
    BufferApartFromFreeHeap(cfg, s, l.bi, l.i, m, bi, 0);
  }
}
