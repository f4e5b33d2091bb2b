/**
 Ownership by counting registrations: what one FREE does, why closing a file is the same as freeing each
 of its registrations, and what is left when every file is closed.
 */
module CmemOwnership {
  import opened HeapBlocks
  import opened CmemState
  import opened CmemInvariant
  import opened CmemSafety
  import opened CmemRuns

  // ----- One FREE -----

  lemma {:induction false} RemoveFirstCounts(users: seq<File>, f: File)
    requires f in users
    ensures multiset(RemoveFirst(users, f)) == multiset(users) - multiset{f}
    ensures |RemoveFirst(users, f)| == |users| - 1
    decreases |users|
  {
    assert users == [users[0]] + users[1..];
    if users[0] != f {
      RemoveFirstCounts(users[1..], f);
    }
  }

  ghost predicate IsBusy(s: Cmem, physp: int) {
    FindBusy(s.pools, 0, physp).At?
  }

  lemma BusyAt(cfg: Config, s: Cmem, l: Location)
    requires Inv(cfg, s) && ValidLocation(s, l)
    ensures IsBusy(s, BufferAt(s, l).physp)
  {
    FindBusyIsTheOne(cfg, s, l);
  }

  /** `t` is `s` with one registration of `f` less at `l`. */
  ghost predicate OneLess(s: Cmem, t: Cmem, l: Location, f: File)
    requires ValidLocation(s, l)
  {
    && ValidLocation(t, l) && BufferAt(t, l) == BufferAt(s, l).(users := BufferAt(t, l).users)
    && multiset(BufferAt(t, l).users) == multiset(BufferAt(s, l).users) - multiset{f}
    && OnlyPool(s, t, l.bi, l.i) && t.heaps == s.heaps
    && t.pools[l.bi][l.i] == s.pools[l.bi][l.i].(busy := s.pools[l.bi][l.i].busy[l.k := BufferAt(t, l)])
  }

  /** `t` is `s` with the buffer at `l` freed: first on its pool's free list, or its range back in the heap. */
  ghost predicate Freed(cfg: Config, s: Cmem, t: Cmem, l: Location)
    requires ValidLocation(s, l) && l.bi < |cfg|
  {
    var b, p := BufferAt(s, l), s.pools[l.bi][l.i];
    && OnlyPool(s, t, l.bi, l.i) && |t.heaps| == |s.heaps|
    && if l.i < |cfg[l.bi].pools|
       then t.heaps == s.heaps
            && t.pools[l.bi][l.i] == p.(busy := RemoveAt(p.busy, l.k), free := [b.(users := [])] + p.free)
       else t.heaps == s.heaps[l.bi := t.heaps[l.bi]]
            && t.pools[l.bi][l.i] == p.(busy := RemoveAt(p.busy, l.k))
            && WellFormed(t.heaps[l.bi], cfg[l.bi].virtp, cfg[l.bi].HeapEnd())
            && Bytes(t.heaps[l.bi]) == Bytes(s.heaps[l.bi]) + Range(b.kvirtp, RoundUp(b.size))
  }

  /**
   FREE by a registered file removes exactly one of its registrations and no other; the buffer is freed precisely
   when that was the last registration of all, and everything else stays as it was.
   */
  lemma FreeRemovesOneRegistration(cfg: Config, s: Cmem, l: Location, f: File)
    requires Inv(cfg, s) && Shaped(cfg, s) && ValidLocation(s, l) && f in BufferAt(s, l).users
    ensures var b, t := BufferAt(s, l), Free(cfg, s, f, BufferAt(s, l).physp);
            && (IsBusy(t, b.physp) <==> |b.users| > 1)
            && if |b.users| > 1 then OneLess(s, t, l, f) else Freed(cfg, s, t, l)
  {
    var b, t := BufferAt(s, l), Free(cfg, s, f, BufferAt(s, l).physp);
    FindBusyIsTheOne(cfg, s, l);
    RemoveFirstCounts(b.users, f);
    FreeKeepsInv(cfg, s, f, b.physp);
    if |b.users| > 1 {
      BusyAt(cfg, t, l);
    } else {
      assert RemoveFirst(b.users, f) == [];
      GoneAfterLast(cfg, s, l, t);
      UnregisterFrees(cfg, s, l);
    }
  }

  lemma UnregisterFrees(cfg: Config, s: Cmem, l: Location)
    requires Inv(cfg, s) && ValidLocation(s, l)
    ensures Freed(cfg, s, UnregisterAt(cfg, s, l, []), l)
  {
    PoolFacts(cfg, s, l.bi, l.i);
    assert s.heaps[l.bi := s.heaps[l.bi]] == s.heaps;
    if l.i == |cfg[l.bi].pools| {
      BackInHeap(cfg[l.bi], s.pools[l.bi][l.i], s.heaps[l.bi], s.open, l.k);
    }
  }

  lemma BackInHeap(bc: BlockConfig, p: Pool, h: seq<Block>, open: set<File>, k: nat)
    requires HeapPoolOk(bc, p, h, open) && k < |p.busy|
    ensures var b := p.busy[k];
            var t := FreeList(h, b.kvirtp, AdjustSize(b.size));
            WellFormed(t, bc.virtp, bc.HeapEnd()) && Bytes(t) == Bytes(h) + Range(b.kvirtp, RoundUp(b.size))
  {
    assert HeapBufferOk(bc, p.busy[k], open) && HeapRange(p.busy[k]) in LiveBlocks(p.busy);
    FreeKeepsTiled(h, LiveBlocks(p.busy), bc.virtp, bc.HeapEnd(), HeapRange(p.busy[k]));
    FreeListAddsRange(h, bc.virtp, bc.HeapEnd(), p.busy[k].kvirtp, RoundUp(p.busy[k].size));
  }

  lemma GoneAfterLast(cfg: Config, s: Cmem, l: Location, t: Cmem)
    requires Inv(cfg, s) && ValidLocation(s, l) && t == UnregisterAt(cfg, s, l, [])
    ensures !IsBusy(t, BufferAt(s, l).physp)
  {
    var a := BufferAt(s, l).physp;
    var m := FindBusy(t.pools, 0, a);
    FindBusySound(t, 0, a);
    if m.At? {
      var m' := if (m.bi, m.i) == (l.bi, l.i) && m.k >= l.k then At(m.bi, m.i, m.k + 1) else m;
      assert ValidLocation(s, m') && BufferAt(s, m') == BufferAt(t, m);
      BusyAddressUnique(cfg, s, l, m');
      assert false;
    }
  }

  /** FREE by a file that is not registered for the buffer, or at an address that is not busy, changes nothing. */
  lemma FreeByStrangerChangesNothing(cfg: Config, s: Cmem, f: File, physp: int)
    requires Inv(cfg, s) && Shaped(cfg, s)
    requires forall l | ValidLocation(s, l) && BufferAt(s, l).physp == physp :: f !in BufferAt(s, l).users
    ensures Free(cfg, s, f, physp) == s
  {
    FindBusySound(s, 0, physp);
  }

  // ----- Closing a file is freeing its registrations -----

  function Repeat(op: Op, n: nat): seq<Op> {
    if n == 0 then [] else [op] + Repeat(op, n - 1)
  }

  /** One FREE per registration of `f`, buffer by buffer in list order. */
  function EntryFrees(busy: seq<Buffer>, f: File): seq<Op>
    decreases |busy|
  {
    if busy == [] then []
    else Repeat(OpFree(f, busy[0].physp), multiset(busy[0].users)[f]) + EntryFrees(busy[1..], f)
  }

  function PoolFrees(pools: seq<Pool>, f: File): seq<Op>
    decreases |pools|
  {
    if pools == [] then [] else EntryFrees(pools[0].busy, f) + PoolFrees(pools[1..], f)
  }

  function BlockFrees(blocks: seq<seq<Pool>>, f: File): seq<Op>
    decreases |blocks|
  {
    if blocks == [] then [] else PoolFrees(blocks[0], f) + BlockFrees(blocks[1..], f)
  }

  lemma TailOfConcat(xs: seq<Op>, ys: seq<Op>)
    requires xs != []
    ensures xs + ys != [] && (xs + ys)[0] == xs[0] && (xs + ys)[1..] == xs[1..] + ys
  {
  }

  lemma {:induction false} RunsConcat(cfg: Config, s: Cmem, xs: seq<Op>, t: Cmem, ys: seq<Op>, u: Cmem)
    requires Shaped(cfg, s) && Shaped(cfg, t) && Runs(cfg, s, xs, t) && Runs(cfg, t, ys, u)
    ensures Runs(cfg, s, xs + ys, u)
    decreases |xs|
  {
    if xs == [] {
      assert xs + ys == ys;
    } else {
      RunsConcat(cfg, Step(cfg, s, xs[0]), xs[1..], t, ys, u);
      TailOfConcat(xs, ys);
    }
  }

  lemma {:induction false} DropAfterRemove(users: seq<File>, f: File)
    requires f in users
    ensures DropUsers(RemoveFirst(users, f), f, false) == DropUsers(users, f, false)
    decreases |users|
  {
    if users[0] != f {
      DropAfterRemove(users[1..], f);
      var rest := RemoveFirst(users[1..], f);
      assert RemoveFirst(users, f) == [users[0]] + rest;
      assert ([users[0]] + rest)[1..] == rest;
    }
  }

  lemma KeepUsers(cfg: Config, s: Cmem, l: Location)
    requires ValidLocation(s, l) && l.bi < |cfg| && BufferAt(s, l).users != []
    ensures UnregisterAt(cfg, s, l, BufferAt(s, l).users) == s
  {
    var p := s.pools[l.bi][l.i];
    assert p.busy[l.k := p.busy[l.k]] == p.busy;
    assert s.pools[l.bi][l.i := p] == s.pools[l.bi];
    assert s.pools[l.bi := s.pools[l.bi]] == s.pools;
    assert s.heaps[l.bi := s.heaps[l.bi]] == s.heaps;
  }

  lemma UnregisterTwice(cfg: Config, s: Cmem, l: Location, us: seq<File>, vs: seq<File>)
    requires ValidLocation(s, l) && l.bi < |cfg| && us != []
    ensures var t := UnregisterAt(cfg, s, l, us);
            ValidLocation(t, l) && UnregisterAt(cfg, t, l, vs) == UnregisterAt(cfg, s, l, vs)
  {
    var p := s.pools[l.bi][l.i];
    var b := p.busy[l.k].(users := us);
    var t := UnregisterAt(cfg, s, l, us);
    assert t.pools[l.bi][l.i] == p.(busy := p.busy[l.k := b]) && t.heaps == s.heaps;
    var q := t.pools[l.bi][l.i];
    var c := p.busy[l.k].(users := vs);
    assert q.busy[l.k := c] == p.busy[l.k := c];
    assert RemoveAt(q.busy, l.k) == RemoveAt(p.busy, l.k);
    var r := Unregister(IsHeapPool(cfg, l.bi, l.i), p, s.heaps[l.bi], l.k, vs);
    assert Unregister(IsHeapPool(cfg, l.bi, l.i), q, t.heaps[l.bi], l.k, vs) == r;
    assert t.pools[l.bi][l.i := r.0] == s.pools[l.bi][l.i := r.0];
    assert t.pools[l.bi := s.pools[l.bi][l.i := r.0]] == s.pools[l.bi := s.pools[l.bi][l.i := r.0]];
  }

  /** As many FREEs as `f` has registrations for one buffer drop them all. */
  lemma {:induction false} FreesDropUsers(cfg: Config, s: Cmem, l: Location, f: File)
    requires Inv(cfg, s) && Shaped(cfg, s) && ValidLocation(s, l) && f in s.open
    ensures var b := BufferAt(s, l);
            Runs(cfg, s, Repeat(OpFree(f, b.physp), multiset(b.users)[f]),
                 UnregisterAt(cfg, s, l, DropUsers(b.users, f, false)))
    decreases multiset(BufferAt(s, l).users)[f]
  {
    var b := BufferAt(s, l);
    RegisteredAt(cfg, s, l);
    if f !in b.users {
      DropUsersMembers(b.users, f, false);
      KeepUsers(cfg, s, l);
    } else {
      var us := RemoveFirst(b.users, f);
      var t := UnregisterAt(cfg, s, l, us);
      FirstFree(cfg, s, l, f);
      if us != [] {
        UnregisterTwice(cfg, s, l, us, DropUsers(b.users, f, false));
        FreesDropUsers(cfg, t, l, f);
      }
      RunsCons(cfg, s, OpFree(f, b.physp), Repeat(OpFree(f, b.physp), multiset(b.users)[f] - 1),
        UnregisterAt(cfg, s, l, DropUsers(b.users, f, false)));
    }
  }

  lemma FirstFree(cfg: Config, s: Cmem, l: Location, f: File)
    requires Inv(cfg, s) && Shaped(cfg, s) && ValidLocation(s, l) && f in s.open && f in BufferAt(s, l).users
    ensures var b, t := BufferAt(s, l), Step(cfg, s, OpFree(f, BufferAt(s, l).physp));
            && Inv(cfg, t) && Shaped(cfg, t) && t.open == s.open
            && t == UnregisterAt(cfg, s, l, RemoveFirst(b.users, f))
            && multiset(RemoveFirst(b.users, f))[f] == multiset(b.users)[f] - 1
            && DropUsers(RemoveFirst(b.users, f), f, false) == DropUsers(b.users, f, false)
  {
    FindBusyIsTheOne(cfg, s, l);
    RemoveFirstCounts(BufferAt(s, l).users, f);
    DropAfterRemove(BufferAt(s, l).users, f);
    StepKeepsInv(cfg, s, OpFree(f, BufferAt(s, l).physp));
  }

  lemma RunsCons(cfg: Config, s: Cmem, op: Op, ops: seq<Op>, t: Cmem)
    requires Shaped(cfg, s) && Allowed(s, op) && Shaped(cfg, Step(cfg, s, op)) && Runs(cfg, Step(cfg, s, op), ops, t)
    ensures Runs(cfg, s, [op] + ops, t)
  {
    assert ([op] + ops)[1..] == ops;
  }

  /** The walk over one busy list, from entry `k` on, is the run of the FREEs of those entries. */
  lemma {:induction false} CloseEntriesIsFrees(cfg: Config, s: Cmem, bi: nat, i: nat, k: nat, f: File)
    requires Inv(cfg, s) && Shaped(cfg, s) && HasPool(cfg, s, bi, i) && k <= |s.pools[bi][i].busy| && f in s.open
    ensures Runs(cfg, s, EntryFrees(s.pools[bi][i].busy[k..], f), CloseEntries(cfg, s, bi, i, k, f, false))
    decreases |s.pools[bi][i].busy| - k
  {
    var busy := s.pools[bi][i].busy;
    if k < |busy| {
      var l := At(bi, i, k);
      var users := DropUsers(busy[k].users, f, false);
      var t := UnregisterAt(cfg, s, l, users);
      var k' := if users == [] then k else k + 1;
      FreesDropUsers(cfg, s, l, f);
      CloseOneKeepsInv(cfg, s, l, f, false);
      InvShaped(cfg, t);
      assert t.pools[bi][i].busy[k'..] == busy[k + 1..];
      CloseEntriesIsFrees(cfg, t, bi, i, k', f);
      assert busy[k..][1..] == busy[k + 1..];
      RunsConcat(cfg, s, Repeat(OpFree(f, busy[k].physp), multiset(busy[k].users)[f]), t,
        EntryFrees(busy[k + 1..], f), CloseEntries(cfg, t, bi, i, k', f, false));
    }
  }

  lemma {:induction false} ClosePoolsIsFrees(cfg: Config, s: Cmem, bi: nat, i: nat, f: File)
    requires Inv(cfg, s) && Shaped(cfg, s) && bi < |cfg| && i <= |s.pools[bi]| && f in s.open
    ensures Runs(cfg, s, PoolFrees(s.pools[bi][i..], f), ClosePools(cfg, s, bi, i, f, false))
    ensures Inv(cfg, ClosePools(cfg, s, bi, i, f, false))
    ensures ClosePools(cfg, s, bi, i, f, false).pools[bi + 1..] == s.pools[bi + 1..]
    decreases |s.pools[bi]| - i
  {
    if i < |s.pools[bi]| {
      var t := CloseEntries(cfg, s, bi, i, 0, f, false);
      var busy := s.pools[bi][i].busy;
      assert busy[0..] == busy;
      CloseEntriesIsFrees(cfg, s, bi, i, 0, f);
      CloseEntriesForgets(cfg, s, bi, i, 0, f, false);
      CloseEntriesKeepsInv(cfg, s, bi, i, 0, f, false);
      InvShaped(cfg, t);
      assert t.pools[bi][i + 1..] == s.pools[bi][i + 1..] && t.pools[bi + 1..] == s.pools[bi + 1..];
      ClosePoolsIsFrees(cfg, t, bi, i + 1, f);
      assert s.pools[bi][i..][1..] == s.pools[bi][i + 1..];
      RunsConcat(cfg, s, EntryFrees(busy, f), t, PoolFrees(s.pools[bi][i + 1..], f),
        ClosePools(cfg, t, bi, i + 1, f, false));
    }
  }

  lemma {:induction false} CloseBlocksIsFrees(cfg: Config, s: Cmem, bi: nat, f: File)
    requires Inv(cfg, s) && Shaped(cfg, s) && bi <= |cfg| && f in s.open
    ensures Runs(cfg, s, BlockFrees(s.pools[bi..], f), CloseBlocks(cfg, s, bi, f, false))
    decreases |cfg| - bi
  {
    if bi < |cfg| {
      var t := ClosePools(cfg, s, bi, 0, f, false);
      assert s.pools[bi][0..] == s.pools[bi];
      ClosePoolsIsFrees(cfg, s, bi, 0, f);
      InvShaped(cfg, t);
      CloseBlocksIsFrees(cfg, t, bi + 1, f);
      assert s.pools[bi..][1..] == s.pools[bi + 1..];
      RunsConcat(cfg, s, PoolFrees(s.pools[bi], f), t, BlockFrees(s.pools[bi + 1..], f),
        CloseBlocks(cfg, t, bi + 1, f, false));
    }
  }

  // ----- The last close -----

  lemma {:induction false} DropAllEither(users: seq<File>, f: File)
    requires forall g | g in users :: g == f
    ensures DropUsers(users, f, false) == DropUsers(users, f, true) == []
    decreases |users|
  {
    if users != [] {
      assert users[0] in users && forall g | g in users[1..] :: g in users;
      DropAllEither(users[1..], f);
    }
  }

  /** With one file left open, the last-close override drops no more than that file's own registrations. */
  lemma {:induction false} LastEntriesSame(cfg: Config, s: Cmem, bi: nat, i: nat, k: nat, f: File)
    requires Inv(cfg, s) && HasPool(cfg, s, bi, i) && k <= |s.pools[bi][i].busy| && s.open == {f}
    ensures CloseEntries(cfg, s, bi, i, k, f, true) == CloseEntries(cfg, s, bi, i, k, f, false)
    decreases |s.pools[bi][i].busy| - k
  {
    if k < |s.pools[bi][i].busy| {
      var l := At(bi, i, k);
      RegisteredAt(cfg, s, l);
      DropAllEither(BufferAt(s, l).users, f);
      CloseOneKeepsInv(cfg, s, l, f, false);
      LastEntriesSame(cfg, UnregisterAt(cfg, s, l, []), bi, i, k, f);
    }
  }

  lemma {:induction false} LastPoolsSame(cfg: Config, s: Cmem, bi: nat, i: nat, f: File)
    requires Inv(cfg, s) && bi < |cfg| && i <= |s.pools[bi]| && s.open == {f}
    ensures ClosePools(cfg, s, bi, i, f, true) == ClosePools(cfg, s, bi, i, f, false)
    ensures Inv(cfg, ClosePools(cfg, s, bi, i, f, false))
    decreases |s.pools[bi]| - i
  {
    if i < |s.pools[bi]| {
      LastEntriesSame(cfg, s, bi, i, 0, f);
      CloseEntriesKeepsInv(cfg, s, bi, i, 0, f, false);
      LastPoolsSame(cfg, CloseEntries(cfg, s, bi, i, 0, f, false), bi, i + 1, f);
    }
  }

  lemma LastBlockSame(cfg: Config, s: Cmem, t: Cmem, bi: nat, f: File)
    requires bi < |cfg| == |s.pools| == |s.heaps| == |t.pools| == |t.heaps|
    requires t == ClosePools(cfg, s, bi, 0, f, true) == ClosePools(cfg, s, bi, 0, f, false)
    requires CloseBlocks(cfg, t, bi + 1, f, true) == CloseBlocks(cfg, t, bi + 1, f, false)
    ensures CloseBlocks(cfg, s, bi, f, true) == CloseBlocks(cfg, s, bi, f, false)
  {
  }

  lemma {:induction false} LastBlocksSame(cfg: Config, s: Cmem, bi: nat, f: File)
    requires Inv(cfg, s) && bi <= |cfg| && s.open == {f}
    ensures CloseBlocks(cfg, s, bi, f, true) == CloseBlocks(cfg, s, bi, f, false)
    decreases |cfg| - bi, 1
  {
    if bi < |cfg| {
      LastPoolsSame(cfg, s, bi, 0, f);
      LastRestSame(cfg, ClosePools(cfg, s, bi, 0, f, false), bi, f);
      LastBlockSame(cfg, s, ClosePools(cfg, s, bi, 0, f, false), bi, f);
    }
  }

  lemma LastRestSame(cfg: Config, t: Cmem, bi: nat, f: File)
    requires Inv(cfg, t) && bi < |cfg| && t.open == {f}
    ensures CloseBlocks(cfg, t, bi + 1, f, true) == CloseBlocks(cfg, t, bi + 1, f, false)
    decreases |cfg| - bi, 0
  {
    LastBlocksSame(cfg, t, bi + 1, f);
  }

  /** Closing a file is freeing its registrations one by one, on the last close as on any other. */
  lemma CloseIsFrees(cfg: Config, s: Cmem, f: File)
    requires Inv(cfg, s) && Shaped(cfg, s) && f in s.open
    ensures Runs(cfg, s, BlockFrees(s.pools, f), Close(cfg, s, f).(open := s.open))
    ensures Close(cfg, s, f).open == s.open - {f}
  {
    assert s.pools[0..] == s.pools;
    CloseBlocksIsFrees(cfg, s, 0, f);
    var t := CloseBlocks(cfg, s, 0, f, false);
    if |s.open - {f}| == 0 {
      assert s.open == {f};
      LastBlocksSame(cfg, s, 0, f);
    }
    assert Close(cfg, s, f).(open := s.open) == t;
  }

  // ----- The last close leaves nothing busy -----

  lemma NobodyRegistered(users: seq<File>)
    ensures !Registered(users, {})
  {
    if users != [] {
      assert users[0] in users;
    }
  }

  /** After the last close every pool buffer is on its free list and every heap is one block again. */
  lemma NothingOpenNothingBusy(cfg: Config, s: Cmem, bi: nat, i: nat)
    requires Inv(cfg, s) && s.open == {} && HasPool(cfg, s, bi, i)
    ensures s.pools[bi][i].busy == []
    ensures i < |cfg[bi].pools| ==>
      var pc := cfg[bi].pools[i]; forall a :: Count(s.pools[bi][i].free, a) == LaidOut(pc, pc.num, a)
    ensures i == |cfg[bi].pools| ==> s.heaps[bi] == [Block(cfg[bi].virtp, cfg[bi].heapSize)]
  {
    PoolFacts(cfg, s, bi, i);
    var p := s.pools[bi][i];
    if p.busy != [] {
      RegisteredAt(cfg, s, At(bi, i, 0));
      NobodyRegistered(p.busy[0].users);
      assert false;
    }
    if i < |cfg[bi].pools| {
      forall a
        ensures Count(p.free, a) == LaidOut(cfg[bi].pools[i], cfg[bi].pools[i].num, a)
      {
        assert Balanced(cfg[bi].pools[i], p, a);
      }
    } else {
      assert LiveBlocks(p.busy) == {};
      NothingLiveIsOneBlock(s.heaps[bi], cfg[bi].virtp, cfg[bi].HeapEnd());
    }
  }
}
