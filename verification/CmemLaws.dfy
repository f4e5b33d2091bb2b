/**
 Laws over all six operations: how the registrations of a buffer change, when an address becomes busy and when it
 stops being busy, and what allocation and registration leave behind.
 */
module CmemLaws {
  import opened Common
  import opened HeapBlocks
  import opened CmemState
  import opened CmemInvariant
  import opened CmemSafety
  import opened CmemRuns
  import opened CmemOwnership

  // ----- Registrations at an address -----

  /** How many registrations `g` has for the busy buffer at `a`, none when there is no such buffer. */
  ghost function Regs(s: Cmem, a: int, g: File): nat {
    var l := FindBusy(s.pools, 0, a);
    if ValidLocation(s, l) then multiset(BufferAt(s, l).users)[g] else 0
  }

  lemma RegsAt(cfg: Config, s: Cmem, l: Location, g: File)
    requires Inv(cfg, s) && ValidLocation(s, l)
    ensures Regs(s, BufferAt(s, l).physp, g) == multiset(BufferAt(s, l).users)[g]
  {
    FindBusyIsTheOne(cfg, s, l);
  }

  lemma IdleHasNoRegs(s: Cmem, a: int, g: File)
    requires |s.pools| == |s.heaps| && !IsBusy(s, a)
    ensures Regs(s, a, g) == 0
    ensures forall l | ValidLocation(s, l) :: BufferAt(s, l).physp != a
  {
    FindBusySound(s, 0, a);
  }

  /** An address is busy exactly when some file is registered there. */
  lemma BusyIffRegs(cfg: Config, s: Cmem, a: int)
    requires Inv(cfg, s)
    ensures IsBusy(s, a) <==> exists g :: Regs(s, a, g) > 0
  {
    FindBusySound(s, 0, a);
    if IsBusy(s, a) {
      var l := FindBusy(s.pools, 0, a);
      RegisteredAt(cfg, s, l);
      assert Regs(s, a, BufferAt(s, l).users[0]) > 0;
    }
  }

  // ----- Closing -----

  /** A busy buffer at `a` has `n` registrations of `g`. */
  ghost predicate UsedBy(s: Cmem, a: int, g: File, n: nat) {
    exists m :: UsedAt(s, m, a, g, n)
  }

  ghost predicate UsedAt(s: Cmem, m: Location, a: int, g: File, n: nat) {
    ValidLocation(s, m) && BufferAt(s, m).physp == a && multiset(BufferAt(s, m).users)[g] == n
  }

  /** Files other than `f` have the same registrations at the same addresses. */
  ghost predicate SameOthers(s: Cmem, t: Cmem, f: File) {
    forall a, g, n: nat | g != f && n > 0 :: UsedBy(s, a, g, n) <==> UsedBy(t, a, g, n)
  }

  /** Where entry `m` is after entry `l` was given other registrations, and back again. */
  function Moved(l: Location, gone: bool, m: Location): Location
    requires l.At? && m.At?
  {
    if gone && (m.bi, m.i) == (l.bi, l.i) && m.k > l.k then At(m.bi, m.i, m.k - 1) else m
  }

  function MovedBack(l: Location, gone: bool, m: Location): Location
    requires l.At? && m.At?
  {
    if gone && (m.bi, m.i) == (l.bi, l.i) && m.k >= l.k then At(m.bi, m.i, m.k + 1) else m
  }

  lemma StillUsed(cfg: Config, s: Cmem, l: Location, users: seq<File>, m: Location, a: int, g: File, n: nat)
    requires ValidLocation(s, l) && l.bi < |cfg| && UsedAt(s, m, a, g, n) && n > 0
    requires multiset(users)[g] == multiset(BufferAt(s, l).users)[g]
    ensures UsedAt(UnregisterAt(cfg, s, l, users), Moved(l, users == [], m), a, g, n)
  {
    if m != l {
      UnregisterMoves(cfg, s, l, users, m);
    }
  }

  lemma UnregisterSameOthers(cfg: Config, s: Cmem, l: Location, users: seq<File>, f: File)
    requires ValidLocation(s, l) && l.bi < |cfg|
    requires forall g | g != f :: multiset(users)[g] == multiset(BufferAt(s, l).users)[g]
    ensures SameOthers(s, UnregisterAt(cfg, s, l, users), f)
  {
    var t := UnregisterAt(cfg, s, l, users);
    forall a, g, n: nat | g != f && n > 0
      ensures UsedBy(s, a, g, n) <==> UsedBy(t, a, g, n)
    {
      if m :| UsedAt(s, m, a, g, n) {
        StillUsed(cfg, s, l, users, m, a, g, n);
      }
      if m :| UsedAt(t, m, a, g, n) {
        assert UsedAt(s, MovedBack(l, users == [], m), a, g, n);
      }
    }
  }

  lemma {:induction false} DropUsersOthers(users: seq<File>, f: File, g: File)
    requires g != f
    ensures multiset(DropUsers(users, f, false))[g] == multiset(users)[g]
    decreases |users|
  {
    if users != [] {
      assert users == [users[0]] + users[1..];
      DropUsersOthers(users[1..], f, g);
    }
  }

  lemma {:induction false} CloseEntriesOthers(cfg: Config, s: Cmem, bi: nat, i: nat, k: nat, f: File)
    requires HasPool(cfg, s, bi, i) && k <= |s.pools[bi][i].busy|
    ensures SameOthers(s, CloseEntries(cfg, s, bi, i, k, f, false), f)
    decreases |s.pools[bi][i].busy| - k
  {
    if k < |s.pools[bi][i].busy| {
      var l, before := At(bi, i, k), s.pools[bi][i].busy[k].users;
      var users := DropUsers(before, f, false);
      forall g | g != f
        ensures multiset(users)[g] == multiset(before)[g]
      {
        DropUsersOthers(before, f, g);
      }
      UnregisterSameOthers(cfg, s, l, users, f);
      CloseEntriesOthers(cfg, UnregisterAt(cfg, s, l, users), bi, i, if users == [] then k else k + 1, f);
    }
  }

  lemma {:induction false} ClosePoolsOthers(cfg: Config, s: Cmem, bi: nat, i: nat, f: File)
    requires bi < |cfg| && bi < |s.pools| && bi < |s.heaps| && i <= |s.pools[bi]|
    ensures SameOthers(s, ClosePools(cfg, s, bi, i, f, false), f)
    decreases |s.pools[bi]| - i
  {
    if i < |s.pools[bi]| {
      CloseEntriesOthers(cfg, s, bi, i, 0, f);
      ClosePoolsOthers(cfg, CloseEntries(cfg, s, bi, i, 0, f, false), bi, i + 1, f);
    }
  }

  lemma {:induction false} CloseBlocksOthers(cfg: Config, s: Cmem, bi: nat, f: File)
    requires bi <= |cfg| == |s.pools| == |s.heaps|
    ensures SameOthers(s, CloseBlocks(cfg, s, bi, f, false), f)
    decreases |cfg| - bi
  {
    if bi < |cfg| {
      ClosePoolsOthers(cfg, s, bi, 0, f);
      CloseBlocksOthers(cfg, ClosePools(cfg, s, bi, 0, f, false), bi + 1, f);
    }
  }

  lemma BusyHere(s: Cmem, m: Location)
    requires |s.pools| == |s.heaps| && ValidLocation(s, m)
    ensures IsBusy(s, BufferAt(s, m).physp)
  {
    FindBusySound(s, 0, BufferAt(s, m).physp);
  }

  lemma CloseSameOthers(cfg: Config, s: Cmem, f: File)
    requires Inv(cfg, s) && f in s.open
    ensures SameOthers(s, Close(cfg, s, f), f)
  {
    var c, t := CloseBlocks(cfg, s, 0, f, false), Close(cfg, s, f);
    CloseBlocksOthers(cfg, s, 0, f);
    if |s.open - {f}| == 0 {
      assert s.open == {f};
      LastBlocksSame(cfg, s, 0, f);
    }
    forall a, g, n: nat
      ensures UsedBy(c, a, g, n) <==> UsedBy(t, a, g, n)
    {
      assert forall m :: UsedAt(c, m, a, g, n) <==> UsedAt(t, m, a, g, n);
    }
  }

  lemma UsedIffRegs(cfg: Config, s: Cmem, a: int, g: File, n: nat)
    requires Inv(cfg, s) && n > 0
    ensures UsedBy(s, a, g, n) <==> Regs(s, a, g) == n
  {
    if UsedBy(s, a, g, n) {
      var m :| UsedAt(s, m, a, g, n);
      RegsAt(cfg, s, m, g);
    }
    if Regs(s, a, g) == n {
      FindBusySound(s, 0, a);
      assert UsedAt(s, FindBusy(s.pools, 0, a), a, g, n);
    }
  }

  /** A close drops all registrations of the file and no other. */
  lemma CloseRegs(cfg: Config, s: Cmem, f: File, a: int, g: File)
    requires Inv(cfg, s) && f in s.open
    ensures Regs(Close(cfg, s, f), a, g) == if g == f then 0 else Regs(s, a, g)
  {
    var t := Close(cfg, s, f);
    CloseKeepsInv(cfg, s, f);
    if g != f {
      CloseSameOthers(cfg, s, f);
      SameCount(cfg, s, t, f, a, g);
    } else {
      NoRegsOfClosed(cfg, t, f, a);
    }
  }

  lemma SameCount(cfg: Config, s: Cmem, t: Cmem, f: File, a: int, g: File)
    requires Inv(cfg, s) && Inv(cfg, t) && SameOthers(s, t, f) && g != f
    ensures Regs(s, a, g) == Regs(t, a, g)
  {
    var n, m := Regs(s, a, g), Regs(t, a, g);
    if n > 0 {
      UsedIffRegs(cfg, s, a, g, n);
      UsedIffRegs(cfg, t, a, g, n);
    }
    if m > 0 {
      UsedIffRegs(cfg, s, a, g, m);
      UsedIffRegs(cfg, t, a, g, m);
    }
  }

  lemma NoRegsOfClosed(cfg: Config, s: Cmem, f: File, a: int)
    requires Inv(cfg, s) && f !in s.open
    ensures Regs(s, a, f) == 0
  {
    var l := FindBusy(s.pools, 0, a);
    if ValidLocation(s, l) {
      RegisteredAt(cfg, s, l);
    }
  }

  /** A close frees exactly the buffers registered for no other file. */
  lemma CloseFreesIff(cfg: Config, s: Cmem, f: File, l: Location)
    requires Inv(cfg, s) && Shaped(cfg, s) && f in s.open && ValidLocation(s, l)
    ensures IsBusy(Close(cfg, s, f), BufferAt(s, l).physp) <==> exists g :: g in BufferAt(s, l).users && g != f
  {
    var b, t := BufferAt(s, l), Close(cfg, s, f);
    CloseKeepsInv(cfg, s, f);
    BusyIffRegs(cfg, t, b.physp);
    forall g
      ensures Regs(t, b.physp, g) > 0 <==> g in b.users && g != f
    {
      CloseRegs(cfg, s, f, b.physp, g);
      RegsAt(cfg, s, l, g);
    }
  }

  // ----- When a buffer stops being busy -----

  /** The operations that end the use of a buffer: a FREE of its only registration, a close of all its files. */
  ghost predicate EndsUse(op: Op, b: Buffer) {
    match op
    case OpFree(f, physp) => physp == b.physp && b.users == [f]
    case OpClose(f) => forall g | g in b.users :: g == f
    case _ => false
  }

  /** In any reachable state, an operation makes a busy buffer free if and only if it is one of those. */
  lemma StopsBeingBusyIff(cfg: Config, s: Cmem, op: Op, l: Location)
    requires Inv(cfg, s) && Shaped(cfg, s) && Allowed(s, op) && ValidLocation(s, l)
    ensures !IsBusy(Step(cfg, s, op), BufferAt(s, l).physp) <==> EndsUse(op, BufferAt(s, l))
  {
    BusyAt(cfg, s, l);
    match op {
      case OpOpen(_) =>
      case OpAlloc(f, bi, pool) => AllocPoolKeepsBusy(cfg, s, f, bi, pool, l);
      case OpAllocHeap(f, bi, size, align) => AllocHeapKeepsBusy(cfg, s, f, bi, size, align, l);
      case OpFree(f, physp) => FreeEndsIff(cfg, s, f, physp, l);
      case OpRegUser(f, physp) => RegUserKeepsBusy(cfg, s, f, physp, l);
      case OpClose(f) => CloseFreesIff(cfg, s, f, l);
    }
  }

  lemma AllocPoolKeepsBusy(cfg: Config, s: Cmem, f: File, bi: nat, pool: int, l: Location)
    requires Shaped(cfg, s) && ValidLocation(s, l)
    ensures IsBusy(AllocPool(cfg, s, f, bi, pool), BufferAt(s, l).physp)
  {
    var t := AllocPool(cfg, s, f, bi, pool);
    var m := if t != s && (l.bi, l.i) == (bi, pool) then At(l.bi, l.i, l.k + 1) else l;
    if bi < |cfg| && 0 <= pool < |cfg[bi].pools| && s.pools[bi][pool].free != [] {
      assert |t.pools[bi][pool].busy| == |s.pools[bi][pool].busy| + 1;
    }
    assert ValidLocation(t, m) && BufferAt(t, m) == BufferAt(s, l);
    BusyHere(t, m);
  }

  lemma AllocHeapKeepsBusy(cfg: Config, s: Cmem, f: File, bi: nat, size: nat, align: nat, l: Location)
    requires Shaped(cfg, s) && ValidLocation(s, l)
    ensures IsBusy(AllocHeap(cfg, s, f, bi, size, align), BufferAt(s, l).physp)
  {
    BusyHere(AllocHeap(cfg, s, f, bi, size, align), l);
  }

  lemma RegUserKeepsBusy(cfg: Config, s: Cmem, f: File, physp: int, l: Location)
    requires Shaped(cfg, s) && ValidLocation(s, l)
    ensures IsBusy(RegUser(s, f, physp), BufferAt(s, l).physp)
  {
    BusyHere(RegUser(s, f, physp), l);
  }

  lemma FreeEndsIff(cfg: Config, s: Cmem, f: File, physp: int, l: Location)
    requires Inv(cfg, s) && Shaped(cfg, s) && ValidLocation(s, l)
    ensures !IsBusy(Free(cfg, s, f, physp), BufferAt(s, l).physp) <==>
            physp == BufferAt(s, l).physp && BufferAt(s, l).users == [f]
  {
    var b := BufferAt(s, l);
    if physp != b.physp {
      FreeElsewhere(cfg, s, f, physp, l);
    } else if f in b.users {
      FreeRemovesOneRegistration(cfg, s, l, f);
      assert |b.users| == 1 <==> b.users == [f];
    } else {
      FindBusyIsTheOne(cfg, s, l);
      BusyHere(s, l);
    }
  }

  lemma FreeElsewhere(cfg: Config, s: Cmem, f: File, physp: int, l: Location)
    requires Shaped(cfg, s) && ValidLocation(s, l) && BufferAt(s, l).physp != physp
    ensures IsBusy(Free(cfg, s, f, physp), BufferAt(s, l).physp)
  {
    var m, t := FindBusy(s.pools, 0, physp), Free(cfg, s, f, physp);
    FindBusySound(s, 0, physp);
    if ValidLocation(s, m) && f in BufferAt(s, m).users {
      UnregisterMoves(cfg, s, m, RemoveFirst(BufferAt(s, m).users, f), l);
      BusyHere(t, Moved(m, RemoveFirst(BufferAt(s, m).users, f) == [], l));
    } else {
      BusyHere(s, l);
    }
  }

  lemma UnregisterMoves(cfg: Config, s: Cmem, l: Location, users: seq<File>, m: Location)
    requires ValidLocation(s, l) && l.bi < |cfg| && ValidLocation(s, m) && m != l
    ensures var t := UnregisterAt(cfg, s, l, users);
            var m' := Moved(l, users == [], m);
            && |t.pools| == |s.pools| && |t.heaps| == |s.heaps|
            && ValidLocation(t, m') && BufferAt(t, m') == BufferAt(s, m)
  {
  }

  // ----- The law of registrations -----

  /** The address a successful allocation hands out. */
  ghost function Handed(cfg: Config, s: Cmem, op: Op): Option<int>
    requires Shaped(cfg, s)
  {
    match op
    case OpAlloc(_, bi, pool) =>
      if bi < |cfg| && 0 <= pool < |cfg[bi].pools| && s.pools[bi][pool].free != []
      then Some(s.pools[bi][pool].free[0].physp) else None
    case OpAllocHeap(_, bi, size, align) =>
      if bi < |cfg| && cfg[bi].heapSize > 0 && AllocAddr(s.heaps[bi], AdjustSize(size), AdjustAlign(align)) != NULL
      then Some(cfg[bi].Phys(AllocAddr(s.heaps[bi], AdjustSize(size), AdjustAlign(align)))) else None
    case _ => None
  }

  /** What becomes of the `n` registrations of `g` at `a`. */
  ghost function RegsAfter(cfg: Config, s: Cmem, op: Op, a: int, g: File, n: nat): nat
    requires Shaped(cfg, s)
  {
    match op
    case OpOpen(_) => n
    case OpAlloc(f, _, _) => if Handed(cfg, s, op) == Some(a) && g == f then 1 else n
    case OpAllocHeap(f, _, _, _) => if Handed(cfg, s, op) == Some(a) && g == f then 1 else n
    case OpRegUser(f, physp) => if physp == a && g == f && IsBusy(s, a) then n + 1 else n
    case OpFree(f, physp) => if physp == a && g == f && n > 0 then n - 1 else n
    case OpClose(f) => if g == f then 0 else n
  }

  ghost predicate HasBuffer(s: Cmem, b: Buffer) {
    exists m :: IsAt(s, m, b)
  }

  ghost predicate IsAt(s: Cmem, m: Location, b: Buffer) {
    ValidLocation(s, m) && BufferAt(s, m) == b
  }

  /** The same buffers, with the same registrations, are busy at `a`. */
  ghost predicate SameAt(s: Cmem, t: Cmem, a: int) {
    forall b: Buffer | b.physp == a :: HasBuffer(s, b) <==> HasBuffer(t, b)
  }

  lemma SameRegs(cfg: Config, s: Cmem, t: Cmem, a: int, g: File)
    requires Inv(cfg, s) && Inv(cfg, t) && SameAt(s, t, a)
    ensures Regs(s, a, g) == Regs(t, a, g)
  {
    FindBusySound(s, 0, a);
    FindBusySound(t, 0, a);
    if IsBusy(s, a) {
      var b := BufferAt(s, FindBusy(s.pools, 0, a));
      assert IsAt(s, FindBusy(s.pools, 0, a), b) && HasBuffer(s, b);
      var m :| IsAt(t, m, b);
      RegsAt(cfg, t, m, g);
    } else if IsBusy(t, a) {
      var b := BufferAt(t, FindBusy(t.pools, 0, a));
      assert IsAt(t, FindBusy(t.pools, 0, a), b) && HasBuffer(t, b);
      var m :| IsAt(s, m, b);
      BusyHere(s, m);
    }
  }

  lemma UnregisterElsewhere(cfg: Config, s: Cmem, l: Location, users: seq<File>, a: int)
    requires ValidLocation(s, l) && l.bi < |cfg| && a != BufferAt(s, l).physp
    ensures SameAt(s, UnregisterAt(cfg, s, l, users), a)
  {
    var t := UnregisterAt(cfg, s, l, users);
    forall b: Buffer | b.physp == a
      ensures HasBuffer(s, b) <==> HasBuffer(t, b)
    {
      if m :| IsAt(s, m, b) {
        assert IsAt(t, Moved(l, users == [], m), b);
      }
      if m :| IsAt(t, m, b) {
        assert IsAt(s, MovedBack(l, users == [], m), b);
      }
    }
  }

  /** Giving a busy buffer other registrations changes those and no others. */
  lemma UnregisterRegs(cfg: Config, s: Cmem, l: Location, users: seq<File>, a: int, g: File)
    requires Inv(cfg, s) && ValidLocation(s, l) && forall h | h in users :: h in s.open
    ensures Regs(UnregisterAt(cfg, s, l, users), a, g) ==
            if a == BufferAt(s, l).physp then multiset(users)[g] else Regs(s, a, g)
  {
    var t := UnregisterAt(cfg, s, l, users);
    UnregisterAtKeepsInv(cfg, s, l, users);
    if a != BufferAt(s, l).physp {
      UnregisterElsewhere(cfg, s, l, users, a);
      SameRegs(cfg, s, t, a, g);
    } else if users == [] {
      GoneAfterLast(cfg, s, l, t);
      IdleHasNoRegs(t, a, g);
    } else {
      assert BufferAt(t, l) == BufferAt(s, l).(users := users);
      RegsAt(cfg, t, l, g);
    }
  }

  lemma FreeRegs(cfg: Config, s: Cmem, f: File, physp: int, a: int, g: File)
    requires Inv(cfg, s) && Shaped(cfg, s)
    ensures var n := Regs(s, a, g);
            Regs(Free(cfg, s, f, physp), a, g) == if physp == a && g == f && n > 0 then n - 1 else n
  {
    var l := FindBusy(s.pools, 0, physp);
    FindBusySound(s, 0, physp);
    if ValidLocation(s, l) && f in BufferAt(s, l).users {
      var users := RemoveFirst(BufferAt(s, l).users, f);
      RegisteredAt(cfg, s, l);
      RemoveFirstSubset(BufferAt(s, l).users, f);
      RemoveFirstCounts(BufferAt(s, l).users, f);
      UnregisterRegs(cfg, s, l, users, a, g);
    }
  }

  lemma RegUserIsUnregister(cfg: Config, s: Cmem, f: File, l: Location)
    requires Inv(cfg, s) && f in s.open && ValidLocation(s, l)
    ensures RegUser(s, f, BufferAt(s, l).physp) == UnregisterAt(cfg, s, l, [f] + BufferAt(s, l).users)
    ensures forall h | h in [f] + BufferAt(s, l).users :: h in s.open
  {
    FindBusyIsTheOne(cfg, s, l);
    RegisteredAt(cfg, s, l);
  }

  lemma RegUserRegs(cfg: Config, s: Cmem, f: File, physp: int, a: int, g: File)
    requires Inv(cfg, s) && Shaped(cfg, s) && f in s.open
    ensures Regs(RegUser(s, f, physp), a, g) ==
            Regs(s, a, g) + if physp == a && g == f && IsBusy(s, a) then 1 else 0
  {
    var l := FindBusy(s.pools, 0, physp);
    FindBusySound(s, 0, physp);
    if ValidLocation(s, l) {
      RegUserIsUnregister(cfg, s, f, l);
      UnregisterRegs(cfg, s, l, [f] + BufferAt(s, l).users, a, g);
    }
  }

  /** `t` is `s` with one more busy buffer, at `l`. */
  ghost predicate OneMore(s: Cmem, t: Cmem, l: Location, b: Buffer) {
    && IsAt(t, l, b)
    && forall c: Buffer :: HasBuffer(t, c) <==> HasBuffer(s, c) || c == b
  }

  lemma OneMoreRegs(cfg: Config, s: Cmem, t: Cmem, l: Location, b: Buffer, f: File, a: int, g: File)
    requires Inv(cfg, s) && Inv(cfg, t) && OneMore(s, t, l, b) && b.users == [f] && !IsBusy(s, b.physp)
    ensures Regs(t, a, g) == if a == b.physp && g == f then 1 else Regs(s, a, g)
  {
    if a == b.physp {
      RegsAt(cfg, t, l, g);
      IdleHasNoRegs(s, a, g);
    } else {
      SameRegs(cfg, s, t, a, g);
    }
  }

  /** A free pool buffer or free heap memory is nowhere busy. */
  lemma HandedIsIdle(cfg: Config, s: Cmem, op: Op)
    requires Inv(cfg, s) && Shaped(cfg, s) && Allowed(s, op) && GoodAt(cfg, s, op) && Handed(cfg, s, op).Some?
    ensures !IsBusy(s, Handed(cfg, s, op).value)
  {
    var a := Handed(cfg, s, op).value;
    FindBusySound(s, 0, a);
    var l := FindBusy(s.pools, 0, a);
    if l.At? {
      if op.OpAlloc? {
        FreeBufferIdle(cfg, s, l, op.bi, op.pool);
      } else {
        FreeMemoryIdle(cfg, s, l, op.bi, op.size, op.align);
      }
      assert false;
    }
  }

  lemma FreeBufferIdle(cfg: Config, s: Cmem, l: Location, bi: nat, i: nat)
    requires Inv(cfg, s) && ValidLocation(s, l) && bi < |cfg| && i < |cfg[bi].pools| && i < |s.pools[bi]|
    requires s.pools[bi][i].free != []
    ensures BufferAt(s, l).physp != s.pools[bi][i].free[0].physp
  {
    var x := IndexOf(cfg, s, l);
    assert Buffers(cfg, s, l.bi, l.i)[x] == BufferAt(s, l);
    assert Buffers(cfg, s, bi, i)[0] == s.pools[bi][i].free[0];
    BufferInRegion(cfg, s, l.bi, l.i, x);
    BufferInRegion(cfg, s, bi, i, 0);
    BuffersApart(cfg, s, l.bi, l.i, x, bi, i, 0);
  }

  lemma FreeMemoryIdle(cfg: Config, s: Cmem, l: Location, bi: nat, size: nat, align: nat)
    requires Inv(cfg, s) && Shaped(cfg, s) && ValidLocation(s, l) && bi < |cfg| && cfg[bi].heapSize > 0
    requires size < WORD && align < WORD && GoodRequest(s.heaps[bi], size, align)
    requires AllocAddr(s.heaps[bi], AdjustSize(size), AdjustAlign(align)) != NULL
    ensures BufferAt(s, l).physp != cfg[bi].Phys(AllocAddr(s.heaps[bi], AdjustSize(size), AdjustAlign(align)))
  {
    var h, n, al := s.heaps[bi], AdjustSize(size), AdjustAlign(align);
    var x, k := IndexOf(cfg, s, l), FitIndex(h, 0, n, al);
    PoolFacts(cfg, s, bi, |cfg[bi].pools|);
    AdjustSizeZero(size);
    AllocWithoutWrap(h, cfg[bi].virtp, cfg[bi].HeapEnd(), n, al);
    assert Buffers(cfg, s, l.bi, l.i)[x] == BufferAt(s, l);
    BufferInRegion(cfg, s, l.bi, l.i, x);
    BufferApartFromFreeHeap(cfg, s, l.bi, l.i, x, bi, k);
  }

  // ----- What an allocation leaves behind -----

  /** ALLOC moves the first free buffer of the pool, registered for the caller alone, to the head of the busy list. */
  lemma AllocTakesFirst(cfg: Config, s: Cmem, f: File, bi: nat, pool: nat)
    requires Inv(cfg, s) && Shaped(cfg, s) && f in s.open
    requires bi < |cfg| && pool < |cfg[bi].pools| && s.pools[bi][pool].free != []
    ensures var t, p, b := Step(cfg, s, OpAlloc(f, bi, pool)), s.pools[bi][pool], s.pools[bi][pool].free[0];
            && OnlyPool(s, t, bi, pool) && t.heaps == s.heaps
            && t.pools[bi][pool].size == p.size && t.pools[bi][pool].free == p.free[1..]
            && t.pools[bi][pool].busy == [Buffer(b.id, b.physp, b.kvirtp, b.size, [f])] + p.busy
            && forall c | c in t.pools[bi][pool].free :: c.physp != b.physp
  {
    PoolFacts(cfg, s, bi, pool);
    var p := s.pools[bi][pool];
    assert [f] + p.free[0].users == [f];
    FirstIsOnce(cfg, s, bi, pool);
  }

  lemma FirstIsOnce(cfg: Config, s: Cmem, bi: nat, pool: nat)
    requires Inv(cfg, s) && bi < |cfg| && pool < |cfg[bi].pools| && pool < |s.pools[bi]|
    requires s.pools[bi][pool].free != []
    ensures forall c | c in s.pools[bi][pool].free[1..] :: c.physp != s.pools[bi][pool].free[0].physp
  {
    var free := s.pools[bi][pool].free;
    forall k | 1 <= k < |free|
      ensures free[k].physp != free[0].physp
    {
      assert Buffers(cfg, s, bi, pool)[0] == free[0] && Buffers(cfg, s, bi, pool)[k] == free[k];
      BufferInRegion(cfg, s, bi, pool, 0);
      BufferInRegion(cfg, s, bi, pool, k);
      BuffersApart(cfg, s, bi, pool, 0, bi, pool, k);
    }
  }

  /** ALLOCHEAP appends a buffer, registered for the caller alone, and takes exactly its bytes from the heap. */
  lemma AllocHeapTakesRange(cfg: Config, s: Cmem, f: File, bi: nat, size: nat, align: nat)
    requires Inv(cfg, s) && Shaped(cfg, s) && f in s.open && bi < |cfg| && cfg[bi].heapSize > 0
    requires size < WORD && align < WORD && GoodRequest(s.heaps[bi], size, align)
    requires AllocAddr(s.heaps[bi], AdjustSize(size), AdjustAlign(align)) != NULL
    ensures var t, i := Step(cfg, s, OpAllocHeap(f, bi, size, align)), |cfg[bi].pools|;
            var p, h, v := s.pools[bi][i], s.heaps[bi], AllocAddr(s.heaps[bi], AdjustSize(size), AdjustAlign(align));
            && OnlyPool(s, t, bi, i) && |t.heaps| == |s.heaps| && t.heaps == s.heaps[bi := t.heaps[bi]]
            && t.pools[bi][i].size == p.size && t.pools[bi][i].free == p.free
            && t.pools[bi][i].busy == p.busy + [Buffer(i, cfg[bi].Phys(v), v, size, [f])]
            && WellFormed(t.heaps[bi], cfg[bi].virtp, cfg[bi].HeapEnd())
            && Range(v, RoundUp(size)) <= Bytes(h) && Bytes(t.heaps[bi]) == Bytes(h) - Range(v, RoundUp(size))
  {
    PoolFacts(cfg, s, bi, |cfg[bi].pools|);
    AdjustSizeZero(size);
    AdjustAlignIsPaged(align);
    AllocListTakesRange(s.heaps[bi], cfg[bi].virtp, cfg[bi].HeapEnd(), AdjustSize(size), AdjustAlign(align));
  }

  /** An allocation that hands out nothing changes nothing. */
  lemma NothingHanded(cfg: Config, s: Cmem, op: Op)
    requires Inv(cfg, s) && Shaped(cfg, s) && Allowed(s, op) && GoodAt(cfg, s, op)
    requires (op.OpAlloc? || op.OpAllocHeap?) && Handed(cfg, s, op).None?
    ensures Step(cfg, s, op) == s
  {
    if op.OpAllocHeap? && op.bi < |cfg| && cfg[op.bi].heapSize > 0 {
      var bi, i := op.bi, |cfg[op.bi].pools|;
      PoolFacts(cfg, s, bi, i);
      FailedAllocKeepsList(s.heaps[bi], cfg[bi].virtp, cfg[bi].HeapEnd(), op.size, op.align);
      assert s.pools[bi][i := s.pools[bi][i]] == s.pools[bi];
      assert s.pools[bi := s.pools[bi]] == s.pools && s.heaps[bi := s.heaps[bi]] == s.heaps;
    }
  }

  lemma HandedOneMore(cfg: Config, s: Cmem, op: Op) returns (l: Location, b: Buffer)
    requires Inv(cfg, s) && Shaped(cfg, s) && Allowed(s, op) && GoodAt(cfg, s, op) && Handed(cfg, s, op).Some?
    ensures OneMore(s, Step(cfg, s, op), l, b) && b.physp == Handed(cfg, s, op).value && b.users == [op.f]
  {
    var t := Step(cfg, s, op);
    if op.OpAlloc? {
      AllocTakesFirst(cfg, s, op.f, op.bi, op.pool);
      l := At(op.bi, op.pool, 0);
      b := BufferAt(t, l);
      AddedFirst(s, t, op.bi, op.pool, b);
    } else {
      AllocHeapTakesRange(cfg, s, op.f, op.bi, op.size, op.align);
      l := At(op.bi, |cfg[op.bi].pools|, |s.pools[op.bi][|cfg[op.bi].pools|].busy|);
      b := BufferAt(t, l);
      AddedLast(s, t, op.bi, |cfg[op.bi].pools|, b);
    }
  }

  lemma AddedFirst(s: Cmem, t: Cmem, bi: nat, i: nat, b: Buffer)
    requires OnlyPool(s, t, bi, i) && |s.heaps| == |s.pools| && |t.heaps| == |t.pools|
    requires t.pools[bi][i].busy == [b] + s.pools[bi][i].busy
    ensures OneMore(s, t, At(bi, i, 0), b)
  {
    forall c: Buffer
      ensures HasBuffer(t, c) <==> HasBuffer(s, c) || c == b
    {
      if m :| IsAt(s, m, c) {
        assert IsAt(t, if (m.bi, m.i) == (bi, i) then At(bi, i, m.k + 1) else m, c);
      }
      if m :| IsAt(t, m, c) {
        assert IsAt(s, if (m.bi, m.i) == (bi, i) then At(bi, i, if m.k > 0 then m.k - 1 else 0) else m, c) || c == b;
      }
      assert IsAt(t, At(bi, i, 0), b);
    }
  }

  lemma AddedLast(s: Cmem, t: Cmem, bi: nat, i: nat, b: Buffer)
    requires OnlyPool(s, t, bi, i) && |s.heaps| == |s.pools| && |t.heaps| == |t.pools|
    requires t.pools[bi][i].busy == s.pools[bi][i].busy + [b]
    ensures OneMore(s, t, At(bi, i, |s.pools[bi][i].busy|), b)
  {
    forall c: Buffer
      ensures HasBuffer(t, c) <==> HasBuffer(s, c) || c == b
    {
      if m :| IsAt(s, m, c) {
        assert IsAt(t, m, c);
      }
      if m :| IsAt(t, m, c) {
        assert IsAt(s, m, c) || c == b;
      }
      assert IsAt(t, At(bi, i, |s.pools[bi][i].busy|), b);
    }
  }

  /**
   The law of registrations, for every operation, address and file: ALLOC and ALLOCHEAP give the caller the only
   registration of what they hand out, REGUSER adds one of the caller's, FREE takes one away, a close all of them,
   and nothing else changes.
   */
  lemma RegistrationLaw(cfg: Config, s: Cmem, op: Op, a: int, g: File)
    requires Inv(cfg, s) && Shaped(cfg, s) && Allowed(s, op) && GoodAt(cfg, s, op)
    ensures Regs(Step(cfg, s, op), a, g) == RegsAfter(cfg, s, op, a, g, Regs(s, a, g))
  {
    match op {
      case OpOpen(f) =>
      case OpAlloc(_, _, _) => AllocationRegs(cfg, s, op, a, g);
      case OpAllocHeap(_, _, _, _) => AllocationRegs(cfg, s, op, a, g);
      case OpFree(f, physp) => FreeRegs(cfg, s, f, physp, a, g);
      case OpRegUser(f, physp) => RegUserRegs(cfg, s, f, physp, a, g);
      case OpClose(f) => CloseRegs(cfg, s, f, a, g);
    }
  }

  lemma AllocationRegs(cfg: Config, s: Cmem, op: Op, a: int, g: File)
    requires Inv(cfg, s) && Shaped(cfg, s) && Allowed(s, op) && GoodAt(cfg, s, op) && (op.OpAlloc? || op.OpAllocHeap?)
    ensures Regs(Step(cfg, s, op), a, g) == if Handed(cfg, s, op) == Some(a) && g == op.f then 1 else Regs(s, a, g)
  {
    if Handed(cfg, s, op).None? {
      NothingHanded(cfg, s, op);
    } else {
      StepKeepsInv(cfg, s, op);
      HandedIsIdle(cfg, s, op);
      var l, b := HandedOneMore(cfg, s, op);
      OneMoreRegs(cfg, s, Step(cfg, s, op), l, b, op.f, a, g);
    }
  }

  /** An idle address becomes busy if and only if the operation is an allocation that hands it out. */
  lemma StartsBeingBusyIff(cfg: Config, s: Cmem, op: Op, a: int)
    requires Inv(cfg, s) && Shaped(cfg, s) && Allowed(s, op) && GoodAt(cfg, s, op) && !IsBusy(s, a)
    ensures IsBusy(Step(cfg, s, op), a) <==> Handed(cfg, s, op) == Some(a)
  {
    StepKeepsInv(cfg, s, op);
    BusyIffRegs(cfg, Step(cfg, s, op), a);
    forall g
      ensures Regs(Step(cfg, s, op), a, g) > 0 <==> Handed(cfg, s, op) == Some(a) && g == op.f
    {
      IdleHasNoRegs(s, a, g);
      RegistrationLaw(cfg, s, op, a, g);
    }
    assert Handed(cfg, s, op) == Some(a) ==> Regs(Step(cfg, s, op), a, op.f) > 0;
  }

  /** REGUSER of a busy buffer adds a registration of the caller to it and changes nothing else. */
  lemma RegUserAdds(cfg: Config, s: Cmem, f: File, l: Location)
    requires Inv(cfg, s) && Shaped(cfg, s) && f in s.open && ValidLocation(s, l)
    ensures var t, b := Step(cfg, s, OpRegUser(f, BufferAt(s, l).physp)), BufferAt(s, l);
            && ValidLocation(t, l) && BufferAt(t, l) == b.(users := BufferAt(t, l).users)
            && multiset(BufferAt(t, l).users) == multiset(b.users) + multiset{f}
            && OnlyPool(s, t, l.bi, l.i) && t.heaps == s.heaps
            && t.pools[l.bi][l.i] == s.pools[l.bi][l.i].(busy := s.pools[l.bi][l.i].busy[l.k := BufferAt(t, l)])
  {
    FindBusyIsTheOne(cfg, s, l);
    assert s.heaps[l.bi := s.heaps[l.bi]] == s.heaps;
  }

  /** Which files are open: an open adds its file, a close removes it, nothing else opens or closes one. */
  lemma OpenFilesLaw(cfg: Config, s: Cmem, op: Op)
    requires Inv(cfg, s) && Shaped(cfg, s) && Allowed(s, op)
    ensures var t := Step(cfg, s, op);
            match op
            case OpOpen(f) => t == s.(open := s.open + {f}) && |t.open| == |s.open| + 1
            case OpClose(f) => t.open == s.open - {f} && |t.open| == |s.open| - 1
            case _ => t.open == s.open
  {
  }
}
