/**
 The free list of the heap as a value: what the list of free blocks means, what first-fit
 allocation and coalescing free do to it, and why the list is determined by the bytes it covers.
 */
module HeapBlocks {
  import opened Bits
  import opened Common

  const PAGE_SIZE: nat := 4096
  const PAGE_SHIFT: nat := 12
  const NULL: nat := 0

  /** One past the largest `size_t`. */
  const WORD: nat := 0x1_0000_0000
  const WORD_BITS: nat := 32

  lemma WordIsPow2()
    ensures Pow2(WORD_BITS) == WORD
  {
    assert Pow2(8) == 0x100;
    assert Pow2(16) == 0x1_0000;
    assert Pow2(24) == 0x100_0000;
  }

  datatype Block = Block(addr: int, size: int) {
    function End(): int { addr + size }
  }

  /** Addition of two words, which wraps around. */
  function AddWord(x: int, y: int): int { if x + y < WORD then x + y else x + y - WORD }

  /** Subtraction of two words, which wraps around. */
  function SubWord(x: int, y: int): int { if x >= y then x - y else x - y + WORD }

  // ----- Size and alignment adjustment -----

  /** Sizes are rounded up to a multiple of HEAP_ALIGN. */
  function RoundUp(size: nat): (r: nat) {
    var off := And(size, PAGE_SIZE - 1);
    AndBound(size, PAGE_SIZE - 1);
    if off != 0 then size + (PAGE_SIZE - off) else size
  }

  /** The rounded size as a word: the topmost sizes wrap around to zero. */
  function AdjustSize(size: nat): (r: nat) {
    if RoundUp(size) < WORD then RoundUp(size) else RoundUp(size) % WORD
  }

  /** An alignment below HEAP_ALIGN is replaced by HEAP_ALIGN; zero acts as one more than the largest word. */
  function AdjustAlign(align: nat): nat {
    if align == 0 then WORD else if And(align, PAGE_SIZE - 1) != 0 then PAGE_SIZE else align
  }

  /** Bytes to skip from `addr` to reach a multiple of `align`. */
  function Offset(addr: nat, align: nat): (r: nat)
    requires align > 0
    ensures r < align
  {
    var off := And(addr, align - 1);
    AndBound(addr, align - 1);
    if off != 0 then align - off else 0
  }

  lemma PageMask(x: nat)
    ensures And(x, PAGE_SIZE - 1) == x % PAGE_SIZE
  {
    assert Pow2(PAGE_SHIFT) == PAGE_SIZE;
    MaskIsRemainder(x, PAGE_SHIFT);
  }

  lemma RoundUpIsLeastMultiple(size: nat)
    ensures RoundUp(size) % PAGE_SIZE == 0
    ensures size <= RoundUp(size) < size + PAGE_SIZE
  {
    PageMask(size);
  }

  /** A size is rounded to zero exactly when it is zero or among the last less than a page from the end of the word. */
  lemma AdjustSizeZero(size: nat)
    requires size < WORD
    ensures AdjustSize(size) % PAGE_SIZE == 0 && AdjustSize(size) < WORD
    ensures AdjustSize(size) != 0 <==> 0 < size <= WORD - PAGE_SIZE
    ensures AdjustSize(size) != 0 ==> AdjustSize(size) == RoundUp(size)
    ensures RoundUp(size) < WORD <==> size <= WORD - PAGE_SIZE
  {
    RoundUpIsLeastMultiple(size);
  }

  /** Any alignment is turned into a multiple of HEAP_ALIGN. */
  lemma AdjustAlignIsPaged(align: nat)
    ensures PagedAlign(AdjustAlign(align))
    ensures 0 < align < WORD ==> AdjustAlign(align) < WORD
  {
    PageMask(align);
  }

  lemma AdjustAlignIsMax(align: nat)
    requires IsPow2(align)
    ensures AdjustAlign(align) == if align < PAGE_SIZE then PAGE_SIZE else align
    ensures IsPow2(AdjustAlign(align)) && AdjustAlign(align) % PAGE_SIZE == 0
  {
    PageMask(align);
    assert Pow2(PAGE_SHIFT) == PAGE_SIZE;
    var k: nat :| align == Pow2(k);
    if k < PAGE_SHIFT {
      Pow2Monotone(k + 1, PAGE_SHIFT);
    } else {
      Pow2Monotone(PAGE_SHIFT, k);
    }
  }

  /** The skipped distance leads to the least multiple of `align` at or above `addr`. */
  lemma OffsetIsLeast(addr: nat, align: nat)
    requires IsPow2(align) && align > 0
    ensures 0 <= Offset(addr, align) < align
    ensures (addr + Offset(addr, align)) % align == 0
    ensures forall a :: addr <= a && a % align == 0 ==> addr + Offset(addr, align) <= a
  {
    var k: nat :| align == Pow2(k);
    MaskIsRemainder(addr, k);
    SkipToMultiple(addr, align);
    forall a | addr <= a && a % align == 0
      ensures addr + Offset(addr, align) <= a
    {
      if addr % align != 0 {
        NextMultiple(addr, a, align);
      }
    }
  }

  lemma SkipToMultiple(x: nat, m: int)
    requires m > 0
    ensures x % m != 0 ==> x + (m - x % m) == m * (x / m + 1)
    ensures m * (x / m + 1) % m == 0
  {
    assert x == m * (x / m) + x % m;
    assert m * (x / m + 1) == m * (x / m) + m;
    MultipleMod(m, x / m + 1);
  }

  lemma NextMultiple(x: nat, a: int, m: int)
    requires m > 0 && x <= a && a % m == 0 && x % m != 0
    ensures m * (x / m + 1) <= a
  {
    var d := a / m - x / m;
    assert a == m * (a / m) && x == m * (x / m) + x % m;
    assert m * d == a - x + x % m by {
      assert m * d == m * (a / m) - m * (x / m);
    }
    MultipleIsFar(m, d);
    MultipleIsFar(m, d - 1);
    assert m * (x / m + 1) == m * (x / m) + m;
  }

  lemma OffsetIsPaged(addr: nat, align: nat)
    requires PagedAlign(align) && addr % PAGE_SIZE == 0
    ensures Offset(addr, align) % PAGE_SIZE == 0
  {
    assert Pow2(PAGE_SHIFT) == PAGE_SIZE;
    AndKeepsMultiple(addr, align - 1, PAGE_SHIFT);
  }

  /** Size and alignment are not zero, and no sum of the two wraps around, whatever the block. */
  ghost predicate HeapRequest(size: nat, align: nat) {
    0 < size && align < WORD && RoundUp(size) + AdjustAlign(align) <= WORD
  }

  // ----- Free lists -----

  ghost predicate GoodBlock(b: Block, lo: int, hi: int) {
    && lo <= b.addr && 0 < b.size && b.End() <= hi
    && b.addr % PAGE_SIZE == 0 && b.size % PAGE_SIZE == 0
  }

  /** Strictly sorted, in bounds, page-sized blocks, no two of which touch. */
  ghost predicate WellFormed(bs: seq<Block>, lo: int, hi: int) {
    && (forall i | 0 <= i < |bs| :: GoodBlock(bs[i], lo, hi))
    && (forall i, j | 0 <= i < j < |bs| :: bs[i].End() < bs[j].addr)
  }

  ghost predicate Holds(b: Block, x: int) { b.addr <= x < b.End() }

  ghost predicate Covers(bs: seq<Block>, x: int) {
    exists i | 0 <= i < |bs| :: Holds(bs[i], x)
  }

  /** The bytes a list of blocks covers. */
  ghost function Bytes(bs: seq<Block>): iset<int> { iset x | Covers(bs, x) }

  ghost predicate InRange(a: int, n: int, x: int) { a <= x < a + n }

  ghost function Range(a: int, n: int): iset<int> { iset x | InRange(a, n, x) }

  /** The byte just past a block of a well-formed list is not free: blocks do not touch. */
  lemma EndNotCovered(bs: seq<Block>, lo: int, hi: int, i: int)
    requires WellFormed(bs, lo, hi) && 0 <= i < |bs|
    ensures !Covers(bs, bs[i].End())
  {
    forall j | 0 <= j < |bs|
      ensures !Holds(bs[j], bs[i].End())
    {
      if j < i {
        assert bs[j].End() < bs[i].addr;
      } else if i < j {
        assert bs[i].End() < bs[j].addr;
      }
    }
  }

  /** A run of free bytes lies inside a single block. */
  lemma RunInOneBlock(bs: seq<Block>, lo: int, hi: int, a: int, n: int) returns (i: int)
    requires WellFormed(bs, lo, hi) && n > 0 && Range(a, n) <= Bytes(bs)
    ensures 0 <= i < |bs| && bs[i].addr <= a && a + n <= bs[i].End()
  {
    assert a in Range(a, n);
    i :| 0 <= i < |bs| && Holds(bs[i], a);
    EndNotCovered(bs, lo, hi, i);
    assert bs[i].End() !in Range(a, n);
  }

  lemma HeldByOne(bs: seq<Block>, lo: int, hi: int, i: int, j: int, x: int)
    requires WellFormed(bs, lo, hi) && 0 <= i < |bs| && 0 <= j < |bs|
    requires Holds(bs[i], x) && Holds(bs[j], x)
    ensures i == j
  {
  }

  lemma BytesDetermineBlock(xs: seq<Block>, ys: seq<Block>, lo: int, hi: int, i: int) returns (j: int)
    requires WellFormed(xs, lo, hi) && WellFormed(ys, lo, hi) && Bytes(xs) == Bytes(ys)
    requires 0 <= i < |xs|
    ensures 0 <= j < |ys| && ys[j] == xs[i]
  {
    var b := xs[i];
    assert Range(b.addr, b.size) <= Bytes(ys) by {
      forall x | x in Range(b.addr, b.size)
        ensures x in Bytes(ys)
      {
        assert Holds(xs[i], x);
        assert x in Bytes(xs);
      }
    }
    j := RunInOneBlock(ys, lo, hi, b.addr, b.size);
    var c := ys[j];
    assert Range(c.addr, c.size) <= Bytes(xs) by {
      forall x | x in Range(c.addr, c.size)
        ensures x in Bytes(xs)
      {
        assert Holds(ys[j], x);
        assert x in Bytes(ys);
      }
    }
    var k := RunInOneBlock(xs, lo, hi, c.addr, c.size);
    HeldByOne(xs, lo, hi, i, k, b.addr);
  }

  /** The free list is a function of the set of free bytes: there is one well-formed list for it. */
  lemma BytesDetermineList(xs: seq<Block>, ys: seq<Block>, lo: int, hi: int)
    requires WellFormed(xs, lo, hi) && WellFormed(ys, lo, hi) && Bytes(xs) == Bytes(ys)
    ensures xs == ys
  {
    forall b | b in xs
      ensures b in ys
    {
      var i :| 0 <= i < |xs| && xs[i] == b;
      var j := BytesDetermineBlock(xs, ys, lo, hi, i);
    }
    forall b | b in ys
      ensures b in xs
    {
      var i :| 0 <= i < |ys| && ys[i] == b;
      var j := BytesDetermineBlock(ys, xs, lo, hi, i);
    }
    SortedListsAgree(xs, ys);
  }

  ghost predicate Ascending(bs: seq<Block>) {
    forall i, j | 0 <= i < j < |bs| :: bs[i].addr < bs[j].addr
  }

  lemma {:induction false} SortedListsAgree(xs: seq<Block>, ys: seq<Block>)
    requires Ascending(xs) && Ascending(ys)
    requires forall b :: b in xs <==> b in ys
    ensures xs == ys
  {
    if |xs| == 0 {
      if |ys| > 0 {
        SomeMember(ys);
        assert false;
      }
    } else {
      assert xs[0] in ys && ys[0] in xs;
      assert xs[0] == ys[0];
      forall b
        ensures b in xs[1..] <==> b in ys[1..]
      {
        TailMembers(xs, b);
        TailMembers(ys, b);
      }
      SortedListsAgree(xs[1..], ys[1..]);
      assert xs == [xs[0]] + xs[1..] && ys == [ys[0]] + ys[1..];
    }
  }

  lemma SomeMember(bs: seq<Block>)
    requires |bs| > 0
    ensures exists b :: b in bs
  {
    assert bs[0] in bs;
  }

  lemma TailMembers(bs: seq<Block>, b: Block)
    requires Ascending(bs) && |bs| > 0
    ensures b in bs[1..] <==> b in bs && b != bs[0]
  {
    if b in bs && b != bs[0] {
      var i :| 0 <= i < |bs| && bs[i] == b;
      assert bs[1..][i - 1] == b;
    }
  }

  // ----- Allocation -----

  predicate Fits(b: Block, n: nat, align: nat)
    requires b.addr >= 0 && align > 0
  {
    b.size >= AddWord(n, Offset(b.addr, align))
  }

  /** Index, from `k` on, of the first block that fits; `|bs|` when none does. */
  function FitIndex(bs: seq<Block>, k: nat, n: nat, align: nat): (r: nat)
    requires k <= |bs| && align > 0 && forall i | 0 <= i < |bs| :: bs[i].addr >= 0
    ensures k <= r <= |bs|
    ensures forall i | k <= i < r :: !Fits(bs[i], n, align)
    ensures r < |bs| ==> Fits(bs[r], n, align)
    decreases |bs| - k
  {
    if k == |bs| || Fits(bs[k], n, align) then k else FitIndex(bs, k + 1, n, align)
  }

  lemma FitIndexStep(bs: seq<Block>, k: nat, n: nat, align: nat)
    requires k < |bs| && align > 0 && forall i | 0 <= i < |bs| :: bs[i].addr >= 0
    ensures FitIndex(bs, k, n, align) == if Fits(bs[k], n, align) then k else FitIndex(bs, k + 1, n, align)
  {
  }

  /** The address first-fit allocation returns. */
  function AllocAddr(bs: seq<Block>, n: nat, align: nat): int
    requires align > 0 && forall i | 0 <= i < |bs| :: bs[i].addr >= 0
  {
    var k := FitIndex(bs, 0, n, align);
    if k == |bs| then NULL else AddWord(bs[k].addr, Offset(bs[k].addr, align))
  }

  /** What is left of block `b` once `n` bytes at distance `off` are taken from it. */
  function Pieces(b: Block, off: int, n: int): seq<Block> {
    (if off != 0 then [Block(b.addr, off)] else []) +
    (if b.size - n - off != 0 then [Block(b.addr + off + n, b.size - n - off)] else [])
  }

  function Carve(bs: seq<Block>, k: nat, off: int, n: int): seq<Block>
    requires k < |bs|
  {
    bs[..k] + Pieces(bs[k], off, n) + bs[k + 1..]
  }

  /** The free list after first-fit allocation. */
  function AllocList(bs: seq<Block>, n: nat, align: nat): seq<Block>
    requires align > 0 && forall i | 0 <= i < |bs| :: bs[i].addr >= 0
  {
    var k := FitIndex(bs, 0, n, align);
    if k == |bs| then bs else
    var off := Offset(bs[k].addr, align);
    Carve(bs, k, off, AddWord(n, off) - off)
  }

  /** At the block first fit chooses, the sum of size and offset does not wrap around. */
  predicate SumFits(bs: seq<Block>, n: nat, align: nat)
    requires align > 0 && forall i | 0 <= i < |bs| :: bs[i].addr >= 0
  {
    var k := FitIndex(bs, 0, n, align);
    k < |bs| ==> n + Offset(bs[k].addr, align) < WORD
  }

  /** The request finds no block, or it takes at least one byte and no sum wraps around. */
  ghost predicate GoodRequest(bs: seq<Block>, size: nat, align: nat)
    requires forall i | 0 <= i < |bs| :: bs[i].addr >= 0
  {
    var n, al := AdjustSize(size), AdjustAlign(align);
    FitIndex(bs, 0, n, al) < |bs| ==> 0 < size <= WORD - PAGE_SIZE && SumFits(bs, n, al)
  }

  /** `a` could be the start of `n` free bytes at the given alignment. */
  ghost predicate Candidate(free: iset<int>, n: int, align: int, a: int)
    requires align > 0
  {
    a % align == 0 && Range(a, n) <= free
  }

  /** `r` is the least candidate, or NULL and there is none. */
  ghost predicate LeastCandidate(free: iset<int>, n: int, align: int, r: int)
    requires align > 0
  {
    && (r != NULL ==> Candidate(free, n, align, r))
    && (forall a :: Candidate(free, n, align, a) ==> r != NULL && r <= a)
  }

  ghost predicate PagedAlign(align: nat) {
    align > 0 && align % PAGE_SIZE == 0
  }

  ghost predicate UsableAlign(align: nat) {
    PagedAlign(align) && IsPow2(align)
  }

  /** First fit is least address: no candidate lies below the result, and failure means there is none. */
  lemma AllocAddrIsLeastCandidate(bs: seq<Block>, lo: nat, hi: int, n: nat, align: nat)
    requires WellFormed(bs, lo, hi) && n > 0 && 0 < lo && hi <= WORD && UsableAlign(align) && n + align <= WORD
    ensures LeastCandidate(Bytes(bs), n, align, AllocAddr(bs, n, align))
  {
    var k := FitIndex(bs, 0, n, align);
    var a := AllocAddr(bs, n, align);
    if k < |bs| {
      OffsetIsLeast(bs[k].addr, align);
      assert forall x | x in Range(a, n) :: Holds(bs[k], x);
    }
    forall a' | Candidate(Bytes(bs), n, align, a')
      ensures a != NULL && a <= a'
    {
      var i := RunInOneBlock(bs, lo, hi, a', n);
      OffsetIsLeast(bs[i].addr, align);
      assert Fits(bs[i], n, align);
      assert k <= i;
      assert k < i ==> bs[k].End() < bs[i].addr;
    }
  }

  /** Allocation keeps the list well formed and removes exactly the returned range from it. */
  lemma AllocListTakesRange(bs: seq<Block>, lo: nat, hi: int, n: nat, align: nat)
    requires WellFormed(bs, lo, hi) && n > 0 && n % PAGE_SIZE == 0 && 0 < lo && hi <= WORD && PagedAlign(align)
    requires AllocAddr(bs, n, align) != NULL && SumFits(bs, n, align)
    ensures WellFormed(AllocList(bs, n, align), lo, hi)
    ensures Range(AllocAddr(bs, n, align), n) <= Bytes(bs)
    ensures Bytes(AllocList(bs, n, align)) == Bytes(bs) - Range(AllocAddr(bs, n, align), n)
    ensures AllocAddr(bs, n, align) % PAGE_SIZE == 0
  {
    var k := FitIndex(bs, 0, n, align);
    var off := Offset(bs[k].addr, align);
    OffsetIsPaged(bs[k].addr, align);
    AllocWithoutWrap(bs, lo, hi, n, align);
    PagedSum(bs[k].addr, off);
    CarveTakesRange(bs, lo, hi, k, off, n);
  }

  lemma PagedSum(x: int, y: int)
    requires x % PAGE_SIZE == 0 && y % PAGE_SIZE == 0
    ensures (x + y) % PAGE_SIZE == 0
  {
  }

  lemma AllocWithoutWrap(bs: seq<Block>, lo: nat, hi: int, n: nat, align: nat)
    requires WellFormed(bs, lo, hi) && hi <= WORD && align > 0 && SumFits(bs, n, align)
    requires FitIndex(bs, 0, n, align) < |bs|
    ensures var k := FitIndex(bs, 0, n, align);
            var off := Offset(bs[k].addr, align);
            && off + n <= bs[k].size && AllocList(bs, n, align) == Carve(bs, k, off, n)
            && (n > 0 || off < bs[k].size ==> AllocAddr(bs, n, align) == bs[k].addr + off)
  {
  }

  /** A size no larger than the first block is served from its very start. */
  lemma FirstFitAtStart(bs: seq<Block>, lo: nat, hi: int, n: nat)
    requires WellFormed(bs, lo, hi) && 0 < lo && hi < WORD && bs != [] && n <= bs[0].size
    ensures FitIndex(bs, 0, n, AdjustAlign(PAGE_SIZE)) == 0 && Offset(bs[0].addr, AdjustAlign(PAGE_SIZE)) == 0
    ensures AllocAddr(bs, n, AdjustAlign(PAGE_SIZE)) == bs[0].addr
    ensures n == 0 ==> AllocList(bs, n, AdjustAlign(PAGE_SIZE)) == bs
  {
    PageMask(bs[0].addr);
    PageMask(PAGE_SIZE);
    assert AdjustAlign(PAGE_SIZE) == PAGE_SIZE && Offset(bs[0].addr, PAGE_SIZE) == 0;
    assert n == 0 ==> Carve(bs, 0, 0, 0) == bs;
  }

  /**
   An alignment of zero never yields an address: the offset leads to the end of the address space, which is NULL.
   The test whether a block is big enough still holds when the size lies between its address and its end, and in
   just that case the sum has wrapped around.
   */
  lemma ZeroAlignNeverServes(bs: seq<Block>, lo: nat, hi: int, n: nat)
    requires WellFormed(bs, lo, hi) && 0 < lo && hi < WORD && n < WORD
    ensures AllocAddr(bs, n, AdjustAlign(0)) == NULL
    ensures FitIndex(bs, 0, n, AdjustAlign(0)) < |bs| <==> exists k | 0 <= k < |bs| :: bs[k].addr <= n <= bs[k].End()
    ensures SumFits(bs, n, AdjustAlign(0)) <==> FitIndex(bs, 0, n, AdjustAlign(0)) == |bs|
  {
    forall k | 0 <= k < |bs|
      ensures Offset(bs[k].addr, WORD) == WORD - bs[k].addr
      ensures Fits(bs[k], n, WORD) <==> bs[k].addr <= n <= bs[k].End()
    {
      OffsetToEnd(bs[k].addr);
    }
    if k :| 0 <= k < |bs| && bs[k].addr <= n <= bs[k].End() {
      assert Fits(bs[k], n, WORD);
    }
  }

  lemma OffsetToEnd(addr: nat)
    requires 0 < addr < WORD
    ensures Offset(addr, WORD) == WORD - addr
  {
    WordIsPow2();
    MaskKeepsAll(addr, WORD_BITS);
  }

  lemma HeapRequestIsGood(bs: seq<Block>, lo: nat, hi: int, size: nat, align: nat)
    requires WellFormed(bs, lo, hi) && HeapRequest(size, align)
    ensures AdjustSize(size) == RoundUp(size) && GoodRequest(bs, size, align)
  {
    RoundUpIsLeastMultiple(size);
    AdjustSizeZero(size);
    AdjustAlignIsPaged(align);
  }

  lemma GoodAllocKeepsOrder(bs: seq<Block>, lo: nat, hi: int, size: nat, align: nat)
    requires WellFormed(bs, lo, hi) && hi <= WORD && size < WORD && GoodRequest(bs, size, align)
    ensures WellFormed(AllocList(bs, AdjustSize(size), AdjustAlign(align)), lo, hi)
  {
    var n, al := AdjustSize(size), AdjustAlign(align);
    var k := FitIndex(bs, 0, n, al);
    AdjustSizeZero(size);
    AdjustAlignIsPaged(align);
    if k < |bs| {
      AllocWithoutWrap(bs, lo, hi, n, al);
      OffsetIsPaged(bs[k].addr, al);
      CarveTakesRange(bs, lo, hi, k, Offset(bs[k].addr, al), n);
    }
  }

  lemma CarveTakesRange(bs: seq<Block>, lo: int, hi: int, k: nat, off: nat, n: nat)
    requires WellFormed(bs, lo, hi) && k < |bs|
    requires n > 0 && n % PAGE_SIZE == 0 && off % PAGE_SIZE == 0 && off + n <= bs[k].size
    ensures WellFormed(Carve(bs, k, off, n), lo, hi)
    ensures Range(bs[k].addr + off, n) <= Bytes(bs)
    ensures Bytes(Carve(bs, k, off, n)) == Bytes(bs) - Range(bs[k].addr + off, n)
  {
    PiecesWellFormed(bs[k], off, n);
    ReplaceOne(bs, lo, hi, k, Pieces(bs[k], off, n));
    forall x
      ensures Covers(Carve(bs, k, off, n), x) <==> Covers(bs, x) && !InRange(bs[k].addr + off, n, x)
    {
      CarveCovers(bs, k, off, n, x);
      CoversSplit(bs, k, k + 1, x);
      OtherBlocksApart(bs, lo, hi, k, x);
    }
    assert forall x | x in Range(bs[k].addr + off, n) :: Holds(bs[k], x);
  }

  lemma PiecesWellFormed(b: Block, off: nat, n: nat)
    requires GoodBlock(b, b.addr, b.End()) && off + n <= b.size
    requires n > 0 && n % PAGE_SIZE == 0 && off % PAGE_SIZE == 0
    ensures WellFormed(Pieces(b, off, n), b.addr, b.End())
  {
  }

  lemma CarveCovers(bs: seq<Block>, k: nat, off: nat, n: nat, x: int)
    requires k < |bs| && off + n <= bs[k].size
    ensures Covers(Carve(bs, k, off, n), x) <==>
      Covers(bs[..k], x) || Covers(bs[k + 1..], x) || (Holds(bs[k], x) && !InRange(bs[k].addr + off, n, x))
  {
    CoversParts(bs[..k], Pieces(bs[k], off, n), bs[k + 1..], x);
    PiecesCover(bs[k], off, n, x);
  }

  lemma PiecesCover(b: Block, off: nat, n: nat, x: int)
    requires off + n <= b.size
    ensures Covers(Pieces(b, off, n), x) <==> Holds(b, x) && x !in Range(b.addr + off, n)
  {
    var ps := Pieces(b, off, n);
    if Holds(b, x) && x !in Range(b.addr + off, n) {
      var i := if x < b.addr + off then 0 else |ps| - 1;
      assert Holds(ps[i], x);
    }
  }

  /** Cutting a list in three splits what it covers. */
  lemma CoversSplit(bs: seq<Block>, i: nat, j: nat, x: int)
    requires i <= j <= |bs|
    ensures Covers(bs, x) <==> Covers(bs[..i], x) || Covers(bs[i..j], x) || Covers(bs[j..], x)
  {
    assert bs == bs[..i] + bs[i..j] + bs[j..];
    CoversParts(bs[..i], bs[i..j], bs[j..], x);
  }

  lemma CoversParts(xs: seq<Block>, ys: seq<Block>, zs: seq<Block>, x: int)
    ensures Covers(xs + ys + zs, x) <==> Covers(xs, x) || Covers(ys, x) || Covers(zs, x)
  {
    var all := xs + ys + zs;
    if Covers(xs, x) {
      var i :| 0 <= i < |xs| && Holds(xs[i], x);
      assert Holds(all[i], x);
    }
    if Covers(ys, x) {
      var i :| 0 <= i < |ys| && Holds(ys[i], x);
      assert Holds(all[|xs| + i], x);
    }
    if Covers(zs, x) {
      var i :| 0 <= i < |zs| && Holds(zs[i], x);
      assert Holds(all[|xs| + |ys| + i], x);
    }
  }

  lemma OtherBlocksApart(bs: seq<Block>, lo: int, hi: int, k: nat, x: int)
    requires WellFormed(bs, lo, hi) && k < |bs|
    ensures Covers(bs[k..k + 1], x) <==> Holds(bs[k], x)
    ensures Holds(bs[k], x) ==> !Covers(bs[..k], x) && !Covers(bs[k + 1..], x)
  {
    assert bs[k..k + 1] == [bs[k]];
    assert Holds(bs[k], x) ==> Holds([bs[k]][0], x);
  }

  /** Blocks inside block `k` and apart from each other may take its place. */
  lemma ReplaceOne(bs: seq<Block>, lo: int, hi: int, k: nat, ps: seq<Block>)
    requires WellFormed(bs, lo, hi) && k < |bs| && WellFormed(ps, bs[k].addr, bs[k].End())
    ensures WellFormed(bs[..k] + ps + bs[k + 1..], lo, hi)
  {
  }

  // ----- Free -----

  /** Index, from `k` on, of the first block at or above `a`. */
  function PlaceIndex(bs: seq<Block>, k: nat, a: int): (r: nat)
    requires k <= |bs|
    ensures k <= r <= |bs|
    ensures forall i | k <= i < r :: bs[i].addr < a
    ensures r < |bs| ==> bs[r].addr >= a
    decreases |bs| - k
  {
    if k == |bs| || bs[k].addr >= a then k else PlaceIndex(bs, k + 1, a)
  }

  predicate JoinsUpper(bs: seq<Block>, k: nat, a: int, n: int) {
    k < |bs| && a + n == bs[k].addr
  }

  predicate JoinsLower(bs: seq<Block>, k: nat, a: int)
    requires k <= |bs|
  {
    k > 0 && bs[k - 1].End() == a
  }

  /** Insert `n` bytes at `a` before block `k`, joining the neighbours they touch. */
  function InsertAt(bs: seq<Block>, k: nat, a: int, n: int): seq<Block>
    requires k <= |bs|
  {
    var i := if JoinsLower(bs, k, a) then k - 1 else k;
    var j := if JoinsUpper(bs, k, a, n) then k + 1 else k;
    var start := if i < k then bs[i].addr else a;
    var end := if k < j then bs[k].End() else a + n;
    bs[..i] + [Block(start, end - start)] + bs[j..]
  }

  /** The free list after `n` bytes at `a` are freed. */
  function FreeList(bs: seq<Block>, a: int, n: int): seq<Block> {
    InsertAt(bs, PlaceIndex(bs, 0, a), a, n)
  }

  /** Freeing keeps the list well formed and adds exactly the freed range to it. */
  lemma FreeListAddsRange(bs: seq<Block>, lo: int, hi: int, a: int, n: int)
    requires WellFormed(bs, lo, hi) && GoodBlock(Block(a, n), lo, hi) && Range(a, n) !! Bytes(bs)
    ensures WellFormed(FreeList(bs, a, n), lo, hi)
    ensures Bytes(FreeList(bs, a, n)) == Bytes(bs) + Range(a, n)
  {
    var k := PlaceIndex(bs, 0, a);
    NeighboursClear(bs, lo, hi, k, a, n);
    InsertKeepsOrder(bs, lo, hi, k, a, n);
    forall x
      ensures Covers(FreeList(bs, a, n), x) <==> Covers(bs, x) || InRange(a, n, x)
    {
      InsertCovers(bs, k, a, n, x);
    }
  }

  lemma InsertKeepsOrder(bs: seq<Block>, lo: int, hi: int, k: nat, a: int, n: int)
    requires WellFormed(bs, lo, hi) && GoodBlock(Block(a, n), lo, hi) && k <= |bs|
    requires k > 0 ==> bs[k - 1].End() <= a
    requires k < |bs| ==> a + n <= bs[k].addr
    ensures WellFormed(InsertAt(bs, k, a, n), lo, hi)
  {
    var i, j, b := JoinedBlock(bs, lo, hi, k, a, n);
    InsertIsSplice(bs, k, a, n, i, j, b);
    SpliceOne(bs, lo, hi, i, j, b);
  }

  /** The block that results from the joins is a good one and takes the place of blocks `i` to `j`. */
  lemma JoinedBlock(bs: seq<Block>, lo: int, hi: int, k: nat, a: int, n: int) returns (i: nat, j: nat, b: Block)
    requires WellFormed(bs, lo, hi) && GoodBlock(Block(a, n), lo, hi) && k <= |bs|
    requires k > 0 ==> bs[k - 1].End() <= a
    requires k < |bs| ==> a + n <= bs[k].addr
    ensures i == (if JoinsLower(bs, k, a) then k - 1 else k)
    ensures j == (if JoinsUpper(bs, k, a, n) then k + 1 else k)
    ensures GoodBlock(b, lo, hi)
    ensures b.addr == (if i < k then bs[i].addr else a) && b.End() == (if k < j then bs[k].End() else a + n)
    ensures i > 0 ==> bs[i - 1].End() < b.addr
    ensures j < |bs| ==> b.End() < bs[j].addr
  {
    i, j := if JoinsLower(bs, k, a) then k - 1 else k, if JoinsUpper(bs, k, a, n) then k + 1 else k;
    b := Block(a, n);
    if k < j {
      JoinedGood(b, bs[k], lo, hi);
      b := Block(a, n + bs[k].size);
    }
    if i < k {
      JoinedGood(bs[i], b, lo, hi);
      b := Block(bs[i].addr, bs[i].size + b.size);
    }
  }

  lemma InsertIsSplice(bs: seq<Block>, k: nat, a: int, n: int, i: nat, j: nat, b: Block)
    requires k <= |bs| && i == (if JoinsLower(bs, k, a) then k - 1 else k)
    requires j == (if JoinsUpper(bs, k, a, n) then k + 1 else k)
    requires b.addr == (if i < k then bs[i].addr else a) && b.End() == (if k < j then bs[k].End() else a + n)
    ensures InsertAt(bs, k, a, n) == bs[..i] + [b] + bs[j..]
  {
  }

  lemma JoinedGood(b: Block, c: Block, lo: int, hi: int)
    requires GoodBlock(b, lo, hi) && GoodBlock(c, lo, hi) && b.End() == c.addr
    ensures GoodBlock(Block(b.addr, b.size + c.size), lo, hi)
  {
  }

  lemma SpliceOne(bs: seq<Block>, lo: int, hi: int, i: nat, j: nat, b: Block)
    requires WellFormed(bs, lo, hi) && i <= j <= |bs| && GoodBlock(b, lo, hi)
    requires i > 0 ==> bs[i - 1].End() < b.addr
    requires j < |bs| ==> b.End() < bs[j].addr
    ensures WellFormed(bs[..i] + [b] + bs[j..], lo, hi)
  {
    assert forall m | 0 <= m < i :: bs[m].End() < b.addr;
    assert forall m | j <= m < |bs| :: b.End() < bs[m].addr;
  }

  lemma InsertCovers(bs: seq<Block>, k: nat, a: int, n: int, x: int)
    requires k <= |bs| && n > 0 && forall m | 0 <= m < |bs| :: bs[m].size > 0
    ensures Covers(InsertAt(bs, k, a, n), x) <==> Covers(bs, x) || InRange(a, n, x)
  {
    var i := if JoinsLower(bs, k, a) then k - 1 else k;
    var j := if JoinsUpper(bs, k, a, n) then k + 1 else k;
    var start := if i < k then bs[i].addr else a;
    var end := if k < j then bs[k].End() else a + n;
    var mid := [Block(start, end - start)];
    CoversSplit(bs, i, j, x);
    CoversParts(bs[..i], mid, bs[j..], x);
    assert Covers(mid, x) <==> Holds(mid[0], x);
    JoinedCover(bs, k, a, n, i, j, x);
  }

  lemma NeighboursClear(bs: seq<Block>, lo: int, hi: int, k: nat, a: int, n: int)
    requires WellFormed(bs, lo, hi) && n > 0 && Range(a, n) !! Bytes(bs)
    requires k == PlaceIndex(bs, 0, a)
    ensures k > 0 ==> bs[k - 1].End() <= a
    ensures k < |bs| ==> a + n <= bs[k].addr
  {
    assert a in Range(a, n);
    assert k > 0 ==> !Holds(bs[k - 1], a);
    if k < |bs| {
      assert Holds(bs[k], bs[k].addr);
      assert bs[k].addr !in Range(a, n);
    }
  }

  lemma JoinedCover(bs: seq<Block>, k: nat, a: int, n: int, i: nat, j: nat, x: int)
    requires k <= |bs| && n > 0 && forall m | 0 <= m < |bs| :: bs[m].size > 0
    requires i == (if JoinsLower(bs, k, a) then k - 1 else k)
    requires j == (if JoinsUpper(bs, k, a, n) then k + 1 else k)
    ensures (if i < k then bs[i].addr else a) <= x < (if k < j then bs[k].End() else a + n)
       <==> Covers(bs[i..j], x) || x in Range(a, n)
  {
    var m := bs[i..j];
    assert i < k ==> m[0] == bs[i];
    assert k < j ==> m[k - i] == bs[k];
    assert forall h | 0 <= h < |m| :: m[h] == bs[i + h];
  }

  // ----- The free list as a function of the live blocks -----

  ghost predicate LiveByte(live: set<Block>, x: int) {
    exists b | b in live :: Holds(b, x)
  }

  ghost function LiveBytes(live: set<Block>): iset<int> { iset x | LiveByte(live, x) }

  ghost predicate Apart(b: Block, c: Block) {
    b.End() <= c.addr || c.End() <= b.addr
  }

  ghost predicate DisjointBlocks(live: set<Block>, lo: int, hi: int) {
    && (forall b | b in live :: GoodBlock(b, lo, hi))
    && (forall b, c | b in live && c in live && b != c :: Apart(b, c))
  }

  /** The reachable heap states: the free list covers exactly the heap minus its live blocks. */
  ghost predicate Tiled(free: seq<Block>, live: set<Block>, lo: int, hi: int) {
    && WellFormed(free, lo, hi)
    && DisjointBlocks(live, lo, hi)
    && Bytes(free) == Range(lo, hi - lo) - LiveBytes(live)
  }

  lemma LiveDeterminesFreeList(f: seq<Block>, g: seq<Block>, live: set<Block>, lo: int, hi: int)
    requires Tiled(f, live, lo, hi) && Tiled(g, live, lo, hi)
    ensures f == g
  {
    BytesDetermineList(f, g, lo, hi);
  }

  lemma NothingLiveIsOneBlock(free: seq<Block>, lo: int, hi: int)
    requires Tiled(free, {}, lo, hi) && lo < hi && lo % PAGE_SIZE == 0 && hi % PAGE_SIZE == 0
    ensures free == [Block(lo, hi - lo)]
  {
    InitialHeapTiled(lo, hi);
    LiveDeterminesFreeList(free, [Block(lo, hi - lo)], {}, lo, hi);
  }

  lemma InitialHeapTiled(lo: int, hi: int)
    requires lo < hi && lo % PAGE_SIZE == 0 && hi % PAGE_SIZE == 0
    ensures Tiled([Block(lo, hi - lo)], {}, lo, hi)
  {
    var whole := [Block(lo, hi - lo)];
    forall x
      ensures x in Bytes(whole) <==> x in Range(lo, hi - lo)
    {
      assert Covers(whole, x) <==> Holds(whole[0], x);
    }
  }

  lemma AllocKeepsTiled(free: seq<Block>, live: set<Block>, lo: nat, hi: int, n: nat, align: nat)
    requires Tiled(free, live, lo, hi) && n > 0 && n % PAGE_SIZE == 0 && 0 < lo && hi <= WORD && PagedAlign(align)
    requires AllocAddr(free, n, align) != NULL && SumFits(free, n, align)
    ensures var b := Block(AllocAddr(free, n, align), n);
            && b !in live
            && Tiled(AllocList(free, n, align), live + {b}, lo, hi)
  {
    var b := Block(AllocAddr(free, n, align), n);
    AllocListTakesRange(free, lo, hi, n, align);
    assert forall x :: Holds(b, x) <==> x in Range(b.addr, n);
    FreeRangeIsApart(free, live, lo, hi, b);
    forall x
      ensures LiveByte(live + {b}, x) <==> LiveByte(live, x) || Holds(b, x)
    {
      LiveByteUnion(live, b, x);
    }
  }

  lemma LiveByteUnion(live: set<Block>, b: Block, x: int)
    ensures LiveByte(live + {b}, x) <==> LiveByte(live, x) || Holds(b, x)
  {
    if Holds(b, x) {
      assert b in live + {b};
    }
    if LiveByte(live, x) {
      var c :| c in live && Holds(c, x);
      assert c in live + {b};
    }
  }

  /** When the sum wraps around at the chosen block, the list no longer is the heap less its live blocks. */
  lemma WrapBreaksTiling(free: seq<Block>, live: set<Block>, lo: nat, hi: int, n: nat, align: nat, live': set<Block>)
    requires Tiled(free, live, lo, hi) && live <= live' && n < WORD && align > 0 && !SumFits(free, n, align)
    ensures !Tiled(AllocList(free, n, align), live', lo, hi)
  {
    var k := FitIndex(free, 0, n, align);
    var b, off, list := free[k], Offset(free[k].addr, align), AllocList(free, n, align);
    var t := AddWord(n, off);
    assert list[k] == Block(b.addr, off);
    if t < b.size {
      assert list[k + 1] == Block(b.addr + t, b.size - t);
    } else {
      EndNotCovered(free, lo, hi, k);
      assert Holds(list[k], b.End());
      assert Covers(list, b.End());
      if WellFormed(list, lo, hi) {
        assert b.End() in Range(lo, hi - lo);
        assert b.End() !in Bytes(free);
        assert LiveByte(live, b.End());
        var c :| c in live && Holds(c, b.End());
        assert LiveByte(live', b.End());
        assert b.End() in Bytes(list) && b.End() in LiveBytes(live');
      }
    }
  }

  lemma FreeRangeIsApart(free: seq<Block>, live: set<Block>, lo: int, hi: int, b: Block)
    requires Tiled(free, live, lo, hi) && b.size > 0 && Range(b.addr, b.size) <= Bytes(free)
    ensures b.End() <= hi && lo <= b.addr
    ensures forall c | c in live :: Apart(b, c) && b != c
  {
    var i := RunInOneBlock(free, lo, hi, b.addr, b.size);
    forall c | c in live
      ensures Apart(b, c) && b != c
    {
      var x := if b.addr < c.addr then c.addr else b.addr;
      assert Holds(c, x) ==> LiveByte(live, x);
      assert x in Range(b.addr, b.size) ==> x in Bytes(free);
    }
  }

  lemma FreeKeepsTiled(free: seq<Block>, live: set<Block>, lo: int, hi: int, b: Block)
    requires Tiled(free, live, lo, hi) && b in live
    ensures Range(b.addr, b.size) !! Bytes(free)
    ensures Tiled(FreeList(free, b.addr, b.size), live - {b}, lo, hi)
  {
    forall x
      ensures x in Range(b.addr, b.size) <==> Holds(b, x)
      ensures Holds(b, x) ==> LiveByte(live, x) && x in Range(lo, hi - lo)
      ensures LiveByte(live - {b}, x) <==> LiveByte(live, x) && !Holds(b, x)
    {
      LiveByteMinus(live, lo, hi, b, x);
    }
    FreeListAddsRange(free, lo, hi, b.addr, b.size);
  }

  lemma LiveByteMinus(live: set<Block>, lo: int, hi: int, b: Block, x: int)
    requires DisjointBlocks(live, lo, hi) && b in live
    ensures LiveByte(live - {b}, x) <==> LiveByte(live, x) && !Holds(b, x)
  {
    if LiveByte(live, x) && !Holds(b, x) {
      var c :| c in live && Holds(c, x);
      assert c in live - {b};
    }
  }

  /** Allocating and then freeing the same block gives back the identical free list. */
  lemma AllocFreeRoundTrip(free: seq<Block>, lo: nat, hi: int, n: nat, align: nat)
    requires WellFormed(free, lo, hi) && n > 0 && n % PAGE_SIZE == 0 && 0 < lo && hi <= WORD && PagedAlign(align)
    requires AllocAddr(free, n, align) != NULL && SumFits(free, n, align)
    ensures FreeList(AllocList(free, n, align), AllocAddr(free, n, align), n) == free
  {
    var a := AllocAddr(free, n, align);
    var rest := AllocList(free, n, align);
    AllocListTakesRange(free, lo, hi, n, align);
    var i := RunInOneBlock(free, lo, hi, a, n);
    FreeListAddsRange(rest, lo, hi, a, n);
    assert Bytes(FreeList(rest, a, n)) == Bytes(free);
    BytesDetermineList(FreeList(rest, a, n), free, lo, hi);
  }

  /** Free the given blocks one after the other. */
  function FreeAll(free: seq<Block>, order: seq<Block>): seq<Block>
    decreases |order|
  {
    if order == [] then free else FreeAll(FreeList(free, order[0].addr, order[0].size), order[1..])
  }

  ghost function Elements<T>(s: seq<T>): set<T> { set x | x in s }

  lemma {:induction false} FreeAllKeepsTiled(free: seq<Block>, live: set<Block>, lo: int, hi: int, order: seq<Block>)
    requires Tiled(free, live, lo, hi) && Distinct(order) && (forall b | b in order :: b in live)
    ensures Tiled(FreeAll(free, order), live - Elements(order), lo, hi)
    decreases |order|
  {
    if order == [] {
      assert live - Elements(order) == live;
    } else {
      FreeKeepsTiled(free, live, lo, hi, order[0]);
      FreeAllKeepsTiled(FreeList(free, order[0].addr, order[0].size), live - {order[0]}, lo, hi, order[1..]);
      assert live - {order[0]} - Elements(order[1..]) == live - Elements(order) by {
        assert order == [order[0]] + order[1..];
      }
    }
  }

  /** The order in which live blocks are freed leaves no trace in the free list. */
  lemma FreeOrderIrrelevant(free: seq<Block>, live: set<Block>, lo: int, hi: int, xs: seq<Block>, ys: seq<Block>)
    requires Tiled(free, live, lo, hi) && Distinct(xs) && Distinct(ys)
    requires (forall b | b in xs :: b in live) && Elements(xs) == Elements(ys)
    ensures FreeAll(free, xs) == FreeAll(free, ys)
  {
    forall b | b in ys
      ensures b in live
    {
      assert b in Elements(ys);
      assert b in Elements(xs);
    }
    FreeAllKeepsTiled(free, live, lo, hi, xs);
    FreeAllKeepsTiled(free, live, lo, hi, ys);
    LiveDeterminesFreeList(FreeAll(free, xs), FreeAll(free, ys), live - Elements(xs), lo, hi);
  }

  /** Freeing every live block, in any order, restores the single initial block. */
  lemma FreeEverythingRestoresHeap(free: seq<Block>, live: set<Block>, lo: int, hi: int, order: seq<Block>)
    requires Tiled(free, live, lo, hi) && lo < hi && lo % PAGE_SIZE == 0 && hi % PAGE_SIZE == 0
    requires Distinct(order) && Elements(order) == live
    ensures FreeAll(free, order) == [Block(lo, hi - lo)]
  {
    assert forall b | b in order :: b in Elements(order);
    FreeAllKeepsTiled(free, live, lo, hi, order);
    assert live - Elements(order) == {};
    NothingLiveIsOneBlock(FreeAll(free, order), lo, hi);
  }
}
