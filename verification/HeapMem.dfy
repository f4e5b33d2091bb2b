/**
 The heap proper: a singly linked free list whose headers live inside the free memory they describe.
 Memory is a map from addresses to header cells; the list head is a cell outside every heap.
 */
module HeapMem {
  import opened Bits
  import opened HeapBlocks

  datatype Header = Header(next: int, size: int)

  /** Stands for the address of the statically allocated list head. */
  const HEAD: int := -1

  /** Address of the `i`-th node of the list, counting the head as node 0. */
  function NodeAt(bs: seq<Block>, i: nat): int
    requires i <= |bs|
  {
    if i == 0 then HEAD else bs[i - 1].addr
  }

  function NextOf(bs: seq<Block>, i: nat): int
    requires i <= |bs|
  {
    if i < |bs| then bs[i].addr else NULL
  }

  ghost predicate NodeOk(mem: map<int, Header>, bs: seq<Block>, i: nat)
    requires i <= |bs|
  {
    var p := NodeAt(bs, i);
    p in mem && mem[p].next == NextOf(bs, i) && (i > 0 ==> mem[p].size == bs[i - 1].size)
  }

  /** The chain of headers in memory spells out exactly this list of blocks. */
  ghost predicate Linked(mem: map<int, Header>, bs: seq<Block>) {
    forall i | 0 <= i <= |bs| :: NodeOk(mem, bs, i)
  }

  /** Two memories agree on every cell outside the list head and the given bytes. */
  ghost predicate SameOutside(m: map<int, Header>, m': map<int, Header>, touched: iset<int>) {
    forall a | a != HEAD && a !in touched :: (a in m <==> a in m') && (a in m ==> m[a] == m'[a])
  }

  /** Whatever the owners of live buffers write there, the free list stays as it is. */
  lemma LiveWritesAreHarmless(m: map<int, Header>, m': map<int, Header>, bs: seq<Block>, lo: nat, hi: int,
                              written: iset<int>)
    requires Linked(m, bs) && WellFormed(bs, lo, hi) && written !! Bytes(bs)
    requires SameOutside(m, m', written) && HEAD in m && HEAD in m' && m[HEAD] == m'[HEAD]
    ensures Linked(m', bs)
  {
    forall i | 0 <= i <= |bs|
      ensures NodeOk(m', bs, i)
    {
      assert NodeOk(m, bs, i);
      assert i > 0 ==> Holds(bs[i - 1], bs[i - 1].addr);
    }
  }

  /** Memory after the fitting block `b`, whose predecessor is `prev`, is split. */
  function CarveMem(m: map<int, Header>, prev: int, b: Block, next: int, off: int, n: int): map<int, Header>
    requires prev in m
  {
    var remain, rest := b.size - n - off, b.addr + off + n;
    if off != 0 then
      var m1 := m[b.addr := Header(next, off)];
      if remain == 0 then m1 else
      var m2 := m1[rest := Header(next, remain)];
      m2[b.addr := Header(rest, m2[b.addr].size)]
    else if remain != 0 then m[rest := Header(next, remain)][prev := Header(rest, m[prev].size)]
    else m[prev := Header(next, m[prev].size)]
  }

  /** The bytes taken end inside the block, and not at its start, where a header remains. */
  ghost predicate Carvable(b: Block, off: nat, n: int) {
    0 <= off + n <= b.size && (off == 0 || off + n > 0)
  }

  lemma CarveStaysLinked(m: map<int, Header>, bs: seq<Block>, lo: nat, hi: int, k: nat, off: nat, n: int)
    requires Linked(m, bs) && WellFormed(bs, lo, hi) && k < |bs| && Carvable(bs[k], off, n)
    requires NodeOk(m, bs, k)
    ensures Linked(CarveMem(m, NodeAt(bs, k), bs[k], NextOf(bs, k + 1), off, n), Carve(bs, k, off, n))
  {
    var m', cs := CarveMem(m, NodeAt(bs, k), bs[k], NextOf(bs, k + 1), off, n), Carve(bs, k, off, n);
    forall i | 0 <= i <= |cs|
      ensures NodeOk(m', cs, i)
    {
      if i <= k {
        NodeBeforeCarve(m, bs, lo, hi, k, off, n, i);
      } else if i <= k + |Pieces(bs[k], off, n)| {
        NodeOfCarve(m, bs, lo, hi, k, off, n, i);
      } else {
        NodeAfterCarve(m, bs, lo, hi, k, off, n, i);
      }
    }
  }

  lemma NodeBeforeCarve(m: map<int, Header>, bs: seq<Block>, lo: nat, hi: int, k: nat, off: nat, n: int, i: nat)
    requires Linked(m, bs) && WellFormed(bs, lo, hi) && k < |bs| && Carvable(bs[k], off, n)
    requires NodeOk(m, bs, k) && i <= k
    ensures NodeOk(CarveMem(m, NodeAt(bs, k), bs[k], NextOf(bs, k + 1), off, n), Carve(bs, k, off, n), i)
  {
    var ps, cs := Pieces(bs[k], off, n), Carve(bs, k, off, n);
    assert NodeOk(m, bs, i);
    assert NodeAt(cs, i) == NodeAt(bs, i);
    assert i == k ==> NextOf(cs, i) == if |ps| > 0 then ps[0].addr else NextOf(bs, k + 1);
  }

  lemma NodeOfCarve(m: map<int, Header>, bs: seq<Block>, lo: nat, hi: int, k: nat, off: nat, n: int, i: nat)
    requires Linked(m, bs) && WellFormed(bs, lo, hi) && k < |bs| && Carvable(bs[k], off, n)
    requires NodeOk(m, bs, k) && k < i <= k + |Pieces(bs[k], off, n)|
    ensures NodeOk(CarveMem(m, NodeAt(bs, k), bs[k], NextOf(bs, k + 1), off, n), Carve(bs, k, off, n), i)
  {
    var ps, cs := Pieces(bs[k], off, n), Carve(bs, k, off, n);
    assert cs[i - 1] == ps[i - 1 - k];
    assert NextOf(cs, i) == if i - k < |ps| then ps[i - k].addr else NextOf(bs, k + 1);
  }

  lemma NodeAfterCarve(m: map<int, Header>, bs: seq<Block>, lo: nat, hi: int, k: nat, off: nat, n: int, i: nat)
    requires Linked(m, bs) && WellFormed(bs, lo, hi) && k < |bs| && Carvable(bs[k], off, n)
    requires NodeOk(m, bs, k) && k + |Pieces(bs[k], off, n)| < i <= |Carve(bs, k, off, n)|
    ensures NodeOk(CarveMem(m, NodeAt(bs, k), bs[k], NextOf(bs, k + 1), off, n), Carve(bs, k, off, n), i)
  {
    var ps, cs := Pieces(bs[k], off, n), Carve(bs, k, off, n);
    var j := i - |ps| + 1;
    assert NodeOk(m, bs, j);
    assert NodeAt(cs, i) == NodeAt(bs, j) && NextOf(cs, i) == NextOf(bs, j);
  }

  lemma CarveWritesFreeBytes(m: map<int, Header>, bs: seq<Block>, lo: nat, hi: int, k: nat, off: nat, n: int)
    requires WellFormed(bs, lo, hi) && k < |bs| && Carvable(bs[k], off, n) && NodeAt(bs, k) in m
    ensures SameOutside(m, CarveMem(m, NodeAt(bs, k), bs[k], NextOf(bs, k + 1), off, n), Bytes(Carve(bs, k, off, n)))
  {
    CarveCoversPieces(bs, k, off, n);
    if k > 0 {
      CarveCoversFront(bs, lo, hi, k, off, n);
    }
  }

  lemma CarveCoversPieces(bs: seq<Block>, k: nat, off: nat, n: int)
    requires k < |bs| && Carvable(bs[k], off, n)
    ensures off != 0 ==> bs[k].addr in Bytes(Carve(bs, k, off, n))
    ensures bs[k].size - n - off != 0 ==> bs[k].addr + off + n in Bytes(Carve(bs, k, off, n))
  {
    var ps := Pieces(bs[k], off, n);
    CoversParts(bs[..k], ps, bs[k + 1..], bs[k].addr);
    CoversParts(bs[..k], ps, bs[k + 1..], bs[k].addr + off + n);
    assert off != 0 ==> Holds(ps[0], bs[k].addr);
    assert bs[k].size - n - off != 0 ==> Holds(ps[|ps| - 1], bs[k].addr + off + n);
  }

  lemma CarveCoversFront(bs: seq<Block>, lo: nat, hi: int, k: nat, off: nat, n: int)
    requires WellFormed(bs, lo, hi) && 0 < k < |bs|
    ensures bs[k - 1].addr in Bytes(Carve(bs, k, off, n))
  {
    CoversParts(bs[..k], Pieces(bs[k], off, n), bs[k + 1..], bs[k - 1].addr);
    assert Holds(bs[..k][k - 1], bs[k - 1].addr);
  }

  lemma SplitIsSound(m: map<int, Header>, bs: seq<Block>, lo: nat, hi: int, k: nat, off: nat, n: int)
    requires Linked(m, bs) && WellFormed(bs, lo, hi) && k < |bs| && Carvable(bs[k], off, n)
    ensures var p, b := NodeAt(bs, k), bs[k];
            p in m && b.addr in m && p < b.addr && m[b.addr] == Header(NextOf(bs, k + 1), b.size)
    ensures var m' := CarveMem(m, NodeAt(bs, k), bs[k], NextOf(bs, k + 1), off, n);
            Linked(m', Carve(bs, k, off, n)) && SameOutside(m, m', Bytes(Carve(bs, k, off, n)))
  {
    assert NodeOk(m, bs, k) && NodeOk(m, bs, k + 1);
    CarveStaysLinked(m, bs, lo, hi, k, off, n);
    CarveWritesFreeBytes(m, bs, lo, hi, k, off, n);
  }

  /** Memory after `n` bytes at `a` are linked in between `prev` and `next`, before any join. */
  function LinkMem(m: map<int, Header>, prev: int, a: int, next: int, n: int): map<int, Header>
    requires prev in m
  {
    m[a := Header(next, n)][prev := Header(a, m[prev].size)]
  }

  /** Memory after the joins that follow. */
  function JoinMem(m: map<int, Header>, prev: int, a: int, next: int): map<int, Header>
    requires prev in m && a in m && (next != NULL ==> next in m)
  {
    var m1 := if next != NULL && a + m[a].size == next
              then m[a := Header(m[next].next, m[a].size + m[next].size)] else m;
    if prev != HEAD && prev + m1[prev].size == a
    then m1[prev := Header(m1[a].next, m1[prev].size + m1[a].size)] else m1
  }

  function InsertMem(m: map<int, Header>, prev: int, a: int, next: int, n: int): map<int, Header>
    requires prev in m && (next != NULL ==> next in m)
  {
    JoinMem(LinkMem(m, prev, a, next, n), prev, a, next)
  }

  /** The new block lies between block `k - 1` and block `k`. */
  ghost predicate Between(bs: seq<Block>, lo: nat, hi: int, k: nat, a: int, n: int) {
    && WellFormed(bs, lo, hi) && GoodBlock(Block(a, n), lo, hi) && k <= |bs| && lo > 0
    && (k > 0 ==> bs[k - 1].End() <= a)
    && (k < |bs| ==> a + n <= bs[k].addr)
  }

  lemma InsertStaysLinked(m: map<int, Header>, bs: seq<Block>, lo: nat, hi: int, k: nat, a: int, n: int)
    requires Linked(m, bs) && Between(bs, lo, hi, k, a, n)
    requires NodeOk(m, bs, k) && (k < |bs| ==> NodeOk(m, bs, k + 1))
    ensures Linked(InsertMem(m, NodeAt(bs, k), a, NextOf(bs, k), n), InsertAt(bs, k, a, n))
  {
    var i0 := if JoinsLower(bs, k, a) then k - 1 else k;
    var m', cs := InsertMem(m, NodeAt(bs, k), a, NextOf(bs, k), n), InsertAt(bs, k, a, n);
    forall i | 0 <= i <= |cs|
      ensures NodeOk(m', cs, i)
    {
      if i <= i0 {
        NodeBeforeInsert(m, bs, lo, hi, k, a, n, i);
      } else if i == i0 + 1 {
        NodeOfInsert(m, bs, lo, hi, k, a, n, i);
      } else {
        NodeAfterInsert(m, bs, lo, hi, k, a, n, i);
      }
    }
  }

  lemma NodeBeforeInsert(m: map<int, Header>, bs: seq<Block>, lo: nat, hi: int, k: nat, a: int, n: int, i: nat)
    requires Linked(m, bs) && Between(bs, lo, hi, k, a, n)
    requires NodeOk(m, bs, k) && (k < |bs| ==> NodeOk(m, bs, k + 1))
    requires i <= if JoinsLower(bs, k, a) then k - 1 else k
    ensures NodeOk(InsertMem(m, NodeAt(bs, k), a, NextOf(bs, k), n), InsertAt(bs, k, a, n), i)
  {
    var cs := InsertAt(bs, k, a, n);
    assert NodeOk(m, bs, i);
    assert NodeAt(cs, i) == NodeAt(bs, i);
    assert NextOf(cs, i) == if i == k then a else NextOf(bs, i);
  }

  lemma NodeOfInsert(m: map<int, Header>, bs: seq<Block>, lo: nat, hi: int, k: nat, a: int, n: int, i: nat)
    requires Linked(m, bs) && Between(bs, lo, hi, k, a, n)
    requires NodeOk(m, bs, k) && (k < |bs| ==> NodeOk(m, bs, k + 1))
    requires i == 1 + if JoinsLower(bs, k, a) then k - 1 else k
    ensures NodeOk(InsertMem(m, NodeAt(bs, k), a, NextOf(bs, k), n), InsertAt(bs, k, a, n), i)
  {
    var cs := InsertAt(bs, k, a, n);
    assert NextOf(cs, i) == NextOf(bs, if JoinsUpper(bs, k, a, n) then k + 1 else k);
  }

  lemma NodeAfterInsert(m: map<int, Header>, bs: seq<Block>, lo: nat, hi: int, k: nat, a: int, n: int, i: nat)
    requires Linked(m, bs) && Between(bs, lo, hi, k, a, n)
    requires NodeOk(m, bs, k) && (k < |bs| ==> NodeOk(m, bs, k + 1))
    requires 1 + (if JoinsLower(bs, k, a) then k - 1 else k) < i <= |InsertAt(bs, k, a, n)|
    ensures NodeOk(InsertMem(m, NodeAt(bs, k), a, NextOf(bs, k), n), InsertAt(bs, k, a, n), i)
  {
    var cs := InsertAt(bs, k, a, n);
    var i0 := if JoinsLower(bs, k, a) then k - 1 else k;
    var j0 := if JoinsUpper(bs, k, a, n) then k + 1 else k;
    var j := j0 + i - i0 - 1;
    assert NodeOk(m, bs, j);
    InsertTail(bs, k, a, n, i, j);
    assert j0 <= j - 1 && bs[j0].addr <= bs[j - 1].addr;
    assert a < bs[j0].addr && NodeAt(bs, k) < a;
    InsertKeepsCell(m, NodeAt(bs, k), a, NextOf(bs, k), n, bs[j - 1].addr);
  }

  lemma InsertTail(bs: seq<Block>, k: nat, a: int, n: int, i: nat, j: nat)
    requires k <= |bs| && i <= |InsertAt(bs, k, a, n)|
    requires 1 + (if JoinsLower(bs, k, a) then k - 1 else k) < i
    requires j == (if JoinsUpper(bs, k, a, n) then k + 1 else k) + i - (if JoinsLower(bs, k, a) then k - 1 else k) - 1
    ensures 0 < j <= |bs| && InsertAt(bs, k, a, n)[i - 1] == bs[j - 1]
    ensures NodeAt(InsertAt(bs, k, a, n), i) == NodeAt(bs, j) && NextOf(InsertAt(bs, k, a, n), i) == NextOf(bs, j)
    ensures |InsertAt(bs, k, a, n)| - i == |bs| - j
  {
  }

  lemma InsertKeepsCell(m: map<int, Header>, prev: int, a: int, next: int, n: int, p: int)
    requires prev in m && (next != NULL ==> next in m) && p in m && p != prev && p != a
    ensures var m' := InsertMem(m, prev, a, next, n); p in m' && m'[p] == m[p]
  {
  }

  lemma InsertWritesFreeBytes(m: map<int, Header>, bs: seq<Block>, lo: nat, hi: int, k: nat, a: int, n: int)
    requires Between(bs, lo, hi, k, a, n) && NodeAt(bs, k) in m && (k < |bs| ==> bs[k].addr in m)
    ensures SameOutside(m, InsertMem(m, NodeAt(bs, k), a, NextOf(bs, k), n), Bytes(InsertAt(bs, k, a, n)))
  {
    InsertCoversStarts(bs, lo, hi, k, a, n);
  }

  lemma InsertCoversStarts(bs: seq<Block>, lo: nat, hi: int, k: nat, a: int, n: int)
    requires Between(bs, lo, hi, k, a, n)
    ensures a in Bytes(InsertAt(bs, k, a, n))
    ensures k > 0 ==> bs[k - 1].addr in Bytes(InsertAt(bs, k, a, n))
  {
    InsertCovers(bs, k, a, n, a);
    if k > 0 {
      InsertCovers(bs, k, a, n, bs[k - 1].addr);
      assert Holds(bs[k - 1], bs[k - 1].addr);
    }
  }

  lemma FreeIsSound(m: map<int, Header>, bs: seq<Block>, lo: nat, hi: int, k: nat, a: int, n: int)
    requires Linked(m, bs) && WellFormed(bs, lo, hi) && lo > 0 && k == PlaceIndex(bs, 0, a)
    requires GoodBlock(Block(a, n), lo, hi) && Range(a, n) !! Bytes(bs)
    ensures NodeAt(bs, k) in m && (k < |bs| ==> NextOf(bs, k) in m) && NodeAt(bs, k) != a
    ensures WellFormed(FreeList(bs, a, n), lo, hi)
    ensures var m' := InsertMem(m, NodeAt(bs, k), a, NextOf(bs, k), n);
            Linked(m', FreeList(bs, a, n)) && SameOutside(m, m', Bytes(FreeList(bs, a, n)))
  {
    assert NodeOk(m, bs, k) && (k < |bs| ==> NodeOk(m, bs, k + 1));
    NeighboursClear(bs, lo, hi, k, a, n);
    FreeListAddsRange(bs, lo, hi, a, n);
    InsertStaysLinked(m, bs, lo, hi, k, a, n);
    InsertWritesFreeBytes(m, bs, lo, hi, k, a, n);
  }

  // ----- Chains that never end -----

  /** The chain follows the first `k` blocks of `bs` and then stays at `a` for ever. */
  ghost predicate Loops(m: map<int, Header>, bs: seq<Block>, k: nat, a: int) {
    && k <= |bs| && a != NULL && a in m && m[a].next == a
    && (forall i | 0 <= i < k :: bs[i].addr != NULL)
    && (forall i | 0 <= i <= k :: NodeAt(bs, i) in m && m[NodeAt(bs, i)].next == if i < k then bs[i].addr else a)
  }

  lemma {:induction false} ChainFollows(m: map<int, Header>, bs: seq<Block>, k: nat, a: int, cs: seq<Block>, i: nat)
    requires Loops(m, bs, k, a) && Linked(m, cs) && i <= |cs|
    ensures NodeAt(cs, i) == if i <= k then NodeAt(bs, i) else a
  {
    if i > 0 {
      ChainFollows(m, bs, k, a, cs, i - 1);
      assert NodeOk(m, cs, i - 1);
    }
  }

  /** The chain of headers spells no list at all: it never ends. */
  ghost predicate Endless(m: map<int, Header>) {
    forall cs :: !Linked(m, cs)
  }

  /** Such a chain is no list at all: a walk along it does not end. */
  lemma LoopIsNoList(m: map<int, Header>, bs: seq<Block>, k: nat, a: int)
    requires Loops(m, bs, k, a)
    ensures Endless(m)
  {
    forall cs
      ensures !Linked(m, cs)
    {
      if Linked(m, cs) {
        assert NodeOk(m, cs, |cs|);
        ChainFollows(m, bs, k, a, cs, |cs|);
        assert false;
      }
    }
  }

  /**
   Freeing no bytes at the start of a free block makes the block's header point to itself with a size of zero:
   the block is lost, and no walk along the list ends any more.
   */
  lemma EmptyFreeLoops(m: map<int, Header>, bs: seq<Block>, lo: nat, hi: int, k: nat)
    requires Linked(m, bs) && WellFormed(bs, lo, hi) && lo > 0 && k < |bs|
    ensures PlaceIndex(bs, 0, bs[k].addr) == k && NodeAt(bs, k) in m && bs[k].addr in m
    ensures var a := bs[k].addr;
            var m' := InsertMem(m, NodeAt(bs, k), a, NextOf(bs, k), 0);
            a in m' && m'[a] == Header(a, 0) && Endless(m')
  {
    var a := bs[k].addr;
    assert NodeOk(m, bs, k) && NodeOk(m, bs, k + 1);
    var m' := InsertMem(m, NodeAt(bs, k), a, NextOf(bs, k), 0);
    forall i | 0 <= i <= k
      ensures NodeAt(bs, i) in m' && m'[NodeAt(bs, i)].next == if i < k then bs[i].addr else a
    {
      assert NodeOk(m, bs, i);
      assert i > 0 ==> bs[i - 1].End() < a;
    }
    LoopIsNoList(m', bs, k, a);
  }

  /** Splitting a block so that the rest starts where the block does has the same effect. */
  lemma WrapLoops(m: map<int, Header>, bs: seq<Block>, lo: nat, hi: int, k: nat, off: nat)
    requires Linked(m, bs) && WellFormed(bs, lo, hi) && lo > 0 && k < |bs| && off > 0 && NodeAt(bs, k) in m
    ensures Endless(CarveMem(m, NodeAt(bs, k), bs[k], NextOf(bs, k + 1), off, 0 - off))
  {
    var m' := CarveMem(m, NodeAt(bs, k), bs[k], NextOf(bs, k + 1), off, 0 - off);
    forall i | 0 <= i <= k
      ensures NodeAt(bs, i) in m' && m'[NodeAt(bs, i)].next == if i < k then bs[i].addr else bs[k].addr
    {
      assert NodeOk(m, bs, i);
      assert i > 0 ==> bs[i - 1].End() < bs[k].addr;
    }
    LoopIsNoList(m', bs, k, bs[k].addr);
  }

  /** The sum of size and offset wraps around to zero at the chosen block. */
  ghost predicate WrapsToStart(bs: seq<Block>, n: nat, align: nat)
    requires align > 0 && forall i | 0 <= i < |bs| :: bs[i].addr >= 0
  {
    var k := FitIndex(bs, 0, n, align);
    k < |bs| && n + Offset(bs[k].addr, align) == WORD
  }

  lemma TakeIsSound(m: map<int, Header>, bs: seq<Block>, lo: nat, hi: int, k: nat, off: nat, size: nat)
    requires Linked(m, bs) && WellFormed(bs, lo, hi) && 0 < lo && hi < WORD && k < |bs|
    requires AddWord(size, off) <= bs[k].size && size < WORD && off < WORD
    ensures var p, b := NodeAt(bs, k), bs[k];
            p in m && b.addr in m && p < b.addr && m[b.addr] == Header(NextOf(bs, k + 1), b.size)
    ensures var n := AddWord(size, off) - off;
            var m' := CarveMem(m, NodeAt(bs, k), bs[k], NextOf(bs, k + 1), off, n);
            if off + size == WORD then Endless(m')
            else Linked(m', Carve(bs, k, off, n)) && SameOutside(m, m', Bytes(Carve(bs, k, off, n)))
  {
    assert NodeOk(m, bs, k) && NodeOk(m, bs, k + 1);
    var n := AddWord(size, off) - off;
    if off + size == WORD {
      assert n == 0 - off;
      WrapLoops(m, bs, lo, hi, k, off);
    } else {
      assert Carvable(bs[k], off, n);
      SplitIsSound(m, bs, lo, hi, k, off, n);
    }
  }

  /** A range of the heap of at least one byte that is not free. */
  ghost predicate Freeable(bs: seq<Block>, lo: int, hi: int, b: Block) {
    GoodBlock(b, lo, hi) && Range(b.addr, b.size) !! Bytes(bs)
  }

  /** Subtracting from the word 0 is subtracting from one more than the largest word. */
  function Modulus(align: nat): (m: nat)
    ensures m > 0
  {
    if align == 0 then WORD else align
  }

  class Heap {
    const lo: nat
    const hi: nat
    var mem: map<int, Header>
    ghost var blocks: seq<Block>

    ghost predicate Valid()
      reads this
    {
      && 0 < lo <= hi < WORD && lo % PAGE_SIZE == 0 && hi % PAGE_SIZE == 0
      && WellFormed(blocks, lo, hi)
      && Linked(mem, blocks)
    }

    /** Heap setup of module initialisation: one free block, or an empty list when no memory is left. */
    constructor (start: nat, size: nat)
      requires 0 < start && start + size < WORD && start % PAGE_SIZE == 0 && size % PAGE_SIZE == 0
      ensures Valid() && lo == start && hi == start + size
      ensures Tiled(blocks, {}, lo, hi)
    {
      lo, hi := start, start + size;
      if size > 0 {
        mem := map[HEAD := Header(start, size), start := Header(NULL, size)];
        blocks := [Block(start, size)];
      } else {
        mem := map[HEAD := Header(NULL, 0)];
        blocks := [];
      }
      new;
      if size > 0 {
        InitialHeapTiled(lo, hi);
      }
    }

    static method RoundSize(reqSize: nat) returns (size: nat)
      requires reqSize < WORD
      ensures size == AdjustSize(reqSize)
    {
      RoundUpIsLeastMultiple(reqSize);
      size := reqSize;
      var offset := And(size, PAGE_SIZE - 1);
      if offset != 0 {
        AndBound(size, PAGE_SIZE - 1);
        size := AddWord(size, PAGE_SIZE - offset);
      }
    }

    static method RaiseAlign(reqAlign: nat) returns (align: nat)
      requires reqAlign < WORD
      ensures align < WORD && Modulus(align) == AdjustAlign(reqAlign)
    {
      align := reqAlign;
      if And(align, PAGE_SIZE - 1) != 0 {
        align := PAGE_SIZE;
      }
    }

    /** How far the next multiple of the alignment is, in words. */
    static method SkipTo(addr: nat, adjAlign: nat) returns (offset: nat)
      requires addr < WORD && adjAlign < WORD
      ensures offset == Offset(addr, Modulus(adjAlign))
    {
      AndBound(addr, SubWord(adjAlign, 1));
      offset := And(addr, SubWord(adjAlign, 1));
      if offset != 0 {
        offset := SubWord(adjAlign, offset);
      }
    }

    /** The loop of allocation: walk to the first block that fits, remembering its predecessor. */
    method FindFit(adjSize: nat, adjAlign: nat)
      returns (prevHeader: int, curHeader: int, offset: nat)
      requires Valid() && adjSize < WORD && adjAlign < WORD
      ensures var k := FitIndex(blocks, 0, adjSize, Modulus(adjAlign));
              prevHeader == NodeAt(blocks, k) && curHeader == NextOf(blocks, k)
              && (k < |blocks| ==> offset == Offset(curHeader, Modulus(adjAlign))
                                   && AddWord(adjSize, offset) <= blocks[k].size)
    {
      prevHeader, offset := HEAD, 0;
      ghost var k, align := 0, Modulus(adjAlign);
      assert NodeOk(mem, blocks, 0);
      curHeader := mem[prevHeader].next;
      while curHeader != NULL
        invariant 0 <= k <= |blocks| && prevHeader == NodeAt(blocks, k) && curHeader == NextOf(blocks, k)
        invariant FitIndex(blocks, 0, adjSize, align) == FitIndex(blocks, k, adjSize, align)
        decreases |blocks| - k
      {
        assert NodeOk(mem, blocks, k + 1);
        var curSize := mem[curHeader].size;
        offset := SkipTo(curHeader, adjAlign);
        FitIndexStep(blocks, k, adjSize, align);
        if curSize >= AddWord(adjSize, offset) {
          return;
        }
        prevHeader := curHeader;
        curHeader := mem[curHeader].next;
        k := k + 1;
      }
    }

    /**
     Allocation. Size and alignment are arbitrary words; when the sum of size and offset wraps around to the very
     start of the block, its header is overwritten and the chain ends in a cycle.
     */
    method Alloc(reqSize: nat, reqAlign: nat, dryrun: bool) returns (r: int)
      requires Valid() && reqSize < WORD && reqAlign < WORD
      modifies this
      ensures r == AllocAddr(old(blocks), AdjustSize(reqSize), AdjustAlign(reqAlign))
      ensures dryrun ==> Valid() && mem == old(mem) && blocks == old(blocks)
      ensures !dryrun ==> blocks == AllocList(old(blocks), AdjustSize(reqSize), AdjustAlign(reqAlign))
      ensures !WrapsToStart(old(blocks), AdjustSize(reqSize), AdjustAlign(reqAlign)) ==>
        Linked(mem, blocks) && SameOutside(old(mem), mem, Bytes(blocks))
      ensures !dryrun && WrapsToStart(old(blocks), AdjustSize(reqSize), AdjustAlign(reqAlign)) ==> Endless(mem)
      ensures GoodRequest(old(blocks), reqSize, reqAlign) ==> Valid()
      ensures HeapRequest(reqSize, reqAlign) && IsPow2(reqAlign) ==>
        LeastCandidate(old(Bytes(blocks)), RoundUp(reqSize), AdjustAlign(reqAlign), r)
    {
      var adjSize := RoundSize(reqSize);
      var adjAlign := RaiseAlign(reqAlign);
      AdjustSizeZero(reqSize);
      AdjustAlignIsPaged(reqAlign);
      if HeapRequest(reqSize, reqAlign) && IsPow2(reqAlign) {
        AdjustAlignIsMax(reqAlign);
        AllocAddrIsLeastCandidate(blocks, lo, hi, adjSize, Modulus(adjAlign));
      }
      if GoodRequest(blocks, reqSize, reqAlign) {
        GoodAllocKeepsOrder(blocks, lo, hi, reqSize, reqAlign);
      }
      var prevHeader, curHeader, offset := FindFit(adjSize, adjAlign);
      if curHeader == NULL {
        return NULL;
      }
      r := AddWord(curHeader, offset);
      if dryrun {
        return;
      }
      TakeBlock(prevHeader, curHeader, offset, adjSize, Modulus(adjAlign));
    }

    /** Split the block found; unless the sum wraps around to its start the headers still spell a list. */
    method TakeBlock(prevHeader: int, curHeader: int, offset: nat, adjSize: nat, ghost adjAlign: nat)
      requires Valid() && adjSize < WORD && 0 < adjAlign <= WORD
      requires var k := FitIndex(blocks, 0, adjSize, adjAlign);
               && k < |blocks| && prevHeader == NodeAt(blocks, k) && curHeader == blocks[k].addr
               && offset == Offset(curHeader, adjAlign)
      modifies this
      ensures blocks == AllocList(old(blocks), adjSize, adjAlign)
      ensures if WrapsToStart(old(blocks), adjSize, adjAlign) then Endless(mem)
              else Linked(mem, blocks) && SameOutside(old(mem), mem, Bytes(blocks))
    {
      ghost var k := FitIndex(blocks, 0, adjSize, adjAlign);
      ghost var n := AddWord(adjSize, offset) - offset;
      TakeIsSound(mem, blocks, lo, hi, k, offset, adjSize);
      assert Block(curHeader, mem[curHeader].size) == blocks[k] && mem[curHeader].next == NextOf(blocks, k + 1);
      Split(prevHeader, curHeader, offset, adjSize);
      blocks := Carve(blocks, k, offset, n);
    }

    /** The part of allocation that takes `adjSize` bytes at `offset` out of the block at `curHeader`. */
    method Split(prevHeader: int, curHeader: int, offset: nat, adjSize: nat)
      requires prevHeader in mem && curHeader in mem && prevHeader < curHeader && 0 <= curHeader
      requires AddWord(adjSize, offset) <= mem[curHeader].size && curHeader + mem[curHeader].size < WORD
      requires adjSize < WORD && offset < WORD
      modifies `mem
      ensures mem == CarveMem(old(mem), prevHeader, Block(curHeader, old(mem)[curHeader].size),
                              old(mem)[curHeader].next, offset, AddWord(adjSize, offset) - offset)
    {
      var allocAddr := AddWord(curHeader, offset);
      var remainSize := mem[curHeader].size - AddWord(adjSize, offset);
      if offset != 0 {
        mem := mem[curHeader := mem[curHeader].(size := offset)];
        if remainSize != 0 {
          var newHeader := AddWord(allocAddr, adjSize);
          assert newHeader == curHeader + AddWord(adjSize, offset);
          mem := mem[newHeader := Header(mem[curHeader].next, remainSize)];
          mem := mem[curHeader := mem[curHeader].(next := newHeader)];
        }
      } else {
        if remainSize != 0 {
          var newHeader := AddWord(allocAddr, adjSize);
          mem := mem[newHeader := Header(mem[curHeader].next, remainSize)];
          mem := mem[prevHeader := mem[prevHeader].(next := newHeader)];
        } else {
          mem := mem[prevHeader := mem[prevHeader].(next := mem[curHeader].next)];
        }
      }
    }

    /** Free any range; the list stays sound when the range is a proper one of the heap that is not free yet. */
    method Free(addr: int, reqSize: nat)
      requires Valid() && reqSize < WORD && 0 < addr
      modifies this
      ensures var k := PlaceIndex(old(blocks), 0, addr);
              && NodeAt(old(blocks), k) in old(mem)
              && (NextOf(old(blocks), k) != NULL ==> NextOf(old(blocks), k) in old(mem))
              && mem == InsertMem(old(mem), NodeAt(old(blocks), k), addr, NextOf(old(blocks), k), AdjustSize(reqSize))
      ensures Freeable(old(blocks), lo, hi, Block(addr, AdjustSize(reqSize))) ==>
        && Valid() && blocks == FreeList(old(blocks), addr, AdjustSize(reqSize))
        && SameOutside(old(mem), mem, Bytes(blocks))
    {
      var size := RoundSize(reqSize);
      var curHeader, newHeader := HEAD, addr;
      assert NodeOk(mem, blocks, 0);
      var nextHeader := mem[curHeader].next;
      ghost var k := 0;
      while nextHeader != NULL && nextHeader < newHeader
        invariant 0 <= k <= |blocks| && curHeader == NodeAt(blocks, k) && nextHeader == NextOf(blocks, k)
        invariant PlaceIndex(blocks, 0, addr) == PlaceIndex(blocks, k, addr)
        invariant curHeader < newHeader
        decreases |blocks| - k
      {
        assert NodeOk(mem, blocks, k + 1);
        curHeader := nextHeader;
        nextHeader := mem[nextHeader].next;
        k := k + 1;
      }
      assert PlaceIndex(blocks, 0, addr) == k;
      assert NodeOk(mem, blocks, k) && (k < |blocks| ==> NodeOk(mem, blocks, k + 1));
      if Freeable(blocks, lo, hi, Block(addr, size)) {
        FreeIsSound(mem, blocks, lo, hi, k, addr, size);
      }
      Insert(curHeader, newHeader, nextHeader, size);
      blocks := FreeList(blocks, addr, size);
    }

    /** The part of free that links the block in and joins it with its neighbours. */
    method Insert(curHeader: int, newHeader: int, nextHeader: int, size: nat)
      requires curHeader in mem && curHeader != newHeader && (nextHeader != NULL ==> nextHeader in mem)
      modifies `mem
      ensures mem == InsertMem(old(mem), curHeader, newHeader, nextHeader, size)
    {
      mem := mem[newHeader := Header(nextHeader, size)];
      mem := mem[curHeader := mem[curHeader].(next := newHeader)];
      if nextHeader != NULL && newHeader + size == nextHeader {
        mem := mem[newHeader := Header(mem[nextHeader].next, mem[newHeader].size + mem[nextHeader].size)];
      }
      if curHeader != HEAD && curHeader + mem[curHeader].size == newHeader {
        mem := mem[curHeader := Header(mem[newHeader].next, mem[curHeader].size + mem[newHeader].size)];
      }
    }
  }

  /** On a heap with free memory, allocating a rounded size of zero and freeing it again ends all later walks. */
  method EmptyAllocThenFree(h: Heap, size: nat) returns (r: int)
    requires h.Valid() && h.blocks != [] && size < WORD && AdjustSize(size) == 0
    modifies h
    ensures r == old(h.blocks)[0].addr && Endless(h.mem)
  {
    FirstFitAtStart(h.blocks, h.lo, h.hi, 0);
    r := h.Alloc(size, PAGE_SIZE, false);
    EmptyFreeLoops(h.mem, h.blocks, h.lo, h.hi, 0);
    h.Free(r, size);
  }
}
