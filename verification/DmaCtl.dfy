/**
 The DMA controller: a bitmap of idle channels, one slot per channel and a list of waiting requests. Each
 method is one step between lock boundaries, so interleaved calls are the interleavings of the driver.
 */
module DmaCtl {
  import opened Bits
  import opened Common
  import opened DmaMachine

  datatype DmaCh = DmaCh(irq: int, inProgress: Option<Req>)

  const MAX_DMA_CHANNELS: nat := 32

  /** The channels whose bit is set. */
  ghost function Channels(bitmap: nat): set<nat> {
    set c | 0 <= c < MAX_DMA_CHANNELS && Bit(bitmap, c)
  }

  function ClearBit(x: nat, c: nat): nat
    requires x < Pow2(MAX_DMA_CHANNELS) && c < MAX_DMA_CHANNELS && Pow2(c) < Pow2(MAX_DMA_CHANNELS)
  {
    And(x, Not(Pow2(c), MAX_DMA_CHANNELS))
  }

  lemma BitFits(c: nat)
    requires c < MAX_DMA_CHANNELS
    ensures Pow2(c) < Pow2(MAX_DMA_CHANNELS)
  {
    Pow2Monotone(c, MAX_DMA_CHANNELS - 1);
  }

  /** `bitmap &= ~(1 << c)` removes channel `c` from the set. */
  lemma ClearRemoves(x: nat, c: nat)
    requires x < Pow2(MAX_DMA_CHANNELS) && c < MAX_DMA_CHANNELS && Pow2(c) < Pow2(MAX_DMA_CHANNELS)
    ensures Channels(ClearBit(x, c)) == Channels(x) - {c}
    ensures ClearBit(x, c) < Pow2(MAX_DMA_CHANNELS)
  {
    AndBound(x, Not(Pow2(c), MAX_DMA_CHANNELS));
    forall i: nat | i < MAX_DMA_CHANNELS
      ensures Bit(ClearBit(x, c), i) <==> Bit(x, i) && i != c
    {
      AndBit(x, Not(Pow2(c), MAX_DMA_CHANNELS), i);
      NotBit(Pow2(c), MAX_DMA_CHANNELS, i);
      Pow2Bit(c, i);
    }
  }

  /** `bitmap |= (1 << c)` adds it. */
  lemma SetAdds(x: nat, c: nat)
    requires x < Pow2(MAX_DMA_CHANNELS) && c < MAX_DMA_CHANNELS
    ensures Channels(Or(x, Pow2(c))) == Channels(x) + {c}
    ensures Or(x, Pow2(c)) < Pow2(MAX_DMA_CHANNELS)
  {
    BitFits(c);
    OrBound(x, Pow2(c), MAX_DMA_CHANNELS);
    forall i: nat | i < MAX_DMA_CHANNELS
      ensures Bit(Or(x, Pow2(c)), i) <==> Bit(x, i) || i == c
    {
      OrBit(x, Pow2(c), i);
      Pow2Bit(c, i);
    }
  }

  /** `ffs(bitmap) - 1` is the least idle channel. */
  lemma FfsIsLeast(x: nat)
    requires x < Pow2(MAX_DMA_CHANNELS)
    ensures Ffs(x) == 0 <==> Channels(x) == {}
    ensures Ffs(x) > 0 ==> IsLeast(Ffs(x) - 1, Channels(x)) && Ffs(x) - 1 < MAX_DMA_CHANNELS
  {
    if x == 0 {
      forall c: nat
        ensures !Bit(x, c)
      {
        ZeroHasNoBits(c);
      }
    } else {
      var c := Ffs(x) - 1;
      if c >= MAX_DMA_CHANNELS {
        HighBitsClear(x, MAX_DMA_CHANNELS, c);
        assert false;
      }
      assert c in Channels(x);
    }
  }

  /** Bitmaps of the same channels are the same bitmap. */
  lemma SameChannelsSameBitmap(x: nat, y: nat)
    requires x < Pow2(MAX_DMA_CHANNELS) && y < Pow2(MAX_DMA_CHANNELS) && Channels(x) == Channels(y)
    ensures x == y
  {
    forall i: nat
      ensures Bit(x, i) == Bit(y, i)
    {
      if i >= MAX_DMA_CHANNELS {
        HighBitsClear(x, MAX_DMA_CHANNELS, i);
        HighBitsClear(y, MAX_DMA_CHANNELS, i);
      } else {
        assert i in Channels(x) <==> i in Channels(y);
      }
    }
    SameBitsSameWord(x, y);
  }

  /** Channel `c` of the device interrupts with number `irq + c`. */
  ghost predicate IrqsConsecutive(slots: seq<DmaCh>, irq: int, n: nat) {
    n <= |slots| && forall c | 0 <= c < n :: slots[c].irq == irq + c
  }

  ghost predicate SlotMatches(slot: Option<Req>, busy: map<nat, Req>, c: nat) {
    slot == if c in busy then Some(busy[c]) else None
  }

  ghost predicate SlotsMatch(slots: seq<DmaCh>, busy: map<nat, Req>) {
    forall c | 0 <= c < |slots| :: SlotMatches(slots[c].inProgress, busy, c)
  }

  function WithSlot(slots: seq<DmaCh>, c: nat, slot: Option<Req>): seq<DmaCh>
    requires c < |slots|
  {
    slots[c := slots[c].(inProgress := slot)]
  }

  lemma SlotChange(slots: seq<DmaCh>, busy: map<nat, Req>, c: nat, slot: Option<Req>, busy': map<nat, Req>)
    requires c < |slots| && SlotsMatch(slots, busy)
    requires busy' == if slot.Some? then busy[c := slot.value] else busy - {c}
    ensures SlotsMatch(WithSlot(slots, c, slot), busy')
    ensures forall irq, n | IrqsConsecutive(slots, irq, n) :: IrqsConsecutive(WithSlot(slots, c, slot), irq, n)
  {
    var slots' := WithSlot(slots, c, slot);
    forall e | 0 <= e < |slots'|
      ensures SlotMatches(slots'[e].inProgress, busy', e)
    {
      assert SlotMatches(slots[e].inProgress, busy, e);
    }
  }

  class DmaController {
    const numCh: nat
    const irq: int
    var idleBitmap: nat
    const ch: array<DmaCh>
    var list: seq<Req>
    ghost const inService: set<nat>
    /** The scheduler as a value, with the requests being retired and the logs. */
    ghost var state: Dma

    /** Bitmap, slots and list are the scheduler's idle channels, busy channels and queue. */
    ghost predicate Represents()
      reads this, ch
    {
      && idleBitmap < Pow2(MAX_DMA_CHANNELS) && Channels(idleBitmap) == state.idle
      && SlotsMatch(ch[..], state.busy)
      && list == state.queue
    }

    ghost predicate Wired()
      reads ch
    {
      && ch.Length == MAX_DMA_CHANNELS && numCh <= MAX_DMA_CHANNELS
      && IrqsConsecutive(ch[..], irq, numCh)
      && (forall c | c in inService :: c < numCh)
    }

    ghost predicate Valid()
      reads this, ch
    {
      Wired() && Represents() && Inv(inService, state)
    }

    /** Controller setup from the capability and status registers; busy channels stay out of service. */
    constructor (capability: nat, status: nat, irq: int)
      requires status < Pow2(MAX_DMA_CHANNELS)
      ensures Valid() && this.irq == irq && fresh(ch)
      ensures numCh == capability % 16
      ensures inService == set c | 0 <= c < numCh && !Bit(status, c)
      ensures state == Fresh(inService)
    {
      MaskIsRemainder(capability, 4);
      assert Pow2(4) == 16;
      var n := And(capability, 0xf);
      var idleMap := And(Not(status, MAX_DMA_CHANNELS), Pow2(n) - 1);
      IdleMapChannels(status, n);
      FreshInv(Channels(idleMap));
      numCh := n;
      this.irq, this.idleBitmap, this.inService := irq, idleMap, Channels(idleMap);
      ch := new DmaCh[MAX_DMA_CHANNELS](_ => DmaCh(0, None));
      list := [];
      state := Fresh(Channels(idleMap));
      new;
      EnableChannels();
    }

    method EnableChannels()
      requires ch.Length == MAX_DMA_CHANNELS && numCh <= MAX_DMA_CHANNELS
      modifies ch
      ensures forall i | 0 <= i < numCh :: ch[i].irq == irq + i
      ensures forall i | 0 <= i < ch.Length :: ch[i].inProgress == old(ch[i].inProgress)
    {
      var n := 0;
      while n < numCh
        invariant 0 <= n <= numCh
        invariant forall i | 0 <= i < n :: ch[i].irq == irq + i
        invariant forall i | 0 <= i < ch.Length :: ch[i].inProgress == old(ch[i].inProgress)
      {
        ch[n] := ch[n].(irq := irq + n);
        n := n + 1;
      }
    }

    /** The channel an interrupt number belongs to. */
    method LookupChan(i: int) returns (c: int)
      requires Wired()
      ensures irq <= i < irq + numCh ==> c == i - irq
      ensures !(irq <= i < irq + numCh) ==> c == -1
    {
      var n := 0;
      while n < numCh
        invariant 0 <= n <= numCh
        invariant !(irq <= i < irq + n)
      {
        assert ch[..][n].irq == irq + n;
        if ch[n].irq == i {
          return n;
        }
        n := n + 1;
      }
      return -1;
    }

    method FindFirstIdle() returns (c: int)
      requires idleBitmap < Pow2(MAX_DMA_CHANNELS)
      modifies `idleBitmap
      ensures idleBitmap < Pow2(MAX_DMA_CHANNELS)
      ensures c < 0 <==> Channels(old(idleBitmap)) == {}
      ensures c < 0 ==> idleBitmap == old(idleBitmap)
      ensures c >= 0 ==> IsLeast(c, Channels(old(idleBitmap))) && c < MAX_DMA_CHANNELS
      ensures c >= 0 ==> Channels(idleBitmap) == Channels(old(idleBitmap)) - {c}
    {
      FfsIsLeast(idleBitmap);
      c := Ffs(idleBitmap) - 1;
      if c < 0 {
        return -1;
      }
      BitFits(c);
      ClearRemoves(idleBitmap, c);
      idleBitmap := ClearBit(idleBitmap, c);
    }

    method FreeChan(c: nat)
      requires idleBitmap < Pow2(MAX_DMA_CHANNELS) && c < MAX_DMA_CHANNELS
      modifies `idleBitmap
      ensures idleBitmap < Pow2(MAX_DMA_CHANNELS)
      ensures Channels(idleBitmap) == Channels(old(idleBitmap)) + {c}
    {
      SetAdds(idleBitmap, c);
      idleBitmap := Or(idleBitmap, Pow2(c));
    }

    /** Submit a request; `start` is the channel to kick off, or negative when the request waits. */
    method StartXfer(r: Req) returns (start: int)
      requires Valid() && r !in state.submitted
      modifies this, ch
      ensures Valid() && Submit(old(state), state, r)
      ensures start < 0 <==> old(state).idle == {}
      ensures start >= 0 ==> IsLeast(start, old(state).idle) && state == Started(old(state), r, start)
    {
      start := FindFirstIdle();
      if start >= 0 {
        assert ChannelOk(inService, state, start);
        Occupy(start, r);
      } else {
        list := list + [r];
        state := state.(queue := state.queue + [r], submitted := state.submitted + [r]);
      }
      SubmitKeepsInv(inService, old(state), state, r);
    }

    method Occupy(c: nat, r: Req)
      requires Wired() && c < ch.Length && SlotsMatch(ch[..], state.busy)
      modifies this`state, ch
      ensures Wired() && SlotsMatch(ch[..], state.busy) && state == Started(old(state), r, c)
    {
      SlotChange(ch[..], state.busy, c, Some(r), state.busy[c := r]);
      SetSlot(c, Some(r));
      state := Started(state, r, c);
    }

    method SetSlot(c: nat, slot: Option<Req>)
      requires c < ch.Length
      modifies ch
      ensures ch[..] == WithSlot(old(ch[..]), c, slot)
    {
      ch[c] := ch[c].(inProgress := slot);
    }

    /** Completion interrupt up to the lock: no request in progress means the interrupt is spurious. */
    method DoneTake(i: int) returns (taken: Option<(nat, Req)>)
      requires Valid()
      modifies this, ch
      ensures Valid()
      ensures taken.None? ==> state == old(state)
      ensures taken.None? <==> !(irq <= i < irq + numCh) || i - irq !in old(state).busy
      ensures taken.Some? ==> taken.value == (i - irq, old(state).busy[i - irq]) && Take(old(state), state, i - irq)
    {
      var c := LookupChan(i);
      if c < 0 {
        return None;
      }
      assert SlotMatches(ch[..][c].inProgress, state.busy, c);
      if ch[c].inProgress == None {
        return None;
      }
      var r := ch[c].inProgress.value;
      SlotChange(ch[..], state.busy, c, None, state.busy - {c});
      SetSlot(c, None);
      state := state.(busy := state.busy - {c}, retiring := state.retiring[c := r]);
      TakeKeepsInv(inService, old(state), state, c);
      taken := Some((c, r));
    }

    /** The locked part: the first waiting request takes the channel, else the channel becomes idle. */
    method DoneFinish(c: nat) returns (next: Option<Req>)
      requires Valid() && c in state.retiring
      modifies this, ch
      ensures Valid() && Finish(old(state), state, c)
      ensures next == if old(list) == [] then None else Some(old(list)[0])
    {
      assert ChannelOk(inService, state, c);
      ghost var d := state.(retiring := state.retiring - {c}, completed := state.completed + [state.retiring[c]]);
      if list != [] {
        var r := list[0];
        list := list[1..];
        SlotChange(ch[..], state.busy, c, Some(r), state.busy[c := r]);
        SetSlot(c, Some(r));
        state := d.(busy := d.busy[c := r], queue := d.queue[1..], dispatched := d.dispatched + [r]);
        next := Some(r);
      } else {
        FreeChan(c);
        state := d.(idle := d.idle + {c});
        next := None;
      }
      FinishKeepsInv(inService, old(state), state, c);
    }

    /** Once nothing is outstanding the idle bitmap is the one the controller started with. */
    lemma DrainedBitmap(initialMap: nat)
      requires Valid() && Outstanding(state) == 0
      requires initialMap < Pow2(MAX_DMA_CHANNELS) && Channels(initialMap) == inService
      ensures idleBitmap == initialMap
    {
      DrainedIsInitial(inService, state);
      SameChannelsSameBitmap(idleBitmap, initialMap);
    }
  }

  lemma IdleMapChannels(status: nat, n: nat)
    requires status < Pow2(MAX_DMA_CHANNELS) && n <= MAX_DMA_CHANNELS
    ensures var idle := And(Not(status, MAX_DMA_CHANNELS), Pow2(n) - 1);
            idle < Pow2(MAX_DMA_CHANNELS) && Channels(idle) == set c | 0 <= c < n && !Bit(status, c)
  {
    var mask := Pow2(n) - 1;
    AndBound(Not(status, MAX_DMA_CHANNELS), mask);
    forall i: nat | i < MAX_DMA_CHANNELS
      ensures Bit(And(Not(status, MAX_DMA_CHANNELS), mask), i) <==> i < n && !Bit(status, i)
    {
      AndBit(Not(status, MAX_DMA_CHANNELS), mask, i);
      NotBit(status, MAX_DMA_CHANNELS, i);
      LowMaskBit(n, i);
    }
  }

  /** `get_ticket`: the low 31 bits of a counter that is incremented for every request. */
  function Ticket(counter: nat): nat { And(counter, Pow2(31) - 1) }

  lemma TicketModulus()
    ensures Pow2(31) == 0x8000_0000
  {
    assert Pow2(10) == 0x400;
    assert Pow2(20) == 0x10_0000;
  }

  /** A ticket is never negative as an `int`, and any 2^31 consecutive requests have different ones. */
  lemma TicketsDiffer(m: nat, n: nat)
    requires m < n < m + 0x8000_0000
    ensures Ticket(n) == n % 0x8000_0000 && Ticket(m) != Ticket(n)
  {
    TicketModulus();
    MaskIsRemainder(n, 31);
    MaskedDiffer(m, n, 31);
  }
}
