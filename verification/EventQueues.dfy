/**
 Event queues of the open handles: every created event is offered to every handle, which filters it and keeps
 at most a fixed number of events for its reader.
 */
module EventQueues {
  import opened Bits
  import opened Common

  const BIFROST_EVENT_TYPE_IRQ: nat := 1
  const BIFROST_EVENT_TYPE_DMA_DONE: nat := 8
  const BIFROST_EVENT_BUFFER_SIZE: nat := 20

  datatype Event = Event(kind: nat, irqSource: nat, id: nat, time: int, cookie: nat)

  /** What became of an event offered to a handle: whether it was wanted, could be copied, and how many waited. */
  datatype Offer = Offer(e: Event, wanted: bool, memory: bool, pending: nat) {
    predicate Accepted() { wanted && memory && pending < BIFROST_EVENT_BUFFER_SIZE }
  }

  /** A handle as a value; `offers` and `dequeued` are its history. */
  datatype Queue = Queue(enableMask: nat, irqMask: nat, list: seq<Event>, dequeued: seq<Event>, offers: seq<Offer>)

  /** The filter: event mask, then interrupt mask or submitting handle, depending on the kind of event. */
  predicate Wants(addr: nat, q: Queue, e: Event) {
    && And(e.kind, q.enableMask) != 0
    && (e.kind == BIFROST_EVENT_TYPE_IRQ ==> And(q.irqMask, e.irqSource) != 0)
    && (e.kind == BIFROST_EVENT_TYPE_DMA_DONE ==> addr == e.cookie)
  }

  /**
   What a handle gets: interrupts while bit 0 of its event mask is set and one of the sources is forwarded to
   it, completions of DMA requests with its own address while bit 3 is set, and events of any other kind while the
   event mask has a bit of the kind. Other bits make no difference.
   */
  lemma FilterMeans(addr: nat, q: Queue, e: Event)
    ensures e.kind == BIFROST_EVENT_TYPE_IRQ ==>
      (Wants(addr, q, e) <==> Bit(q.enableMask, 0) && CommonBit(q.irqMask, e.irqSource))
    ensures e.kind == BIFROST_EVENT_TYPE_DMA_DONE ==>
      (Wants(addr, q, e) <==> Bit(q.enableMask, 3) && addr == e.cookie)
    ensures e.kind != BIFROST_EVENT_TYPE_IRQ && e.kind != BIFROST_EVENT_TYPE_DMA_DONE ==>
      (Wants(addr, q, e) <==> CommonBit(e.kind, q.enableMask))
  {
    AndNonZero(e.kind, q.enableMask);
    assert Pow2(0) == BIFROST_EVENT_TYPE_IRQ && Pow2(3) == BIFROST_EVENT_TYPE_DMA_DONE;
    SingleBit(q.enableMask, 0);
    SingleBit(q.enableMask, 3);
    AndNonZero(q.irqMask, e.irqSource);
  }

  lemma SingleBit(mask: nat, k: nat)
    ensures And(Pow2(k), mask) != 0 <==> Bit(mask, k)
  {
    AndNonZero(Pow2(k), mask);
    Pow2Bit(k, k);
    forall i: nat
      ensures Bit(Pow2(k), i) == (k == i)
    {
      Pow2Bit(k, i);
    }
  }

  function OfferTo(addr: nat, q: Queue, e: Event, memory: bool): Queue {
    var o := Offer(e, Wants(addr, q, e), memory, |q.list|);
    q.(offers := q.offers + [o], list := if o.Accepted() then q.list + [e] else q.list)
  }

  function Dequeue(q: Queue): Queue {
    if q.list == [] then q else q.(list := q.list[1..], dequeued := q.dequeued + [q.list[0]])
  }

  /** The accepted events, in the order they were offered. */
  function Chosen(offers: seq<Offer>): seq<Event>
    decreases |offers|
  {
    if offers == [] then []
    else Chosen(offers[..|offers| - 1]) + (if offers[|offers| - 1].Accepted() then [offers[|offers| - 1].e] else [])
  }

  /** All events offered. */
  function Offered(offers: seq<Offer>): seq<Event> {
    seq(|offers|, i requires 0 <= i < |offers| => offers[i].e)
  }

  ghost predicate Inv(q: Queue) {
    && Chosen(q.offers) == q.dequeued + q.list
    && |q.list| <= BIFROST_EVENT_BUFFER_SIZE
  }

  lemma ChosenAppend(offers: seq<Offer>, o: Offer)
    ensures Chosen(offers + [o]) == Chosen(offers) + (if o.Accepted() then [o.e] else [])
    ensures Offered(offers + [o]) == Offered(offers) + [o.e]
  {
    assert (offers + [o])[..|offers|] == offers;
  }

  lemma OfferKeepsInv(addr: nat, q: Queue, e: Event, memory: bool)
    requires Inv(q)
    ensures Inv(OfferTo(addr, q, e, memory))
    ensures Offered(OfferTo(addr, q, e, memory).offers) == Offered(q.offers) + [e]
  {
    ChosenAppend(q.offers, Offer(e, Wants(addr, q, e), memory, |q.list|));
  }

  lemma DequeueKeepsInv(q: Queue)
    requires Inv(q)
    ensures Inv(Dequeue(q))
  {
    if q.list != [] {
      assert q.dequeued + q.list == q.dequeued + [q.list[0]] + q.list[1..];
    }
  }

  /** Only completions with the handle's address as cookie were wanted. */
  ghost predicate OwnCookies(addr: nat, offers: seq<Offer>) {
    forall m | 0 <= m < |offers| :: offers[m].wanted && offers[m].e.kind == BIFROST_EVENT_TYPE_DMA_DONE ==>
      offers[m].e.cookie == addr
  }

  // ----- Runs of one handle -----

  datatype Op = Offering(e: Event, memory: bool) | Dequeuing | Masking(enableMask: nat, irqMask: nat)

  function Apply(addr: nat, q: Queue, op: Op): Queue {
    match op
    case Offering(e, memory) => OfferTo(addr, q, e, memory)
    case Dequeuing => Dequeue(q)
    case Masking(enableMask, irqMask) => q.(enableMask := enableMask, irqMask := irqMask)
  }

  function Run(addr: nat, q: Queue, ops: seq<Op>): Queue
    decreases |ops|
  {
    if ops == [] then q else Run(addr, Apply(addr, q, ops[0]), ops[1..])
  }

  const OPENED: Queue := Queue(0, 0, [], [], [])

  lemma {:induction false} RunKeepsInv(addr: nat, q: Queue, ops: seq<Op>)
    requires Inv(q)
    ensures Inv(Run(addr, q, ops)) && q.dequeued <= Run(addr, q, ops).dequeued
    decreases |ops|
  {
    if ops != [] {
      match ops[0] {
        case Offering(e, memory) => OfferKeepsInv(addr, q, e, memory);
        case Dequeuing => DequeueKeepsInv(q);
        case Masking(_, _) =>
      }
      RunKeepsInv(addr, Apply(addr, q, ops[0]), ops[1..]);
    }
  }

  /** In every run the reader sees the accepted events, each once and in order, and no more than 20 wait. */
  lemma ReaderSeesAcceptedInOrder(addr: nat, ops: seq<Op>)
    ensures var q := Run(addr, OPENED, ops);
            && q.dequeued <= Chosen(q.offers)
            && q.list == Chosen(q.offers)[|q.dequeued|..]
            && |q.list| <= BIFROST_EVENT_BUFFER_SIZE
  {
    RunKeepsInv(addr, OPENED, ops);
    var q := Run(addr, OPENED, ops);
    assert Chosen(q.offers) == q.dequeued + q.list;
  }

  /** What the reads of a run return, in order: each returns the oldest pending event, or nothing. */
  function Reads(addr: nat, q: Queue, ops: seq<Op>): seq<Event>
    decreases |ops|
  {
    if ops == [] then []
    else (if ops[0].Dequeuing? && q.list != [] then [q.list[0]] else []) + Reads(addr, Apply(addr, q, ops[0]), ops[1..])
  }

  lemma {:induction false} ReadsAreLogged(addr: nat, q: Queue, ops: seq<Op>)
    ensures Run(addr, q, ops).dequeued == q.dequeued + Reads(addr, q, ops)
    decreases |ops|
  {
    if ops != [] {
      ReadsAreLogged(addr, Apply(addr, q, ops[0]), ops[1..]);
    }
  }

  /** Reads `got`, then the pending events, are the accepted ones. */
  ghost predicate InOrder(q: Queue, got: seq<Event>) {
    && |got| + |q.list| == |Chosen(q.offers)|
    && (forall k | 0 <= k < |got| :: got[k] == Chosen(q.offers)[k])
    && (forall k | 0 <= k < |q.list| :: q.list[k] == Chosen(q.offers)[|got| + k])
  }

  lemma LoggedIsInOrder(q: Queue, got: seq<Event>)
    requires Inv(q) && q.dequeued == got
    ensures InOrder(q, got)
  {
  }

  /** In every run the `k`-th successful read returns the `k`-th accepted event; what was not read is still pending. */
  lemma ReadsInOrder(addr: nat, q: Queue, ops: seq<Op>)
    requires Inv(q) && q.dequeued == []
    ensures InOrder(Run(addr, q, ops), Reads(addr, q, ops))
  {
    RunKeepsInv(addr, q, ops);
    ReadsAreLogged(addr, q, ops);
    LoggedIsInOrder(Run(addr, q, ops), Reads(addr, q, ops));
  }

  /** How many accepted events have not been read. */
  function Unread(q: Queue): int { |Chosen(q.offers)| - |q.dequeued| }

  /**
   An offered event is accepted if and only if it is wanted, could be copied, and fewer than 20 accepted events are
   unread; it then joins the pending ones last. Reads and masks are not affected.
   */
  lemma OfferLaw(addr: nat, q: Queue, e: Event, memory: bool)
    requires Inv(q)
    ensures var q' := Apply(addr, q, Offering(e, memory));
            var accepted := Wants(addr, q, e) && memory && Unread(q) < BIFROST_EVENT_BUFFER_SIZE;
            && q'.list == q.list + (if accepted then [e] else [])
            && Chosen(q'.offers) == Chosen(q.offers) + (if accepted then [e] else [])
            && |q'.offers| == |q.offers| + 1 && q'.offers[|q.offers|].pending == Unread(q)
            && q'.dequeued == q.dequeued && q'.enableMask == q.enableMask && q'.irqMask == q.irqMask
  {
    ChosenAppend(q.offers, Offer(e, Wants(addr, q, e), memory, |q.list|));
  }

  /** The masks in force after a run are those last set, none when there were none. */
  lemma {:induction false} MasksLaw(addr: nat, q: Queue, ops: seq<Op>, n: nat)
    requires n <= |ops| && forall k | n <= k < |ops| :: !ops[k].Masking?
    requires n > 0 ==> ops[n - 1].Masking?
    ensures var q' := Run(addr, q, ops);
            && q'.enableMask == (if n > 0 then ops[n - 1].enableMask else q.enableMask)
            && q'.irqMask == (if n > 0 then ops[n - 1].irqMask else q.irqMask)
    decreases |ops|
  {
    if ops != [] {
      MasksLaw(addr, Apply(addr, q, ops[0]), ops[1..], if n > 0 then n - 1 else 0);
    }
  }

  // ----- The handles -----

  class Handle {
    /** Address of the handle in kernel memory: the cookie of the DMA requests it submits. */
    const addr: nat
    var eventEnableMask: nat
    var irqForwardingMask: nat
    var eventList: seq<Event>
    var eventListCount: nat
    ghost var dequeued: seq<Event>
    ghost var offers: seq<Offer>
    /** How many events the device had created when the handle was opened. */
    ghost const openedAt: nat

    ghost function View(): Queue
      reads this
    {
      Queue(eventEnableMask, irqForwardingMask, eventList, dequeued, offers)
    }

    ghost predicate Valid()
      reads this
    {
      Inv(View()) && eventListCount == |eventList| && OwnCookies(addr, offers)
    }

    constructor (addr: nat, ghost openedAt: nat)
      ensures Valid() && View() == OPENED && this.addr == addr && this.openedAt == openedAt
      ensures eventEnableMask == irqForwardingMask == 0 && eventList == dequeued == [] && offers == []
    {
      this.addr, eventEnableMask, irqForwardingMask, eventList, eventListCount := addr, 0, 0, [], 0;
      this.dequeued, this.offers, this.openedAt := [], [], openedAt;
    }

    method EnqueueEvent(e: Event) returns (ok: bool)
      requires eventListCount == |eventList|
      modifies `eventList, `eventListCount
      ensures ok <==> old(|eventList|) < BIFROST_EVENT_BUFFER_SIZE
      ensures eventList == if ok then old(eventList) + [e] else old(eventList)
      ensures eventListCount == |eventList|
    {
      if eventListCount >= BIFROST_EVENT_BUFFER_SIZE {
        return false;
      }
      eventList := eventList + [e];
      eventListCount := eventListCount + 1;
      return true;
    }

    method DequeueEvent() returns (r: Option<Event>)
      requires Valid()
      modifies this
      ensures Valid() && View() == Dequeue(old(View()))
      ensures if old(eventList) == [] then r == None && View() == old(View())
              else r == Some(old(eventList)[0]) && eventList == old(eventList)[1..]
                   && dequeued == old(dequeued) + [r.value]
      ensures offers == old(offers)
      ensures eventEnableMask == old(eventEnableMask) && irqForwardingMask == old(irqForwardingMask)
    {
      DequeueKeepsInv(View());
      if eventList == [] {
        return None;
      }
      r := Some(eventList[0]);
      dequeued := dequeued + [eventList[0]];
      eventList := eventList[1..];
      eventListCount := eventListCount - 1;
    }

    method Poll() returns (readable: bool)
      requires Valid()
      ensures readable <==> |dequeued| < |Chosen(offers)|
    {
      readable := eventList != [];
    }

    method EnableEvents(mask: nat)
      requires Valid()
      modifies `eventEnableMask
      ensures Valid() && View() == Apply(addr, old(View()), Masking(mask, irqForwardingMask)) && eventEnableMask == mask
    {
      eventEnableMask := mask;
    }

    method ForwardIrqs(mask: nat)
      requires Valid()
      modifies `irqForwardingMask
      ensures Valid() && View() == Apply(addr, old(View()), Masking(eventEnableMask, mask)) && irqForwardingMask == mask
    {
      irqForwardingMask := mask;
    }

    method EnqueueOnThisHandle(e: Event) returns (r: bool)
      ensures r == Wants(addr, View(), e)
    {
      if And(e.kind, eventEnableMask) == 0 {
        return false;
      }
      if e.kind == BIFROST_EVENT_TYPE_IRQ {
        if And(irqForwardingMask, e.irqSource) == 0 {
          return false;
        }
      } else if e.kind == BIFROST_EVENT_TYPE_DMA_DONE {
        if addr != e.cookie {
          return false;
        }
      }
      return true;
    }

    /** The body of the fan-out loop for one handle; `memory` says whether the event could be copied. */
    method Receive(e: Event, memory: bool)
      requires Valid()
      modifies this
      ensures Valid() && View() == OfferTo(addr, old(View()), e, memory)
    {
      OfferKeepsInv(addr, View(), e, memory);
      var wanted := EnqueueOnThisHandle(e);
      ghost var o := Offer(e, wanted, memory, |eventList|);
      if wanted && memory {
        var ok := EnqueueEvent(e);
      }
      offers := offers + [o];
    }
  }

  class Device {
    var handles: seq<Handle>
    ghost var created: seq<Event>

    ghost predicate Valid()
      reads this, handles
    {
      && (forall i | 0 <= i < |handles| :: HandleOk(handles[i], created))
      && (forall i, j | 0 <= i < j < |handles| :: handles[i] != handles[j] && handles[i].addr != handles[j].addr)
    }

    constructor ()
      ensures Valid() && handles == [] && created == []
    {
      handles, created := [], [];
    }

    /** `addr` is fresh kernel memory: no open handle lives there. */
    method Open(addr: nat) returns (h: Handle)
      requires Valid() && forall i | 0 <= i < |handles| :: handles[i].addr != addr
      modifies this
      ensures Valid() && fresh(h) && h.addr == addr && h.View() == OPENED
      ensures h.eventEnableMask == h.irqForwardingMask == 0 && h.eventList == []
      ensures handles == [h] + old(handles) && created == old(created) && h.openedAt == |created|
    {
      h := new Handle(addr, |created|);
      assert created[|created|..] == [];
      handles := [h] + handles;
    }

    method Release(k: nat)
      requires Valid() && k < |handles|
      modifies this
      ensures Valid() && created == old(created)
      ensures handles == old(handles)[..k] + old(handles)[k + 1..]
    {
      handles := handles[..k] + handles[k + 1..];
    }

    /** Offer an event to every open handle; `memory[i]` says whether it could be copied for the i-th. */
    method CreateEvent(e: Event, memory: seq<bool>)
      requires Valid() && |memory| == |handles|
      modifies this, handles
      ensures Valid() && handles == old(handles) && created == old(created) + [e]
      ensures forall i | 0 <= i < |handles| :: Received(handles[i], old(handles[i].View()), e, memory[i])
    {
      ghost var was := Views(handles);
      OfferAll(e, memory);
      created := created + [e];
      forall j | 0 <= j < |handles|
        ensures HandleOk(handles[j], created)
      {
        assert old(HandleOk(handles[j], created));
        ReceivedIsOk(handles[j], was[j], e, memory[j], old(created));
      }
    }

    method OfferAll(e: Event, memory: seq<bool>)
      requires Valid() && |memory| == |handles|
      modifies handles
      ensures forall i | 0 <= i < |handles| :: Received(handles[i], old(handles[i].View()), e, memory[i])
    {
      ghost var was := Views(handles);
      var i := 0;
      while i < |handles|
        invariant 0 <= i <= |handles|
        invariant forall j | 0 <= j < i :: Received(handles[j], was[j], e, memory[j])
        invariant forall j | i <= j < |handles| :: handles[j].Valid() && handles[j].View() == was[j]
      {
        var h := handles[i];
        assert forall j | 0 <= j < |handles| && j != i :: handles[j] != h;
        h.Receive(e, memory[i]);
        assert Received(h, was[i], e, memory[i]);
        i := i + 1;
      }
    }
  }

  lemma ReceivedIsOk(h: Handle, was: Queue, e: Event, memory: bool, created: seq<Event>)
    requires Received(h, was, e, memory) && Inv(was)
    requires h.openedAt <= |created| && Offered(was.offers) == created[h.openedAt..]
    ensures HandleOk(h, created + [e])
  {
    OfferKeepsInv(h.addr, was, e, memory);
    assert (created + [e])[h.openedAt..] == created[h.openedAt..] + [e];
  }

  ghost function Views(hs: seq<Handle>): seq<Queue>
    reads hs
  {
    seq(|hs|, i requires 0 <= i < |hs| reads hs => hs[i].View())
  }

  ghost predicate Received(h: Handle, was: Queue, e: Event, memory: bool)
    reads h
  {
    h.Valid() && h.View() == OfferTo(h.addr, was, e, memory)
  }

  /** The handle has been offered exactly the events created since it was opened, in creation order. */
  ghost predicate HandleOk(h: Handle, created: seq<Event>)
    reads h
  {
    h.Valid() && h.openedAt <= |created| && Offered(h.offers) == created[h.openedAt..]
  }
}
