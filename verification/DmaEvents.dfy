/**
 The way of a DMA request from the handle that submits it, over the controller, to the completion event that
 is offered to the open handles.
 */
module DmaEvents {
  import opened Common
  import Bits
  import opened DmaMachine
  import opened DmaCtl
  import Q = EventQueues

  /** The event the interrupt handler makes of a completed request. */
  function Completion(r: Req, time: int): Q.Event {
    Q.Event(Q.BIFROST_EVENT_TYPE_DMA_DONE, 0, r.ticket, time, r.cookie)
  }

  ghost predicate IsCompletionOf(e: Q.Event, r: Req) {
    e.kind == Q.BIFROST_EVENT_TYPE_DMA_DONE && e.id == r.ticket && e.cookie == r.cookie
  }

  /** Who submitted what, and which event stands for which request. */
  datatype Ledger = Ledger(
    counter: nat,
    submitted: seq<Req>,
    completed: seq<Req>,
    pending: seq<Req>,                 // completed, event not yet created
    owner: map<Req, Q.Handle>,         // the handle that submitted a request
    origin: map<nat, Req>,             // the request behind a completion event, by position in `created`
    since: map<Q.Handle, nat>,        // the counter when a handle was opened
    handles: seq<Q.Handle>,
    created: seq<Q.Event>)

  ghost predicate RequestOk(l: Ledger, r: Req) {
    && (r in l.owner <==> r in l.submitted)
    && (r in l.owner ==> l.owner[r].addr == r.cookie && r.ticket == Ticket(r.serial) && r.serial <= l.counter)
    && (r in l.completed ==> r in l.submitted)
    && (r in l.completed <==> r in l.pending || r in l.origin.Values)
    && (r in l.pending ==> r !in l.origin.Values)
  }

  /** An open handle submitted exactly the requests that carry its address and are younger than itself. */
  ghost predicate OwnerOk(l: Ledger, h: Q.Handle, r: Req) {
    h in l.handles && r in l.owner ==>
      h in l.since && (l.owner[r] == h <==> r.cookie == h.addr && l.since[h] < r.serial)
  }

  ghost predicate HandleOk(l: Ledger, h: Q.Handle) {
    h in l.handles ==> h in l.since && l.since[h] <= l.counter && h.openedAt <= |l.created|
  }

  /** Completion events stand for requests, and came after the opening of the handle that submitted them. */
  ghost predicate EventOk(l: Ledger, j: nat) {
    && (j < |l.created| && l.created[j].kind == Q.BIFROST_EVENT_TYPE_DMA_DONE ==> j in l.origin)
    && (j in l.origin ==>
          && j < |l.created| && IsCompletionOf(l.created[j], l.origin[j]) && l.origin[j] in l.owner
          && (l.owner[l.origin[j]] in l.handles ==> l.owner[l.origin[j]].openedAt <= j))
  }

  ghost predicate OneEventEach(origin: map<nat, Req>) {
    forall i, j | i in origin && j in origin && i != j :: origin[i] != origin[j]
  }

  ghost predicate LedgerOk(l: Ledger) {
    && (forall r :: RequestOk(l, r))
    && (forall h, r | h in l.handles :: OwnerOk(l, h, r))
    && (forall h | h in l.handles :: HandleOk(l, h))
    && (forall j :: EventOk(l, j))
    && OneEventEach(l.origin) && Distinct(l.pending)
    && (forall h, g | h in l.handles && g in l.handles && h.addr == g.addr :: h == g)
  }

  lemma FreshLedgerOk(l: Ledger)
    requires l == Ledger(0, [], [], [], map[], map[], map[], [], [])
    ensures LedgerOk(l)
  {
  }

  lemma OpenKeeps(l: Ledger, h: Q.Handle)
    requires LedgerOk(l) && h !in l.handles && h !in l.owner.Values && h.openedAt == |l.created|
    requires forall g | g in l.handles :: g.addr != h.addr
    ensures LedgerOk(l.(handles := [h] + l.handles, since := l.since[h := l.counter]))
  {
    var l' := l.(handles := [h] + l.handles, since := l.since[h := l.counter]);
    forall g, r | g in l'.handles
      ensures OwnerOk(l', g, r)
    {
      assert OwnerOk(l, g, r) && RequestOk(l, r);
      assert r in l.owner ==> l.owner[r] in l.owner.Values;
    }
    forall j
      ensures EventOk(l', j)
    {
      assert EventOk(l, j);
      assert j in l.origin ==> l.owner[l.origin[j]] in l.owner.Values;
    }
    assert forall r :: RequestOk(l, r) ==> RequestOk(l', r);
    assert forall g | g in l.handles :: HandleOk(l, g) ==> HandleOk(l', g);
  }

  lemma ReleaseKeeps(l: Ledger, handles: seq<Q.Handle>)
    requires LedgerOk(l) && forall h | h in handles :: h in l.handles
    ensures LedgerOk(l.(handles := handles))
  {
    var l' := l.(handles := handles);
    assert forall r :: RequestOk(l, r) ==> RequestOk(l', r);
    assert forall h, r | h in l'.handles :: OwnerOk(l, h, r) ==> OwnerOk(l', h, r);
    assert forall h | h in l'.handles :: HandleOk(l, h) ==> HandleOk(l', h);
    assert forall j :: EventOk(l, j) ==> EventOk(l', j);
  }

  lemma SerialIsNew(l: Ledger, r: Req)
    requires LedgerOk(l) && r.serial > l.counter
    ensures r !in l.submitted
  {
    assert RequestOk(l, r);
  }

  lemma SubmitLogs(d: Dma, d': Dma, r: Req)
    requires DmaMachine.Submit(d, d', r)
    ensures d'.submitted == d.submitted + [r] && d'.completed == d.completed
  {
  }

  lemma SubmitKeeps(l: Ledger, h: Q.Handle, r: Req, l': Ledger)
    requires LedgerOk(l) && h in l.handles
    requires r.serial == l.counter + 1 && r.ticket == Ticket(r.serial) && r.cookie == h.addr
    requires l' == l.(counter := l.counter + 1, submitted := l.submitted + [r], owner := l.owner[r := h])
    ensures LedgerOk(l')
  {
    assert RequestOk(l, r) && HandleOk(l, h);
    forall q
      ensures RequestOk(l', q)
    {
      assert RequestOk(l, q);
    }
    forall g, q | g in l.handles
      ensures OwnerOk(l', g, q)
    {
      assert OwnerOk(l, g, q) && HandleOk(l, g);
    }
    forall j
      ensures EventOk(l', j)
    {
      assert EventOk(l, j);
    }
    assert forall g | g in l.handles :: HandleOk(l, g) ==> HandleOk(l', g);
  }

  lemma FinishKeeps(l: Ledger, r: Req, l': Ledger)
    requires LedgerOk(l) && r in l.submitted && r !in l.completed
    requires l' == l.(completed := l.completed + [r], pending := l.pending + [r])
    ensures LedgerOk(l')
  {
    assert RequestOk(l, r);
    assert forall q :: RequestOk(l, q) ==> RequestOk(l', q);
    assert forall h, q | h in l.handles :: OwnerOk(l, h, q) ==> OwnerOk(l', h, q);
    assert forall h | h in l'.handles :: HandleOk(l, h) ==> HandleOk(l', h);
    assert forall j :: EventOk(l, j) ==> EventOk(l', j);
  }

  lemma NotifyKeeps(l: Ledger, k: nat, time: int, l': Ledger)
    requires LedgerOk(l) && k < |l.pending|
    requires l' == l.(pending := l.pending[..k] + l.pending[k + 1..], origin := l.origin[|l.created| := l.pending[k]],
                      created := l.created + [Completion(l.pending[k], time)])
    ensures LedgerOk(l')
  {
    var r, n := l.pending[k], |l.created|;
    assert RequestOk(l, r) && EventOk(l, n);
    forall q
      ensures RequestOk(l', q)
    {
      assert RequestOk(l, q);
      PendingWithout(l.pending, k, q);
      OriginWith(l.origin, n, r, q);
    }
    forall j
      ensures EventOk(l', j)
    {
      assert EventOk(l, j) && HandleOk(l, l.owner[r]);
    }
    forall j | j in l.origin
      ensures l.origin[j] != r
    {
      assert l.origin[j] in l.origin.Values;
    }
    assert forall h, q | h in l.handles :: OwnerOk(l, h, q) ==> OwnerOk(l', h, q);
    assert forall h | h in l'.handles :: HandleOk(l, h) ==> HandleOk(l', h);
  }

  lemma PendingWithout(s: seq<Req>, k: nat, q: Req)
    requires Distinct(s) && k < |s|
    ensures q in s[..k] + s[k + 1..] <==> q in s && q != s[k]
  {
    if q in s && q != s[k] {
      var i :| 0 <= i < |s| && s[i] == q;
      assert (s[..k] + s[k + 1..])[if i < k then i else i - 1] == q;
    }
  }

  lemma OriginWith(m: map<nat, Req>, n: nat, r: Req, q: Req)
    requires n !in m
    ensures q in m[n := r].Values <==> q in m.Values || q == r
  {
    assert m[n := r][n] == r;
    if q in m.Values {
      var j :| j in m && m[j] == q;
      assert m[n := r][j] == q;
    }
  }

  lemma RaiseKeeps(l: Ledger, e: Q.Event)
    requires LedgerOk(l) && e.kind != Q.BIFROST_EVENT_TYPE_DMA_DONE
    ensures LedgerOk(l.(created := l.created + [e]))
  {
    var l' := l.(created := l.created + [e]);
    assert forall r :: RequestOk(l, r) ==> RequestOk(l', r);
    assert forall h, r | h in l'.handles :: OwnerOk(l, h, r) ==> OwnerOk(l', h, r);
    assert forall h | h in l'.handles :: HandleOk(l, h) ==> HandleOk(l', h);
    assert forall j :: EventOk(l, j) ==> EventOk(l', j);
  }

  class Bifrost {
    const ctl: DmaController
    const dev: Q.Device
    var counter: nat
    /** Requests whose channel has been passed on and whose event has yet to be created. */
    var pending: seq<Req>
    ghost var owner: map<Req, Q.Handle>
    ghost var origin: map<nat, Req>
    ghost var since: map<Q.Handle, nat>

    ghost function View(): Ledger
      reads this, ctl, dev
    {
      Ledger(counter, ctl.state.submitted, ctl.state.completed, pending, owner, origin, since, dev.handles, dev.created)
    }

    ghost predicate Valid()
      reads this, ctl, ctl.ch, dev, dev.handles
    {
      ctl.Valid() && dev.Valid() && LedgerOk(View())
    }

    constructor (capability: nat, status: nat, irq: int)
      requires status < Bits.Pow2(MAX_DMA_CHANNELS)
      ensures Valid() && fresh(ctl) && fresh(ctl.ch) && fresh(dev) && ctl.irq == irq && ctl.numCh == capability % 16
      ensures ctl.inService == set c | 0 <= c < ctl.numCh && !Bits.Bit(status, c)
      ensures ctl.state == Fresh(ctl.inService) && dev.handles == [] && pending == []
    {
      ctl := new DmaController(capability, status, irq);
      dev := new Q.Device();
      counter, pending, owner, origin, since := 0, [], map[], map[], map[];
      new;
      FreshLedgerOk(View());
    }

    method Open(addr: nat) returns (h: Q.Handle)
      requires Valid() && forall i | 0 <= i < |dev.handles| :: dev.handles[i].addr != addr
      modifies this`since, dev
      ensures Valid() && fresh(h) && h.addr == addr && h.View() == Q.OPENED
      ensures dev.handles == [h] + old(dev.handles) && since == old(since)[h := counter]
    {
      ghost var l := View();
      h := dev.Open(addr);
      since := since[h := counter];
      OpenKeeps(l, h);
    }

    method Release(k: nat)
      requires Valid() && k < |dev.handles|
      modifies dev
      ensures Valid() && dev.handles == old(dev.handles)[..k] + old(dev.handles)[k + 1..]
    {
      ReleaseKeeps(View(), dev.handles[..k] + dev.handles[k + 1..]);
      dev.Release(k);
    }

    twostate lemma DeviceKept()
      requires old(dev.Valid()) && unchanged(dev) && forall i | 0 <= i < |dev.handles| :: unchanged(dev.handles[i])
      ensures dev.Valid()
    {
    }

    method Launch(r: Req) returns (start: int)
      requires ctl.Valid() && r !in ctl.state.submitted
      modifies ctl, ctl.ch
      ensures ctl.Valid() && DmaMachine.Submit(old(ctl.state), ctl.state, r)
      ensures ctl.state.submitted == old(ctl.state.submitted) + [r] && ctl.state.completed == old(ctl.state.completed)
      ensures start < 0 <==> old(ctl.state).idle == {}
      ensures start >= 0 ==> start in ctl.state.busy && ctl.state.busy[start] == r
    {
      start := ctl.StartXfer(r);
      SubmitLogs(old(ctl.state), ctl.state, r);
    }

    /** Submit a request of `len` bytes: its cookie is the handle, its ticket the next one. */
    method Submit(h: Q.Handle, len: nat) returns (r: Req, start: int)
      requires Valid() && h in dev.handles
      modifies this`counter, this`owner, ctl, ctl.ch
      ensures Valid() && counter == old(counter) + 1
      ensures r == Req(counter, Ticket(counter), h.addr, len) && owner == old(owner)[r := h]
      ensures DmaMachine.Submit(old(ctl.state), ctl.state, r)
      ensures start < 0 <==> old(ctl.state).idle == {}
      ensures start >= 0 ==> start in ctl.state.busy && ctl.state.busy[start] == r
    {
      ghost var l := View();
      r := Req(counter + 1, Ticket(counter + 1), h.addr, len);
      SerialIsNew(l, r);
      counter := counter + 1;
      owner := owner[r := h];
      start := Launch(r);
      DeviceKept();
      SubmitKeeps(l, h, r, View());
    }

    /** The interrupt handler up to the controller's lock. */
    method Take(i: int) returns (taken: Option<(nat, Req)>)
      requires Valid()
      modifies ctl, ctl.ch
      ensures Valid()
      ensures taken.None? <==> !(ctl.irq <= i < ctl.irq + ctl.numCh) || i - ctl.irq !in old(ctl.state).busy
      ensures taken.Some? ==> taken.value == (i - ctl.irq, old(ctl.state).busy[i - ctl.irq])
      ensures if taken.Some? then DmaMachine.Take(old(ctl.state), ctl.state, i - ctl.irq)
              else ctl.state == old(ctl.state)
    {
      ghost var l := View();
      taken := ctl.DoneTake(i);
      assert View() == l;
    }

    method Retire(c: nat, ghost r: Req)
      requires ctl.Valid() && c in ctl.state.retiring && r == ctl.state.retiring[c]
      modifies ctl, ctl.ch
      ensures ctl.Valid() && DmaMachine.Finish(old(ctl.state), ctl.state, c)
      ensures ctl.state.submitted == old(ctl.state.submitted) && ctl.state.completed == old(ctl.state.completed) + [r]
    {
      var next := ctl.DoneFinish(c);
    }

    /** The part of the interrupt handler under the lock, `r` being the request it took. */
    method Finish(c: nat, r: Req)
      requires Valid() && c in ctl.state.retiring && r == ctl.state.retiring[c]
      modifies this`pending, ctl, ctl.ch
      ensures Valid() && DmaMachine.Finish(old(ctl.state), ctl.state, c)
      ensures pending == old(pending) + [r]
    {
      RetiringIsSubmitted(ctl.inService, ctl.state, c);
      ghost var l := View();
      pending := pending + [r];
      Retire(c, r);
      DeviceKept();
      FinishKeeps(l, r, View());
    }

    /** The event of a completed request is created. */
    method Notify(k: nat, time: int, memory: seq<bool>)
      requires Valid() && k < |pending| && |memory| == |dev.handles|
      modifies this`pending, this`origin, dev, dev.handles
      ensures Valid() && dev.handles == old(dev.handles)
      ensures pending == old(pending)[..k] + old(pending)[k + 1..]
      ensures dev.created == old(dev.created) + [Completion(old(pending)[k], time)]
      ensures var e, r := dev.created[|old(dev.created)|], old(pending)[k];
              e.kind == Q.BIFROST_EVENT_TYPE_DMA_DONE && e.id == r.ticket && e.cookie == r.cookie && e.time == time
      ensures origin == old(origin)[|old(dev.created)| := old(pending)[k]]
      ensures forall i | 0 <= i < |dev.handles| ::
        Q.Received(dev.handles[i], old(dev.handles[i].View()), Completion(old(pending)[k], time), memory[i])
    {
      var r := pending[k];
      ghost var l := View();
      dev.CreateEvent(Completion(r, time), memory);
      pending := pending[..k] + pending[k + 1..];
      origin := origin[|dev.created| - 1 := r];
      NotifyKeeps(l, k, time, View());
    }

    /** `dma_done`, when nothing interleaves with it. */
    method Complete(i: int) returns (done: Option<Req>)
      requires Valid()
      modifies this`pending, ctl, ctl.ch
      ensures Valid()
      ensures done.None? <==> !(ctl.irq <= i < ctl.irq + ctl.numCh) || i - ctl.irq !in old(ctl.state).busy
      ensures done.Some? ==> done.value == old(ctl.state).busy[i - ctl.irq]
      ensures pending == if done.Some? then old(pending) + [done.value] else old(pending)
    {
      var taken := Take(i);
      if taken.None? {
        return None;
      }
      Finish(taken.value.0, taken.value.1);
      return Some(taken.value.1);
    }

    /** The interrupt handler: the event of a completed request is created at once. */
    method Interrupt(i: int, time: int, memory: seq<bool>) returns (done: Option<Req>)
      requires Valid() && |memory| == |dev.handles|
      modifies this`pending, this`origin, ctl, ctl.ch, dev, dev.handles
      ensures Valid() && dev.handles == old(dev.handles) && pending == old(pending)
      ensures done.None? <==> !(ctl.irq <= i < ctl.irq + ctl.numCh) || i - ctl.irq !in old(ctl.state).busy
      ensures done.None? ==> dev.created == old(dev.created)
      ensures done.Some? ==> done.value == old(ctl.state).busy[i - ctl.irq]
      ensures done.Some? ==> dev.created == old(dev.created) + [Completion(done.value, time)]
      ensures done.Some? ==> var e, r := dev.created[|old(dev.created)|], done.value;
              e.kind == Q.BIFROST_EVENT_TYPE_DMA_DONE && e.id == r.ticket && e.cookie == r.cookie && e.time == time
      ensures done.Some? ==> forall i | 0 <= i < |dev.handles| ::
        Q.Received(dev.handles[i], old(dev.handles[i].View()), Completion(done.value, time), memory[i])
    {
      done := Complete(i);
      if done.Some? {
        Notify(|pending| - 1, time, memory);
      }
    }

    /** Any other event is created. */
    method Raise(e: Q.Event, memory: seq<bool>)
      requires Valid() && e.kind != Q.BIFROST_EVENT_TYPE_DMA_DONE && |memory| == |dev.handles|
      modifies dev, dev.handles
      ensures Valid() && dev.handles == old(dev.handles) && dev.created == old(dev.created) + [e]
    {
      RaiseKeeps(View(), e);
      dev.CreateEvent(e, memory);
    }

    method Enable(h: Q.Handle, mask: nat)
      requires Valid() && h in dev.handles
      modifies h
      ensures Valid() && h.View() == old(h.View()).(enableMask := mask)
    {
      HandleValid(h);
      h.EnableEvents(mask);
      StillValid(h);
    }

    method Read(h: Q.Handle) returns (e: Option<Q.Event>)
      requires Valid() && h in dev.handles
      modifies h
      ensures Valid() && h.View() == Q.Dequeue(old(h.View()))
      ensures e == if old(h.eventList) == [] then None else Some(old(h.eventList)[0])
    {
      HandleValid(h);
      e := h.DequeueEvent();
      StillValid(h);
    }

    lemma HandleValid(h: Q.Handle)
      requires dev.Valid() && h in dev.handles
      ensures Q.HandleOk(h, dev.created)
    {
      var i :| 0 <= i < |dev.handles| && dev.handles[i] == h;
    }

    twostate lemma StillValid(h: Q.Handle)
      requires old(Valid()) && h in old(dev.handles) && h.Valid() && h.offers == old(h.offers)
      requires ctl.Valid() && View() == old(View())
      requires forall g | g in dev.handles && g != h :: unchanged(g)
      ensures Valid()
    {
      forall i | 0 <= i < |dev.handles|
        ensures Q.HandleOk(dev.handles[i], dev.created)
      {
        var g := dev.handles[i];
        assert old(Q.HandleOk(g, dev.created));
        if g != h {
          assert g in dev.handles && unchanged(g);
          assert Q.HandleOk(g, dev.created);
        }
      }
    }

    /** An open handle is offered the completion, with the ticket, of each of its requests whose event was created. */
    lemma SubmitterIsOffered(h: Q.Handle, r: Req) returns (m: nat)
      requires Valid() && h in dev.handles && r in owner && owner[r] == h
      requires r in ctl.state.completed && r !in pending
      ensures m < |h.offers|
      ensures var e := h.offers[m].e; e.kind == Q.BIFROST_EVENT_TYPE_DMA_DONE && e.id == r.ticket && e.cookie == h.addr
    {
      assert RequestOk(View(), r);
      var j :| j in origin && origin[j] == r;
      assert EventOk(View(), j);
      HandleValid(h);
      m := j - h.openedAt;
      assert Q.Offered(h.offers)[m] == dev.created[j];
    }

    /** Two requests of one open handle, less than 2^31 submissions apart, complete with different ids. */
    lemma CompletionsDiffer(h: Q.Handle, r: Req, q: Req) returns (m: nat, n: nat)
      requires Valid() && h in dev.handles && r in owner && owner[r] == h && q in owner && owner[q] == h
      requires r in ctl.state.completed && r !in pending && q in ctl.state.completed && q !in pending
      requires r.serial < q.serial < r.serial + 0x8000_0000
      ensures m < |h.offers| && n < |h.offers|
      ensures h.offers[m].e.id == r.ticket && h.offers[n].e.id == q.ticket
      ensures h.offers[m].e.id != h.offers[n].e.id
    {
      m := SubmitterIsOffered(h, r);
      n := SubmitterIsOffered(h, q);
      assert RequestOk(View(), r) && RequestOk(View(), q);
      TicketsDiffer(r.serial, q.serial);
    }

    /**
     A completion an open handle wanted carries the ticket of a request submitted under its address. The request
     is the handle's own if and only if it is younger than the handle, which is to say that its submitter is open.
     */
    lemma WantedIsOwnIff(h: Q.Handle, m: nat) returns (r: Req)
      requires Valid() && h in dev.handles && m < |h.offers|
      requires h.offers[m].wanted && h.offers[m].e.kind == Q.BIFROST_EVENT_TYPE_DMA_DONE
      ensures h.offers[m].e.id == r.ticket && r in ctl.state.completed && r in owner && h in since
      ensures r.cookie == h.addr && r.ticket == Ticket(r.serial)
      ensures owner[r] == h <==> since[h] < r.serial
      ensures owner[r] == h <==> owner[r] in dev.handles
    {
      HandleValid(h);
      var j := h.openedAt + m;
      assert Q.Offered(h.offers)[m] == dev.created[j];
      assert EventOk(View(), j);
      r := origin[j];
      assert r in origin.Values;
      assert RequestOk(View(), r) && OwnerOk(View(), h, r) && HandleOk(View(), h);
    }
  }

  lemma FirstCompletion(h: Q.Handle, r: Req, time: int)
    requires Q.Received(h, Q.OPENED.(enableMask := Q.BIFROST_EVENT_TYPE_DMA_DONE), Completion(r, time), true)
    requires h.addr == r.cookie
    ensures h.eventList == [Completion(r, time)]
  {
    assert Bits.And(8, 8) == 8;
    assert h.View().list == [] + [Completion(r, time)];
  }

  /** A handle submits a transfer and closes. */
  method SubmitAndClose(b: Bifrost, addr: nat, len: nat) returns (submitter: Q.Handle, r: Req, start: int)
    requires b.Valid() && b.dev.handles == [] && b.ctl.state.idle != {}
    modifies b, b.ctl, b.ctl.ch, b.dev
    ensures b.Valid() && b.dev.handles == [] && r in b.owner && b.owner[r] == submitter && r.cookie == addr
    ensures 0 <= start < b.ctl.numCh && start in b.ctl.state.busy && b.ctl.state.busy[start] == r
  {
    submitter := b.Open(addr);
    r, start := b.Submit(submitter, len);
    b.Release(0);
    assert ChannelOk(b.ctl.inService, b.ctl.state, start);
  }

  /** A handle submits a transfer and closes; another one is opened at its address and enables completions. */
  method Reopen(b: Bifrost, addr: nat, len: nat) returns (submitter: Q.Handle, h: Q.Handle, r: Req, start: int)
    requires b.Valid() && b.dev.handles == [] && b.ctl.state.idle != {}
    modifies b, b.ctl, b.ctl.ch, b.dev
    ensures b.Valid() && b.dev.handles == [h] && h != submitter && r in b.owner && b.owner[r] == submitter
    ensures 0 <= start < b.ctl.numCh && start in b.ctl.state.busy && b.ctl.state.busy[start] == r
    ensures fresh(h) && h.addr == addr == r.cookie && h.View() == Q.OPENED.(enableMask := Q.BIFROST_EVENT_TYPE_DMA_DONE)
  {
    submitter, r, start := SubmitAndClose(b, addr, len);
    h := b.Open(addr);
    b.Enable(h, Q.BIFROST_EVENT_TYPE_DMA_DONE);
  }

  /** The interrupt of the only transfer reaches the only handle. */
  method Deliver(b: Bifrost, h: Q.Handle, r: Req, start: int, time: int)
    requires b.Valid() && b.dev.handles == [h] && 0 <= start < b.ctl.numCh
    requires start in b.ctl.state.busy && b.ctl.state.busy[start] == r && h.addr == r.cookie
    requires h.View() == Q.OPENED.(enableMask := Q.BIFROST_EVENT_TYPE_DMA_DONE)
    modifies b`pending, b`origin, b.ctl, b.ctl.ch, b.dev, h
    ensures b.Valid() && b.dev.handles == [h]
    ensures h.eventList == [Completion(r, time)]
  {
    assert b.dev.handles[0] == h;
    var memory := [true];
    var done := b.Interrupt(b.ctl.irq + start, time, memory);
    FirstCompletion(b.dev.handles[0], r, time);
  }

  /**
   A handle opened at the address of one that closed with a transfer under way gets the completion of a transfer
   it did not submit.
   */
  method StaleCompletion(b: Bifrost, addr: nat, len: nat, time: int) returns (submitter: Q.Handle, h: Q.Handle, r: Req)
    requires b.Valid() && b.dev.handles == [] && b.ctl.state.idle != {}
    modifies b, b.ctl, b.ctl.ch, b.dev
    ensures b.Valid() && h in b.dev.handles && submitter !in b.dev.handles
    ensures r in b.owner && b.owner[r] == submitter && h != submitter
    ensures |h.eventList| == 1 && h.eventList[0].kind == Q.BIFROST_EVENT_TYPE_DMA_DONE
    ensures h.eventList[0].id == r.ticket && h.eventList[0].time == time
  {
    var start;
    submitter, h, r, start := Reopen(b, addr, len);
    Deliver(b, h, r, start, time);
  }

  /** Such a run exists: one channel, found idle when the device starts. */
  method StaleRun(addr: nat, len: nat, time: int) returns (b: Bifrost, submitter: Q.Handle, h: Q.Handle, r: Req)
    ensures fresh(b) && b.Valid() && h in b.dev.handles && submitter !in b.dev.handles
    ensures r in b.owner && b.owner[r] == submitter && |h.eventList| == 1 && h.eventList[0].id == r.ticket
  {
    b := new Bifrost(1, 0, 0);
    assert 0 in b.ctl.state.idle;
    submitter, h, r := StaleCompletion(b, addr, len, time);
  }
}
