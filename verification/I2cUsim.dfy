/**
 The I2C user-space simulator driver: allocated events, the event list and the user count, updated in place.
 Each method is one step of the rendezvous.
 */
module I2cUsim {
  import opened Common
  import opened UsimMachine

  class Simulator {
    var events: map<nat, Event>
    var list: seq<nat>
    var users: nat
    var ticket: nat
    ghost var state: Usim

    ghost predicate Valid()
      reads this
    {
      && events == state.events && list == state.queue && users == state.users
      && (forall t | t in state.pos :: t <= ticket)
      && Inv(state)
    }

    constructor ()
      ensures Valid() && state == EMPTY && events == map[] && list == [] && users == ticket == 0
    {
      events, list, users, ticket, state := map[], [], 0, 0, EMPTY;
      EmptyInv();
    }

    /** Allocate an event with the next ticket and post it. */
    method PostEvent(read: bool, len: nat, data: seq<nat>) returns (t: nat)
      requires Valid() && |data| == DATA_SIZE
      modifies this
      ensures Valid() && t == old(ticket) + 1 && ticket == t
      ensures Next(old(state), state, DoPost(t, Event(read, Ready, 0, 1, len, data)))
    {
      ticket := ticket + 1;
      t := ticket;
      var e := Event(read, Ready, 0, 1, len, data);
      assert TicketOk(state, t);
      events := events[t := e];
      list := list + [t];
      state := state.(events := events, queue := list, senders := state.senders[t := Waiting],
                      pos := state.pos[t := |state.pos|]);
      NextKeepsInv(old(state), state, DoPost(t, e));
    }

    /** The wait ends because the event is done, or else because of a signal. */
    method Wait(t: nat) returns (v: int)
      requires Valid() && t in state.senders && state.senders[t] == Waiting
      modifies this
      ensures Valid() && Next(old(state), state, DoWake(t))
      ensures v == if state.senders[t] == Woken(true) then ERESTARTSYS else 0
      ensures t in old(events) && (v == 0 <==> old(events)[t].state == Done) && events == old(events)
    {
      assert TicketOk(state, t);
      v := if events[t].state == Done then 0 else ERESTARTSYS;
      state := state.(senders := state.senders[t := Woken(events[t].state != Done)]);
      NextKeepsInv(old(state), state, DoWake(t));
    }

    method ListDel(t: nat)
      requires Valid() && t in state.senders && state.senders[t].Woken?
      modifies this
      ensures Valid() && Next(old(state), state, DoUnlink(t))
    {
      list := Without(list, t);
      state := state.(queue := list, senders := state.senders[t := Unlinked(state.senders[t].cut)]);
      NextKeepsInv(old(state), state, DoUnlink(t));
    }

    /** The sender reads the outcome, `wait` being what its wait returned, and drops its reference. */
    method TakeResult(t: nat, wait: int) returns (v: int, len: nat, data: seq<nat>)
      requires Valid() && t in state.senders && state.senders[t].Unlinked?
      requires wait == if state.senders[t].cut then ERESTARTSYS else 0
      modifies this
      ensures Valid() && Next(old(state), state, DoReturn(t))
      ensures state.senders[t] == Returned(old(state).senders[t].cut, v, len, data)
    {
      assert TicketOk(state, t);
      var e := events[t];
      v := if e.status == 0 then wait else e.status;
      len, data := e.len, e.data;
      events := Put(events, t);
      state := state.(events := events, senders := state.senders[t := Returned(state.senders[t].cut, v, len, data)]);
      NextKeepsInv(old(state), state, DoReturn(t));
    }

    /** The sender of an SMBus block read: a reply of 1 to 32 bytes is its result, any other length an error. */
    method FinishBlockRead(t: nat, wait: int) returns (v: int, block: seq<nat>)
      requires Valid() && t in state.senders && state.senders[t].Unlinked?
      requires wait == if state.senders[t].cut then ERESTARTSYS else 0
      modifies this
      ensures Valid() && Next(old(state), state, DoReturn(t)) && state.senders[t].Returned?
      ensures |state.senders[t].data| == DATA_SIZE
      ensures (v, block) == BlockRead(state.senders[t])
    {
      assert TicketOk(state, t);
      var len, data;
      v, len, data := TakeResult(t, wait);
      block := [];
      if v == 0 {
        if len > 0 && len <= I2C_SMBUS_BLOCK_MAX {
          block := data[..len];
        } else {
          v := EPROTO;
        }
      }
    }

    /** The sender of a plain read of `n` bytes. */
    method FinishI2cRead(t: nat, wait: int, n: nat) returns (v: int, bytes: seq<nat>)
      requires Valid() && t in state.senders && state.senders[t].Unlinked? && n <= DATA_SIZE
      requires wait == if state.senders[t].cut then ERESTARTSYS else 0
      modifies this
      ensures Valid() && Next(old(state), state, DoReturn(t)) && state.senders[t].Returned?
      ensures |state.senders[t].data| == DATA_SIZE
      ensures (v, bytes) == I2cRead(state.senders[t], n)
    {
      assert TicketOk(state, t);
      var len, data;
      v, len, data := TakeResult(t, wait);
      bytes := if v == 0 then data[..n] else [];
    }

    /** Only one user may have the device open. */
    method OpenDevice() returns (ok: bool)
      requires Valid()
      modifies this
      ensures Valid() && (ok <==> old(users) == 0)
      ensures if ok then Next(old(state), state, DoOpen) && users == 1 else state == old(state)
    {
      if users == 1 {
        return false;
      }
      users := users + 1;
      state := state.(users := users);
      NextKeepsInv(old(state), state, DoOpen);
      return true;
    }

    method Poll() returns (readable: bool)
      requires Valid()
      ensures readable <==> exists t :: FirstReady(state, t)
    {
      var i := FindReady();
      if i < |list| {
        assert FirstReady(state, list[i]);
      }
      return i < |list|;
    }

    /** Index of the first ready event on the list. */
    method FindReady() returns (i: nat)
      requires Valid()
      ensures i <= |list| && forall j | 0 <= j < i :: list[j] in events && events[list[j]].state != Ready
      ensures i < |list| ==> FirstReadyAt(state, list[i], i)
      ensures i == |list| ==> forall t :: !FirstReady(state, t)
    {
      i := 0;
      while i < |list|
        invariant 0 <= i <= |list|
        invariant forall j | 0 <= j < i :: list[j] in events && events[list[j]].state != Ready
      {
        assert TicketOk(state, list[i]);
        if events[list[i]].state == Ready {
          return;
        }
        i := i + 1;
      }
    }

    /** First half of GET. */
    method GetFirstReady() returns (r: Option<nat>)
      requires Valid() && users == 1 && state.receiver == Idle
      modifies this
      ensures Valid()
      ensures r.Some? ==> Next(old(state), state, DoGet(r.value))
      ensures r.None? ==> state == old(state) && forall t :: !FirstReady(state, t)
    {
      var i := FindReady();
      if i == |list| {
        return None;
      }
      var t := list[i];
      var e := events[t];
      events := events[t := e.(state := InProgress, refcnt := e.refcnt + 1)];
      state := state.(events := events, receiver := Got(t), held := state.held + {t}, handed := state.handed + [t]);
      assert FirstReadyAt(old(state), t, i);
      NextKeepsInv(old(state), state, DoGet(t));
      return Some(t);
    }

    /** Second half of GET: the event reached the user, or it is completed with an error. */
    method FinishGet(t: nat, copied: bool)
      requires Valid() && state.receiver == Got(t)
      modifies this
      ensures Valid()
      ensures Next(old(state), state, if copied then DoGetReturn(t) else DoGetFail(t))
    {
      if copied {
        state := state.(receiver := Idle, mine := state.mine + {t});
        NextKeepsInv(old(state), state, DoGetReturn(t));
      } else {
        assert TicketOk(state, t);
        var r := Reply(EIO, events[t].len, events[t].data);
        events := events[t := Mark(events[t], r)];
        state := state.(events := events, receiver := Marked(t), replies := state.replies[t := r]);
        NextKeepsInv(old(state), state, DoGetFail(t));
      }
    }

    /**
     First half of PUT: any ticket is looked up. A ticket the receiver owes is settled by this, even when the
     event is no longer on the list because its sender gave up.
     */
    method LookupTicket(t: nat) returns (found: bool)
      requires Valid() && users == 1 && state.receiver == Idle
      modifies this`state
      ensures Valid() && (found <==> t in list)
      ensures if t in old(state).mine then Next(old(state), state, DoPutLookup(t)) else state == old(state)
    {
      found := false;
      var i := 0;
      while i < |list|
        invariant 0 <= i <= |list| && !found && t !in list[..i]
      {
        if list[i] == t {
          found := true;
          break;
        }
        i := i + 1;
      }
      if t in state.mine {
        state := if found then state.(receiver := Found(t), mine := state.mine - {t})
                 else state.(mine := state.mine - {t}, stranded := state.stranded + {t});
        NextKeepsInv(old(state), state, DoPutLookup(t));
      }
    }

    /** Second half of PUT, up to the wake-up of the sender: what the user passes in becomes the reply. */
    method CompleteEvent(t: nat, arg: PutArg) returns (ok: bool)
      requires Valid() && state.receiver == Found(t) && |arg.data| == arg.len
      modifies this
      ensures Valid() && Next(old(state), state, DoPutMark(t, arg))
      ensures ok <==> state.replies[t].status == 0
    {
      assert TicketOk(state, t);
      var e := events[t];
      var r := Reply(0, e.len, e.data);
      if e.read {
        r := FetchReply(e, arg);
      }
      ok := r.status == 0;
      events := events[t := Mark(e, r)];
      state := state.(events := events, receiver := Marked(t), replies := state.replies[t := r]);
      NextKeepsInv(old(state), state, DoPutMark(t, arg));
    }

    /** A read takes length and data from the user; each step may fail. */
    static method FetchReply(e: Event, arg: PutArg) returns (r: Reply)
      requires e.read && |e.data| == DATA_SIZE && |arg.data| == arg.len
      ensures r == StoredReply(e, arg)
    {
      r := Reply(EIO, e.len, e.data);
      if !arg.lenRead {
        return;
      }
      r := r.(len := arg.len);
      if r.len > DATA_SIZE || !arg.copied {
        return;
      }
      r := Reply(0, r.len, arg.data + e.data[r.len..]);
    }

    /** The receiver's reference is dropped after the event was marked done. */
    method DropEvent(t: nat)
      requires Valid() && state.receiver == Marked(t)
      modifies this
      ensures Valid() && Next(old(state), state, DoPutDrop(t))
    {
      assert TicketOk(state, t);
      events := Put(events, t);
      state := state.(events := events, receiver := Idle, held := state.held - {t});
      NextKeepsInv(old(state), state, DoPutDrop(t));
    }

    /**
     PUT of a ticket that is on the list but was never got, or was put before: it is completed all the same, and the
     sender's reference is dropped instead of the receiver's. The event is freed while it is still on the list.
     */
    method PutUnowed(t: nat, arg: PutArg)
      requires Valid() && users == 1 && state.receiver == Idle && |arg.data| == arg.len
      requires t in list && t !in state.mine
      modifies `events
      ensures t in list && t !in events
    {
      assert TicketOk(state, t);
      var r := Reply(0, events[t].len, events[t].data);
      if events[t].read {
        r := FetchReply(events[t], arg);
      }
      PutSafeIffOwed(state, t, r);
      events := events[t := Mark(events[t], r)];
      events := Put(events, t);
    }

    /** RELEASE: complete the orphans, all under the lock. */
    method CloseDevice()
      requires Valid() && users == 1 && state.receiver == Idle
      modifies this
      ensures Valid() && Next(old(state), state, DoClose) && users == 0 && list == old(list)
    {
      ghost var was := state;
      CompleteOrphans();
      users := users - 1;
      state := state.(events := events, users := 0, mine := {}, held := state.held - Orphans(was),
                      stranded := state.stranded + (state.mine - Orphans(was)),
                      replies := state.replies + OrphanReplies(was));
      NextKeepsInv(was, state, DoClose);
    }

    method CompleteOrphans()
      requires Valid()
      modifies `events
      ensures events == CloseEvents(state)
    {
      var i := 0;
      while i < |list|
        invariant 0 <= i <= |list| && events.Keys == state.events.Keys
        invariant forall t | t in state.events ::
          events[t] == if t in list[..i] then CloseEvent(state.events[t]) else state.events[t]
      {
        var t := list[i];
        QueuedIsHeld(state, i);
        if events[t].state == InProgress {
          events := events[t := Mark(events[t], Reply(EIO, events[t].len, events[t].data))];
          events := Put(events, t);
        }
        assert list[..i + 1] == list[..i] + [t];
        i := i + 1;
      }
      assert list[..i] == list;
    }
  }

  /** The sender's reference keeps a queued event alive when the receiver's is dropped. */
  lemma QueuedIsHeld(u: Usim, i: nat)
    requires Inv(u) && i < |u.queue|
    ensures u.queue[i] in u.events && u.queue[i] !in u.queue[..i]
    ensures u.events[u.queue[i]].state == InProgress ==> u.events[u.queue[i]].refcnt == 2
  {
    assert TicketOk(u, u.queue[i]);
    NotAmongEarlier(u, i);
  }

  lemma NotAmongEarlier(u: Usim, i: nat)
    requires Inv(u) && i < |u.queue|
    ensures u.queue[i] !in u.queue[..i]
  {
    forall j | 0 <= j < i
      ensures u.queue[j] != u.queue[i]
    {
      assert u.pos[u.queue[j]] < u.pos[u.queue[i]];
    }
  }

  // ----- What a sender makes of its reply -----

  /** Result of an SMBus block read. */
  function BlockRead(s: Sender): (int, seq<nat>)
    requires s.Returned? && |s.data| == DATA_SIZE
  {
    if s.result != 0 then (s.result, [])
    else if 0 < s.len <= I2C_SMBUS_BLOCK_MAX then (0, s.data[..s.len])
    else (EPROTO, [])
  }

  /** Result of a plain read of `n` bytes. */
  function I2cRead(s: Sender, n: nat): (int, seq<nat>)
    requires s.Returned? && |s.data| == DATA_SIZE && n <= DATA_SIZE
  {
    if s.result != 0 then (s.result, []) else (0, s.data[..n])
  }

  /** Every reply stored in a run was put, or is the error of a GET that failed or of a close. */
  lemma {:induction false} ReplyOrigin(us: seq<Usim>, ss: seq<Step>, n: nat, t: nat) returns (i: nat)
    requires Run(us, ss) && n < |us| && t in us[n].replies
    ensures i < n && t in us[i].events && us[i].events[t].state != Done
    ensures if ss[i].DoPutMark?
            then ReplyPut(us, ss, i, t) && us[n].replies[t] == StoredReply(us[i].events[t], ss[i].arg)
            else us[n].replies[t].status == EIO
  {
    TicketInRun(us, ss, n - 1, t);
    assert StepAt(us, ss, n - 1);
    if t in us[n - 1].replies {
      i := ReplyOrigin(us, ss, n - 1, t);
      RunIsMonotone(us, ss, n - 1, n, t);
    } else {
      i := n - 1;
      NewReply(us[i], us[n], ss[i], t);
    }
  }

  /** A step that stores the first reply to `t` is its PUT, or completes it with an error. */
  lemma NewReply(u: Usim, u': Usim, s: Step, t: nat)
    requires TicketOk(u, t) && Next(u, u', s) && t !in u.replies && t in u'.replies
    ensures t in u.events && u.events[t].state != Done
    ensures if s.DoPutMark?
            then s.t == t && |s.arg.data| == s.arg.len && |u.events[t].data| == DATA_SIZE
                 && u'.replies[t] == StoredReply(u.events[t], s.arg)
            else u'.replies[t].status == EIO
  {
  }

  /** Step `i` puts the reply to `t`. */
  ghost predicate ReplyPut(us: seq<Usim>, ss: seq<Step>, i: nat, t: nat)
    requires i < |us| && i < |ss|
  {
    && ss[i].DoPutMark? && ss[i].t == t && |ss[i].arg.data| == ss[i].arg.len
    && t in us[i].events && |us[i].events[t].data| == DATA_SIZE
  }

  /** The event a reply is stored in is the one that was posted. */
  lemma PostedEvent(us: seq<Usim>, ss: seq<Step>, j: nat, n: nat, t: nat) returns (i: nat)
    requires Run(us, ss) && j < n < |us| && ss[j].DoPost? && ss[j].t == t && t in us[n].replies
    ensures j < i < n && t in us[i].events && SameRequest(ss[j].e, us[i].events[t]) && us[i].events[t].state != Done
    ensures if ss[i].DoPutMark?
            then ReplyPut(us, ss, i, t) && us[n].replies[t] == StoredReply(us[i].events[t], ss[i].arg)
            else us[n].replies[t].status == EIO
  {
    i := ReplyOrigin(us, ss, n, t);
    assert StepAt(us, ss, j);
    RunKeepsInv(us, ss, i);
    assert TicketOk(us[i], t);
    if i <= j {
      RunIsMonotone(us, ss, i, j, t);
      assert false;
    }
    RunIsMonotone(us, ss, j + 1, i, t);
  }

  /** The reader was served: length and data of the reply could be read and fit. */
  predicate Served(arg: PutArg) {
    arg.lenRead && arg.len <= DATA_SIZE && arg.copied
  }

  /**
   In every run a block read that finds its event done when it wakes returns exactly the 1 to 32 bytes that were put
   for it; it fails with a protocol error for any other length, and with an input/output error if the put went wrong
   or there was none.
   */
  lemma BlockReadRoundTrip(us: seq<Usim>, ss: seq<Step>, j: nat, w: nat, n: nat, t: nat) returns (i: nat)
    requires Run(us, ss) && j < n < |us| && ss[j].DoPost? && ss[j].t == t && ss[j].e.read
    requires w < n && ss[w] == DoWake(t) && t in us[w].events && us[w].events[t].state == Done
    requires t in us[n].senders && us[n].senders[t].Returned?
    ensures j < i < n && |us[n].senders[t].data| == DATA_SIZE
    ensures ss[i].DoPutMark? ==> ss[i].t == t && |ss[i].arg.data| == ss[i].arg.len
    ensures BlockRead(us[n].senders[t]) ==
      if !ss[i].DoPutMark? || !Served(ss[i].arg) then (EIO, [])
      else if 0 < ss[i].arg.len <= I2C_SMBUS_BLOCK_MAX then (0, ss[i].arg.data) else (EPROTO, [])
  {
    RunKeepsInv(us, ss, n);
    assert TicketOk(us[n], t);
    WakeDecides(us, ss, w, n, t);
    i := PostedEvent(us, ss, j, n, t);
    if ss[i].DoPutMark? && Served(ss[i].arg) {
      var arg, e := ss[i].arg, us[i].events[t];
      assert (arg.data + e.data[arg.len..])[..arg.len] == arg.data;
    }
  }

  /** A plain read returns the first bytes put for it, padded with what was posted. */
  lemma I2cReadRoundTrip(us: seq<Usim>, ss: seq<Step>, j: nat, w: nat, n: nat, t: nat, size: nat) returns (i: nat)
    requires Run(us, ss) && j < n < |us| && ss[j].DoPost? && ss[j].t == t && ss[j].e.read && size <= DATA_SIZE
    requires w < n && ss[w] == DoWake(t) && t in us[w].events && us[w].events[t].state == Done
    requires t in us[n].senders && us[n].senders[t].Returned?
    ensures j < i < n && |us[n].senders[t].data| == DATA_SIZE && |ss[j].e.data| == DATA_SIZE
    ensures ss[i].DoPutMark? ==> ss[i].t == t && |ss[i].arg.data| == ss[i].arg.len
    ensures I2cRead(us[n].senders[t], size) ==
      if !ss[i].DoPutMark? || !Served(ss[i].arg) then (EIO, [])
      else (0, if size <= ss[i].arg.len then ss[i].arg.data[..size]
               else ss[i].arg.data + ss[j].e.data[ss[i].arg.len..size])
  {
    RunKeepsInv(us, ss, n);
    assert TicketOk(us[n], t) && StepAt(us, ss, j);
    WakeDecides(us, ss, w, n, t);
    i := PostedEvent(us, ss, j, n, t);
    if ss[i].DoPutMark? && Served(ss[i].arg) {
      var arg, e := ss[i].arg, us[i].events[t];
      var stored := arg.data + e.data[arg.len..];
      if size <= arg.len {
        assert stored[..size] == arg.data[..size];
      } else {
        assert stored[..size] == arg.data + e.data[arg.len..size];
      }
    }
  }

  /**
   In every run a write succeeds if and only if it finds its event done when it wakes and the reply was put; without
   a put it fails with an input/output error.
   */
  lemma WriteRoundTrip(us: seq<Usim>, ss: seq<Step>, j: nat, w: nat, n: nat, t: nat) returns (i: nat)
    requires Run(us, ss) && j < n < |us| && ss[j].DoPost? && ss[j].t == t && !ss[j].e.read
    requires w < n && ss[w] == DoWake(t) && t in us[w].events
    requires t in us[n].senders && us[n].senders[t].Returned?
    ensures us[w].events[t].state != Done ==> us[n].senders[t].result != 0
    ensures us[w].events[t].state == Done ==>
      && j < i < n && (ss[i].DoPutMark? ==> ss[i].t == t)
      && us[n].senders[t].result == if ss[i].DoPutMark? then 0 else EIO
  {
    RunKeepsInv(us, ss, n);
    assert TicketOk(us[n], t);
    WakeDecides(us, ss, w, n, t);
    i := 0;
    if us[w].events[t].state == Done {
      i := PostedEvent(us, ss, j, n, t);
    }
  }

  /** A read that is served does succeed: the run in which the receiver gets the event and puts these bytes. */
  lemma ServedRun(arg: PutArg) returns (us: seq<Usim>, ss: seq<Step>)
    requires Served(arg) && |arg.data| == arg.len
    ensures Run(us, ss) && 1 in LastOf(us).senders && LastOf(us).senders[1].Returned?
    ensures LastOf(us).senders[1].result == 0 && arg.data <= LastOf(us).senders[1].data
    ensures 1 !in LastOf(us).events
  {
    us, ss := HandOut();
    var u := LastOf(us);
    var r := StoredReply(u.events[1], arg);
    u := u.(receiver := Found(1), mine := u.mine - {1});
    Extend(us, ss, u, DoPutLookup(1));
    us, ss := us + [u], ss + [DoPutLookup(1)];
    u := u.(events := u.events[1 := Mark(u.events[1], r)], receiver := Marked(1), replies := u.replies[1 := r]);
    Extend(us, ss, u, DoPutMark(1, arg));
    us, ss := us + [u], ss + [DoPutMark(1, arg)];
    u := u.(events := Put(u.events, 1), receiver := Idle, held := u.held - {1});
    Extend(us, ss, u, DoPutDrop(1));
    us, ss := us + [u], ss + [DoPutDrop(1)];
    us, ss := ServedSender(us, ss, arg);
  }

  lemma ServedSender(us: seq<Usim>, ss: seq<Step>, arg: PutArg) returns (us': seq<Usim>, ss': seq<Step>)
    requires Run(us, ss) && LastOf(us).senders == map[1 := Waiting] && 1 in LastOf(us).events
    requires var e := LastOf(us).events[1]; e.state == Done && e.status == 0 && e.refcnt == 1 && arg.data <= e.data
    ensures Run(us', ss') && 1 in LastOf(us').senders && LastOf(us').senders[1].Returned?
    ensures LastOf(us').senders[1].result == 0 && arg.data <= LastOf(us').senders[1].data
    ensures 1 !in LastOf(us').events
  {
    var u := LastOf(us);
    var e := u.events[1];
    us', ss' := us, ss;
    u := u.(senders := u.senders[1 := Woken(false)]);
    Extend(us', ss', u, DoWake(1));
    us', ss' := us' + [u], ss' + [DoWake(1)];
    u := u.(queue := Without(u.queue, 1), senders := u.senders[1 := Unlinked(false)]);
    Extend(us', ss', u, DoUnlink(1));
    us', ss' := us' + [u], ss' + [DoUnlink(1)];
    u := u.(events := Put(u.events, 1), senders := u.senders[1 := Returned(false, 0, e.len, e.data)]);
    Extend(us', ss', u, DoReturn(1));
    us', ss' := us' + [u], ss' + [DoReturn(1)];
  }
}
