/**
 The rendezvous of the I2C user-space simulator as a transition system: senders post reference-counted events
 and wait; one receiver gets events, processes them and puts them back; senders may be interrupted and the
 receiver may close. Every step is one access under the queue lock or one atomic operation.
 */
module UsimMachine {

  const EIO: int := -5
  const ERESTARTSYS: int := -512
  const EPROTO: int := -71
  const DATA_SIZE: nat := 512
  const I2C_SMBUS_BLOCK_MAX: nat := 32

  datatype Progress = Ready | InProgress | Done

  /** An allocated event; its identity is its ticket. */
  datatype Event = Event(read: bool, state: Progress, status: int, refcnt: nat, len: nat, data: seq<nat>)

  /** Where the sender of an event is; `cut` says that its wait was interrupted. */
  datatype Sender =
    | Waiting
    | Woken(cut: bool)
    | Unlinked(cut: bool)
    | Returned(cut: bool, result: int, len: nat, data: seq<nat>)

  /** Where the receiver is: between calls, or inside a GET or PUT for one ticket. */
  datatype Receiver = Idle | Got(t: nat) | Found(t: nat) | Marked(t: nat)

  /** What was put for an event. */
  datatype Reply = Reply(status: int, len: nat, data: seq<nat>)

  /** What the user passes to PUT: whether length and data could be read, and their values. */
  datatype PutArg = PutArg(lenRead: bool, len: nat, copied: bool, data: seq<nat>)

  /** The reply stored for an event: only reads take data, and only what fits. */
  function StoredReply(e: Event, arg: PutArg): (r: Reply)
    requires |e.data| == DATA_SIZE && |arg.data| == arg.len
    ensures |r.data| == DATA_SIZE
  {
    if !e.read then Reply(0, e.len, e.data)
    else if !arg.lenRead then Reply(EIO, e.len, e.data)
    else if arg.len > DATA_SIZE || !arg.copied then Reply(EIO, arg.len, e.data)
    else Reply(0, arg.len, arg.data + e.data[arg.len..])
  }

  datatype Usim = Usim(
    events: map<nat, Event>,
    queue: seq<nat>,
    users: nat,
    receiver: Receiver,
    mine: set<nat>,           // tickets the receiver got and still has to put
    senders: map<nat, Sender>,
    held: set<nat>,           // receiver-side references not yet dropped
    stranded: set<nat>,       // receiver-side references nobody will drop
    pos: map<nat, nat>,       // position in posting order
    handed: seq<nat>,         // tickets in the order they were handed out
    replies: map<nat, Reply>)

  const EMPTY: Usim := Usim(map[], [], 0, Idle, {}, map[], {}, {}, map[], [], map[])

  function Without(q: seq<nat>, t: nat): seq<nat>
    decreases |q|
  {
    if q == [] then [] else if q[0] == t then q[1..] else [q[0]] + Without(q[1..], t)
  }

  /** Drop one reference; the last one frees the event. */
  function Put(events: map<nat, Event>, t: nat): map<nat, Event>
    requires t in events
  {
    var e := events[t];
    if e.refcnt <= 1 then events - {t} else events[t := e.(refcnt := e.refcnt - 1)]
  }

  /** First half of `complete_event`. */
  function Mark(e: Event, r: Reply): Event {
    e.(state := Done, status := r.status, len := r.len, data := r.data)
  }

  /** An event in progress is completed with an error and loses the receiver's reference. */
  function CloseEvent(e: Event): Event {
    if e.state == InProgress
    then e.(state := Done, status := EIO, refcnt := if e.refcnt > 0 then e.refcnt - 1 else 0) else e
  }

  /** The events after a close: those on the queue that are in progress are completed. */
  function CloseEvents(u: Usim): map<nat, Event> {
    map t | t in u.events :: if t in u.queue then CloseEvent(u.events[t]) else u.events[t]
  }

  /** Tickets of events a close completes. */
  ghost function Orphans(u: Usim): set<nat> {
    set t | t in u.queue && t in u.events && u.events[t].state == InProgress
  }

  // ----- Steps of a sender -----

  /** A new event with a fresh ticket is added to the queue. */
  ghost predicate Post(u: Usim, u': Usim, t: nat, e: Event) {
    && t !in u.senders && t !in u.pos && e.state == Ready && e.status == 0 && e.refcnt == 1 && |e.data| == DATA_SIZE
    && u' == u.(events := u.events[t := e], queue := u.queue + [t], senders := u.senders[t := Waiting],
                pos := u.pos[t := |u.pos|])
  }

  /** The wait ends: the event is done, or a signal arrived before it was. */
  ghost predicate Wake(u: Usim, u': Usim, t: nat) {
    && t in u.senders && u.senders[t] == Waiting && t in u.events
    && u' == u.(senders := u.senders[t := Woken(u.events[t].state != Done)])
  }

  ghost predicate Unlink(u: Usim, u': Usim, t: nat) {
    && t in u.senders && u.senders[t].Woken?
    && u' == u.(queue := Without(u.queue, t), senders := u.senders[t := Unlinked(u.senders[t].cut)])
  }

  /** The sender takes status and data from the event and drops its reference. */
  ghost predicate Return(u: Usim, u': Usim, t: nat) {
    && t in u.senders && u.senders[t].Unlinked? && t in u.events
    && var e := u.events[t];
       var v := if e.status != 0 then e.status else if u.senders[t].cut then ERESTARTSYS else 0;
       u' == u.(events := Put(u.events, t), senders := u.senders[t := Returned(u.senders[t].cut, v, e.len, e.data)])
  }

  // ----- Steps of the receiver -----

  ghost predicate Open(u: Usim, u': Usim) {
    u.users == 0 && u' == u.(users := 1)
  }

  ghost predicate FirstReady(u: Usim, t: nat) {
    exists i | 0 <= i < |u.queue| :: FirstReadyAt(u, t, i)
  }

  ghost predicate FirstReadyAt(u: Usim, t: nat, i: nat)
    requires i < |u.queue|
  {
    && u.queue[i] == t && t in u.events && u.events[t].state == Ready
    && forall j | 0 <= j < i :: u.queue[j] in u.events && u.events[u.queue[j]].state != Ready
  }

  /** GET: the first ready event, under the lock. */
  ghost predicate Get(u: Usim, u': Usim, t: nat) {
    && u.users == 1 && u.receiver == Idle && FirstReady(u, t)
    && var e := u.events[t];
       u' == u.(events := u.events[t := e.(state := InProgress, refcnt := e.refcnt + 1)], receiver := Got(t),
                held := u.held + {t}, handed := u.handed + [t])
  }

  ghost predicate GetReturn(u: Usim, u': Usim, t: nat) {
    u.receiver == Got(t) && u' == u.(receiver := Idle, mine := u.mine + {t})
  }

  /** GET could not copy the event out: it is completed with an error at once. */
  ghost predicate GetFail(u: Usim, u': Usim, t: nat) {
    && u.receiver == Got(t) && t in u.events
    && var r := Reply(EIO, u.events[t].len, u.events[t].data);
       u' == u.(events := u.events[t := Mark(u.events[t], r)], receiver := Marked(t), replies := u.replies[t := r])
  }

  /** PUT of a ticket the receiver got: it is looked up on the queue; an event no longer there is not found. */
  ghost predicate PutLookup(u: Usim, u': Usim, t: nat) {
    && u.users == 1 && u.receiver == Idle && t in u.mine
    && u' == if t in u.queue then u.(receiver := Found(t), mine := u.mine - {t})
             else u.(mine := u.mine - {t}, stranded := u.stranded + {t})
  }

  /** The reply is stored and the event marked done. */
  ghost predicate PutMark(u: Usim, u': Usim, t: nat, arg: PutArg) {
    && u.receiver == Found(t) && t in u.events && |u.events[t].data| == DATA_SIZE && |arg.data| == arg.len
    && var r := StoredReply(u.events[t], arg);
       u' == u.(events := u.events[t := Mark(u.events[t], r)], receiver := Marked(t), replies := u.replies[t := r])
  }

  ghost predicate PutDrop(u: Usim, u': Usim, t: nat) {
    && u.receiver == Marked(t) && t in u.events
    && u' == u.(events := Put(u.events, t), receiver := Idle, held := u.held - {t})
  }

  ghost function OrphanReplies(u: Usim): map<nat, Reply> {
    map t | t in Orphans(u) :: Reply(EIO, u.events[t].len, u.events[t].data)
  }

  /** RELEASE, between calls of the receiver. */
  ghost predicate Close(u: Usim, u': Usim) {
    && u.users == 1 && u.receiver == Idle
    && u' == u.(events := CloseEvents(u), users := 0, mine := {}, held := u.held - Orphans(u),
                stranded := u.stranded + (u.mine - Orphans(u)), replies := u.replies + OrphanReplies(u))
  }

  datatype Step =
    | DoPost(t: nat, e: Event) | DoWake(t: nat) | DoUnlink(t: nat) | DoReturn(t: nat)
    | DoOpen | DoGet(t: nat) | DoGetReturn(t: nat) | DoGetFail(t: nat)
    | DoPutLookup(t: nat) | DoPutMark(t: nat, arg: PutArg) | DoPutDrop(t: nat) | DoClose

  ghost predicate Next(u: Usim, u': Usim, s: Step) {
    match s
    case DoPost(t, e) => Post(u, u', t, e)
    case DoWake(t) => Wake(u, u', t)
    case DoUnlink(t) => Unlink(u, u', t)
    case DoReturn(t) => Return(u, u', t)
    case DoOpen => Open(u, u')
    case DoGet(t) => Get(u, u', t)
    case DoGetReturn(t) => GetReturn(u, u', t)
    case DoGetFail(t) => GetFail(u, u', t)
    case DoPutLookup(t) => PutLookup(u, u', t)
    case DoPutMark(t, arg) => PutMark(u, u', t, arg)
    case DoPutDrop(t) => PutDrop(u, u', t)
    case DoClose => Close(u, u')
  }

  // ----- The invariant, ticket by ticket -----

  ghost predicate SenderHolds(u: Usim, t: nat) {
    t in u.senders && !u.senders[t].Returned?
  }

  ghost predicate Busy(u: Usim, t: nat) {
    u.receiver != Idle && u.receiver.t == t
  }

  ghost predicate InQueue(u: Usim, t: nat) {
    t in u.senders && (u.senders[t].Waiting? || u.senders[t].Woken?)
  }

  ghost function Holders(u: Usim, t: nat): nat {
    (if SenderHolds(u, t) then 1 else 0) + (if t in u.held then 1 else 0)
  }

  /** An event is allocated while someone holds it, and its count says how many do. */
  ghost predicate CountOk(u: Usim, t: nat) {
    && (t in u.events <==> Holders(u, t) > 0)
    && (t in u.events ==> u.events[t].refcnt == Holders(u, t) && |u.events[t].data| == DATA_SIZE)
    && (t in u.held ==> t in u.senders)
    && (t in u.senders <==> t in u.pos)
  }

  /** Which side is at which point when the event is in which state. */
  ghost predicate StateOk(u: Usim, t: nat) {
    && (t in u.queue <==> InQueue(u, t))
    && (t in u.held <==> t in u.mine || Busy(u, t) || t in u.stranded)
    && !(t in u.mine && Busy(u, t)) && !(t in u.mine && t in u.stranded) && !(Busy(u, t) && t in u.stranded)
    && (t in u.events ==>
          && (u.events[t].state == Ready ==> t !in u.held)
          && (u.events[t].state == InProgress <==>
                t in u.mine || t in u.stranded || u.receiver == Got(t) || u.receiver == Found(t)))
    && (t in u.stranded ==> t !in u.queue && t in u.senders && u.senders[t].cut)
    && (u.users == 0 ==> t !in u.mine && !Busy(u, t))
  }

  function ReplyOf(e: Event): Reply { Reply(e.status, e.len, e.data) }

  /** A reply is stored once, and an event that is done carries it. */
  ghost predicate ReplyOk(u: Usim, t: nat) {
    && (t in u.replies ==> t in u.senders && |u.replies[t].data| == DATA_SIZE)
    && (t in u.events ==> (u.events[t].state == Done <==> t in u.replies))
    && (t in u.events && t in u.replies ==> ReplyOf(u.events[t]) == u.replies[t])
    && (t in u.events && t !in u.replies ==> u.events[t].status == 0)
    && (t in u.senders && !u.senders[t].Waiting? && !u.senders[t].cut ==> t in u.replies)
    && (t in u.senders && u.senders[t].Returned? ==> ResultOk(u, t))
  }

  /** What a sender returned: the reply to its own event, or that it was interrupted. */
  ghost predicate ResultOk(u: Usim, t: nat)
    requires t in u.senders && u.senders[t].Returned?
  {
    var s := u.senders[t];
    && |s.data| == DATA_SIZE
    && (s.result == 0 ==> !s.cut && t in u.replies && u.replies[t] == Reply(0, s.len, s.data))
    && (!s.cut ==> t in u.replies && s.result == u.replies[t].status)
    && (s.cut && s.result != ERESTARTSYS ==> t in u.replies && s.result == u.replies[t].status)
  }

  ghost predicate TicketOk(u: Usim, t: nat) {
    CountOk(u, t) && StateOk(u, t) && ReplyOk(u, t)
  }

  // ----- Posting order -----

  ghost predicate Ascending(pos: map<nat, nat>, s: seq<nat>) {
    && (forall i | 0 <= i < |s| :: s[i] in pos)
    && (forall i, j | 0 <= i < j < |s| :: pos[s[i]] < pos[s[j]])
  }

  ghost predicate IsReady(u: Usim, t: nat) {
    t in u.events && u.events[t].state == Ready
  }

  /** The queue and the tickets handed out are in posting order, and whatever is ready was posted after those. */
  ghost predicate Ordered(u: Usim) {
    && (forall t | t in u.pos :: u.pos[t] < |u.pos|)
    && Ascending(u.pos, u.queue) && Ascending(u.pos, u.handed)
    && (forall i, q | 0 <= i < |u.handed| && q in u.queue && IsReady(u, q) :: u.pos[u.handed[i]] < u.pos[q])
  }

  ghost predicate Inv(u: Usim) {
    u.users <= 1 && Ordered(u) && forall t :: TicketOk(u, t)
  }

  lemma EmptyInv()
    ensures Inv(EMPTY)
  {
  }

  lemma {:induction false} WithoutMembers(pos: map<nat, nat>, q: seq<nat>, t: nat, x: nat)
    requires Ascending(pos, q)
    ensures x in Without(q, t) <==> x in q && x != t
    decreases |q|
  {
    if q != [] {
      assert q == [q[0]] + q[1..];
      if q[0] == t {
        assert x in q[1..] ==> pos[q[0]] < pos[x];
      } else {
        WithoutMembers(pos, q[1..], t, x);
      }
    }
  }

  lemma {:induction false} WithoutAscending(pos: map<nat, nat>, q: seq<nat>, t: nat)
    requires Ascending(pos, q)
    ensures Ascending(pos, Without(q, t))
    decreases |q|
  {
    if q != [] && q[0] != t {
      var w := Without(q[1..], t);
      WithoutAscending(pos, q[1..], t);
      forall k | 0 <= k < |w|
        ensures w[k] in pos && pos[q[0]] < pos[w[k]]
      {
        assert w[k] in w;
        WithoutMembers(pos, q[1..], t, w[k]);
      }
      assert Without(q, t) == [q[0]] + w;
    }
  }

  // ----- Every step keeps every ticket -----

  lemma PostKeeps(u: Usim, u': Usim, t: nat, e: Event, x: nat)
    requires TicketOk(u, t) && TicketOk(u, x) && Post(u, u', t, e)
    ensures TicketOk(u', x)
  {
    assert x in u'.queue <==> x in u.queue || x == t;
  }

  lemma WakeKeeps(u: Usim, u': Usim, t: nat, x: nat)
    requires TicketOk(u, t) && TicketOk(u, x) && Wake(u, u', t)
    ensures TicketOk(u', x)
  {
  }

  lemma UnlinkKeeps(u: Usim, u': Usim, t: nat, x: nat)
    requires TicketOk(u, t) && TicketOk(u, x) && Unlink(u, u', t) && Ascending(u.pos, u.queue)
    ensures TicketOk(u', x)
  {
    WithoutMembers(u.pos, u.queue, t, x);
  }

  lemma ReturnKeeps(u: Usim, u': Usim, t: nat, x: nat)
    requires TicketOk(u, t) && TicketOk(u, x) && Return(u, u', t)
    ensures TicketOk(u', x)
  {
  }

  lemma OpenKeeps(u: Usim, u': Usim, x: nat)
    requires TicketOk(u, x) && Open(u, u')
    ensures TicketOk(u', x)
  {
  }

  lemma GetKeeps(u: Usim, u': Usim, t: nat, x: nat)
    requires TicketOk(u, t) && TicketOk(u, x) && Get(u, u', t)
    ensures TicketOk(u', x)
  {
    assert t in u.queue;
  }

  lemma GetReturnKeeps(u: Usim, u': Usim, t: nat, x: nat)
    requires TicketOk(u, t) && TicketOk(u, x) && GetReturn(u, u', t)
    ensures TicketOk(u', x)
  {
  }

  lemma GetFailKeeps(u: Usim, u': Usim, t: nat, x: nat)
    requires TicketOk(u, t) && TicketOk(u, x) && GetFail(u, u', t)
    ensures TicketOk(u', x)
  {
  }

  lemma PutLookupKeeps(u: Usim, u': Usim, t: nat, x: nat)
    requires TicketOk(u, t) && TicketOk(u, x) && PutLookup(u, u', t)
    ensures TicketOk(u', x)
  {
  }

  lemma PutMarkKeeps(u: Usim, u': Usim, t: nat, arg: PutArg, x: nat)
    requires TicketOk(u, t) && TicketOk(u, x) && PutMark(u, u', t, arg)
    ensures TicketOk(u', x)
  {
  }

  lemma PutDropKeeps(u: Usim, u': Usim, t: nat, x: nat)
    requires TicketOk(u, t) && TicketOk(u, x) && PutDrop(u, u', t)
    ensures TicketOk(u', x)
  {
  }

  lemma CloseKeeps(u: Usim, u': Usim, x: nat)
    requires TicketOk(u, x) && Close(u, u')
    ensures TicketOk(u', x)
  {
  }

  // ----- Posting order is kept -----

  /** Steps that post nothing, hand out nothing and make nothing ready again keep the order. */
  lemma OrderKept(u: Usim, u': Usim)
    requires Ordered(u) && u'.pos == u.pos && u'.handed == u.handed
    requires Ascending(u.pos, u'.queue) && forall q | q in u'.queue :: q in u.queue
    requires forall q | IsReady(u', q) :: IsReady(u, q)
    ensures Ordered(u')
  {
  }

  lemma OneMoreKey(m: map<nat, nat>, t: nat, p: nat)
    requires t !in m
    ensures |m[t := p]| == |m| + 1
  {
    assert m[t := p].Keys == m.Keys + {t};
  }

  lemma PostOrdered(u: Usim, u': Usim, t: nat, e: Event)
    requires Ordered(u) && Post(u, u', t, e)
    ensures Ordered(u')
  {
    OneMoreKey(u.pos, t, |u.pos|);
    assert forall q | q in u.queue :: IsReady(u', q) ==> q == t || IsReady(u, q);
  }

  lemma GetOrdered(u: Usim, u': Usim, t: nat)
    requires Ordered(u) && Get(u, u', t)
    ensures Ordered(u')
  {
    var i :| 0 <= i < |u.queue| && FirstReadyAt(u, t, i);
    assert t in u.queue && IsReady(u, t);
    forall h, q | 0 <= h < |u'.handed| && q in u'.queue && IsReady(u', q)
      ensures u'.pos[u'.handed[h]] < u'.pos[q]
    {
      assert q != t && IsReady(u, q);
      var k :| 0 <= k < |u.queue| && u.queue[k] == q;
      assert i < k;
    }
  }

  lemma UnlinkOrdered(u: Usim, u': Usim, t: nat)
    requires Ordered(u) && Unlink(u, u', t)
    ensures Ordered(u')
  {
    WithoutAscending(u.pos, u.queue, t);
    forall q | q in u'.queue
      ensures q in u.queue
    {
      WithoutMembers(u.pos, u.queue, t, q);
    }
    OrderKept(u, u');
  }

  /** The queue stays and nothing becomes ready. */
  ghost predicate NothingReadied(u: Usim, u': Usim) {
    && u'.pos == u.pos && u'.handed == u.handed && u'.queue == u.queue
    && forall q | IsReady(u', q) :: IsReady(u, q)
  }

  lemma SenderReadiesNothing(u: Usim, u': Usim, s: Step)
    requires (s.DoWake? || s.DoReturn?) && Next(u, u', s)
    ensures NothingReadied(u, u')
  {
  }

  lemma ReceiverReadiesNothing(u: Usim, u': Usim, s: Step)
    requires (s.DoOpen? || s.DoGetReturn? || s.DoGetFail? || s.DoPutLookup?) && Next(u, u', s)
    ensures NothingReadied(u, u')
  {
  }

  lemma ReplyReadiesNothing(u: Usim, u': Usim, s: Step)
    requires (s.DoPutMark? || s.DoPutDrop? || s.DoClose?) && Next(u, u', s)
    ensures NothingReadied(u, u')
  {
  }

  lemma NextOrdered(u: Usim, u': Usim, s: Step)
    requires Ordered(u) && Next(u, u', s)
    ensures Ordered(u')
  {
    match s {
      case DoPost(t, e) => PostOrdered(u, u', t, e);
      case DoGet(t) => GetOrdered(u, u', t);
      case DoUnlink(t) => UnlinkOrdered(u, u', t);
      case _ => OthersOrdered(u, u', s);
    }
  }

  lemma OthersOrdered(u: Usim, u': Usim, s: Step)
    requires Ordered(u) && Next(u, u', s) && !s.DoPost? && !s.DoGet? && !s.DoUnlink?
    ensures Ordered(u')
  {
    if s.DoWake? || s.DoReturn? {
      SenderReadiesNothing(u, u', s);
    } else if s.DoOpen? || s.DoGetReturn? || s.DoGetFail? || s.DoPutLookup? {
      ReceiverReadiesNothing(u, u', s);
    } else {
      ReplyReadiesNothing(u, u', s);
    }
    OrderKept(u, u');
  }

  lemma NextKeepsTicket(u: Usim, u': Usim, s: Step, x: nat)
    requires Inv(u) && Next(u, u', s)
    ensures TicketOk(u', x)
  {
    assert TicketOk(u, x);
    match s {
      case DoPost(t, e) => assert TicketOk(u, t); PostKeeps(u, u', t, e, x);
      case DoWake(t) => assert TicketOk(u, t); WakeKeeps(u, u', t, x);
      case DoUnlink(t) => assert TicketOk(u, t); UnlinkKeeps(u, u', t, x);
      case DoReturn(t) => assert TicketOk(u, t); ReturnKeeps(u, u', t, x);
      case DoOpen => OpenKeeps(u, u', x);
      case DoGet(t) => assert TicketOk(u, t); GetKeeps(u, u', t, x);
      case DoGetReturn(t) => assert TicketOk(u, t); GetReturnKeeps(u, u', t, x);
      case DoGetFail(t) => assert TicketOk(u, t); GetFailKeeps(u, u', t, x);
      case DoPutLookup(t) => assert TicketOk(u, t); PutLookupKeeps(u, u', t, x);
      case DoPutMark(t, arg) => assert TicketOk(u, t); PutMarkKeeps(u, u', t, arg, x);
      case DoPutDrop(t) => assert TicketOk(u, t); PutDropKeeps(u, u', t, x);
      case DoClose => CloseKeeps(u, u', x);
    }
  }

  lemma NextKeepsInv(u: Usim, u': Usim, s: Step)
    requires Inv(u) && Next(u, u', s)
    ensures Inv(u')
  {
    NextOrdered(u, u', s);
    forall x
      ensures TicketOk(u', x)
    {
      NextKeepsTicket(u, u', s, x);
    }
  }

  // ----- Runs -----

  ghost predicate StepAt(us: seq<Usim>, ss: seq<Step>, i: nat)
    requires i < |ss| && i + 1 < |us|
  {
    Next(us[i], us[i + 1], ss[i])
  }

  ghost predicate Run(us: seq<Usim>, ss: seq<Step>) {
    && |us| == |ss| + 1 && us[0] == EMPTY
    && forall i | 0 <= i < |ss| :: StepAt(us, ss, i)
  }

  /** The invariant holds throughout every interleaving of senders, receiver, interruptions and close. */
  lemma {:induction false} RunKeepsInv(us: seq<Usim>, ss: seq<Step>, n: nat)
    requires Run(us, ss) && n < |us|
    ensures Inv(us[n])
  {
    if n == 0 {
      EmptyInv();
    } else {
      RunKeepsInv(us, ss, n - 1);
      assert StepAt(us, ss, n - 1);
      NextKeepsInv(us[n - 1], us[n], ss[n - 1]);
    }
  }

  function Rank(p: Progress): nat {
    match p
    case Ready => 0
    case InProgress => 1
    case Done => 2
  }

  /** Between two points of a run: states advance, replies stay, tickets never come back, data waits for a reply. */
  ghost predicate Later(u: Usim, u': Usim, t: nat) {
    && (t in u.senders ==> t in u'.senders && (t !in u.events ==> t !in u'.events))
    && (t in u.events && t in u'.events ==> Rank(u.events[t].state) <= Rank(u'.events[t].state))
    && (t in u.events && t in u'.events ==> SameRequest(u.events[t], u'.events[t]))
    && (t in u.replies ==> t in u'.replies && u'.replies[t] == u.replies[t])
    && (t in u.senders && u.senders[t].Returned? ==> u'.senders[t] == u.senders[t])
    && (t in u.stranded ==> t in u'.stranded)
  }

  /** Until it is done an event holds what was posted. */
  ghost predicate SameRequest(e: Event, e': Event) {
    e'.read == e.read && (e'.state != Done ==> e'.len == e.len && e'.data == e.data)
  }

  lemma SenderIsLater(u: Usim, u': Usim, s: Step, t: nat)
    requires TicketOk(u, t) && Next(u, u', s) && (s.DoPost? || s.DoWake? || s.DoUnlink? || s.DoReturn?)
    ensures Later(u, u', t)
  {
  }

  lemma GetIsLater(u: Usim, u': Usim, s: Step, t: nat)
    requires TicketOk(u, t) && Next(u, u', s) && (s.DoOpen? || s.DoGet? || s.DoGetReturn? || s.DoPutLookup?)
    ensures Later(u, u', t)
  {
  }

  lemma MarkIsLater(u: Usim, u': Usim, s: Step, t: nat)
    requires TicketOk(u, t) && Next(u, u', s) && (s.DoGetFail? || s.DoPutMark?)
    ensures Later(u, u', t)
  {
  }

  lemma DropIsLater(u: Usim, u': Usim, s: Step, t: nat)
    requires TicketOk(u, t) && Next(u, u', s) && (s.DoPutDrop? || s.DoClose?)
    ensures Later(u, u', t)
  {
  }

  lemma NextIsLater(u: Usim, u': Usim, s: Step, t: nat)
    requires TicketOk(u, t) && Next(u, u', s)
    ensures Later(u, u', t)
  {
    match s {
      case DoOpen | DoGet(_) | DoGetReturn(_) | DoPutLookup(_) => GetIsLater(u, u', s, t);
      case DoGetFail(_) | DoPutMark(_, _) => MarkIsLater(u, u', s, t);
      case DoPutDrop(_) | DoClose => DropIsLater(u, u', s, t);
      case _ => SenderIsLater(u, u', s, t);
    }
  }

  lemma TicketInRun(us: seq<Usim>, ss: seq<Step>, n: nat, t: nat)
    requires Run(us, ss) && n < |us|
    ensures TicketOk(us[n], t)
  {
    RunKeepsInv(us, ss, n);
  }

  /**
   In every run: an event's state only goes from ready to in progress to done, a reply once stored is never
   replaced, and an event that was freed is never touched again.
   */
  lemma {:induction false} RunIsMonotone(us: seq<Usim>, ss: seq<Step>, m: nat, n: nat, t: nat)
    requires Run(us, ss) && m <= n < |us|
    ensures Later(us[m], us[n], t)
    decreases n - m
  {
    if m < n {
      RunIsMonotone(us, ss, m, n - 1, t);
      TicketInRun(us, ss, n - 1, t);
      TicketInRun(us, ss, m, t);
      assert StepAt(us, ss, n - 1);
      NextIsLater(us[n - 1], us[n], ss[n - 1], t);
      LaterTransitive(us[m], us[n - 1], us[n], t);
    }
  }

  lemma LaterTransitive(u: Usim, v: Usim, w: Usim, t: nat)
    requires TicketOk(u, t) && TicketOk(v, t) && Later(u, v, t) && Later(v, w, t)
    ensures Later(u, w, t)
  {
  }

  /** Status, length, data and reference count of an event after each step that is about it. */
  ghost predicate Touched(e: Event, s: Step, closes: bool, e': Event) {
    && e'.read == e.read
    && match s
       case DoGet(_) => e' == e.(state := InProgress, refcnt := e.refcnt + 1)
       case DoGetFail(_) => e' == e.(state := Done, status := EIO)
       case DoPutMark(_, arg) =>
         && e'.state == Done && e'.refcnt == e.refcnt
         && e'.len == (if e.read && arg.lenRead then arg.len else e.len)
         && (e'.status == 0 <==> e.read ==> arg.lenRead && arg.len <= DATA_SIZE && arg.copied)
         && (e'.status == 0 || e'.status == EIO)
         && (forall k | 0 <= k < DATA_SIZE && k < |e.data| == |e'.data| && |arg.data| == arg.len ::
               e'.data[k] == if e.read && e'.status == 0 && k < arg.len then arg.data[k] else e.data[k])
       case DoClose => if closes then e' == e.(state := Done, status := EIO, refcnt := 1) else e' == e
       case _ => e.refcnt == 2 && e' == e.(refcnt := 1)
  }

  ghost predicate About(s: Step, t: nat) {
    (s.DoGet? || s.DoGetFail? || s.DoPutMark? || s.DoPutDrop? || s.DoReturn?) && s.t == t
  }

  /** What the step makes of the event of ticket `t`. */
  ghost predicate EventFollows(u: Usim, u': Usim, s: Step, t: nat)
    requires t in u.events
  {
    var e, closes := u.events[t], t in u.queue && u.events[t].state == InProgress;
    && (t !in u'.events <==> (s == DoPutDrop(t) || s == DoReturn(t)) && e.refcnt == 1)
    && (t in u'.events ==>
          if About(s, t) || s == DoClose then Touched(e, s, closes, u'.events[t]) else u'.events[t] == e)
  }

  lemma SenderFollows(u: Usim, u': Usim, s: Step, t: nat)
    requires TicketOk(u, t) && t in u.events && Next(u, u', s)
    requires s.DoPost? || s.DoWake? || s.DoUnlink? || s.DoReturn?
    ensures EventFollows(u, u', s, t)
  {
  }

  lemma GetFollows(u: Usim, u': Usim, s: Step, t: nat)
    requires TicketOk(u, t) && t in u.events && Next(u, u', s)
    requires s.DoOpen? || s.DoGet? || s.DoGetReturn? || s.DoGetFail?
    ensures EventFollows(u, u', s, t)
  {
  }

  lemma PutFollows(u: Usim, u': Usim, s: Step, t: nat)
    requires TicketOk(u, t) && t in u.events && Next(u, u', s) && (s.DoPutLookup? || s.DoPutMark? || s.DoPutDrop?)
    ensures EventFollows(u, u', s, t)
  {
  }

  lemma CloseFollows(u: Usim, u': Usim, s: Step, t: nat)
    requires TicketOk(u, t) && t in u.events && Next(u, u', s) && s.DoClose?
    ensures EventFollows(u, u', s, t)
  {
  }

  /**
   In every run an event is changed only by its own GET, PUT and return and by a close, which completes it exactly when
   it is on the queue and in progress; it is freed exactly when the last of its two holders drops it.
   */
  lemma EventLaw(us: seq<Usim>, ss: seq<Step>, n: nat, t: nat)
    requires Run(us, ss) && n < |ss| && t in us[n].events
    ensures EventFollows(us[n], us[n + 1], ss[n], t)
  {
    TicketInRun(us, ss, n, t);
    assert StepAt(us, ss, n);
    match ss[n] {
      case DoOpen | DoGet(_) | DoGetReturn(_) | DoGetFail(_) => GetFollows(us[n], us[n + 1], ss[n], t);
      case DoPutLookup(_) | DoPutMark(_, _) | DoPutDrop(_) => PutFollows(us[n], us[n + 1], ss[n], t);
      case DoClose => CloseFollows(us[n], us[n + 1], ss[n], t);
      case _ => SenderFollows(us[n], us[n + 1], ss[n], t);
    }
  }

  // ----- What the parties see -----

  /** Events are handed out in the order they were posted. */
  lemma HandedInPostingOrder(us: seq<Usim>, ss: seq<Step>, n: nat, i: nat, j: nat)
    requires Run(us, ss) && n < |us| && i < j < |us[n].handed|
    ensures us[n].handed[i] in us[n].pos && us[n].handed[j] in us[n].pos
    ensures us[n].pos[us[n].handed[i]] < us[n].pos[us[n].handed[j]]
  {
    RunKeepsInv(us, ss, n);
  }

  /** The logs only grow: positions stay, and what was handed out stays handed out. */
  ghost predicate LogsGrow(u: Usim, u': Usim) {
    && u.handed <= u'.handed && |u.pos| <= |u'.pos|
    && forall t | t in u.pos :: t in u'.pos && u'.pos[t] == u.pos[t]
  }

  lemma StepGrowsLogs(us: seq<Usim>, ss: seq<Step>, n: nat)
    requires Run(us, ss) && n < |ss|
    ensures LogsGrow(us[n], us[n + 1])
    ensures ss[n].DoGet? ==> us[n + 1].handed == us[n].handed + [ss[n].t]
    ensures ss[n].DoPost? ==> ss[n].t in us[n + 1].pos && us[n + 1].pos[ss[n].t] == |us[n].pos| < |us[n + 1].pos|
  {
    assert StepAt(us, ss, n);
    if ss[n].DoPost? {
      OneMoreKey(us[n].pos, ss[n].t, |us[n].pos|);
    }
  }

  lemma {:induction false} RunGrowsLogs(us: seq<Usim>, ss: seq<Step>, m: nat, n: nat)
    requires Run(us, ss) && m <= n < |us|
    ensures LogsGrow(us[m], us[n])
    decreases n - m
  {
    if m < n {
      RunGrowsLogs(us, ss, m, n - 1);
      StepGrowsLogs(us, ss, n - 1);
    }
  }

  /** Of two GETs the earlier one gets the event that was posted earlier. */
  lemma GetsInPostingOrder(us: seq<Usim>, ss: seq<Step>, i: nat, j: nat, p: nat, q: nat)
    requires Run(us, ss) && i < j < |ss| && ss[i].DoGet? && ss[j].DoGet?
    requires p < |ss| && q < |ss| && ss[p].DoPost? && ss[q].DoPost? && ss[p].t == ss[i].t && ss[q].t == ss[j].t
    ensures p < q
  {
    StepGrowsLogs(us, ss, i);
    StepGrowsLogs(us, ss, j);
    RunGrowsLogs(us, ss, i + 1, j);
    var a, b, u := |us[i].handed|, |us[j].handed|, us[j + 1];
    assert u.handed[a] == ss[i].t && u.handed[b] == ss[j].t && a < b;
    HandedInPostingOrder(us, ss, j + 1, a, b);
    PostedAt(us, ss, p, j + 1, ss[i].t);
    PostedAt(us, ss, q, j + 1, ss[j].t);
    if q < p {
      RunGrowsLogs(us, ss, q + 1, p);
      StepGrowsLogs(us, ss, q);
    }
  }

  lemma PostedAt(us: seq<Usim>, ss: seq<Step>, p: nat, n: nat, t: nat)
    requires Run(us, ss) && p < |ss| && n < |us| && ss[p].DoPost? && ss[p].t == t && t in us[n].pos
    ensures us[n].pos[t] == |us[p].pos|
  {
    StepGrowsLogs(us, ss, p);
    assert StepAt(us, ss, p);
    if n <= p {
      RunGrowsLogs(us, ss, n, p);
      assert false;
    }
    RunGrowsLogs(us, ss, p + 1, n);
  }

  /** A sender that was not interrupted returns exactly the status, and on success the data, put for its ticket. */
  lemma SenderSeesItsReply(us: seq<Usim>, ss: seq<Step>, n: nat, t: nat)
    requires Run(us, ss) && n < |us| && t in us[n].senders && us[n].senders[t].Returned?
    ensures var u := us[n];
            var s := u.senders[t];
            && (!s.cut ==> t in u.replies && s.result == u.replies[t].status)
            && (s.result == 0 ==> t in u.replies && u.replies[t] == Reply(0, s.len, s.data))
            && (s.result == 0 ==> !s.cut)
  {
    RunKeepsInv(us, ss, n);
    assert TicketOk(us[n], t);
  }

  lemma CutStays(us: seq<Usim>, ss: seq<Step>, n: nat, t: nat)
    requires Run(us, ss) && 0 < n < |us| && ss[n - 1] != DoWake(t)
    ensures var u, u' := us[n - 1], us[n];
            && (t in u.senders && !u.senders[t].Waiting? ==>
                  t in u'.senders && !u'.senders[t].Waiting? && u'.senders[t].cut == u.senders[t].cut)
            && (t in u'.senders && !u'.senders[t].Waiting? ==> t in u.senders && !u.senders[t].Waiting?)
  {
    assert StepAt(us, ss, n - 1);
    TicketInRun(us, ss, n - 1, t);
  }

  /** A sender that is past its wait has been woken. */
  lemma {:induction false} WokenBy(us: seq<Usim>, ss: seq<Step>, n: nat, t: nat) returns (w: nat)
    requires Run(us, ss) && n < |us| && t in us[n].senders && !us[n].senders[t].Waiting?
    ensures w < n && ss[w] == DoWake(t)
  {
    if ss[n - 1] == DoWake(t) {
      w := n - 1;
    } else {
      CutStays(us, ss, n, t);
      w := WokenBy(us, ss, n - 1, t);
    }
  }

  /** The state of its event when it wakes decides, once and for all, whether a sender was interrupted. */
  lemma {:induction false} WakeDecides(us: seq<Usim>, ss: seq<Step>, w: nat, n: nat, t: nat)
    requires Run(us, ss) && w < n < |us| && ss[w] == DoWake(t)
    ensures t in us[w].events && t in us[n].senders && !us[n].senders[t].Waiting?
    ensures us[n].senders[t].cut <==> us[w].events[t].state != Done
    decreases n
  {
    assert StepAt(us, ss, w);
    if n > w + 1 {
      WakeDecides(us, ss, w, n - 1, t);
      assert StepAt(us, ss, n - 1);
      assert ss[n - 1] != DoWake(t);
      CutStays(us, ss, n, t);
    }
  }

  /** The step in which a sender returned. */
  lemma {:induction false} ReturnedBy(us: seq<Usim>, ss: seq<Step>, n: nat, t: nat) returns (r: nat)
    requires Run(us, ss) && n < |us| && t in us[n].senders && us[n].senders[t].Returned?
    ensures r < n && ss[r] == DoReturn(t) && t in us[r + 1].senders && us[r + 1].senders[t] == us[n].senders[t]
  {
    assert StepAt(us, ss, n - 1);
    if ss[n - 1] == DoReturn(t) {
      r := n - 1;
    } else {
      r := ReturnedBy(us, ss, n - 1, t);
    }
  }

  /**
   What a sender returns, in every run: the status of its event if that is an error, else success if its event was
   done when it woke, else that it was interrupted; and the data its event then holds.
   */
  lemma SenderResult(us: seq<Usim>, ss: seq<Step>, n: nat, t: nat) returns (w: nat, r: nat)
    requires Run(us, ss) && n < |us| && t in us[n].senders && us[n].senders[t].Returned?
    ensures w < r < n && ss[w] == DoWake(t) && ss[r] == DoReturn(t) && t in us[w].events && t in us[r].events
    ensures var s, e := us[n].senders[t], us[r].events[t];
            && s.len == e.len && s.data == e.data
            && s.result == if e.status != 0 then e.status
                           else if us[w].events[t].state == Done then 0 else ERESTARTSYS
    ensures us[w].events[t].state == Done ==>
      t in us[n].replies && us[n].senders[t].result == us[n].replies[t].status
  {
    r := ReturnedBy(us, ss, n, t);
    assert StepAt(us, ss, r);
    w := WokenBy(us, ss, r, t);
    WakeDecides(us, ss, w, r, t);
    WakeDecides(us, ss, w, n, t);
    SenderSeesItsReply(us, ss, n, t);
  }

  /** With the device closed no queued event is in progress: whoever waits can still be served or has its reply. */
  lemma ClosedLeavesNoneInProgress(us: seq<Usim>, ss: seq<Step>, n: nat, t: nat)
    requires Run(us, ss) && n < |us| && us[n].users == 0 && t in us[n].queue
    ensures t in us[n].events && us[n].events[t].state != InProgress
  {
    RunKeepsInv(us, ss, n);
    assert TicketOk(us[n], t);
  }

  /** The reference count is the number of parties holding the event, and a queued event is never freed. */
  lemma CountIsHolders(us: seq<Usim>, ss: seq<Step>, n: nat, t: nat)
    requires Run(us, ss) && n < |us|
    ensures var u := us[n];
            && (t in u.events <==> SenderHolds(u, t) || t in u.held)
            && (t in u.events ==> u.events[t].refcnt == Holders(u, t))
            && (t in u.queue ==> t in u.events)
  {
    RunKeepsInv(us, ss, n);
    assert TicketOk(us[n], t);
  }

  /** Both sides are finished with the event: the sender returned, the receiver owes nothing for it. */
  ghost predicate Finished(u: Usim, t: nat) {
    t in u.senders && u.senders[t].Returned? && t !in u.mine && !Busy(u, t)
  }

  /**
   Once both sides are finished the event has been released, unless the receiver's reference was stranded;
   and that only happens to an interrupted sender.
   */
  lemma ReleasedUnlessStranded(us: seq<Usim>, ss: seq<Step>, n: nat, t: nat)
    requires Run(us, ss) && n < |us| && Finished(us[n], t)
    ensures t in us[n].events <==> t in us[n].stranded
    ensures !us[n].senders[t].cut ==> t !in us[n].events
  {
    RunKeepsInv(us, ss, n);
    assert TicketOk(us[n], t);
  }

  /** A reference is stranded exactly when the receiver, still owing a reply, finds the event gone from the queue. */
  lemma StrandedExactlyWhen(us: seq<Usim>, ss: seq<Step>, n: nat, t: nat)
    requires Run(us, ss) && n < |ss|
    ensures var u, u', s := us[n], us[n + 1], ss[n];
            t in u'.stranded && t !in u.stranded <==>
              (s == DoPutLookup(t) || s == DoClose) && t in u.mine && t !in u.queue
  {
    RunKeepsInv(us, ss, n);
    assert TicketOk(us[n], t);
    assert StepAt(us, ss, n);
  }

  /** The receiver lets go of the event without dropping its reference. */
  ghost predicate GivenUp(us: seq<Usim>, ss: seq<Step>, i: nat, t: nat)
    requires i < |us| && i < |ss|
  {
    (ss[i] == DoPutLookup(t) || ss[i] == DoClose) && t in us[i].mine && t !in us[i].queue
  }

  lemma {:induction false} StrandedIffGivenUp(us: seq<Usim>, ss: seq<Step>, n: nat, t: nat)
    requires Run(us, ss) && n < |us|
    ensures t in us[n].stranded <==> exists i: nat :: i < n && GivenUp(us, ss, i, t)
  {
    if n > 0 {
      StrandedIffGivenUp(us, ss, n - 1, t);
      StrandedExactlyWhen(us, ss, n - 1, t);
      RunIsMonotone(us, ss, n - 1, n, t);
      assert t in us[n].stranded && t !in us[n - 1].stranded <==> GivenUp(us, ss, n - 1, t) && t !in us[n - 1].stranded;
      if GivenUp(us, ss, n - 1, t) {
        RunKeepsInv(us, ss, n - 1);
        assert TicketOk(us[n - 1], t);
      }
    }
  }

  /**
   When both sides are finished the event is still allocated, for ever, if and only if at some point of the run
   the receiver put its ticket or closed, owing it, after the sender had taken it off the queue.
   */
  lemma LeakedIffGivenUp(us: seq<Usim>, ss: seq<Step>, n: nat, t: nat)
    requires Run(us, ss) && n < |us| && Finished(us[n], t)
    ensures t in us[n].events <==> exists i: nat :: i < n && GivenUp(us, ss, i, t)
    ensures t in us[n].events ==> forall m | n <= m < |us| :: t in us[m].events
  {
    ReleasedUnlessStranded(us, ss, n, t);
    StrandedIffGivenUp(us, ss, n, t);
    forall m | n <= m < |us| && t in us[n].events
      ensures t in us[m].events
    {
      RunIsMonotone(us, ss, n, m, t);
      RunKeepsInv(us, ss, m);
      assert TicketOk(us[m], t);
    }
  }

  ghost function LastOf(us: seq<Usim>): Usim
    requires us != []
  {
    us[|us| - 1]
  }

  lemma Extend(us: seq<Usim>, ss: seq<Step>, u: Usim, s: Step)
    requires Run(us, ss) && Next(LastOf(us), u, s)
    ensures Run(us + [u], ss + [s]) && LastOf(us + [u]) == u
  {
    var us', ss' := us + [u], ss + [s];
    forall i | 0 <= i < |ss'|
      ensures StepAt(us', ss', i)
    {
      assert i < |ss| ==> StepAt(us, ss, i);
    }
  }

  /** One event is posted and handed to the receiver. */
  lemma HandOut() returns (us: seq<Usim>, ss: seq<Step>)
    ensures Run(us, ss) && LastOf(us).users == 1 && LastOf(us).receiver == Idle && 1 in LastOf(us).mine
    ensures LastOf(us).queue == [1] && LastOf(us).senders == map[1 := Waiting]
    ensures 1 in LastOf(us).events && LastOf(us).events[1].state == InProgress
    ensures var e := LastOf(us).events[1]; e.read && e.status == 0 && e.refcnt == 2 && |e.data| == DATA_SIZE
  {
    us, ss := [EMPTY], [];
    var u, e := EMPTY, Event(true, Ready, 0, 1, 1, seq(DATA_SIZE, _ => 0));
    u := u.(events := u.events[1 := e], queue := u.queue + [1], senders := u.senders[1 := Waiting],
            pos := u.pos[1 := |u.pos|]);
    Extend(us, ss, u, DoPost(1, e));
    us, ss := us + [u], ss + [DoPost(1, e)];
    u := u.(users := 1);
    Extend(us, ss, u, DoOpen);
    us, ss := us + [u], ss + [DoOpen];
    assert FirstReadyAt(u, 1, 0);
    u := u.(events := u.events[1 := e.(state := InProgress, refcnt := e.refcnt + 1)], receiver := Got(1),
            held := u.held + {1}, handed := u.handed + [1]);
    Extend(us, ss, u, DoGet(1));
    us, ss := us + [u], ss + [DoGet(1)];
    u := u.(receiver := Idle, mine := u.mine + {1});
    Extend(us, ss, u, DoGetReturn(1));
    us, ss := us + [u], ss + [DoGetReturn(1)];
  }

  /** An event does leak: the sender is interrupted while the receiver works on it. */
  lemma LeakRun() returns (us: seq<Usim>, ss: seq<Step>)
    ensures Run(us, ss) && Finished(LastOf(us), 1) && 1 in LastOf(us).events
  {
    us, ss := HandOut();
    var u := LastOf(us);
    u := u.(senders := u.senders[1 := Woken(u.events[1].state != Done)]);
    Extend(us, ss, u, DoWake(1));
    us, ss := us + [u], ss + [DoWake(1)];
    u := u.(queue := Without(u.queue, 1), senders := u.senders[1 := Unlinked(u.senders[1].cut)]);
    Extend(us, ss, u, DoUnlink(1));
    us, ss := us + [u], ss + [DoUnlink(1)];
    u := u.(mine := u.mine - {1}, stranded := u.stranded + {1});
    Extend(us, ss, u, DoPutLookup(1));
    us, ss := us + [u], ss + [DoPutLookup(1)];
    var e := u.events[1];
    var v := if e.status != 0 then e.status else ERESTARTSYS;
    u := u.(events := Put(u.events, 1), senders := u.senders[1 := Returned(true, v, e.len, e.data)]);
    Extend(us, ss, u, DoReturn(1));
    us, ss := us + [u], ss + [DoReturn(1)];
    StrandedInRun(us, ss, 1);
  }

  lemma StrandedInRun(us: seq<Usim>, ss: seq<Step>, t: nat)
    requires Run(us, ss) && t in LastOf(us).stranded
    ensures t in LastOf(us).events
  {
    RunKeepsInv(us, ss, |ss|);
    assert TicketOk(us[|ss|], t);
  }

  /**
   PUT does not check that the event was handed out. Completing a queued event leaves it allocated if and only
   if the receiver had got it and still owed its reply; otherwise the sender's own reference is dropped.
   */
  lemma PutSafeIffOwed(u: Usim, t: nat, r: Reply)
    requires Inv(u) && u.receiver == Idle && t in u.queue && t in u.events
    ensures t in Put(u.events[t := Mark(u.events[t], r)], t) <==> t in u.mine
  {
    assert TicketOk(u, t);
  }
}
