/**
 The DMA scheduler as a value: idle channels, requests in progress, requests being retired by an interrupt
 handler that has not yet taken the lock, and the queue of waiting requests, with logs of what happened.
 */
module DmaMachine {
  import opened Common

  /** `serial` tells requests apart even when memory and tickets are reused. */
  datatype Req = Req(serial: nat, ticket: nat, cookie: nat, len: nat)

  datatype Dma = Dma(
    idle: set<nat>,
    busy: map<nat, Req>,
    retiring: map<nat, Req>,
    queue: seq<Req>,
    submitted: seq<Req>,
    dispatched: seq<Req>,
    completed: seq<Req>)

  ghost predicate IsLeast(c: nat, s: set<nat>) {
    c in s && forall d | d in s :: c <= d
  }

  /** A request is submitted: the least idle channel takes it, or it waits. */
  ghost predicate Submit(d: Dma, d': Dma, r: Req) {
    && r !in d.submitted
    && if d.idle == {} then d' == d.(queue := d.queue + [r], submitted := d.submitted + [r])
       else exists c :: IsLeast(c, d.idle) && d' == Started(d, r, c)
  }

  ghost function Started(d: Dma, r: Req, c: nat): Dma {
    d.(idle := d.idle - {c}, busy := d.busy[c := r],
       submitted := d.submitted + [r], dispatched := d.dispatched + [r])
  }

  /** First half of the completion handler: the channel's request is taken out of its slot. */
  ghost predicate Take(d: Dma, d': Dma, c: nat) {
    && c in d.busy
    && d' == d.(busy := d.busy - {c}, retiring := d.retiring[c := d.busy[c]])
  }

  /** Second half, under the lock: the channel takes the first waiting request or becomes idle. */
  ghost predicate Finish(d: Dma, d': Dma, c: nat) {
    && c in d.retiring
    && var e := d.(retiring := d.retiring - {c}, completed := d.completed + [d.retiring[c]]);
       if d.queue == [] then d' == e.(idle := d.idle + {c})
       else d' == e.(busy := d.busy[c := d.queue[0]], queue := d.queue[1..], dispatched := d.dispatched + [d.queue[0]])
  }

  // ----- The invariant -----

  ghost predicate Injective(m: map<nat, Req>) {
    forall c, e | c in m && e in m && c != e :: m[c] != m[e]
  }

  /** Every channel in service is idle, occupied, or between the halves of its completion handler. */
  ghost predicate ChannelsOk(init: set<nat>, d: Dma) {
    forall c :: ChannelOk(init, d, c)
  }

  ghost predicate ChannelOk(init: set<nat>, d: Dma, c: nat) {
    && (c in init <==> c in d.idle || c in d.busy || c in d.retiring)
    && !(c in d.idle && c in d.busy) && !(c in d.idle && c in d.retiring) && !(c in d.busy && c in d.retiring)
  }

  /** Requests reach channels in the order they were submitted, and wait only while no channel is idle. */
  ghost predicate Fifo(d: Dma) {
    && d.submitted == d.dispatched + d.queue
    && (d.queue != [] ==> d.idle == {})
  }

  ghost predicate InProgress(d: Dma, r: Req) { r in d.busy.Values }

  ghost predicate Retiring(d: Dma, r: Req) { r in d.retiring.Values }

  /** A dispatched request is completed, on one channel, or being retired, and only one of these. */
  ghost predicate InOnePlace(d: Dma, r: Req) {
    && (r in d.dispatched <==> r in d.completed || InProgress(d, r) || Retiring(d, r))
    && !(r in d.completed && InProgress(d, r)) && !(r in d.completed && Retiring(d, r))
    && !(InProgress(d, r) && Retiring(d, r))
  }

  ghost predicate Conserved(d: Dma) {
    && Distinct(d.submitted) && Distinct(d.completed)
    && Injective(d.busy) && Injective(d.retiring)
    && (forall r :: InOnePlace(d, r))
    && |d.dispatched| == |d.completed| + |d.busy| + |d.retiring|
  }

  ghost predicate Inv(init: set<nat>, d: Dma) {
    ChannelsOk(init, d) && Fifo(d) && Conserved(d)
  }

  ghost function Fresh(idle: set<nat>): Dma {
    Dma(idle, map[], map[], [], [], [], [])
  }

  lemma FreshInv(idle: set<nat>)
    ensures Inv(idle, Fresh(idle))
  {
  }

  // ----- Every step keeps it -----

  lemma WaitingNotDispatched(dispatched: seq<Req>, queue: seq<Req>, r: Req)
    requires Distinct(dispatched + queue) && (r !in dispatched + queue || r in queue)
    ensures r !in dispatched
  {
    var all := dispatched + queue;
    if r in queue {
      var j :| 0 <= j < |queue| && queue[j] == r;
      assert all[|dispatched| + j] == r;
      assert forall i | 0 <= i < |dispatched| :: all[i] == dispatched[i];
    } else {
      assert forall i | 0 <= i < |dispatched| :: all[i] == dispatched[i] && all[i] in all;
    }
  }

  lemma WaitingNowhereElse(d: Dma, r: Req)
    requires d.submitted == d.dispatched + d.queue && Conserved(d) && (r !in d.submitted || r in d.queue)
    ensures r !in d.dispatched && r !in d.completed && !InProgress(d, r) && !Retiring(d, r)
  {
    assert InOnePlace(d, r);
    WaitingNotDispatched(d.dispatched, d.queue, r);
  }

  lemma DispatchKeepsPlaces(d: Dma, d': Dma, r: Req, c: nat)
    requires Conserved(d) && c !in d.busy && c !in d.retiring
    requires r !in d.dispatched && !InProgress(d, r) && !Retiring(d, r) && r !in d.completed
    requires d'.busy == d.busy[c := r] && d'.retiring == d.retiring && d'.completed == d.completed
    requires d'.dispatched == d.dispatched + [r] && Distinct(d'.submitted)
    ensures Conserved(d')
  {
    forall q
      ensures InOnePlace(d', q)
    {
      assert InOnePlace(d, q);
      ValuesAdd(d.busy, c, r, q);
    }
    forall e, g | e in d'.busy && g in d'.busy && e != g
      ensures d'.busy[e] != d'.busy[g]
    {
      assert e != c ==> InProgress(d, d.busy[e]);
      assert g != c ==> InProgress(d, d.busy[g]);
    }
  }

  lemma ValuesAdd(m: map<nat, Req>, c: nat, r: Req, q: Req)
    requires c !in m
    ensures q in m[c := r].Values <==> q in m.Values || q == r
    ensures |m[c := r]| == |m| + 1
  {
    var n := m[c := r];
    assert n[c] == r;
    if q in m.Values {
      var e :| e in m && m[e] == q;
      assert n[e] == q;
    }
    assert n.Keys == m.Keys + {c};
  }

  lemma ValuesRemove(m: map<nat, Req>, c: nat, q: Req)
    requires c in m && Injective(m)
    ensures q in (m - {c}).Values <==> q in m.Values && q != m[c]
    ensures |m - {c}| == |m| - 1
  {
    var n := m - {c};
    if q in m.Values && q != m[c] {
      var e :| e in m && m[e] == q;
      assert n[e] == q;
    }
    assert n.Keys == m.Keys - {c};
  }

  lemma SubmitKeepsFifo(d: Dma, d': Dma, r: Req)
    requires Fifo(d) && Submit(d, d', r)
    ensures Fifo(d')
  {
    if d.idle == {} {
      assert d.submitted + [r] == d.dispatched + (d.queue + [r]);
    } else {
      assert d.queue == [] && d.submitted == d.dispatched;
      assert d'.queue == [];
    }
  }

  lemma SubmitKeepsChannels(init: set<nat>, d: Dma, d': Dma, r: Req)
    requires ChannelsOk(init, d) && Submit(d, d', r)
    ensures ChannelsOk(init, d')
  {
    forall c
      ensures ChannelOk(init, d', c)
    {
      assert ChannelOk(init, d, c);
    }
  }

  lemma SubmitKeepsInv(init: set<nat>, d: Dma, d': Dma, r: Req)
    requires Inv(init, d) && Submit(d, d', r)
    ensures Inv(init, d')
  {
    SubmitKeepsFifo(d, d', r);
    SubmitKeepsChannels(init, d, d', r);
    WaitingNowhereElse(d, r);
    if d.idle == {} {
      ConservedIsLocal(d, d');
    } else {
      var c :| IsLeast(c, d.idle) && d' == Started(d, r, c);
      assert ChannelOk(init, d, c);
      DispatchKeepsPlaces(d, d', r, c);
    }
  }

  lemma ConservedIsLocal(d: Dma, d': Dma)
    requires Conserved(d) && d'.busy == d.busy && d'.retiring == d.retiring && d'.completed == d.completed
    requires d'.dispatched == d.dispatched && Distinct(d'.submitted)
    ensures Conserved(d')
  {
    forall q
      ensures InOnePlace(d', q)
    {
      assert InOnePlace(d, q);
    }
  }

  lemma TakeKeepsInv(init: set<nat>, d: Dma, d': Dma, c: nat)
    requires Inv(init, d) && Take(d, d', c)
    ensures Inv(init, d')
  {
    assert ChannelOk(init, d, c);
    TakeKeepsPlaces(d, d', c);
    forall e
      ensures ChannelOk(init, d', e)
    {
      assert ChannelOk(init, d, e);
    }
  }

  lemma TakeKeepsPlaces(d: Dma, d': Dma, c: nat)
    requires Conserved(d) && c in d.busy && c !in d.retiring && Take(d, d', c)
    ensures Conserved(d')
  {
    var r := d.busy[c];
    assert InProgress(d, r) && InOnePlace(d, r);
    forall q
      ensures InOnePlace(d', q)
    {
      assert InOnePlace(d, q);
      ValuesRemove(d.busy, c, q);
      ValuesAdd(d.retiring, c, r, q);
    }
    forall e, g | e in d'.retiring && g in d'.retiring && e != g
      ensures d'.retiring[e] != d'.retiring[g]
    {
      assert e != c ==> Retiring(d, d.retiring[e]);
      assert g != c ==> Retiring(d, d.retiring[g]);
    }
    ValuesRemove(d.busy, c, r);
    ValuesAdd(d.retiring, c, r, r);
  }

  /** The request leaves its channel for the log of completed ones. */
  lemma RetireKeepsPlaces(d: Dma, e: Dma, c: nat)
    requires Conserved(d) && c in d.retiring
    requires e == d.(retiring := d.retiring - {c}, completed := d.completed + [d.retiring[c]])
    ensures Conserved(e)
  {
    var r := d.retiring[c];
    assert Retiring(d, r) && InOnePlace(d, r);
    forall q
      ensures InOnePlace(e, q)
    {
      assert InOnePlace(d, q);
      ValuesRemove(d.retiring, c, q);
    }
    ValuesRemove(d.retiring, c, r);
  }

  /** A request being retired was submitted and is not completed yet. */
  lemma RetiringIsSubmitted(init: set<nat>, d: Dma, c: nat)
    requires Inv(init, d) && c in d.retiring
    ensures d.retiring[c] in d.submitted && d.retiring[c] !in d.completed
  {
    var r := d.retiring[c];
    assert Retiring(d, r) && InOnePlace(d, r);
  }

  lemma FinishKeepsInv(init: set<nat>, d: Dma, d': Dma, c: nat)
    requires Inv(init, d) && Finish(d, d', c)
    ensures Inv(init, d')
  {
    assert ChannelOk(init, d, c);
    FinishKeepsChannels(init, d, d', c);
    FinishKeepsPlaces(d, d', c);
    if d.queue != [] {
      assert d.dispatched + d.queue == d.dispatched + [d.queue[0]] + d.queue[1..];
    }
  }

  lemma FinishKeepsChannels(init: set<nat>, d: Dma, d': Dma, c: nat)
    requires ChannelsOk(init, d) && Finish(d, d', c)
    ensures ChannelsOk(init, d')
  {
    forall e
      ensures ChannelOk(init, d', e)
    {
      assert ChannelOk(init, d, e);
    }
  }

  lemma FinishKeepsPlaces(d: Dma, d': Dma, c: nat)
    requires Conserved(d) && d.submitted == d.dispatched + d.queue && Finish(d, d', c) && c !in d.busy
    ensures Conserved(d')
  {
    var e := d.(retiring := d.retiring - {c}, completed := d.completed + [d.retiring[c]]);
    RetireKeepsPlaces(d, e, c);
    if d.queue != [] {
      WaitingNowhereElse(e, d.queue[0]);
      DispatchKeepsPlaces(e, d', d.queue[0], c);
    } else {
      ConservedIsLocal(e, d');
    }
  }

  // ----- Runs -----

  datatype Event = Submitted(r: Req) | Taken(c: nat) | Finished(c: nat) | Spurious

  /** One step between lock boundaries; a spurious interrupt changes nothing. */
  ghost predicate Step(d: Dma, d': Dma, e: Event) {
    match e
    case Submitted(r) => Submit(d, d', r)
    case Taken(c) => Take(d, d', c)
    case Finished(c) => Finish(d, d', c)
    case Spurious => d' == d
  }

  ghost predicate Run(ds: seq<Dma>, es: seq<Event>) {
    && |ds| == |es| + 1
    && forall i | 0 <= i < |es| :: StepAt(ds, es, i)
  }

  ghost predicate StepAt(ds: seq<Dma>, es: seq<Event>, i: nat)
    requires i < |es| && i + 1 < |ds|
  {
    Step(ds[i], ds[i + 1], es[i])
  }

  lemma StepKeepsInv(init: set<nat>, d: Dma, d': Dma, e: Event)
    requires Inv(init, d) && Step(d, d', e)
    ensures Inv(init, d')
  {
    match e {
      case Submitted(r) => SubmitKeepsInv(init, d, d', r);
      case Taken(c) => TakeKeepsInv(init, d, d', c);
      case Finished(c) => FinishKeepsInv(init, d, d', c);
      case Spurious =>
    }
  }

  /** In every interleaving of submitters and interrupt handlers the invariant holds throughout. */
  lemma {:induction false} RunKeepsInv(init: set<nat>, ds: seq<Dma>, es: seq<Event>, n: nat)
    requires Run(ds, es) && Inv(init, ds[0]) && n < |ds|
    ensures Inv(init, ds[n])
  {
    if n > 0 {
      RunKeepsInv(init, ds, es, n - 1);
      assert StepAt(ds, es, n - 1);
      StepKeepsInv(init, ds[n - 1], ds[n], es[n - 1]);
    }
  }

  /** At every point of a run, what has been dispatched is a prefix of what has been submitted by the end. */
  lemma {:induction false} DispatchIsFifo(init: set<nat>, ds: seq<Dma>, es: seq<Event>, m: nat, n: nat)
    requires Run(ds, es) && Inv(init, ds[0]) && m <= n < |ds|
    ensures ds[m].dispatched <= ds[n].dispatched <= ds[n].submitted
    ensures ds[m].submitted <= ds[n].submitted
    decreases n - m
  {
    RunKeepsInv(init, ds, es, n);
    DispatchedFirst(ds[n]);
    if m < n {
      DispatchIsFifo(init, ds, es, m, n - 1);
      assert StepAt(ds, es, n - 1);
      LogsGrow(ds[n - 1], ds[n], es[n - 1]);
      PrefixTransitive(ds[m].dispatched, ds[n - 1].dispatched, ds[n].dispatched);
      PrefixTransitive(ds[m].submitted, ds[n - 1].submitted, ds[n].submitted);
    }
  }

  lemma DispatchedFirst(d: Dma)
    requires Fifo(d)
    ensures d.dispatched <= d.submitted
  {
  }

  lemma LogsGrow(d: Dma, d': Dma, e: Event)
    requires Step(d, d', e)
    ensures d.dispatched <= d'.dispatched && d.submitted <= d'.submitted
  {
  }

  lemma PrefixTransitive(xs: seq<Req>, ys: seq<Req>, zs: seq<Req>)
    requires xs <= ys <= zs
    ensures xs <= zs
  {
  }

  // ----- Conservation and drain -----

  /** Requests submitted and not yet completed. */
  ghost function Outstanding(d: Dma): nat {
    |d.busy| + |d.retiring| + |d.queue|
  }

  ghost function Once(b: bool): nat { if b then 1 else 0 }

  /** Every submitted request is in exactly one place: completed, in progress, being retired, or waiting. */
  lemma SubmittedSplit(init: set<nat>, d: Dma)
    requires Inv(init, d)
    ensures |d.submitted| == |d.completed| + Outstanding(d)
    ensures forall r :: Once(r in d.completed) + Once(InProgress(d, r)) + Once(Retiring(d, r)) + Once(r in d.queue)
                        == Once(r in d.submitted)
  {
    forall r
      ensures Once(r in d.completed) + Once(InProgress(d, r)) + Once(Retiring(d, r)) + Once(r in d.queue)
              == Once(r in d.submitted)
    {
      assert InOnePlace(d, r);
      if r in d.queue {
        WaitingNowhereElse(d, r);
      }
    }
  }

  ghost function Count(es: seq<Event>, finished: bool): nat {
    if es == [] then 0
    else Count(es[..|es| - 1], finished) +
         (if (if finished then es[|es| - 1].Finished? else es[|es| - 1].Submitted?) then 1 else 0)
  }

  /** Each submission adds one outstanding request, each completed interrupt removes one, nothing else does. */
  lemma {:induction false} OutstandingCounts(init: set<nat>, ds: seq<Dma>, es: seq<Event>)
    requires Run(ds, es) && Inv(init, ds[0])
    ensures Outstanding(ds[|es|]) + Count(es, true) == Outstanding(ds[0]) + Count(es, false)
    decreases |es|
  {
    if es != [] {
      var n := |es| - 1;
      var ds', es' := ds[..|es|], es[..n];
      forall i | 0 <= i < n
        ensures StepAt(ds', es', i)
      {
        assert StepAt(ds, es, i);
      }
      OutstandingCounts(init, ds', es');
      RunKeepsInv(init, ds, es, n);
      RunKeepsInv(init, ds, es, n + 1);
      assert StepAt(ds, es, n);
      StepCounts(init, ds[n], ds[n + 1], es[n]);
    }
  }

  lemma StepCounts(init: set<nat>, d: Dma, d': Dma, e: Event)
    requires Inv(init, d) && Inv(init, d') && Step(d, d', e)
    ensures Outstanding(d') == Outstanding(d) + (if e.Submitted? then 1 else if e.Finished? then -1 else 0)
  {
    SubmittedSplit(init, d);
    SubmittedSplit(init, d');
  }

  /** Once nothing is outstanding every channel in service is idle again and every request completed, once. */
  lemma DrainedIsInitial(init: set<nat>, d: Dma)
    requires Inv(init, d) && Outstanding(d) == 0
    ensures d.idle == init
    ensures Distinct(d.completed) && |d.completed| == |d.submitted|
    ensures forall r :: r in d.completed <==> r in d.submitted
  {
    assert d.busy == map[] && d.retiring == map[] && d.queue == [];
    assert d.dispatched == d.submitted;
    forall c
      ensures c in d.idle <==> c in init
    {
      assert ChannelOk(init, d, c);
    }
    forall r
      ensures r in d.completed <==> r in d.submitted
    {
      assert InOnePlace(d, r);
    }
  }

  // ----- The life of a request -----

  datatype Stage = Unknown | Waits | Runs | Retires | Completed

  ghost function StageOf(d: Dma, r: Req): Stage {
    if r in d.completed then Completed else if Retiring(d, r) then Retires
    else if InProgress(d, r) then Runs else if r in d.queue then Waits else Unknown
  }

  /** How far `r` gets by a step. */
  ghost function StageAfter(d: Dma, e: Event, r: Req): Stage {
    match e
    case Submitted(q) => if r != q then StageOf(d, r) else if d.idle == {} then Waits else Runs
    case Taken(c) => if c in d.busy && d.busy[c] == r then Retires else StageOf(d, r)
    case Finished(c) =>
      if c in d.retiring && d.retiring[c] == r then Completed
      else if d.queue != [] && d.queue[0] == r then Runs else StageOf(d, r)
    case Spurious => StageOf(d, r)
  }

  /**
   The life of a request: submitted, it runs at once if a channel is idle and else waits; an interrupt of its channel
   takes it out, and the rest of the handler completes it and starts the request that waited longest. Nothing else
   moves a request.
   */
  lemma StageLaw(init: set<nat>, d: Dma, d': Dma, e: Event, r: Req)
    requires Inv(init, d) && Step(d, d', e)
    ensures StageOf(d', r) == StageAfter(d, e, r)
  {
    StepKeepsInv(init, d, d', e);
    assert InOnePlace(d, r) && InOnePlace(d', r);
    match e {
      case Submitted(q) => SubmitStage(init, d, d', q, r);
      case Taken(c) => TakeStage(init, d, d', c, r);
      case Finished(c) => FinishStage(init, d, d', c, r);
      case Spurious =>
    }
  }

  lemma SubmitStage(init: set<nat>, d: Dma, d': Dma, q: Req, r: Req)
    requires Inv(init, d) && Submit(d, d', q)
    ensures StageOf(d', r) == StageAfter(d, Submitted(q), r)
  {
    WaitingNowhereElse(d, q);
    if d.idle != {} {
      var c :| IsLeast(c, d.idle) && d' == Started(d, q, c);
      assert ChannelOk(init, d, c);
      ValuesAdd(d.busy, c, q, r);
    }
  }

  lemma TakeStage(init: set<nat>, d: Dma, d': Dma, c: nat, r: Req)
    requires Inv(init, d) && Take(d, d', c)
    ensures StageOf(d', r) == StageAfter(d, Taken(c), r)
  {
    assert ChannelOk(init, d, c) && InOnePlace(d, r) && InProgress(d, d.busy[c]);
    ValuesRemove(d.busy, c, r);
    ValuesAdd(d.retiring, c, d.busy[c], r);
  }

  lemma FinishStage(init: set<nat>, d: Dma, d': Dma, c: nat, r: Req)
    requires Inv(init, d) && Finish(d, d', c)
    ensures StageOf(d', r) == StageAfter(d, Finished(c), r)
  {
    assert ChannelOk(init, d, c) && InOnePlace(d, r) && Retiring(d, d.retiring[c]);
    ValuesRemove(d.retiring, c, r);
    if d.queue != [] {
      WaitingNowhereElse(d, d.queue[0]);
      ValuesAdd(d.busy, c, d.queue[0], r);
      FirstWaitsOnce(d);
    }
    if r in d.queue {
      WaitingNowhereElse(d, r);
    }
  }

  lemma FirstWaitsOnce(d: Dma)
    requires Fifo(d) && Distinct(d.submitted) && d.queue != []
    ensures forall r :: r in d.queue[1..] <==> r in d.queue && r != d.queue[0]
  {
    var n := |d.dispatched|;
    assert d.submitted[n] == d.queue[0];
    assert forall k | 0 <= k < |d.queue| :: d.submitted[n + k] == d.queue[k];
    assert d.queue == [d.queue[0]] + d.queue[1..];
  }
}
