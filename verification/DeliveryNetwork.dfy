/** Several processes that exchange messages, src/msgsend.cpp with the proxies
    of src/bridge.cpp and src/o2net.cpp: however often they poll, and in which
    order messages arrive, what is delivered anywhere stays bounded. */
module DeliveryNetwork {
  import opened DeliveryState
  import opened DeliveryRules
  import opened Delivery
  import opened NetworkEvents

  ghost predicate Network(net: seq<Context>, d: nat)
    reads net
  {
    && (forall i, j :: 0 <= i < j < |net| ==> net[i] != net[j])
    && forall i :: 0 <= i < |net| ==> net[i].Ok() && net[i].d == d && net[i].doNotReenter == 0
  }

  /** Deliveries so far and all that can still follow, process by process. */
  ghost function Works(net: seq<Context>, d: nat): (ws: seq<nat>)
    reads net
    ensures |ws| == |net| && forall i :: 0 <= i < |net| ==> ws[i] == Work(d, net[i].View())
  {
    seq(|net|, i requires 0 <= i < |net| reads net => Work(d, net[i].View()))
  }

  ghost function Here(a: Context): Snap
    reads a
  {
    Snap(a.View(), a.ran)
  }

  /** All processes as they are now. */
  ghost function Snaps(net: seq<Context>): (xs: seq<Snap>)
    reads net
    ensures |xs| == |net| && forall i :: 0 <= i < |net| ==> xs[i] == Here(net[i])
  {
    seq(|net|, i requires 0 <= i < |net| reads net => Here(net[i]))
  }

  /** How many messages each process has delivered. */
  ghost function Deliveries(net: seq<Context>): (ns: seq<nat>)
    reads net
    ensures |ns| == |net| && forall i :: 0 <= i < |net| ==> ns[i] == |net[i].delivered|
  {
    seq(|net|, i requires 0 <= i < |net| reads net => |net[i].delivered|)
  }

  function Total(ws: seq<nat>): nat {
    if ws == [] then 0 else ws[0] + Total(ws[1..])
  }

  lemma {:induction false} TotalUpdate(ws: seq<nat>, p: nat, w: nat)
    requires p < |ws|
    ensures Total(ws[p := w]) == Total(ws) - ws[p] + w
  {
    if p == 0 {
      assert ws[p := w][1..] == ws[1..];
    } else {
      assert ws[p := w][1..] == ws[1..][p - 1 := w];
      TotalUpdate(ws[1..], p - 1, w);
    }
  }

  lemma {:induction false} TotalMonotone(vs: seq<nat>, ws: seq<nat>)
    requires |vs| == |ws| && forall i :: 0 <= i < |vs| ==> vs[i] <= ws[i]
    ensures Total(vs) <= Total(ws)
  {
    if vs != [] {
      TotalMonotone(vs[1..], ws[1..]);
    }
  }

  lemma {:induction false} TotalZero(ws: seq<nat>)
    requires forall i :: 0 <= i < |ws| ==> ws[i] == 0
    ensures Total(ws) == 0
  {
    if ws != [] {
      TotalZero(ws[1..]);
    }
  }

  /** What the message of an application can lead to. */
  function Allowed(d: nat, e: Event): nat {
    if e.Submit? then Credit(d, e.content) else 0
  }

  function Budget(d: nat, events: seq<Event>): nat {
    if events == [] then 0 else Allowed(d, events[0]) + Budget(d, events[1..])
  }

  lemma {:induction false} BudgetFrom(d: nat, events: seq<Event>, i: nat)
    requires i < |events|
    ensures Budget(d, events[i..]) == Allowed(d, events[i]) + Budget(d, events[i + 1..])
  {
    assert events[i..][0] == events[i] && events[i..][1..] == events[i + 1..];
  }

  /** One event changes the work of `p` only. */
  lemma OneChanged(ws: seq<nat>, ws': seq<nat>, p: nat, more: int)
    requires |ws| == |ws'| && p < |ws| && ws'[p] <= ws[p] + more
    requires forall i :: 0 <= i < |ws| && i != p ==> ws'[i] == ws[i]
    ensures Total(ws') <= Total(ws) + more
  {
    TotalUpdate(ws, p, ws'[p]);
    assert ws' == ws[p := ws'[p]];
  }

  /** What one process loses another gains, at most. */
  lemma TwoChanged(ws: seq<nat>, ws': seq<nat>, p: nat, q: nat)
    requires |ws| == |ws'| && p < |ws| && q < |ws| && p != q && ws'[p] + ws'[q] <= ws[p] + ws[q]
    requires forall i :: 0 <= i < |ws| && i != p && i != q ==> ws'[i] == ws[i]
    ensures Total(ws') <= Total(ws)
  {
    TotalUpdate(ws, p, ws'[p]);
    TotalUpdate(ws[p := ws'[p]], q, ws'[q]);
    assert ws' == ws[p := ws'[p]][q := ws'[q]];
  }

  /** A message that one process gave to a proxy arrives at another, which sends
      it on: together they have no more to do than before. */
  method Carry(a: Context, k: nat, b: Context)
    requires a != b && a.d == b.d && a.Ok() && b.Ok() && k < |a.sent|
    modifies a, b
    ensures a.Ok() && b.Ok() && a.View() == Gone(old(a.View()), k)
    ensures b.doNotReenter == old(b.doNotReenter) && b.msgs == old(b.msgs) && b.Here() == old(b.Here())
    ensures a.doNotReenter == old(a.doNotReenter)
    ensures old(a.sent[k]) in old(a.memory) && a.ran == old(a.ran) && b.Grew(old(b.View()), old(b.ran))
    ensures old(b.doNotReenter) == 0 ==> Received(old(Here(b)), Here(b), old(a.memory[a.sent[k]]))
    ensures Work(a.d, a.View()) + Work(b.d, b.View()) <= old(Work(a.d, a.View()) + Work(b.d, b.View()))
  {
    hide Effect, Owned, ScriptCredit, Credit, Work, Outstanding, Logged, AnyRuns, SentNow, SentLater, Find, Later;
    hide RunsWhenSent;
    GoneIsOk(a.d, a.View(), k);
    var c := a.memory[a.sent[k]];
    Drop(a, k);
    Deposit(b, c);
  }

  /** An application, or a connection, sends a message. */
  method Deposit(a: Context, c: Content)
    requires a.Ok()
    modifies a
    ensures a.Ok() && a.doNotReenter == old(a.doNotReenter) && a.msgs == old(a.msgs) && a.Here() == old(a.Here())
    ensures old(a.doNotReenter) == 0 ==> Received(old(Here(a)), Here(a), c)
    ensures Work(a.d, a.View()) <= old(Work(a.d, a.View())) + Credit(a.d, c)
    ensures a.Grew(old(a.View()), old(a.ran))
  {
    hide Effect, Owned, ScriptCredit, Credit, Work, Outstanding, Logged, AnyRuns, SentNow, SentLater, Find, Later;
    hide RunsWhenSent;
    ghost var s, h, env := a.View(), a.History(), a.Here();
    var _ := a.Send(c);
    EffectSums(a.d, s, a.View(), Credit(a.d, c), s.doNotReenter == 0, -1);
    EffectLog(a.d, s, a.View(), Credit(a.d, c), s.doNotReenter == 0, -1);
    LoggedFacts(h, a.History(), if a.msgs == [] then [] else a.msgs[1..], RunsWhenSent(env, c, s.doNotReenter == 0));
  }

  /** A message that a proxy has taken leaves the memory of the process. */
  method Drop(a: Context, k: nat)
    requires a.Ok() && k < |a.sent|
    modifies a
    ensures a.Ok() && a.View() == Gone(old(a.View()), k) && a.History() == old(a.History())
    ensures old(a.sent[k]) in old(a.memory)
    ensures Work(a.d, a.View()) == old(Work(a.d, a.View())) - Credit(a.d, old(a.memory[a.sent[k]]))
  {
    hide Owned, Credit, Work;
    GoneIsOk(a.d, a.View(), k);
    a.memory, a.sent := a.memory - {a.sent[k]}, a.sent[..k] + a.sent[k + 1..];
  }

  /** What one process does. */
  method Act(a: Context, e: Event)
    requires a.Ok() && a.doNotReenter == 0 && !e.Arrive?
    modifies a
    ensures a.Ok() && a.doNotReenter == 0
    ensures Did(e, old(Here(a)), Here(a))
    ensures a.ran >= old(a.ran) && old(a.delivered) <= a.delivered
    ensures if e.Lose? && e.k < |old(a.sent)| then |a.sent| + 1 == |old(a.sent)| else old(a.sent) <= a.sent
    ensures Work(a.d, a.View()) <= old(Work(a.d, a.View())) + Allowed(a.d, e)
  {
    hide Owned, Credit, Work, Drain, FewTaps, SentNow, SentLater, Find, Later, RunsWhenSent;
    match e {
      case Submit(_, c) =>
        Deposit(a, c);
      case Dispatch(_) =>
        if a.scheduled != [] { a.DispatchFirst(); }
      case Pending(_) =>
        ghost var trace, n;
        trace, n := a.DeliverPending();
      case Lose(_, k) =>
        if k < |a.sent| { Drop(a, k); }
    }
  }

  /** One event, if it can happen: what it does, and no more to do than the
      message of an application brings. */
  method Step(net: seq<Context>, ghost d: nat, e: Event)
    requires Network(net, d)
    modifies net
    ensures Network(net, d)
    ensures Happened(e, old(Snaps(net)), Snaps(net)) && Grows(e, old(Snaps(net)), Snaps(net))
    ensures Total(Works(net, d)) <= old(Total(Works(net, d))) + Allowed(d, e)
  {
    hide Network, Total, Works, Snaps, Allowed, Did, Happened, Grows;
    if e.p >= |net| {
      NothingHappened(e, Snaps(net));
    } else if !e.Arrive? {
      StepOne(net, d, e);
    } else if e.k < |net[e.p].sent| && e.to < |net| && e.to != e.p {
      StepTwo(net, d, e);
    } else {
      NothingHappened(e, Snaps(net));
    }
  }

  /** In one process. */
  method StepOne(net: seq<Context>, ghost d: nat, e: Event)
    requires Network(net, d) && e.p < |net| && !e.Arrive?
    modifies net
    ensures Network(net, d)
    ensures Happened(e, old(Snaps(net)), Snaps(net)) && Grows(e, old(Snaps(net)), Snaps(net))
    ensures Total(Works(net, d)) <= old(Total(Works(net, d))) + Allowed(d, e)
  {
    hide Owned, Allowed, Work, FewTaps, Total, Did, Happened, Grows;
    ghost var ws, xs := Works(net, d), Snaps(net);
    Act(net[e.p], e);
    OneChanged(ws, Works(net, d), e.p, Allowed(d, e));
    OneHappened(e, xs, Snaps(net));
  }

  /** From one process to another. */
  method StepTwo(net: seq<Context>, ghost d: nat, e: Event)
    requires Network(net, d) && e.Arrive? && e.p < |net| && e.k < |net[e.p].sent| && e.to < |net| && e.to != e.p
    modifies net
    ensures Network(net, d)
    ensures Happened(e, old(Snaps(net)), Snaps(net)) && Grows(e, old(Snaps(net)), Snaps(net))
    ensures Total(Works(net, d)) <= old(Total(Works(net, d)))
  {
    hide Owned, Work, FewTaps, Total, Received, Happened, Grows, Gone;
    ghost var ws, xs := Works(net, d), Snaps(net);
    Carry(net[e.p], e.k, net[e.to]);
    TwoChanged(ws, Works(net, d), e.p, e.to);
    OneArrived(e, xs, Snaps(net));
  }

  lemma NothingHappened(e: Event, xs: seq<Snap>)
    requires e.p >= |xs| || (e.Arrive? && !CanArrive(e, xs))
    ensures Happened(e, xs, xs) && Grows(e, xs, xs)
  {
  }

  lemma OneHappened(e: Event, xs: seq<Snap>, ys: seq<Snap>)
    requires !e.Arrive? && |xs| == |ys| && e.p < |xs| && Did(e, xs[e.p], ys[e.p])
    requires forall i :: 0 <= i < |xs| && i != e.p ==> ys[i] == xs[i]
    requires var a, b := xs[e.p], ys[e.p];
             && a.ran <= b.ran && a.state.delivered <= b.state.delivered
             && if e.Lose? && e.k < |a.state.sent| then |b.state.sent| + 1 == |a.state.sent|
                else a.state.sent <= b.state.sent
    ensures Happened(e, xs, ys) && Grows(e, xs, ys)
  {
    hide Did;
  }

  lemma OneArrived(e: Event, xs: seq<Snap>, ys: seq<Snap>)
    requires CanArrive(e, xs) && |xs| == |ys|
    requires forall i :: 0 <= i < |xs| && i != e.p && i != e.to ==> ys[i] == xs[i]
    requires ys[e.p] == xs[e.p].(state := Gone(xs[e.p].state, e.k))
    requires var a, b := xs[e.to], ys[e.to];
             && a.ran <= b.ran && a.state.delivered <= b.state.delivered && a.state.sent <= b.state.sent
    requires var s := xs[e.p].state;
             s.sent[e.k] in s.memory && Received(xs[e.to], ys[e.to], s.memory[s.sent[e.k]])
    ensures Happened(e, xs, ys) && Grows(e, xs, ys)
  {
    hide Received;
  }

  /** Any events in any order: what was delivered in all processes, and what
      can still follow, is at most what was there at the start and what the
      messages of applications can lead to.  `trace` has the states in between. */
  method RunWithin(net: seq<Context>, ghost d: nat, events: seq<Event>) returns (ghost trace: seq<seq<Snap>>)
    requires Network(net, d)
    modifies net
    ensures Network(net, d)
    ensures Total(Works(net, d)) <= old(Total(Works(net, d))) + Budget(d, events)
    ensures IsTrace(trace, events) && AlwaysFree(trace)
    ensures trace[0] == old(Snaps(net)) && trace[|events|] == Snaps(net)
  {
    hide Network, Total, Credit, Works, Happened, Grows, Snaps, IsTrace, AlwaysFree, Allowed;
    var i := 0;
    assert events[0..] == events && events[..0] == [];
    trace := [Snaps(net)];
    FreeNow(net, d);
    FirstSnap(trace);
    while i < |events|
      invariant 0 <= i <= |events| && Network(net, d)
      invariant Total(Works(net, d)) <= old(Total(Works(net, d))) + Budget(d, events) - Budget(d, events[i..])
      invariant |trace| == i + 1 && trace[0] == old(Snaps(net)) && trace[i] == Snaps(net)
      invariant IsTrace(trace, events[..i]) && AlwaysFree(trace)
    {
      BudgetFrom(d, events, i);
      Step(net, d, events[i]);
      FreeNow(net, d);
      OneMoreSnap(trace, events[..i], events[i], Snaps(net));
      assert events[..i + 1] == events[..i] + [events[i]];
      trace := trace + [Snaps(net)];
      i := i + 1;
    }
    assert events[..i] == events;
  }

  lemma FirstSnap(trace: seq<seq<Snap>>)
    requires |trace| == 1 && Free(trace[0])
    ensures IsTrace(trace, []) && AlwaysFree(trace)
  {
  }

  lemma OneMoreSnap(trace: seq<seq<Snap>>, events: seq<Event>, e: Event, ys: seq<Snap>)
    requires IsTrace(trace, events) && AlwaysFree(trace) && Free(ys)
    requires Happened(e, trace[|events|], ys) && Grows(e, trace[|events|], ys)
    ensures IsTrace(trace + [ys], events + [e]) && AlwaysFree(trace + [ys])
  {
    hide Happened, Grows, Free;
  }

  /** The same, in numbers: at most so many deliveries in all processes; and in
      each process all due messages that are put into it or dispatched there are
      delivered, or given to proxies. */
  method Run(net: seq<Context>, ghost d: nat, events: seq<Event>) returns (ghost trace: seq<seq<Snap>>)
    requires Network(net, d)
    modifies net
    ensures Network(net, d)
    ensures Total(Deliveries(net)) <= old(Total(Works(net, d))) + Budget(d, events)
    ensures IsTrace(trace, events) && trace[0] == old(Snaps(net)) && trace[|events|] == Snaps(net)
    ensures forall p :: 0 <= p < |net| ==>
              && |net[p].delivered| >= old(|net[p].delivered|) + DueHere(trace, events, |events|, p)
              && net[p].ran >= old(net[p].ran) + DueForHandler(trace, events, |events|, p)
              && |net[p].sent| + Removed(trace, events, |events|, p)
                 >= old(|net[p].sent|) + DueForProxy(trace, events, |events|, p)
  {
    hide Network, Total, Works, Budget, IsTrace, AlwaysFree, DueHere, DueForHandler, DueForProxy, Removed;
    ghost var xs := Snaps(net);
    trace := RunWithin(net, d, events);
    DeliveredIsWork(net, d);
    ghost var ys := Snaps(net);
    TraceLength(trace, events);
    forall p | 0 <= p < |net|
      ensures |ys[p].state.delivered| >= |xs[p].state.delivered| + DueHere(trace, events, |events|, p)
      ensures ys[p].ran >= xs[p].ran + DueForHandler(trace, events, |events|, p)
      ensures |ys[p].state.sent| + Removed(trace, events, |events|, p)
              >= |xs[p].state.sent| + DueForProxy(trace, events, |events|, p)
    {
      DueMessagesAreDelivered(trace, events, |events|, p);
    }
    assert forall p :: 0 <= p < |net| ==> ys[p] == Here(net[p]) && xs[p] == old(Here(net[p]));
  }

  lemma TraceLength(trace: seq<seq<Snap>>, events: seq<Event>)
    requires IsTrace(trace, events)
    ensures |trace| == |events| + 1
  {
  }

  lemma FreeNow(net: seq<Context>, d: nat)
    requires Network(net, d)
    ensures Free(Snaps(net))
  {
  }

  lemma DeliveredIsWork(net: seq<Context>, d: nat)
    ensures Total(Deliveries(net)) <= Total(Works(net, d))
  {
    forall i | 0 <= i < |net| ensures Deliveries(net)[i] <= Works(net, d)[i] {
      WorkIsMoreThanDelivered(d, net[i].View());
    }
    TotalMonotone(Deliveries(net), Works(net, d));
  }

  /** Where nothing was delivered and nothing is left to do, one message of one
      process leads to at most 1 + d + d^2 + d^3 deliveries in the whole network,
      if no service has more than `d` taps; and to one at least, if it is due for a
      service in the process. */
  method OneMessage(net: seq<Context>, ghost d: nat, p: nat, c: Content, events: seq<Event>)
    requires Network(net, d) && c.Plain? && c.ttl == 0
    requires forall i :: 0 <= i < |net| ==> Work(d, net[i].View()) == 0
    requires forall e :: e in events ==> !e.Submit?
    modifies net
    ensures Network(net, d)
    ensures Total(Deliveries(net)) <= 1 + d + d * d + d * d * d
    ensures p < |net| && (exists found :: DueFor(old(net[p].View()), c, Local(found))) ==> |net[p].delivered| >= 1
  {
    TotalZero(Works(net, d));
    SpreadOfNew(d);
    NoBudget(d, events);
    var all := [Submit(p, c)] + events;
    assert all[1..] == events;
    assert Budget(d, all) == Credit(d, c);
    hide Network, Total, Works, Budget, IsTrace, DueHere, DueForHandler, DueForProxy, Removed, DueFor;
    ghost var due := p < |net| && exists found :: DueFor(net[p].View(), c, Local(found));
    ghost var trace := Run(net, d, all);
    TraceLength(trace, all);
    if due { FirstIsDue(trace, all, p, c); }
  }

  lemma FirstIsDue(trace: seq<seq<Snap>>, events: seq<Event>, p: nat, c: Content)
    requires IsTrace(trace, events) && p < |trace[0]| && events != [] && events[0] == Submit(p, c)
    requires exists found :: DueFor(trace[0][p].state, c, Local(found))
    ensures DueHere(trace, events, |events|, p) >= 1
  {
    var found :| DueFor(trace[0][p].state, c, Local(found));
    assert PutsDue(events[0], trace[0], p, Local(found));
    assert DueHere(trace, events, 1, p) == 1;
    DueHereGrows(trace, events, 1, |events|, p);
  }

  lemma {:induction false} DueHereGrows(trace: seq<seq<Snap>>, events: seq<Event>, i: nat, n: nat, p: nat)
    requires i <= n <= |events| && n <= |trace|
    ensures DueHere(trace, events, i, p) <= DueHere(trace, events, n, p)
    decreases n - i
  {
    if i < n { DueHereGrows(trace, events, i, n - 1, p); }
  }

  lemma {:induction false} NoBudget(d: nat, events: seq<Event>)
    requires forall e :: e in events ==> !e.Submit?
    ensures Budget(d, events) == 0
  {
    if events != [] {
      NoBudget(d, events[1..]);
    }
  }
}
