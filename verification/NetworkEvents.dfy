/** What events do to the processes of a network, and what therefore happens in
    any run at least: messages that are due for a service in a process are
    delivered there, and those for a proxy are handed to it. */
module NetworkEvents {
  import opened Common
  import opened DeliveryState
  import opened DeliveryRules

  /** What happens in a network: the application of a process sends a message;
      a process sends its first scheduled message; it empties its queues of
      pending messages; a message that one process gave to a proxy arrives at
      another process, or is lost. */
  datatype Event =
    | Submit(p: nat, content: Content)
    | Dispatch(p: nat)
    | Pending(p: nat)
    | Arrive(p: nat, k: nat, to: nat)
    | Lose(p: nat, k: nat)

  /** A process, and how many handlers it has called. */
  datatype Snap = Snap(state: State, ran: nat)

  // ---------------------------------------------------------------------
  // What an event does
  // ---------------------------------------------------------------------

  /** A message is made in a process and sent. */
  ghost predicate Received(a: Snap, b: Snap, c: Content) {
    var s, env := Pushed(a.state, c), a.state.env;
    && (if Later(env, c) then SentLater(s, b.state) else SentNow(s, b.state, Find(env, c)))
    && a.ran <= b.ran && (b.ran == a.ran <==> !RunsWhenSent(env, c, true))
  }

  /** The first scheduled message is sent, at its time. */
  ghost predicate Dispatched(a: Snap, b: Snap) {
    && a.state.scheduled != [] && a.state.scheduled[0] in a.state.memory
    && var c := a.state.memory[a.state.scheduled[0]];
       var env := a.state.env.(lastTime := c.time);
       && b.state.env == env && SentNow(TakenScheduled(a.state).(env := env), b.state, Find(env, c))
       && a.ran <= b.ran && (b.ran == a.ran <==> !(c.Plain? && Find(env, c) == Some(Local(true))))
  }

  /** What an event does to the process in which it happens. */
  ghost predicate Did(e: Event, a: Snap, b: Snap) {
    match e
    case Submit(_, c) => Received(a, b, c)
    case Dispatch(_) => if a.state.scheduled == [] then b == a else Dispatched(a, b)
    case Pending(_) => exists trace, n :: Drain(trace, n) && trace[0] == a.state && trace[|trace| - 1] == b.state
    case Lose(_, k) => b == if k < |a.state.sent| then a.(state := Gone(a.state, k)) else a
    case Arrive(_, _, _) => a == b
  }

  /** Can a message travel? */
  predicate CanArrive(e: Event, xs: seq<Snap>) {
    e.Arrive? && e.p < |xs| && e.k < |xs[e.p].state.sent| && e.to < |xs| && e.to != e.p
  }

  /** What an event does to all processes. */
  ghost predicate Happened(e: Event, xs: seq<Snap>, ys: seq<Snap>) {
    && |ys| == |xs|
    && (forall i :: 0 <= i < |xs| && i != e.p && (e.Arrive? ==> i != e.to) ==> ys[i] == xs[i])
    && if CanArrive(e, xs) then
         var a := xs[e.p].state;
         && ys[e.p] == xs[e.p].(state := Gone(a, e.k))
         && a.sent[e.k] in a.memory && Received(xs[e.to], ys[e.to], a.memory[a.sent[e.k]])
       else if e.Arrive? || e.p >= |xs| then ys == xs
       else Did(e, xs[e.p], ys[e.p])
  }

  /** Deliveries and handler calls are never undone, and only a message that
      travels, or is lost, is taken from those handed to proxies. */
  ghost predicate Grows(e: Event, xs: seq<Snap>, ys: seq<Snap>) {
    && |ys| == |xs|
    && forall i :: 0 <= i < |xs| ==>
         && xs[i].state.delivered <= ys[i].state.delivered && xs[i].ran <= ys[i].ran
         && (if Removes(e, xs, i) then |ys[i].state.sent| + 1 == |xs[i].state.sent|
             else xs[i].state.sent <= ys[i].state.sent)
  }

  predicate Removes(e: Event, xs: seq<Snap>, p: nat)
    requires p < |xs|
  {
    e.p == p && (CanArrive(e, xs) || (e.Lose? && e.k < |xs[p].state.sent|))
  }

  /** `trace` has the processes before and after each event. */
  ghost predicate IsTrace(trace: seq<seq<Snap>>, events: seq<Event>) {
    && |trace| == |events| + 1
    && forall i :: 0 <= i < |events| ==>
         Happened(events[i], trace[i], trace[i + 1]) && Grows(events[i], trace[i], trace[i + 1])
  }

  // ---------------------------------------------------------------------
  // What becomes of a message, field by field
  // ---------------------------------------------------------------------

  /** `c` is due, and `p` provides its service: for a message for taps in this
      process, for others whoever is in charge. */
  predicate DueFor(s: State, c: Content, p: Provider) {
    && c.Plain? && (c.time <= 0.0 || c.time <= s.env.lastTime)
    && c.service in s.env.services
    && (if c.tap then s.env.services[c.service].local else s.env.services[c.service].first) == Some(p)
  }

  /** The first scheduled message is for a service that `p` provides. */
  predicate FirstIsFor(s: State, p: Provider) {
    && s.scheduled != [] && s.scheduled[0] in s.memory
    && var c := s.memory[s.scheduled[0]];
       && c.Plain? && c.service in s.env.services
       && (if c.tap then s.env.services[c.service].local else s.env.services[c.service].first) == Some(p)
  }

  /** `c` has to wait: its time has not come, and its service is here or wants
      messages only when they are due. */
  predicate MustWait(s: State, c: Content) {
    && c.time > 0.0 && c.time > s.env.lastTime
    && c.service in s.env.services
    && var provider := if c.tap then s.env.services[c.service].local else s.env.services[c.service].first;
       provider.Some? && (provider.value.Local? || provider.value.scheduleBeforeSend)
  }

  /** A due message for a service in the process is delivered before any other,
      and its handler is called if there is one. */
  lemma DueIsDelivered(a: Snap, b: Snap, c: Content, found: bool)
    requires Received(a, b, c) && a.state.doNotReenter == 0 && DueFor(a.state, c, Local(found))
    ensures a.state.next !in b.state.memory
    ensures |a.state.delivered| < |b.state.delivered| && b.state.delivered[|a.state.delivered|] == a.state.next
    ensures found ==> a.ran < b.ran
  {
    hide Calm, Delivered;
  }

  /** A due message for a proxy is handed to it, as it is. */
  lemma DueIsHandedOff(a: Snap, b: Snap, c: Content, before: bool)
    requires Received(a, b, c) && DueFor(a.state, c, Proxy(before))
    ensures b.state.sent == a.state.sent + [a.state.next] && b.state.memory == a.state.memory[a.state.next := c]
    ensures b.state.delivered == a.state.delivered && b.state.scheduled == a.state.scheduled
  {
  }

  /** The same for a message that was scheduled, when its time has come. */
  lemma ScheduledIsDelivered(a: Snap, b: Snap, found: bool)
    requires Dispatched(a, b) && a.state.doNotReenter == 0 && FirstIsFor(a.state, Local(found))
    ensures var x := a.state.scheduled[0];
            && x !in b.state.memory && b.state.env.lastTime == a.state.memory[x].time
            && |a.state.delivered| < |b.state.delivered| && b.state.delivered[|a.state.delivered|] == x
    ensures found ==> a.ran < b.ran
  {
    hide Calm, Delivered;
  }

  lemma ScheduledIsHandedOff(a: Snap, b: Snap, before: bool)
    requires Dispatched(a, b) && FirstIsFor(a.state, Proxy(before))
    ensures b.state.sent == a.state.sent + [a.state.scheduled[0]] && b.state.memory == a.state.memory
    ensures b.state.delivered == a.state.delivered && b.state.scheduled == a.state.scheduled[1..]
  {
  }

  /** A message for a service that is not there is freed, and nothing else
      happens. */
  lemma UnknownIsFreed(a: Snap, b: Snap, c: Content)
    requires Received(a, b, c) && c.service !in a.state.env.services && a.state.next !in a.state.memory
    ensures b.state == a.state.(next := a.state.next + 1) && b.ran == a.ran
  {
    assert a.state.memory[a.state.next := c] - {a.state.next} == a.state.memory;
  }

  /** Scheduled messages are in the order of their times. */
  ghost predicate InTimeOrder(s: State) {
    forall i, j :: 0 <= i < j < |s.scheduled| ==>
      && s.scheduled[i] in s.memory && s.scheduled[j] in s.memory
      && s.memory[s.scheduled[i]].time <= s.memory[s.scheduled[j]].time
  }

  /** A message that has to wait is scheduled, behind all that are not later and
      in front of all that are; without a clock it is freed. */
  lemma WaitingIsScheduled(a: Snap, b: Snap, c: Content)
    requires Received(a, b, c) && MustWait(a.state, c) && InTimeOrder(a.state) && a.state.next !in a.state.memory
    requires forall x :: x in a.state.scheduled ==> x in a.state.memory
    ensures a.state.env.clock ==>
              && InTimeOrder(b.state) && b.state.memory == a.state.memory[a.state.next := c]
              && exists k :: && 0 <= k <= |a.state.scheduled|
                             && b.state.scheduled == a.state.scheduled[..k] + [a.state.next] + a.state.scheduled[k..]
                             && (forall j :: 0 <= j < k ==> a.state.memory[a.state.scheduled[j]].time <= c.time)
                             && (forall j :: k <= j < |a.state.scheduled| ==>
                                   c.time < a.state.memory[a.state.scheduled[j]].time)
    ensures !a.state.env.clock ==> b.state == a.state.(next := a.state.next + 1)
    ensures b.ran == a.ran
  {
    var x, s := a.state.next, Pushed(a.state, c);
    assert Later(a.state.env, c) && !RunsWhenSent(a.state.env, c, true);
    hide Later, RunsWhenSent, SentNow, Find, MustWait;
    if a.state.env.clock {
      var k: nat :| InsertionPoint(s, k, s.memory[x].time) && b.state == Scheduled(s, k);
      PlaceInOrder(a.state, s, k, c);
      StaysInOrder(a.state, b.state, k, x, c);
    } else {
      assert a.state.memory[x := c] - {x} == a.state.memory;
    }
  }

  lemma PlaceInOrder(a: State, s: State, k: nat, c: Content)
    requires s == Pushed(a, c) && InsertionPoint(s, k, c.time) && InTimeOrder(a) && a.next !in a.memory
    requires forall x :: x in a.scheduled ==> x in a.memory
    ensures forall j :: 0 <= j < |a.scheduled| ==> a.scheduled[j] in a.memory
    ensures forall j :: 0 <= j < k ==> a.memory[a.scheduled[j]].time <= c.time
    ensures forall j :: k <= j < |a.scheduled| ==> c.time < a.memory[a.scheduled[j]].time
  {
    var q := a.scheduled;
    forall j | 0 <= j < |q| ensures q[j] in a.memory && s.memory[q[j]] == a.memory[q[j]] {
    }
    forall j | k <= j < |q| ensures c.time < a.memory[q[j]].time {
      assert k < |q| && s.memory[q[k]].time > c.time;
    }
    forall j | 0 <= j < k ensures a.memory[q[j]].time <= c.time {
      assert s.memory[q[j]].time <= c.time;
    }
  }

  lemma StaysInOrder(a: State, b: State, k: nat, x: Addr, c: Content)
    requires InTimeOrder(a) && k <= |a.scheduled| && x !in a.memory
    requires b.memory == a.memory[x := c] && b.scheduled == a.scheduled[..k] + [x] + a.scheduled[k..]
    requires forall j :: 0 <= j < |a.scheduled| ==> a.scheduled[j] in a.memory
    requires forall j :: 0 <= j < k ==> a.memory[a.scheduled[j]].time <= c.time
    requires forall j :: k <= j < |a.scheduled| ==> c.time < a.memory[a.scheduled[j]].time
    ensures InTimeOrder(b)
  {
    forall i | 0 <= i < |b.scheduled|
      ensures b.scheduled[i] == (if i < k then a.scheduled[i] else if i == k then x else a.scheduled[i - 1])
      ensures b.scheduled[i] in b.memory
      ensures i < k ==> b.memory[b.scheduled[i]] == a.memory[a.scheduled[i]]
      ensures i > k ==> b.memory[b.scheduled[i]] == a.memory[a.scheduled[i - 1]]
    {
    }
    forall i, j | 0 <= i < j < |b.scheduled|
      ensures b.memory[b.scheduled[i]].time <= b.memory[b.scheduled[j]].time
    {
      var m, n := if i < k then i else i - 1, if j < k then j else j - 1;
      if i != k && j != k {
        assert a.memory[a.scheduled[m]].time <= a.memory[a.scheduled[n]].time;
      }
    }
  }

  // ---------------------------------------------------------------------
  // What happens at least
  // ---------------------------------------------------------------------

  /** The message that an event puts into process `p`. */
  function PutInto(e: Event, xs: seq<Snap>, p: nat): Option<Content> {
    if e.Submit? && e.p == p then Some(e.content)
    else if CanArrive(e, xs) && e.to == p && xs[e.p].state.sent[e.k] in xs[e.p].state.memory then
      Some(xs[e.p].state.memory[xs[e.p].state.sent[e.k]])
    else None
  }

  /** An event puts a due message for provider `q` into process `p`, or dispatches
      one there. */
  predicate PutsDue(e: Event, xs: seq<Snap>, p: nat, q: Provider) {
    p < |xs| &&
    if e.Dispatch? then e.p == p && FirstIsFor(xs[p].state, q)
    else PutInto(e, xs, p).Some? && DueFor(xs[p].state, PutInto(e, xs, p).value, q)
  }

  predicate Free(xs: seq<Snap>) {
    forall i :: 0 <= i < |xs| ==> xs[i].state.doNotReenter == 0
  }

  ghost predicate AlwaysFree(trace: seq<seq<Snap>>) {
    forall i :: 0 <= i < |trace| ==> Free(trace[i])
  }

  lemma EventDelivers(e: Event, xs: seq<Snap>, ys: seq<Snap>, p: nat)
    requires Happened(e, xs, ys) && Grows(e, xs, ys) && Free(xs) && p < |xs|
    ensures forall found :: PutsDue(e, xs, p, Local(found)) ==>
                              |xs[p].state.delivered| < |ys[p].state.delivered| && (found ==> xs[p].ran < ys[p].ran)
    ensures forall before :: PutsDue(e, xs, p, Proxy(before)) ==> |xs[p].state.sent| < |ys[p].state.sent|
  {
    hide Received, Dispatched;
    if PutInto(e, xs, p).Some? {
      var c := PutInto(e, xs, p).value;
      assert Received(xs[p], ys[p], c);
      hide Happened, Grows, PutInto, CanArrive, FirstIsFor, DueFor;
      forall found | PutsDue(e, xs, p, Local(found))
        ensures |xs[p].state.delivered| < |ys[p].state.delivered| && (found ==> xs[p].ran < ys[p].ran)
      {
        DueIsDelivered(xs[p], ys[p], c, found);
      }
      forall before | PutsDue(e, xs, p, Proxy(before)) ensures |xs[p].state.sent| < |ys[p].state.sent| {
        DueIsHandedOff(xs[p], ys[p], c, before);
      }
    } else if e.Dispatch? && e.p == p && xs[p].state.scheduled != [] {
      assert Dispatched(xs[p], ys[p]);
      hide Happened, Grows, PutInto, CanArrive, FirstIsFor, DueFor;
      forall found | PutsDue(e, xs, p, Local(found))
        ensures |xs[p].state.delivered| < |ys[p].state.delivered| && (found ==> xs[p].ran < ys[p].ran)
      {
        ScheduledIsDelivered(xs[p], ys[p], found);
      }
      forall before | PutsDue(e, xs, p, Proxy(before)) ensures |xs[p].state.sent| < |ys[p].state.sent| {
        ScheduledIsHandedOff(xs[p], ys[p], before);
      }
    }
  }

  /** How many of the first `n` events put, or dispatch, a due message for a
      service in `p`, for one with a handler in `p`, for a proxy of `p`; how many
      take one from the proxies of `p`. */
  ghost function DueHere(trace: seq<seq<Snap>>, events: seq<Event>, n: nat, p: nat): nat
    requires n <= |events| && n <= |trace|
  {
    if n == 0 then 0
    else
      var e, xs := events[n - 1], trace[n - 1];
      DueHere(trace, events, n - 1, p) + if exists found :: PutsDue(e, xs, p, Local(found)) then 1 else 0
  }

  ghost function DueForHandler(trace: seq<seq<Snap>>, events: seq<Event>, n: nat, p: nat): nat
    requires n <= |events| && n <= |trace|
  {
    if n == 0 then 0
    else
      DueForHandler(trace, events, n - 1, p) + if PutsDue(events[n - 1], trace[n - 1], p, Local(true)) then 1 else 0
  }

  ghost function DueForProxy(trace: seq<seq<Snap>>, events: seq<Event>, n: nat, p: nat): nat
    requires n <= |events| && n <= |trace|
  {
    if n == 0 then 0
    else
      var e, xs := events[n - 1], trace[n - 1];
      DueForProxy(trace, events, n - 1, p) + if exists before :: PutsDue(e, xs, p, Proxy(before)) then 1 else 0
  }

  ghost function Removed(trace: seq<seq<Snap>>, events: seq<Event>, n: nat, p: nat): nat
    requires n <= |events| && n <= |trace|
  {
    if n == 0 then 0
    else
      var e, xs := events[n - 1], trace[n - 1];
      Removed(trace, events, n - 1, p) + if p < |xs| && Removes(e, xs, p) then 1 else 0
  }

  /** In any run: every due message for a service in a process is delivered
      there, every one for a handler has a handler called, and every one for a
      proxy is handed to it and stays with it until it travels or is lost. */
  lemma {:induction false} DueMessagesAreDelivered(trace: seq<seq<Snap>>, events: seq<Event>, n: nat, p: nat)
    requires IsTrace(trace, events) && n <= |events| && p < |trace[0]|
    requires AlwaysFree(trace)
    ensures |trace[n]| == |trace[0]|
    ensures |trace[n][p].state.delivered| >= |trace[0][p].state.delivered| + DueHere(trace, events, n, p)
    ensures trace[n][p].ran >= trace[0][p].ran + DueForHandler(trace, events, n, p)
    ensures |trace[n][p].state.sent| + Removed(trace, events, n, p)
            >= |trace[0][p].state.sent| + DueForProxy(trace, events, n, p)
  {
    if n > 0 {
      DueMessagesAreDelivered(trace, events, n - 1, p);
      var e, xs, ys := events[n - 1], trace[n - 1], trace[n];
      assert Happened(e, xs, trace[n - 1 + 1]) && Grows(e, xs, trace[n - 1 + 1]);
      EventDelivers(e, xs, ys, p);
      RemovesOrPuts(e, xs, p);
      hide Happened, PutsDue, Removes;
    }
  }

  /** An event does not take a message from the proxies of the process into which
      it puts one. */
  lemma RemovesOrPuts(e: Event, xs: seq<Snap>, p: nat)
    requires p < |xs|
    ensures Removes(e, xs, p) ==> forall q :: !PutsDue(e, xs, p, q)
  {
  }
}
