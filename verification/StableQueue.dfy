/** The reference for the timing-wheel scheduler of src/o2sched.cpp: one list of
    messages in time order, equal times in arrival order.

    Times are real numbers.  A message carries the list of messages its handler
    schedules when it is delivered: any run in which handlers do finitely much
    is such a tree. */
module StableQueue {

  datatype Message = Message(id: nat, time: real, sends: seq<Message>)

  // ---------------------------------------------------------------------
  // Sequences of messages
  // ---------------------------------------------------------------------

  function Size(m: Message): nat
    decreases m, 1
  {
    1 + Weight(m.sends)
  }

  function Weight(ms: seq<Message>): nat
    decreases ms, 0
  {
    if ms == [] then 0 else Size(ms[0]) + Weight(ms[1..])
  }

  ghost predicate Sorted(ms: seq<Message>) {
    forall i, j :: 0 <= i < j < |ms| ==> ms[i].time <= ms[j].time
  }

  function Filter(ms: seq<Message>, p: Message -> bool): seq<Message> {
    if ms == [] then []
    else if p(ms[0]) then [ms[0]] + Filter(ms[1..], p)
    else Filter(ms[1..], p)
  }

  /** The messages due at exactly `t`, in list order. */
  function At(ms: seq<Message>, t: real): seq<Message> {
    Filter(ms, (m: Message) => m.time == t)
  }

  /** Insert before the first message that is due later. */
  function Insert(ms: seq<Message>, m: Message): seq<Message> {
    if ms == [] || m.time < ms[0].time then [m] + ms
    else [ms[0]] + Insert(ms[1..], m)
  }

  lemma {:induction false} WeightOfConcat(a: seq<Message>, b: seq<Message>)
    ensures Weight(a + b) == Weight(a) + Weight(b)
  {
    if a == [] {
      assert a + b == b;
    } else {
      assert (a + b)[1..] == a[1..] + b;
      WeightOfConcat(a[1..], b);
    }
  }

  lemma {:induction false} WeightOfInsert(ms: seq<Message>, m: Message)
    ensures Weight(Insert(ms, m)) == Weight(ms) + Size(m)
  {
    if ms == [] || m.time < ms[0].time {
      assert ([m] + ms)[1..] == ms;
    } else {
      assert ([ms[0]] + Insert(ms[1..], m))[1..] == Insert(ms[1..], m);
      WeightOfInsert(ms[1..], m);
    }
  }

  lemma {:induction false} InsertMembers(ms: seq<Message>, m: Message)
    ensures forall x :: x in Insert(ms, m) <==> x == m || x in ms
  {
    if !(ms == [] || m.time < ms[0].time) {
      InsertMembers(ms[1..], m);
      assert ms == [ms[0]] + ms[1..];
    }
  }

  lemma {:induction false} InsertSorted(ms: seq<Message>, m: Message)
    requires Sorted(ms)
    ensures Sorted(Insert(ms, m))
  {
    if !(ms == [] || m.time < ms[0].time) {
      var rest := Insert(ms[1..], m);
      InsertSorted(ms[1..], m);
      InsertMembers(ms[1..], m);
      forall k | 0 <= k < |rest| ensures ms[0].time <= rest[k].time {
        assert rest[k] in rest;
      }
    }
  }

  lemma {:induction false} FilterMembers(ms: seq<Message>, p: Message -> bool)
    ensures forall x :: x in Filter(ms, p) <==> x in ms && p(x)
  {
    if ms != [] {
      FilterMembers(ms[1..], p);
      assert ms == [ms[0]] + ms[1..];
    }
  }

  lemma {:induction false} FilterConcat(a: seq<Message>, b: seq<Message>, p: Message -> bool)
    ensures Filter(a + b, p) == Filter(a, p) + Filter(b, p)
  {
    if a == [] {
      assert a + b == b;
    } else {
      assert (a + b)[1..] == a[1..] + b;
      FilterConcat(a[1..], b, p);
    }
  }

  /** Inserting in a sorted list and then filtering is filtering first. */
  lemma {:induction false} FilterInsert(ms: seq<Message>, m: Message, p: Message -> bool)
    requires Sorted(ms)
    ensures Filter(Insert(ms, m), p)
         == if p(m) then Insert(Filter(ms, p), m) else Filter(ms, p)
  {
    if ms == [] || m.time < ms[0].time {
      assert ([m] + ms)[1..] == ms;
      FilterMembers(ms, p);
      var f := Filter(ms, p);
      assert f != [] ==> f[0] in ms;
    } else {
      var rest := Insert(ms[1..], m);
      assert ([ms[0]] + rest)[1..] == rest;
      FilterInsert(ms[1..], m, p);
      if p(ms[0]) && p(m) {
        assert ([ms[0]] + Filter(ms[1..], p))[1..] == Filter(ms[1..], p);
      }
    }
  }

  lemma {:induction false} InsertAmongEqual(ms: seq<Message>, m: Message)
    requires forall x :: x in ms ==> x.time == m.time
    ensures Insert(ms, m) == ms + [m]
  {
    if ms != [] {
      InsertAmongEqual(ms[1..], m);
      assert ms == [ms[0]] + ms[1..];
    }
  }

  lemma AtInsert(ms: seq<Message>, m: Message, t: real)
    requires Sorted(ms)
    ensures At(Insert(ms, m), t) == if m.time == t then At(ms, t) + [m] else At(ms, t)
  {
    var p := (x: Message) => x.time == t;
    FilterInsert(ms, m, p);
    if m.time == t {
      FilterMembers(ms, p);
      InsertAmongEqual(Filter(ms, p), m);
    }
  }

  lemma AtAppend(ms: seq<Message>, m: Message, t: real)
    ensures At(ms + [m], t) == if m.time == t then At(ms, t) + [m] else At(ms, t)
  {
    var p := (x: Message) => x.time == t;
    FilterConcat(ms, [m], p);
    assert [m][1..] == [];
  }

  lemma AtHead(ms: seq<Message>, t: real)
    requires ms != []
    ensures At(ms, t) == if ms[0].time == t then [ms[0]] + At(ms[1..], t) else At(ms[1..], t)
  {
  }

  lemma {:induction false} AtCounts(ms: seq<Message>, x: Message)
    ensures multiset(ms)[x] == multiset(At(ms, x.time))[x]
  {
    if ms != [] {
      AtHead(ms, x.time);
      AtCounts(ms[1..], x);
      assert multiset(ms) == multiset{ms[0]} + multiset(ms[1..]) by {
        assert ms == [ms[0]] + ms[1..];
      }
    }
  }

  // ---------------------------------------------------------------------
  // The reference: a stable priority queue
  // ---------------------------------------------------------------------

  /** `entered`, `left`, `immediate` and `dropped` are the history: what was
      put in the queue, what came out of it, what was delivered without going
      through it, and what was refused for want of a clock. */
  datatype Queue = Queue(
    pending: seq<Message>, lastTime: real, started: bool,
    entered: seq<Message>, left: seq<Message>,
    immediate: seq<Message>, dropped: seq<Message>)

  function Schedule(q: Queue, m: Message): (r: Queue)
    ensures r.lastTime == q.lastTime && r.started == q.started && r.left == q.left
    ensures Weight(r.pending) <= Weight(q.pending) + Size(m)
    decreases m, 1
  {
    if m.time <= 0.0 || m.time < q.lastTime then
      React(q.(immediate := q.immediate + [m]), m.sends)
    else if !q.started then
      q.(dropped := q.dropped + [m])
    else
      WeightOfInsert(q.pending, m);
      q.(pending := Insert(q.pending, m), entered := q.entered + [m])
  }

  /** What a handler does: it schedules `ms` in order. */
  function React(q: Queue, ms: seq<Message>): (r: Queue)
    ensures r.lastTime == q.lastTime && r.started == q.started && r.left == q.left
    ensures Weight(r.pending) <= Weight(q.pending) + Weight(ms)
    decreases ms, 0
  {
    if ms == [] then q else React(Schedule(q, ms[0]), ms[1..])
  }

  function PopHead(q: Queue): (r: Queue)
    requires q.pending != []
    ensures Weight(r.pending) < Weight(q.pending)
  {
    var m := q.pending[0];
    React(q.(pending := q.pending[1..], lastTime := m.time, left := q.left + [m]), m.sends)
  }

  /** Deliver everything due at or before `t`, earliest first. */
  function Dispatch(q: Queue, t: real): Queue
    decreases Weight(q.pending)
  {
    if q.pending != [] && q.pending[0].time <= t then Dispatch(PopHead(q), t)
    else q.(lastTime := t)
  }

  /** Stopping on the way changes nothing: this is why catching up one second
      at a time is harmless. */
  lemma {:induction false} DispatchInTwoSteps(q: Queue, t1: real, t2: real)
    requires t1 <= t2
    ensures Dispatch(Dispatch(q, t1), t2) == Dispatch(q, t2)
    decreases Weight(q.pending)
  {
    if q.pending != [] && q.pending[0].time <= t1 {
      DispatchInTwoSteps(PopHead(q), t1, t2);
    } else if q.pending != [] && q.pending[0].time <= t2 {
      assert PopHead(q.(lastTime := t1)) == PopHead(q);
    }
  }

  lemma {:induction false} DispatchSetsTime(q: Queue, t: real)
    ensures Dispatch(q, t).lastTime == t
    decreases Weight(q.pending)
  {
    if q.pending != [] && q.pending[0].time <= t {
      DispatchSetsTime(PopHead(q), t);
    }
  }

  // ---------------------------------------------------------------------
  // What the reference promises over whole runs
  // ---------------------------------------------------------------------

  /** Per due time, what entered is what left followed by what is waiting. */
  ghost predicate FirstInFirstOut(q: Queue) {
    forall t: real :: At(q.entered, t) == At(q.left, t) + At(q.pending, t)
  }

  ghost predicate Inv(q: Queue) {
    && Sorted(q.pending)
    && (forall m :: m in q.pending ==> q.lastTime <= m.time)
    && Sorted(q.left)
    && (forall m :: m in q.left ==> m.time <= q.lastTime)
    && FirstInFirstOut(q)
  }

  /** `clock` is false for the global scheduler before clock synchronization. */
  function Start(t: real, clock: bool): Queue {
    Queue([], t, clock, [], [], [], [])
  }

  lemma {:induction false} ScheduleKeepsInv(q: Queue, m: Message)
    requires Inv(q)
    ensures Inv(Schedule(q, m))
    decreases m, 1
  {
    if m.time <= 0.0 || m.time < q.lastTime {
      ReactKeepsInv(q.(immediate := q.immediate + [m]), m.sends);
    } else if q.started {
      var r := Schedule(q, m);
      InsertSorted(q.pending, m);
      InsertMembers(q.pending, m);
      forall t: real ensures At(r.entered, t) == At(r.left, t) + At(r.pending, t) {
        AtInsert(q.pending, m, t);
        AtAppend(q.entered, m, t);
        assert At(q.entered, t) == At(q.left, t) + At(q.pending, t);
      }
    }
  }

  lemma {:induction false} ReactKeepsInv(q: Queue, ms: seq<Message>)
    requires Inv(q)
    ensures Inv(React(q, ms))
    decreases ms, 0
  {
    if ms != [] {
      ScheduleKeepsInv(q, ms[0]);
      ReactKeepsInv(Schedule(q, ms[0]), ms[1..]);
    }
  }

  lemma PopHeadKeepsInv(q: Queue)
    requires Inv(q) && q.pending != []
    ensures Inv(PopHead(q))
  {
    HeadTakenKeepsInv(q);
    var m := q.pending[0];
    ReactKeepsInv(q.(pending := q.pending[1..], lastTime := m.time, left := q.left + [m]), m.sends);
    hide Inv, React;
  }

  lemma HeadTakenKeepsInv(q: Queue)
    requires Inv(q) && q.pending != []
    ensures Inv(q.(pending := q.pending[1..], lastTime := q.pending[0].time, left := q.left + [q.pending[0]]))
  {
    var m := q.pending[0];
    var r := q.(pending := q.pending[1..], lastTime := m.time, left := q.left + [m]);
    forall t: real ensures At(r.entered, t) == At(r.left, t) + At(r.pending, t) {
      AtHead(q.pending, t);
      AtAppend(q.left, m, t);
      assert At(q.entered, t) == At(q.left, t) + At(q.pending, t);
    }
    forall x | x in r.left ensures x.time <= r.lastTime {
      assert x in q.left || x == m;
      assert m in q.pending;
    }
  }

  /** One dispatch: everything due is gone, nothing early has left, what left
      before is still the beginning of what has left. */
  lemma {:induction false} DispatchDelivers(q: Queue, t: real)
    requires Inv(q) && q.lastTime <= t
    ensures var r := Dispatch(q, t);
            && Inv(r) && r.lastTime == t
            && (forall m :: m in r.pending ==> t < m.time)
            && q.left <= r.left
            && (forall i :: |q.left| <= i < |r.left| ==> q.lastTime <= r.left[i].time <= t)
    decreases Weight(q.pending)
  {
    if q.pending != [] && q.pending[0].time <= t {
      assert q.pending[0] in q.pending;
      PopHeadKeepsInv(q);
      DispatchDelivers(PopHead(q), t);
    }
  }

  datatype Operation = Arrive(m: Message) | Poll(t: real)

  function Apply(q: Queue, op: Operation): Queue {
    match op
    case Arrive(m) => Schedule(q, m)
    case Poll(t) => Dispatch(q, t)
  }

  function Run(q: Queue, ops: seq<Operation>): Queue
    decreases |ops|
  {
    if ops == [] then q else Run(Apply(q, ops[0]), ops[1..])
  }

  /** Poll times do not go back. */
  predicate PollsForward(ops: seq<Operation>, from: real)
    decreases |ops|
  {
    ops == [] ||
    match ops[0]
    case Arrive(_) => PollsForward(ops[1..], from)
    case Poll(t) => from <= t && PollsForward(ops[1..], t)
  }

  lemma {:induction false} RunKeepsInv(q: Queue, ops: seq<Operation>)
    requires Inv(q) && PollsForward(ops, q.lastTime)
    ensures Inv(Run(q, ops))
    decreases |ops|
  {
    if ops != [] {
      match ops[0] {
        case Arrive(m) => ScheduleKeepsInv(q, m);
        case Poll(t) => DispatchDelivers(q, t);
      }
      RunKeepsInv(Apply(q, ops[0]), ops[1..]);
    }
  }

  /** Over every run with forward polls, handlers included: messages leave in
      time order; those due at the same time leave in the order they entered;
      nothing that entered is lost, duplicated or invented. */
  lemma RunIsStableAndConserves(start: real, clock: bool, ops: seq<Operation>)
    requires PollsForward(ops, start)
    ensures var q := Run(Start(start, clock), ops);
            && Sorted(q.left)
            && (forall t: real :: At(q.left, t) <= At(q.entered, t))
            && multiset(q.entered) == multiset(q.left) + multiset(q.pending)
  {
    var q0 := Start(start, clock);
    assert Inv(q0) by {
      assert forall t: real :: At([], t) == [];
    }
    RunKeepsInv(q0, ops);
    var q := Run(q0, ops);
    hide At, Run;
    forall t: real ensures At(q.left, t) <= At(q.entered, t) {
      assert At(q.entered, t) == At(q.left, t) + At(q.pending, t);
    }
    forall x: Message
      ensures multiset(q.entered)[x] == (multiset(q.left) + multiset(q.pending))[x]
    {
      AtCounts(q.entered, x);
      AtCounts(q.left, x);
      AtCounts(q.pending, x);
      assert At(q.entered, x.time) == At(q.left, x.time) + At(q.pending, x.time);
    }
  }

  // ---------------------------------------------------------------------
  // Handlers
  // ---------------------------------------------------------------------

  /** What the handlers of `ms` schedule, all together. */
  ghost function Sends(ms: seq<Message>): multiset<Message> {
    if ms == [] then multiset{} else multiset(ms[0].sends) + Sends(ms[1..])
  }

  lemma {:induction false} SendsAppend(ms: seq<Message>, m: Message)
    ensures Sends(ms + [m]) == Sends(ms) + multiset(m.sends)
  {
    if ms == [] {
      assert [] + [m] == [m] && [m][1..] == [];
    } else {
      assert (ms + [m])[1..] == ms[1..] + [m];
      SendsAppend(ms[1..], m);
    }
  }

  /** Where a message that was scheduled is: it entered the queue, was delivered
      at once, or was refused. */
  ghost function Came(q: Queue): multiset<Message> {
    multiset(q.entered) + multiset(q.immediate) + multiset(q.dropped)
  }

  /** What the handlers of delivered messages have scheduled. */
  ghost function Caused(q: Queue): multiset<Message> {
    Sends(q.left) + Sends(q.immediate)
  }

  /** What came and was not caused by a handler is `more`, except for `due`,
      which handlers have yet to schedule.  Without a clock nothing enters, with
      one nothing is refused. */
  ghost predicate Accounts(a: Queue, b: Queue, more: multiset<Message>, due: multiset<Message>) {
    && Came(b) + Caused(a) + due == Came(a) + Caused(b) + more
    && b.started == a.started
    && (a.started ==> b.dropped == a.dropped)
    && (!a.started ==> b.entered == a.entered)
  }

  lemma AccountsThen(a: Queue, b: Queue, c: Queue, more: multiset<Message>, due: multiset<Message>,
                     more': multiset<Message>)
    requires Accounts(a, b, more, due) && Accounts(b, c, more', multiset{})
    ensures Accounts(a, c, more + more', due)
    ensures more' == due ==> Accounts(a, c, more, multiset{})
  {
    hide Came, Caused;
    forall x ensures (Came(c) + Caused(a) + due)[x] == (Came(a) + Caused(c) + (more + more'))[x] {
      assert (Came(b) + Caused(a) + due)[x] == (Came(a) + Caused(b) + more)[x];
      assert (Came(c) + Caused(b) + multiset{})[x] == (Came(b) + Caused(c) + more')[x];
    }
    assert Came(c) + Caused(a) + due == Came(a) + Caused(c) + (more + more');
    if more' == due {
      forall x ensures (Came(c) + Caused(a) + multiset{})[x] == (Came(a) + Caused(c) + more)[x] {
        assert (Came(c) + Caused(a) + due)[x] == (Came(a) + Caused(c) + (more + more'))[x];
      }
      assert Came(c) + Caused(a) + multiset{} == Came(a) + Caused(c) + more;
    }
  }

  /** A message is delivered, at once or from the queue; its handler is due. */
  lemma DeliveredAccounts(q: Queue, m: Message, pending: seq<Message>, time: real)
    ensures Accounts(q, q.(immediate := q.immediate + [m]), multiset{m}, multiset(m.sends))
    ensures Accounts(q, q.(pending := pending, lastTime := time, left := q.left + [m]), multiset{}, multiset(m.sends))
  {
    SendsAppend(q.immediate, m);
    SendsAppend(q.left, m);
    hide Sends;
    assert multiset(q.immediate + [m]) == multiset(q.immediate) + multiset{m};
  }

  lemma {:induction false} ScheduleAccounts(q: Queue, m: Message)
    ensures Accounts(q, Schedule(q, m), multiset{m}, multiset{})
    decreases m, 1
  {
    if m.time <= 0.0 || m.time < q.lastTime {
      var r := q.(immediate := q.immediate + [m]);
      DeliveredAccounts(q, m, [], 0.0);
      ReactAccounts(r, m.sends);
      hide Accounts;
      AccountsThen(q, r, React(r, m.sends), multiset{m}, multiset(m.sends), multiset(m.sends));
    } else {
      hide Sends, Insert;
      assert multiset(q.entered + [m]) == multiset(q.entered) + multiset{m};
      assert multiset(q.dropped + [m]) == multiset(q.dropped) + multiset{m};
    }
  }

  lemma {:induction false} ReactAccounts(q: Queue, ms: seq<Message>)
    ensures Accounts(q, React(q, ms), multiset(ms), multiset{})
    decreases ms, 0
  {
    if ms != [] {
      var r := Schedule(q, ms[0]);
      ScheduleAccounts(q, ms[0]);
      ReactAccounts(r, ms[1..]);
      assert ms == [ms[0]] + ms[1..];
      hide Accounts, Schedule;
      AccountsThen(q, r, React(r, ms[1..]), multiset{ms[0]}, multiset{}, multiset(ms[1..]));
    }
  }

  /** Taking a message accounts for what its handler schedules. */
  lemma PopHeadAccounts(q: Queue)
    requires q.pending != []
    ensures Accounts(q, PopHead(q), multiset{}, multiset{})
  {
    var m := q.pending[0];
    var r := q.(pending := q.pending[1..], lastTime := m.time, left := q.left + [m]);
    DeliveredAccounts(q, m, q.pending[1..], m.time);
    ReactAccounts(r, m.sends);
    hide Accounts, React;
    AccountsThen(q, r, React(r, m.sends), multiset{}, multiset(m.sends), multiset(m.sends));
  }

  lemma {:induction false} DispatchAccounts(q: Queue, t: real)
    ensures Accounts(q, Dispatch(q, t), multiset{}, multiset{})
    decreases Weight(q.pending)
  {
    if q.pending != [] && q.pending[0].time <= t {
      PopHeadAccounts(q);
      DispatchAccounts(PopHead(q), t);
      hide Accounts, PopHead;
      AccountsThen(q, PopHead(q), Dispatch(PopHead(q), t), multiset{}, multiset{}, multiset{});
    } else {
      hide Sends;
    }
  }

  /** The messages that operations schedule from outside. */
  function Arrivals(ops: seq<Operation>): multiset<Message> {
    if ops == [] then multiset{}
    else (if ops[0].Arrive? then multiset{ops[0].m} else multiset{}) + Arrivals(ops[1..])
  }

  lemma {:induction false} RunAccounts(q: Queue, ops: seq<Operation>)
    ensures Accounts(q, Run(q, ops), Arrivals(ops), multiset{})
    decreases |ops|
  {
    if ops != [] {
      var more := if ops[0].Arrive? then multiset{ops[0].m} else multiset{};
      match ops[0] {
        case Arrive(m) => ScheduleAccounts(q, m);
        case Poll(t) => DispatchAccounts(q, t);
      }
      var r := Apply(q, ops[0]);
      RunAccounts(r, ops[1..]);
      hide Accounts, Apply;
      AccountsThen(q, r, Run(r, ops[1..]), more, multiset{}, Arrivals(ops[1..]));
    } else {
      hide Sends;
    }
  }

  /** Over every run every handler runs, exactly once, and nothing else schedules
      anything: what came are the messages from outside and those that the
      handlers of delivered messages schedule.  With a clock none is refused,
      without one none enters the queue. */
  lemma RunHandlersRun(start: real, clock: bool, ops: seq<Operation>)
    ensures var q := Run(Start(start, clock), ops);
            && multiset(q.entered) + multiset(q.immediate) + multiset(q.dropped)
               == Arrivals(ops) + Sends(q.left) + Sends(q.immediate)
            && (clock ==> q.dropped == []) && (!clock ==> q.entered == [])
  {
    var q0 := Start(start, clock);
    var q := Run(q0, ops);
    RunAccounts(q0, ops);
    assert Came(q0) == multiset{} && Caused(q0) == multiset{};
    hide Run, Arrivals, Sends;
    assert Came(q) + Caused(q0) + multiset{} == Came(q);
    assert Came(q0) + Caused(q) + Arrivals(ops) == Arrivals(ops) + Sends(q.left) + Sends(q.immediate);
  }

  /** Messages that are not late come in one after the other. */
  lemma {:induction false} ReactInOrder(q: Queue, ms: seq<Message>)
    requires q.started && forall m :: m in ms ==> m.time > 0.0 && q.lastTime <= m.time
    ensures React(q, ms).entered == q.entered + ms && React(q, ms).immediate == q.immediate
    decreases |ms|
  {
    if ms != [] {
      ReactInOrder(Schedule(q, ms[0]), ms[1..]);
      assert q.entered + [ms[0]] + ms[1..] == q.entered + ms;
    } else {
      assert q.entered + [] == q.entered;
    }
  }

  lemma {:induction false} DispatchOnlyAppends(q: Queue, t: real)
    ensures q.entered <= Dispatch(q, t).entered && q.left <= Dispatch(q, t).left
    decreases Weight(q.pending)
  {
    if q.pending != [] && q.pending[0].time <= t {
      var m := q.pending[0];
      ReactOnlyAppends(q.(pending := q.pending[1..], lastTime := m.time, left := q.left + [m]), m.sends);
      DispatchOnlyAppends(PopHead(q), t);
    }
  }

  lemma {:induction false} ScheduleOnlyAppends(q: Queue, m: Message)
    ensures q.entered <= Schedule(q, m).entered
    decreases m, 1
  {
    if m.time <= 0.0 || m.time < q.lastTime {
      ReactOnlyAppends(q.(immediate := q.immediate + [m]), m.sends);
    }
  }

  lemma {:induction false} ReactOnlyAppends(q: Queue, ms: seq<Message>)
    ensures q.entered <= React(q, ms).entered
    decreases ms, 0
  {
    if ms != [] {
      ScheduleOnlyAppends(q, ms[0]);
      ReactOnlyAppends(Schedule(q, ms[0]), ms[1..]);
    }
  }

  /** A dispatch takes the earliest message first.  If what its handler schedules
      is not late, all of it enters the queue, in order and before anything else;
      and if nothing else is due, nothing else does. */
  lemma DispatchRunsTheHandler(q: Queue, t: real)
    requires q.started && q.pending != [] && q.pending[0].time <= t
    requires forall s :: s in q.pending[0].sends ==> s.time > 0.0 && q.pending[0].time <= s.time
    ensures var m, r := q.pending[0], Dispatch(q, t);
            && q.left + [m] <= r.left && q.entered + m.sends <= r.entered
            && ((forall x :: x in q.pending[1..] + m.sends ==> t < x.time) ==>
                 r.left == q.left + [m] && r.entered == q.entered + m.sends)
  {
    var m := q.pending[0];
    var taken := q.(pending := q.pending[1..], lastTime := m.time, left := q.left + [m]);
    ReactInOrder(taken, m.sends);
    ReactMembers(taken, m.sends);
    var p := PopHead(q);
    DispatchOnlyAppends(p, t);
    if forall x :: x in q.pending[1..] + m.sends ==> t < x.time {
      assert p.pending != [] ==> p.pending[0] in p.pending;
    }
  }

  lemma {:induction false} ReactMembers(q: Queue, ms: seq<Message>)
    requires q.started && forall m :: m in ms ==> m.time > 0.0 && q.lastTime <= m.time
    ensures forall x :: x in React(q, ms).pending ==> x in q.pending || x in ms
    decreases |ms|
  {
    if ms != [] {
      InsertMembers(q.pending, ms[0]);
      ReactMembers(Schedule(q, ms[0]), ms[1..]);
    }
  }

  /** A late message is delivered at once, and its handler runs then: if what that
      schedules is not late it enters the queue, in order. */
  lemma LateMessageRunsTheHandler(q: Queue, m: Message)
    requires q.started && (m.time <= 0.0 || m.time < q.lastTime)
    requires forall s :: s in m.sends ==> s.time > 0.0 && q.lastTime <= s.time
    ensures Schedule(q, m).immediate == q.immediate + [m] && Schedule(q, m).entered == q.entered + m.sends
  {
    ReactInOrder(q.(immediate := q.immediate + [m]), m.sends);
  }
}
