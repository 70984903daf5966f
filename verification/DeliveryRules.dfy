/** What becomes of messages, src/msgsend.cpp and src/o2sched.cpp: services and
    times, the fate of a message that is sent, which operations run handlers,
    and logs of what was made. */
module DeliveryRules {
  import opened Common
  import opened DeliveryState

  // ---------------------------------------------------------------------
  // Services and times
  // ---------------------------------------------------------------------

  /** `o2_msg_service`. */
  function Find(env: Env, c: Content): Option<Provider> {
    if c.service !in env.services then None
    else if c.tap then env.services[c.service].local
    else env.services[c.service].first
  }

  /** Is a message that is sent to wait for its time? */
  predicate Later(env: Env, c: Content) {
    && c.time > 0.0 && c.time > env.lastTime && Find(env, c).Some?
    && (Find(env, c).value.Proxy? ==> Find(env, c).value.scheduleBeforeSend)
  }

  /** Is a message that is scheduled delivered at once? */
  predicate Late(env: Env, c: Content) {
    c.time <= 0.0 || c.time < env.lastTime
  }

  /** Where the copy for a tap goes: to another process, to the provider of the
      tapper in this one, or nowhere. */
  function Target(env: Env, tap: Tap): Option<Provider> {
    if tap.remote then Some(Proxy(false))
    else if tap.tapper in env.services then env.services[tap.tapper].local
    else None
  }

  /** What goes to the taps of the service of `c` after one more delivery. */
  function CopiesOf(env: Env, c: Content): seq<Content>
    requires c.Plain? && c.service in env.services
  {
    if c.ttl + 1 <= MAX_TAP_FORWARDING
    then Copies(c.(tap := true, ttl := c.ttl + 1), env.services[c.service].taps) else []
  }

  /** Up to three times a message is forwarded: a copy for each tap, in order, for
      the tapper only, with the same time, counted once more. */
  lemma CopiesAre(env: Env, c: Content)
    requires c.Plain? && c.service in env.services
    ensures c.ttl >= 3 ==> CopiesOf(env, c) == []
    ensures c.ttl < 3 ==>
              var taps, copies := env.services[c.service].taps, CopiesOf(env, c);
              && |copies| == |taps|
              && forall i :: 0 <= i < |taps| ==> copies[i] == Plain(taps[i].tapper, c.time, true, c.ttl + 1)
  {
  }

  // ---------------------------------------------------------------------
  // Which operations run handlers
  // ---------------------------------------------------------------------

  // `free` says that o2_do_not_reenter is zero.

  /** Sending `c`. */
  predicate RunsWhenSent(env: Env, c: Content, free: bool) {
    free && c.Plain? && !Later(env, c) && Find(env, c) == Some(Local(true))
  }

  predicate RunsAtTap(env: Env, tap: Tap) {
    Target(env, tap) == Some(Local(true))
  }

  predicate RunsAtTaps(env: Env, taps: seq<Tap>) {
    exists i :: 0 <= i < |taps| && RunsAtTap(env, taps[i])
  }

  /** Forwarding `c` to the taps of its service. */
  predicate RunsWhenForwarded(env: Env, c: Content, free: bool)
    requires c.Plain?
  {
    && free && c.ttl + 1 <= MAX_TAP_FORWARDING && c.service in env.services
    && RunsAtTaps(env, env.services[c.service].taps)
  }

  /** Delivering `c` to `service`. */
  predicate RunsWhenDelivered(env: Env, c: Content, service: Option<Provider>, free: bool) {
    match c
    case Plain(_, _, _, _) => service.Some? && (service.value == Local(true) || RunsWhenForwarded(env, c, free))
    case Bundle(_, _, _, parts) => exists i :: 0 <= i < |parts| && RunsWhenSent(env, parts[i], free)
  }

  /** An act of a handler. */
  predicate Runs(env: Env, a: Act, free: bool) {
    match a
    case Send(c) => RunsWhenSent(env, c, free)
    case Schedule(c) => Late(env, c) && RunsWhenDelivered(env, c, Find(env, c), free)
  }

  predicate AnyRuns(env: Env, acts: seq<Act>, free: bool) {
    exists i :: 0 <= i < |acts| && Runs(env, acts[i], free)
  }

  lemma AnyRunsNext(env: Env, acts: seq<Act>, i: nat, free: bool)
    requires i < |acts|
    ensures AnyRuns(env, acts[..i + 1], free) <==> AnyRuns(env, acts[..i], free) || Runs(env, acts[i], free)
  {
    hide Runs;
    assert acts[..i + 1] == acts[..i] + [acts[i]];
    if AnyRuns(env, acts[..i + 1], free) {
      var k :| 0 <= k < i + 1 && Runs(env, acts[..i + 1][k], free);
      if k < i { assert Runs(env, acts[..i][k], free); }
    }
    if AnyRuns(env, acts[..i], free) {
      var k :| 0 <= k < i && Runs(env, acts[..i][k], free);
      assert Runs(env, acts[..i + 1][k], free);
    }
    if Runs(env, acts[i], free) { assert Runs(env, acts[..i + 1][i], free); }
  }

  lemma AnyRunsInBundle(env: Env, c: Content, free: bool)
    requires c.Bundle?
    ensures AnyRuns(env, Sends(c.parts), free) <==> RunsWhenDelivered(env, c, None, free)
    ensures RunsWhenDelivered(env, c, None, free) ==> free
  {
    hide RunsWhenSent;
    forall i | 0 <= i < |c.parts|
      ensures Runs(env, Sends(c.parts)[i], free) <==> RunsWhenSent(env, c.parts[i], free)
    {
    }
    assert forall i :: 0 <= i < |c.parts| ==> (RunsWhenSent(env, c.parts[i], free) ==> free) by {
      forall i | 0 <= i < |c.parts| ensures RunsWhenSent(env, c.parts[i], free) ==> free {
        SentRunsOnlyWhenFree(env, c.parts[i], free);
      }
    }
  }

  lemma SentRunsOnlyWhenFree(env: Env, c: Content, free: bool)
    ensures RunsWhenSent(env, c, free) ==> free
  {
  }

  lemma RunsAtTapsNext(env: Env, taps: seq<Tap>, i: nat)
    requires i < |taps|
    ensures RunsAtTaps(env, taps[..i + 1]) <==> RunsAtTaps(env, taps[..i]) || RunsAtTap(env, taps[i])
  {
    hide RunsAtTap;
    if RunsAtTaps(env, taps[..i + 1]) {
      var k :| 0 <= k < i + 1 && RunsAtTap(env, taps[..i + 1][k]);
      if k < i { assert RunsAtTap(env, taps[..i][k]); }
    }
    if RunsAtTaps(env, taps[..i]) {
      var k :| 0 <= k < i && RunsAtTap(env, taps[..i][k]);
      assert RunsAtTap(env, taps[..i + 1][k]);
    }
    if RunsAtTap(env, taps[i]) { assert RunsAtTap(env, taps[..i + 1][i]); }
  }

  /** No late message is scheduled. */
  predicate Patient(env: Env, acts: seq<Act>) {
    forall i :: 0 <= i < |acts| && acts[i].Schedule? ==> !Late(env, acts[i].content)
  }

  /** The handlers that run inside a handler are exactly those of late messages
      that it schedules, as long as others have to wait. */
  lemma PatientRunsNothing(env: Env, acts: seq<Act>)
    requires Patient(env, acts)
    ensures !AnyRuns(env, acts, false)
  {
  }

  // ---------------------------------------------------------------------
  // The fate of a message
  // ---------------------------------------------------------------------

  /** Before the first scheduled message that is due later. */
  ghost predicate InsertionPoint(s: State, k: nat, time: real) {
    && k <= |s.scheduled|
    && (forall j :: 0 <= j < |s.scheduled| ==> s.scheduled[j] in s.memory)
    && (forall j :: 0 <= j < k ==> s.memory[s.scheduled[j]].time <= time)
    && (k < |s.scheduled| ==> s.memory[s.scheduled[k]].time > time)
  }

  /** What becomes of a message that is to wait. */
  ghost predicate SentLater(a: State, b: State)
    requires a.msgs != [] && a.msgs[0] in a.memory
  {
    if a.env.clock then exists k :: InsertionPoint(a, k, a.memory[a.msgs[0]].time) && b == Scheduled(a, k)
    else b == Freed(a)
  }

  /** A copy for a tap, while others have to wait. */
  function AfterTap(s: State, c: Content, tap: Tap): (t: State)
    requires c.Plain?
    ensures t.msgs == s.msgs && t.env == s.env && t.doNotReenter == s.doNotReenter
    ensures t.delivered == s.delivered && t.script == s.script
    ensures forall x :: x in s.memory && x != s.next ==> x in t.memory && t.memory[x] == s.memory[x]
    ensures s.next < t.next
  {
    var on := Pushed(s, Copy(c, tap));
    assert on.msgs[1..] == s.msgs;
    match Target(s.env, tap)
    case None => Freed(on)
    case Some(Proxy(_)) => HandedOff(on)
    case Some(Local(_)) => Postponed(on)
  }

  function AfterTaps(s: State, c: Content, taps: seq<Tap>): (t: State)
    requires c.Plain?
    ensures t.msgs == s.msgs && t.env == s.env && t.doNotReenter == s.doNotReenter
    ensures t.delivered == s.delivered && t.script == s.script && s.next <= t.next
    ensures forall x :: x in s.memory && x < s.next ==> x in t.memory && t.memory[x] == s.memory[x]
    decreases |taps|
  {
    if taps == [] then s else AfterTap(AfterTaps(s, c, taps[..|taps| - 1]), c, taps[|taps| - 1])
  }

  lemma AfterTapsNext(s: State, c: Content, taps: seq<Tap>, i: nat)
    requires c.Plain? && i < |taps|
    ensures AfterTaps(s, c, taps[..i + 1]) == AfterTap(AfterTaps(s, c, taps[..i]), c, taps[i])
  {
    assert taps[..i + 1][..i] == taps[..i];
  }

  /** A handler, if one is called, does nothing. */
  predicate Calm(s: State, found: bool)
    requires s.msgs != []
  {
    && s.msgs[0] in s.memory && s.memory[s.msgs[0]].Plain?
    && s.memory[s.msgs[0]].service in s.env.services && s.msgs[0] < s.next
    && (found ==> Now(s.script) == [])
  }

  /** The taps of the service have got their copies. */
  function Forwarded(s: State): State
    requires s.msgs != [] && Calm(s, false)
  {
    var t := Marked(s);
    var c := t.memory[t.msgs[0]];
    if c.ttl <= MAX_TAP_FORWARDING then AfterTaps(t, c, s.env.services[c.service].taps) else t
  }

  /** The message on top of the stack is delivered, while others have to wait. */
  function Delivered(s: State, found: bool): State
    requires s.msgs != [] && Calm(s, found)
  {
    Freed(Forwarded(s.(delivered := s.delivered + [s.msgs[0]],
                       script := if found then Rest(s.script) else s.script)))
  }

  /** The message on top of the stack was delivered, before any other, and is
      no more. */
  ghost predicate DeliveredIn(a: State, b: State)
    requires a.msgs != []
  {
    var x := a.msgs[0];
    && x !in b.memory
    && (x in a.memory && a.memory[x].Plain? ==> |a.delivered| < |b.delivered| && b.delivered[|a.delivered|] == x)
  }

  /** What becomes of a message that is sent now. */
  ghost predicate SentNow(a: State, b: State, service: Option<Provider>)
    requires a.msgs != [] && a.msgs[0] in a.memory
  {
    match service
    case None => b == Freed(a)
    case Some(Proxy(_)) => b == HandedOff(a)
    case Some(Local(found)) =>
      if a.doNotReenter > 0 then b == Postponed(a)
      else
        && DeliveredIn(a, b)
        && (Calm(a, found) ==> b == Delivered(a.(doNotReenter := 1), found).(doNotReenter := 0))
  }

  // ---------------------------------------------------------------------
  // What was made
  // ---------------------------------------------------------------------

  /** A message block was made while the message `maker` was being handled. */
  datatype Made = Made(maker: Option<Addr>, content: Content)

  /** Blocks made so far, in order; how many handlers were called, and how many
      of those while another was running; how many are running. */
  datatype Log = Log(made: seq<Made>, ran: nat, nested: nat, running: nat)

  /** What was made while `x` was being handled. */
  function By(made: seq<Made>, x: Addr): seq<Content> {
    if made == [] then []
    else (if made[0].maker == Some(x) then [made[0].content] else []) + By(made[1..], x)
  }

  lemma {:induction false} ByConcat(a: seq<Made>, b: seq<Made>, x: Addr)
    ensures By(a + b, x) == By(a, x) + By(b, x)
  {
    if a == [] {
      assert a + b == b;
    } else {
      assert (a + b)[1..] == a[1..] + b;
      ByConcat(a[1..], b, x);
      var h := if a[0].maker == Some(x) then [a[0].content] else [];
      assert h + (By(a[1..], x) + By(b, x)) == (h + By(a[1..], x)) + By(b, x);
    }
  }

  lemma {:induction false} ByNone(made: seq<Made>, x: Addr)
    requires forall i :: 0 <= i < |made| ==> made[i].maker != Some(x)
    ensures By(made, x) == []
  {
    if made != [] {
      ByNone(made[1..], x);
    }
  }

  /** Nothing was made for the messages in `below`, and handlers were called if
      and only if `runs`: inside another if and only if one is running. */
  ghost predicate Logged(a: Log, b: Log, below: seq<Addr>, runs: bool) {
    && a.made <= b.made
    && (forall i :: |a.made| <= i < |b.made| && b.made[i].maker.Some? ==> b.made[i].maker.value !in below)
    && b.running == a.running
    && a.ran <= b.ran && (b.ran == a.ran <==> !runs)
    && a.nested <= b.nested && (a.running > 0 || !runs ==> (b.nested == a.nested <==> !runs))
  }

  /** Exactly these were made for `x`, in this order. */
  ghost predicate Wrote(a: Log, b: Log, x: Addr, cs: seq<Content>) {
    a.made <= b.made && By(b.made[|a.made|..], x) == cs
  }

  lemma LoggedThen(a: Log, b: Log, c: Log, below: seq<Addr>, r: bool, t: bool)
    requires Logged(a, b, below, r) && Logged(b, c, below, t)
    ensures Logged(a, c, below, r || t)
  {
  }

  lemma LoggedNothing(a: Log, below: seq<Addr>)
    ensures Logged(a, a, below, false)
  {
  }

  lemma LoggedLess(a: Log, b: Log, below: seq<Addr>, below': seq<Addr>, r: bool)
    requires Logged(a, b, below, r) && forall x :: x in below' ==> x in below
    ensures Logged(a, b, below', r)
  {
  }

  lemma LoggedFacts(a: Log, b: Log, below: seq<Addr>, r: bool)
    requires Logged(a, b, below, r)
    ensures a.made <= b.made && b.running == a.running && a.nested <= b.nested
    ensures a.ran <= b.ran && (b.ran == a.ran <==> !r)
    ensures a.running > 0 || !r ==> (b.nested == a.nested <==> !r)
  {
  }

  lemma WroteThen(a: Log, b: Log, c: Log, x: Addr, cs: seq<Content>, ds: seq<Content>)
    requires Wrote(a, b, x, cs) && Wrote(b, c, x, ds)
    ensures Wrote(a, c, x, cs + ds)
  {
    var y, z := b.made[|a.made|..], c.made[|b.made|..];
    assert c.made[|a.made|..] == y + z;
    ByConcat(y, z, x);
  }

  lemma WroteNothing(a: Log, b: Log, below: seq<Addr>, r: bool, x: Addr)
    requires Logged(a, b, below, r) && x in below
    ensures Wrote(a, b, x, [])
  {
    var y := b.made[|a.made|..];
    forall i | 0 <= i < |y| ensures y[i].maker != Some(x) {
      assert y[i] == b.made[|a.made| + i];
    }
    ByNone(y, x);
  }

  /** One more block, for `x`. */
  lemma MadeIsLogged(a: Log, maker: Option<Addr>, c: Content, below: seq<Addr>)
    requires maker.Some? ==> maker.value !in below
    ensures Logged(a, a.(made := a.made + [Made(maker, c)]), below, false)
    ensures maker.Some? ==> Wrote(a, a.(made := a.made + [Made(maker, c)]), maker.value, [c])
  {
    var b := a.made + [Made(maker, c)];
    assert b[|a.made|..] == [Made(maker, c)] && [Made(maker, c)][1..] == [];
  }

  /** A handler is called, and while it is running `inner` happens. */
  function Called(a: Log): Log {
    a.(ran := a.ran + 1, nested := a.nested + (if a.running > 0 then 1 else 0), running := a.running + 1)
  }

  lemma HandlerIsLogged(a: Log, b: Log, below: seq<Addr>, r: bool)
    requires Logged(Called(a), b, below, r)
    ensures Logged(a, b.(running := a.running), below, true)
    ensures a.running == 0 ==> (b.nested == a.nested <==> !r)
  {
  }

  // ---------------------------------------------------------------------
  // Emptying the queues of pending messages
  // ---------------------------------------------------------------------

  /** The first message for any process is taken and sent. */
  ghost predicate TookAnywhere(s: State, t: State) {
    && s.pendingAnywhere != [] && s.pendingAnywhere[0] in s.memory
    && t.env == s.env && t.msgs == s.msgs && t.doNotReenter == s.doNotReenter
    && s.pendingAnywhere[1..] <= t.pendingAnywhere && s.pendingLocal <= t.pendingLocal
    && var on, c := TakenAnywhere(s), s.memory[s.pendingAnywhere[0]];
       if Later(s.env, c) then SentLater(on, t) else SentNow(on, t, Find(s.env, c))
  }

  /** The first postponed copy for a tap is taken and delivered, or freed when
      its service is gone. */
  ghost predicate TookLocal(s: State, t: State) {
    && s.pendingLocal != [] && s.pendingLocal[0] in s.memory
    && t.env == s.env && t.msgs == s.msgs && t.doNotReenter == s.doNotReenter
    && s.pendingLocal[1..] <= t.pendingLocal && s.pendingAnywhere <= t.pendingAnywhere
    && var name := s.memory[s.pendingLocal[0]].service;
       if name in s.env.services && s.env.services[name].local.Some? && s.env.services[name].local.value.Local?
       then DeliveredIn(TakenLocal(s), t) else t == Freed(TakenLocal(s))
  }

  /** `trace` is a way to empty the queues: first, in `n` steps, that for any
      process, then the local one. */
  ghost predicate Drain(trace: seq<State>, n: nat) {
    && n < |trace|
    && (forall i :: 0 <= i < n ==> TookAnywhere(trace[i], trace[i + 1]))
    && (forall i :: n <= i < |trace| - 1 ==> TookLocal(trace[i], trace[i + 1]))
    && trace[n].pendingAnywhere == [] && trace[|trace| - 1].pendingLocal == []
  }

  /** The message taken in step `i`. */
  function Taken(trace: seq<State>, n: nat, i: nat): Addr
    requires i < |trace|
    requires if i < n then trace[i].pendingAnywhere != [] else trace[i].pendingLocal != []
  {
    if i < n then trace[i].pendingAnywhere[0] else trace[i].pendingLocal[0]
  }

  /** Step `i` takes what was the `i`-th pending message at the start: first in,
      first out, whatever comes in on the way. */
  lemma {:induction false} DrainTakesInOrder(trace: seq<State>, n: nat, i: nat)
    requires Drain(trace, n)
    ensures |trace[0].pendingAnywhere| <= n && |trace[n].pendingLocal| <= |trace| - 1 - n
    ensures trace[0].pendingLocal <= trace[n].pendingLocal
    ensures i < |trace[0].pendingAnywhere| ==>
              trace[i].pendingAnywhere != [] && Taken(trace, n, i) == trace[0].pendingAnywhere[i]
    ensures i < |trace[n].pendingLocal| ==>
              trace[n + i].pendingLocal != [] && Taken(trace, n, n + i) == trace[n].pendingLocal[i]
  {
    AnywhereShifts(trace, n, n);
    LocalShifts(trace, n, |trace| - 1 - n);
    if i < |trace[0].pendingAnywhere| {
      AnywhereShifts(trace, n, i);
    }
    if i < |trace[n].pendingLocal| {
      LocalShifts(trace, n, i);
    }
  }

  lemma {:induction false} AnywhereShifts(trace: seq<State>, n: nat, i: nat)
    requires Drain(trace, n) && i <= n
    ensures trace[0].pendingLocal <= trace[i].pendingLocal
    ensures i <= |trace[0].pendingAnywhere| ==> trace[0].pendingAnywhere[i..] <= trace[i].pendingAnywhere
    ensures i == n ==> |trace[0].pendingAnywhere| <= n
  {
    hide SentNow, SentLater, Later, Find;
    if i > 0 {
      AnywhereShifts(trace, n, i - 1);
      assert TookAnywhere(trace[i - 1], trace[i - 1 + 1]);
    }
  }

  lemma {:induction false} LocalShifts(trace: seq<State>, n: nat, i: nat)
    requires Drain(trace, n) && n + i < |trace|
    ensures i <= |trace[n].pendingLocal| ==> trace[n].pendingLocal[i..] <= trace[n + i].pendingLocal
    ensures n + i == |trace| - 1 ==> |trace[n].pendingLocal| <= i
  {
    hide DeliveredIn;
    if i > 0 {
      LocalShifts(trace, n, i - 1);
      assert TookLocal(trace[n + i - 1], trace[n + i - 1 + 1]);
    }
  }
}
