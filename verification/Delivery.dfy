/** Sending and delivering messages, src/msgsend.cpp and `o2_schedule` of
    src/o2sched.cpp: the mutual recursion of sending, scheduling, delivery,
    bundles, handlers and taps. */
module Delivery {
  import opened Common
  import opened DeliveryState
  import opened DeliveryRules

  datatype Err = Success | NoService | NoClock

  ghost predicate FewTaps(d: nat, services: map<Name, Entry>) {
    forall n :: n in services ==> |services[n].taps| <= d
  }

  class Context {
    /** The most taps any service has. */
    ghost const d: nat
    var memory: map<Addr, Content>
    var next: Addr
    var msgs: seq<Addr>
    var scheduled: seq<Addr>
    var pendingLocal: seq<Addr>
    var pendingAnywhere: seq<Addr>
    /** Messages that proxies have taken. */
    var sent: seq<Addr>
    var doNotReenter: nat
    var script: Script
    var services: map<Name, Entry>
    var lastTime: real
    var clock: bool
    /** Messages that reached a service, in order. */
    ghost var delivered: seq<Addr>
    /** Blocks made, with the message that was being handled. */
    ghost var made: seq<Made>
    /** Handlers called, those called while another was running, and those that
        are running. */
    ghost var ran: nat
    ghost var nested: nat
    ghost var running: nat

    ghost function View(): State
      reads this
    {
      State(memory, next, msgs, scheduled, pendingLocal, pendingAnywhere, sent, delivered,
            doNotReenter, script, Here())
    }

    function Here(): Env
      reads `services, `lastTime, `clock
    {
      Env(services, lastTime, clock)
    }

    ghost function History(): Log
      reads `made, `ran, `nested, `running
    {
      Log(made, ran, nested, running)
    }

    ghost predicate Ok()
      reads this
    {
      Owned(View()) && FewTaps(d, services) && |made| == next
    }

    /** What the message on top of the stack can lead to. */
    ghost function Top(): nat
      reads this
      requires msgs != []
    {
      CreditAt(d, memory, msgs[0])
    }

    ghost function Fuel(): nat
      reads this
      requires msgs != []
    {
      ScriptCredit(d, script) + Top()
    }

    constructor (ghost d: nat, services: map<Name, Entry>, lastTime: real, clock: bool, script: Script)
      requires FewTaps(d, services)
      ensures Ok() && View() == State(map[], 0, [], [], [], [], [], [], 0, script, Env(services, lastTime, clock))
      ensures this.d == d && History() == Log([], 0, 0, 0)
    {
      this.d := d;
      memory, next, msgs, scheduled, pendingLocal, pendingAnywhere, sent := map[], 0, [], [], [], [], [];
      delivered, doNotReenter := [], 0;
      made, ran, nested, running := [], 0, 0, 0;
      this.script, this.services, this.lastTime, this.clock := script, services, lastTime, clock;
    }

    // ------------------------------------------------------------------
    // The stack of messages being sent
    // ------------------------------------------------------------------

    /** A new message block with `c` in it, and `o2_prepare_to_deliver`. */
    method NewMessage(c: Content)
      requires Ok()
      modifies `memory, `next, `msgs, `made
      ensures Ok() && View() == Pushed(old(View()), c)
      ensures made == old(made) + [Made(if old(msgs) == [] then None else Some(old(msgs)[0]), c)]
      ensures Effect(d, old(View()), View(), 0, false, -1)
    {
      hide Owned, Effect;
      PushedIsOk(d, View(), c);
      EffectFacts(d, View(), Pushed(View(), c), 0, false, -1);
      ghost var maker := if msgs == [] then None else Some(msgs[0]);
      memory, msgs, next, made := memory[next := c], [next] + msgs, next + 1, made + [Made(maker, c)];
    }

    /** `o2_complete_delivery`. */
    method CompleteDelivery()
      requires Ok() && msgs != []
      modifies `memory, `msgs
      ensures Ok() && View() == Freed(old(View()))
      ensures Effect(d, old(View()), View(), 0, false, -1)
    {
      hide Owned, Effect;
      FreedIsOk(d, View());
      EffectFacts(d, View(), Freed(View()), 0, false, -1);
      memory, msgs := memory - {msgs[0]}, msgs[1..];
    }

    /** The send method of a proxy, which takes the message. */
    method ProxySend()
      requires Ok() && msgs != []
      modifies `msgs, `sent
      ensures Ok() && View() == HandedOff(old(View()))
      ensures Effect(d, old(View()), View(), old(Top()), true, -1)
    {
      hide Owned, Effect;
      HandedOffIsOk(d, View());
      EffectFacts(d, View(), HandedOff(View()), Top(), true, -1);
      sent, msgs := sent + [msgs[0]], msgs[1..];
    }

    /** `Pending_msgs_queue::enqueue` of the message taken from the stack. */
    method Postpone()
      requires Ok() && msgs != []
      modifies `msgs, `pendingLocal, `pendingAnywhere
      ensures Ok() && msgs == old(msgs)[1..]
      ensures old(msgs[0]) in old(memory) && View() == Postponed(old(View()))
      ensures Effect(d, old(View()), View(), old(Top()), false, -1)
    {
      hide Owned, Effect;
      PostponedIsOk(d, View());
      EffectFacts(d, View(), Postponed(View()), Top(), false, -1);
      var msg := msgs[0];
      msgs := msgs[1..];
      if memory[msg].tap {
        pendingLocal := pendingLocal + [msg];
      } else {
        pendingAnywhere := pendingAnywhere + [msg];
      }
    }

    lemma TopIsThere()
      requires Ok() && msgs != []
      ensures msgs[0] in memory && Top() == Credit(d, memory[msgs[0]])
      ensures msgs[0] !in msgs[1..] && msgs[0] < next
    {
      TopIsOwned(View());
    }

    /** Nothing was delivered and nothing was made. */
    ghost predicate Quiet(before: seq<Addr>, script0: Script, made0: seq<Made>)
      reads `delivered, `script, `made
    {
      delivered == before && script == script0 && made == made0
    }

    // ------------------------------------------------------------------
    // Sending
    // ------------------------------------------------------------------

    /** `o2_message_send`, the message being on the stack already.  In the end
        the stack is what it was without it. */
    method MessageSend() returns (err: Err)
      requires Ok() && msgs != []
      modifies this
      ensures Ok() && msgs == old(msgs)[1..] && Here() == old(Here())
      ensures Effect(d, old(View()), View(), old(Top()), old(doNotReenter) == 0, -1)
      ensures old(doNotReenter) > 0 ==> Quiet(old(delivered), old(script), old(made))
      ensures old(msgs[0]) in old(memory)
      ensures var c, env := old(memory[msgs[0]]), old(Here());
              && (if Later(env, c) then SentLater(old(View()), View()) else SentNow(old(View()), View(), Find(env, c)))
              && Logged(old(History()), History(), msgs, RunsWhenSent(env, c, old(doNotReenter) == 0))
              && (RunsWhenSent(env, c, old(doNotReenter) == 0) && running == 0 ==>
                   (nested == old(nested) <==> !AnyRuns(env, Now(old(script)), false)))
              && err == if Find(env, c) == None then NoService
                        else if Later(env, c) && !env.clock then NoClock else Success
      decreases Fuel(), 6
    {
      hide Effect, Owned, ScriptCredit, Logged, AnyRuns, SentNow, SentLater;
      TopIsThere();
      var c := memory[msgs[0]];
      var service := Find(Here(), c);
      if service.Some? {
        if service.value.Proxy? {
          if c.time > 0.0 && c.time > lastTime && service.value.scheduleBeforeSend {
            ghost var s := View();
            err := Schedule();
            EffectWithin(d, s, View(), Credit(d, c), true, Credit(d, c), s.doNotReenter == 0, -1);
            return;
          }
        } else if c.time > 0.0 && c.time > lastTime {
          ghost var s := View();
          err := Schedule();
          EffectWithin(d, s, View(), Credit(d, c), true, Credit(d, c), s.doNotReenter == 0, -1);
          return;
        }
      }
      err := ServiceMsgSend(service);
    }

    /** `o2_schedule` for the global scheduler.  A late message is delivered at
        once, also while others have to wait. */
    method Schedule() returns (err: Err)
      requires Ok() && msgs != []
      modifies this
      ensures Ok() && msgs == old(msgs)[1..] && Here() == old(Here())
      ensures Effect(d, old(View()), View(), old(Top()), true, -1)
      ensures old(msgs[0]) in old(memory)
      ensures var c, env := old(memory[msgs[0]]), old(Here());
              && (!Late(env, c) ==> Quiet(old(delivered), old(script), old(made)) && SentLater(old(View()), View()))
              && (Late(env, c) ==> old(msgs[0]) !in memory)
              && Logged(old(History()), History(), msgs,
                        Late(env, c) && RunsWhenDelivered(env, c, Find(env, c), old(doNotReenter) == 0))
              && err == if !Late(env, c) && !env.clock then NoClock else Success
      ensures var x, c, env := old(msgs[0]), old(memory[msgs[0]]), old(Here());
              && (c.time <= 0.0 || c.time < env.lastTime ==> x !in memory)
              && (c.time > 0.0 && c.time >= env.lastTime ==>
                   if env.clock then x in scheduled && memory == old(memory) else memory == old(memory) - {x})
      decreases Fuel(), 5
    {
      hide Effect, Owned, ScriptCredit, Logged, RunsWhenDelivered, AnyRuns, Find;
      TopIsThere();
      LoggedNothing(History(), msgs[1..]);
      var c := memory[msgs[0]];
      if c.time <= 0.0 || c.time < lastTime {
        Deliver(None);
        return Success;
      }
      if !clock {
        ghost var s := View();
        CompleteDelivery();
        EffectWithin(d, s, View(), 0, false, old(Top()), true, -1);
        return NoClock;
      }
      ScheduledAreThere(View());
      var k := 0;
      while k < |scheduled| && memory[scheduled[k]].time <= c.time
        invariant 0 <= k <= |scheduled|
        invariant forall j :: 0 <= j < k ==> memory[scheduled[j]].time <= c.time
      {
        k := k + 1;
      }
      assert InsertionPoint(View(), k, c.time);
      ScheduledIsOk(d, View(), k);
      EffectFacts(d, View(), Scheduled(View(), k), Top(), true, -1);
      scheduled, msgs := scheduled[..k] + [msgs[0]] + scheduled[k..], msgs[1..];
      err := Success;
    }

    /** `o2_service_msg_send`. */
    method ServiceMsgSend(service: Option<Provider>) returns (err: Err)
      requires Ok() && msgs != []
      requires service.Some? ==> msgs[0] in memory && memory[msgs[0]].service in services
      modifies this
      ensures Ok() && msgs == old(msgs)[1..] && Here() == old(Here())
      ensures Effect(d, old(View()), View(), old(Top()), old(doNotReenter) == 0, -1)
      ensures old(doNotReenter) > 0 ==> Quiet(old(delivered), old(script), old(made))
      ensures old(msgs[0]) in old(memory) && SentNow(old(View()), View(), service)
      ensures var runs := old(doNotReenter) == 0 && old(memory[msgs[0]]).Plain? && service == Some(Local(true));
              && Logged(old(History()), History(), msgs, runs)
              && (runs && running == 0 ==>
                   (nested == old(nested) <==> !AnyRuns(old(Here()), Now(old(script)), false)))
      ensures err == if service == None then NoService else Success
      decreases Fuel(), 5
    {
      hide Effect, Owned, ScriptCredit, Logged, AnyRuns;
      TopIsThere();
      LoggedNothing(History(), msgs[1..]);
      if service == None {
        ghost var s := View();
        CompleteDelivery();
        EffectWithin(d, s, View(), 0, false, old(Top()), doNotReenter == 0, -1);
        return NoService;
      } else if service.value.Proxy? {
        ghost var s := View();
        ProxySend();
        EffectWithin(d, s, View(), old(Top()), true, old(Top()), doNotReenter == 0, -1);
        return Success;
      } else {
        SendLocal(service.value);
        return Success;
      }
    }

    /** `o2_send_local`: while a message is being delivered, others wait. */
    method SendLocal(service: Provider)
      requires Ok() && msgs != []
      requires msgs[0] in memory && memory[msgs[0]].service in services && service.Local?
      modifies this
      ensures Ok() && msgs == old(msgs)[1..] && Here() == old(Here())
      ensures Effect(d, old(View()), View(), old(Top()), old(doNotReenter) == 0, -1)
      ensures old(doNotReenter) > 0 ==> Quiet(old(delivered), old(script), old(made))
      ensures SentNow(old(View()), View(), Some(service))
      ensures var runs := old(doNotReenter) == 0 && old(memory[msgs[0]]).Plain? && service.found;
              && Logged(old(History()), History(), msgs, runs)
              && (runs && running == 0 ==>
                   (nested == old(nested) <==> !AnyRuns(old(Here()), Now(old(script)), false)))
      decreases Fuel(), 4
    {
      hide Effect, Owned, ScriptCredit, Logged, AnyRuns, Delivered, RunsWhenForwarded;
      LoggedNothing(History(), msgs[1..]);
      if doNotReenter > 0 {
        Postpone();
      } else {
        ghost var s := View();
        ForwardsOnlyWhenFree(Here(), memory[msgs[0]]);
        doNotReenter := doNotReenter + 1;
        CounterIsOk(s, doNotReenter);
        ghost var s1 := View();
        Deliver(Some(service));
        ghost var s2 := View();
        EffectFacts(d, s1, s2, old(Top()), true, -1);
        EffectOfRaised(d, s, s1.doNotReenter, s2, old(Top()), true, -1);
        doNotReenter := doNotReenter - 1;
        EffectFacts(d, s, View(), old(Top()), true, -1);
      }
    }

    lemma ForwardsOnlyWhenFree(env: Env, c: Content)
      ensures c.Plain? ==> !RunsWhenForwarded(env, c, false)
      ensures c.Bundle? ==> forall service :: !RunsWhenDelivered(env, c, service, false)
    {
      if c.Bundle? {
        AnyRunsInBundle(env, c, false);
      }
    }

    /** `o2_msg_deliver`: delivers the message on the stack to `service`, or to
        the service it is for, and frees it.  While other messages have to wait
        it is the only one that is delivered, unless its handler schedules a
        late one. */
    method Deliver(service: Option<Provider>)
      requires Ok() && msgs != []
      requires service.Some? ==> msgs[0] in memory && memory[msgs[0]].service in services
      modifies this
      ensures Ok() && msgs == old(msgs)[1..] && Here() == old(Here())
      ensures Effect(d, old(View()), View(), old(Top()), true, -1)
      ensures old(doNotReenter) > 0 && Patient(old(Here()), Now(old(script))) ==>
                delivered == old(delivered) || delivered == old(delivered) + [old(msgs[0])]
      ensures old(msgs[0]) in old(memory) && old(msgs[0]) !in memory
      ensures service.Some? ==> DeliveredIn(old(View()), View())
      ensures old(memory[msgs[0]]).Bundle? ==>
                Wrote(old(History()), History(), old(msgs[0]), old(memory[msgs[0]]).parts)
      ensures var found := service == Some(Local(true));
              service.Some? && old(doNotReenter) > 0 && Calm(old(View()), found) ==>
                View() == Delivered(old(View()), found)
      ensures var c, env := old(memory[msgs[0]]), old(Here());
              var to := if service.Some? then service else Find(env, c);
              && Logged(old(History()), History(), msgs, RunsWhenDelivered(env, c, to, old(doNotReenter) == 0))
              && (running == 0 && c.Plain? && to == Some(Local(true)) ==>
                   && (AnyRuns(env, Now(old(script)), old(doNotReenter) == 0) ==> nested > old(nested))
                   && (old(doNotReenter) > 0 ==>
                        (nested == old(nested) <==> !AnyRuns(env, Now(old(script)), false))))
      decreases Fuel(), 3
    {
      hide Effect, Owned, ScriptCredit, Logged, Wrote, AnyRuns, Find, RunsWhenForwarded, RunsWhenSent, Patient;
      hide Delivered, Calm;
      TopIsThere();
      LoggedNothing(History(), msgs[1..]);
      var msg := msgs[0];
      var c := memory[msg];
      ghost var s, h := View(), History();
      if c.Bundle? {
        BundleIsNotCalm(s);
        AnyRunsInBundle(Here(), c, doNotReenter == 0);
        SendsArePatient(Here(), c.parts);
        // the embedded messages are sent
        DoAll(Sends(c.parts));
        ghost var s1 := View();
        CompleteDelivery();
        assert delivered == s1.delivered;
        EffectThen(d, s, s1, View(), Credits(d, c.parts), 0, false, false, -1);
        EffectWithin(d, s, View(), Credits(d, c.parts), false, Credit(d, c), true, -1);
        return;
      }
      var to := service;
      if to == None {
        to := Find(Here(), c);
        if to == None {
          CompleteDelivery();
          EffectWithin(d, s, View(), 0, false, Credit(d, c), true, -1);
          return;
        }
        FoundIsThere(Here(), c);
      }
      SendsArePatient(Here(), []);
      DeliverPlain(to.value);
    }

    lemma BundleIsNotCalm(s: State)
      requires s.msgs != [] && s.msgs[0] in s.memory && s.memory[s.msgs[0]].Bundle?
      ensures !Calm(s, true) && !Calm(s, false)
    {
    }

    lemma FoundIsThere(env: Env, c: Content)
      ensures Find(env, c).Some? ==> c.service in env.services
    {
    }

    lemma SendsArePatient(env: Env, cs: seq<Content>)
      ensures Patient(env, Sends(cs)) && Patient(env, [])
    {
    }

    /** The steps after a service was found for a message that is no bundle: the
        handler is called, copies go to the taps, and the message is freed. */
    method DeliverPlain(service: Provider)
      requires Ok() && msgs != []
      requires msgs[0] in memory && memory[msgs[0]].service in services && memory[msgs[0]].Plain?
      modifies this
      ensures Ok() && msgs == old(msgs)[1..] && Here() == old(Here())
      ensures Effect(d, old(View()), View(), old(Top()), true, -1)
      ensures DeliveredIn(old(View()), View())
      ensures var msg, c, env := old(msgs[0]), old(memory[msgs[0]]), old(Here());
              var acts := if service == Local(true) then Now(old(script)) else [];
              && Wrote(old(History()), History(), msg, Contents(acts) + CopiesOf(env, c))
              && (old(doNotReenter) > 0 && Patient(env, acts) ==>
                   && delivered == old(delivered) + [msg]
                   && script == if service == Local(true) then Rest(old(script)) else old(script))
              && (old(doNotReenter) > 0 && Calm(old(View()), service == Local(true)) ==>
                   View() == Delivered(old(View()), service == Local(true)))
              && Logged(old(History()), History(), msgs,
                        service == Local(true) || RunsWhenForwarded(env, c, old(doNotReenter) == 0))
              && (running == 0 && service == Local(true) ==>
                   && (AnyRuns(env, acts, old(doNotReenter) == 0) ==> nested > old(nested))
                   && (old(doNotReenter) > 0 ==> (nested == old(nested) <==> !AnyRuns(env, acts, false))))
      decreases Fuel(), 2
    {
      hide Effect, Owned, ScriptCredit, Logged, Wrote, AnyRuns, RunsWhenForwarded, Patient;
      hide Forwarded, Calm, Delivered, CopiesOf;
      TopIsThere();
      ghost var msg := msgs[0];
      ghost var c := memory[msg];
      ghost var s, h := View(), History();
      ghost var env, free := Here(), doNotReenter == 0;
      Reach(service);
      ghost var s2, h2 := View(), History();
      EffectFacts(d, s, s2, 1, true, -1);
      TopIsThere();
      assert s2.memory[msg] == c;
      SendToTaps();
      ghost var s3, h3 := View(), History();
      LoggedThen(h, h2, h3, msgs[1..], service == Local(true), RunsWhenForwarded(env, c, free));
      LoggedFacts(h, h2, msgs[1..], service == Local(true));
      LoggedFacts(h2, h3, msgs[1..], RunsWhenForwarded(env, c, free));
      ForwardsOnlyWhenFree(env, c);
      WroteThen(h, h2, h3, msg, Contents(if service == Local(true) then Now(old(script)) else []), CopiesOf(env, c));
      EffectLog(d, s2, s3, Credit(d, c) - 1, false, msg);
      EffectAllows(d, s, s2, 1, true, msg);
      EffectThen(d, s, s2, s3, 1, Credit(d, c) - 1, true, false, msg);
      ghost var found := service == Local(true);
      if !free { DeliveredIs(s, s2, s3, found); }
      CompleteDelivery();
      EffectAllows(d, s3, View(), 0, false, msg);
      EffectThen(d, s, s3, View(), Credit(d, c), 0, true, false, msg);
      EffectForgets(d, s, View(), Credit(d, c), true, msg, -1);
    }

    /** The message reaches the service, and the handler is called, if it is
        found. */
    method Reach(service: Provider)
      requires Ok() && msgs != []
      modifies this
      ensures Ok() && msgs == old(msgs) && Here() == old(Here())
      ensures Effect(d, old(View()), View(), 1, true, -1)
      ensures old(delivered) + [msgs[0]] <= delivered
      ensures var msg, env, found := msgs[0], Here(), service == Local(true);
              var acts := if found then Now(old(script)) else [];
              && Wrote(old(History()), History(), msg, Contents(acts))
              && Logged(old(History()), History(), msgs[1..], found)
              && (old(doNotReenter) > 0 && Patient(env, acts) ==>
                   && delivered == old(delivered) + [msg]
                   && script == if found then Rest(old(script)) else old(script))
              && (old(doNotReenter) > 0 && acts == [] ==>
                   View() == old(View()).(delivered := old(delivered) + [msg],
                                          script := if found then Rest(old(script)) else old(script)))
              && (running == 0 && found ==> (nested == old(nested) <==> !AnyRuns(env, acts, old(doNotReenter) == 0)))
      decreases Fuel(), 1
    {
      hide Effect, Owned, ScriptCredit, Logged, Wrote, AnyRuns, Patient;
      TopIsThere();
      ghost var s, h := View(), History();
      LoggedIsOk(d, s, msgs[0]);
      EffectFacts(d, s, s.(delivered := delivered + [msgs[0]]), 1, true, -1);
      delivered := delivered + [msgs[0]];
      ghost var s1 := View();
      if service == Local(true) {
        RunHandler();
      } else {
        NoEffect(d, s1, -1);
        LoggedNothing(h, msgs);
        WroteNothing(h, h, msgs, false, msgs[0]);
        LoggedLess(h, h, msgs, msgs[1..], false);
      }
      EffectLog(d, s1, View(), 0, false, -1);
      EffectThen(d, s, s1, View(), 1, 0, true, false, -1);
    }

    lemma DeliveredIs(s: State, s2: State, s3: State, found: bool)
      requires s.msgs != [] && s2.msgs == s.msgs && s3.msgs == s.msgs && Calm(s2, false) && s3 == Forwarded(s2)
      requires (found && Now(s.script) != []) ||
               s2 == s.(delivered := s.delivered + [s.msgs[0]], script := if found then Rest(s.script) else s.script)
      ensures Calm(s, found) ==> Freed(s3) == Delivered(s, found)
    {
      hide Forwarded, Freed;
    }

    /** A handler is called.  Other handlers run inside it if and only if one of
        its acts runs one. */
    method RunHandler()
      requires Ok() && msgs != []
      modifies this
      ensures Ok() && msgs == old(msgs) && Here() == old(Here())
      ensures Effect(d, old(View()), View(), 0, false, -1)
      ensures Wrote(old(History()), History(), msgs[0], Contents(Now(old(script))))
      ensures Logged(old(History()), History(), msgs[1..], true)
      ensures running == 0 ==>
                (nested == old(nested) <==> !AnyRuns(old(Here()), Now(old(script)), old(doNotReenter) == 0))
      ensures old(doNotReenter) > 0 && Patient(old(Here()), Now(old(script))) ==>
                delivered == old(delivered) && script == Rest(old(script))
      ensures old(doNotReenter) > 0 && Now(old(script)) == [] ==>
                View() == old(View()).(script := Rest(old(script)))
      decreases Fuel(), 0
    {
      hide Effect, Owned, ScriptCredit, Credits, Logged, Wrote, AnyRuns, Patient;
      TopIsThere();
      ghost var s, h := View(), History();
      var acts := Now(script);
      if script == [] {
        NoEffect(d, s, -1);
      } else {
        ScriptIsOk(d, s);
        ScriptSplits(d, script);
        EffectFacts(d, s, s.(script := script[1..]), -(Credits(d, Contents(acts)) as int), false, -1);
      }
      NothingToSend(d);
      ghost var r := AnyRuns(Here(), acts, doNotReenter == 0);
      script := Rest(script);
      ran, nested, running := ran + 1, nested + (if running > 0 then 1 else 0), running + 1;
      ghost var s1 := View();
      assert History() == Called(h);
      DoAll(acts);
      ghost var h2 := History();
      LoggedFacts(Called(h), h2, msgs[1..], r);
      running := running - 1;
      HandlerIsLogged(h, h2, msgs[1..], r);
      WroteWhenCalled(h, h2, msgs[0], Contents(acts));
      EffectThen(d, s, s1, View(), -(Credits(d, Contents(acts)) as int), Credits(d, Contents(acts)), false, false, -1);
    }

    lemma WroteWhenCalled(h: Log, h2: Log, x: Addr, cs: seq<Content>)
      requires Wrote(Called(h), h2, x, cs)
      ensures Wrote(h, h2.(running := h.running), x, cs)
    {
    }

    /** Messages are made and sent or scheduled, one after the other. */
    method DoAll(acts: seq<Act>)
      requires Ok() && msgs != []
      modifies this
      ensures Ok() && msgs == old(msgs) && Here() == old(Here())
      ensures Effect(d, old(View()), View(), Credits(d, Contents(acts)), false, -1)
      ensures Wrote(old(History()), History(), msgs[0], Contents(acts))
      ensures Logged(old(History()), History(), msgs[1..], AnyRuns(old(Here()), acts, old(doNotReenter) == 0))
      ensures old(doNotReenter) > 0 && Patient(old(Here()), acts) ==>
                delivered == old(delivered) && script == old(script)
      ensures acts == [] ==> View() == old(View())
      decreases ScriptCredit(d, script) + Credits(d, Contents(acts)), 8
    {
      hide Effect, Owned, ScriptCredit, Credits, Logged, Wrote, Runs, AnyRuns, Pushed;
      ghost var s, h := View(), History();
      ghost var cs, env, free := Contents(acts), Here(), doNotReenter == 0;
      TopIsThere();
      NoEffect(d, s, -1);
      LoggedNothing(h, msgs);
      WroteNothing(h, h, msgs, false, msgs[0]);
      LoggedNothing(h, msgs[1..]);
      NothingRuns(env, free);
      var i := 0;
      assert cs[0..] == cs && acts[..0] == [] && Contents(acts[..0]) == [];
      while i < |acts|
        invariant 0 <= i <= |acts| && Ok() && msgs == old(msgs) && Here() == env && (doNotReenter == 0) == free
        invariant Effect(d, s, View(), Credits(d, cs) - Credits(d, cs[i..]), false, -1)
        invariant Wrote(h, History(), msgs[0], Contents(acts[..i]))
        invariant Logged(h, History(), msgs[1..], AnyRuns(env, acts[..i], free))
        invariant !free && Patient(env, acts) ==> delivered == s.delivered && script == s.script
        invariant i == 0 ==> View() == s
      {
        CreditsFrom(d, cs, i);
        EffectFacts(d, s, View(), Credits(d, cs) - Credits(d, cs[i..]), false, -1);
        ghost var s1, h1 := View(), History();
        DoOne(acts[i]);
        EffectThen(d, s, s1, View(), Credits(d, cs) - Credits(d, cs[i..]), Credit(d, cs[i]), false, false, -1);
        AnyRunsNext(env, acts, i, free);
        LoggedThen(h, h1, History(), msgs[1..], AnyRuns(env, acts[..i], free), Runs(env, acts[i], free));
        WroteThen(h, h1, History(), msgs[0], Contents(acts[..i]), [acts[i].content]);
        assert Contents(acts[..i + 1]) == Contents(acts[..i]) + [acts[i].content];
        i := i + 1;
        EffectFacts(d, s, View(), Credits(d, cs) - Credits(d, cs[i..]), false, -1);
      }
      assert cs[i..] == [] && acts[..i] == acts;
      NothingToSend(d);
    }

    lemma NothingRuns(env: Env, free: bool)
      ensures !AnyRuns(env, [], free)
    {
    }

    /** A message is made and sent or scheduled. */
    method DoOne(a: Act)
      requires Ok() && msgs != []
      modifies this
      ensures Ok() && msgs == old(msgs) && Here() == old(Here()) && doNotReenter == old(doNotReenter)
      ensures Effect(d, old(View()), View(), Credit(d, a.content), false, -1)
      ensures Wrote(old(History()), History(), msgs[0], [a.content])
      ensures Logged(old(History()), History(), msgs[1..], Runs(old(Here()), a, old(doNotReenter) == 0))
      ensures old(doNotReenter) > 0 && (a.Schedule? ==> !Late(old(Here()), a.content)) ==>
                delivered == old(delivered) && script == old(script)
      decreases ScriptCredit(d, script) + Credit(d, a.content), 7
    {
      hide Effect, Owned, ScriptCredit, Credit, Logged, Wrote, RunsWhenSent, RunsWhenDelivered, Later, Find;
      ghost var s, h := View(), History();
      TopIsThere();
      MadeIsLogged(h, Some(msgs[0]), a.content, msgs[1..]);
      NewMessage(a.content);
      ghost var s1, h1 := View(), History();
      TopIsThere();
      ghost var runs := match a
        case Send(_) => RunsWhenSent(Here(), a.content, doNotReenter == 0)
        case Schedule(_) =>
          var env := Here();
          Late(env, a.content) && RunsWhenDelivered(env, a.content, Find(env, a.content), doNotReenter == 0);
      if a.Send? {
        var _ := MessageSend();
        EffectWithin(d, s1, View(), Credit(d, a.content), s.doNotReenter == 0, Credit(d, a.content), false, -1);
      } else {
        var _ := Schedule();
        EffectWithin(d, s1, View(), Credit(d, a.content), true, Credit(d, a.content), false, -1);
      }
      EffectThen(d, s, s1, View(), 0, Credit(d, a.content), false, false, -1);
      EffectFacts(d, s, View(), Credit(d, a.content), false, -1);
      WroteNothing(h1, History(), msgs, runs, msgs[0]);
      WroteThen(h, h1, History(), msgs[0], [a.content], []);
      assert [a.content] + [] == [a.content];
      LoggedLess(h1, History(), msgs, msgs[1..], runs);
      LoggedThen(h, h1, History(), msgs[1..], false, runs);
    }

    // ------------------------------------------------------------------
    // Taps
    // ------------------------------------------------------------------

    /** `o2_send_to_taps`: the forwarding count of the message on the stack goes
        up, and as long as it is small a copy goes to each tap. */
    method SendToTaps()
      requires Ok() && msgs != []
      requires msgs[0] in memory && memory[msgs[0]].service in services && memory[msgs[0]].Plain?
      modifies this
      ensures Ok() && msgs == old(msgs) && Here() == old(Here())
      ensures Effect(d, old(View()), View(), old(Top()) - 1, false, old(msgs[0]))
      ensures var c, env := old(memory[msgs[0]]), old(Here());
              && Wrote(old(History()), History(), msgs[0], CopiesOf(env, c))
              && Logged(old(History()), History(), msgs[1..], RunsWhenForwarded(env, c, old(doNotReenter) == 0))
      ensures old(doNotReenter) > 0 ==>
                && Calm(old(View()), false) && View() == Forwarded(old(View()))
                && delivered == old(delivered) && script == old(script)
      decreases Fuel(), 0
    {
      hide Effect, Owned, ScriptCredit, Together, Logged, Wrote, RunsAtTaps;
      TopIsThere();
      var msg := msgs[0];
      var c := memory[msg];
      ghost var s, h := View(), History();
      LoggedNothing(h, msgs);
      WroteNothing(h, h, msgs, false, msg);
      LoggedNothing(h, msgs[1..]);
      if c.ttl < MAX_TAP_FORWARDING && d > 0 { SpreadShrinks(d, c.ttl); }
      MarkedIsOk(d, s);
      EffectFacts(d, s, Marked(s), 0, false, msg);
      memory := memory[msg := c.(tap := true, ttl := c.ttl + 1)];
      ghost var s1 := View();
      if c.ttl + 1 <= MAX_TAP_FORWARDING {
        var taps := services[c.service].taps;
        TapsWithinSpread(d, |taps|, c.ttl);
        Forward(taps);
        EffectAllows(d, s1, View(), Together(|taps|, Spread(d, c.ttl + 1)), false, msg);
        EffectThen(d, s, s1, View(), 0, Together(|taps|, Spread(d, c.ttl + 1)), false, false, msg);
        EffectWithin(d, s, View(), Together(|taps|, Spread(d, c.ttl + 1)), false, Spread(d, c.ttl) - 1, false, msg);
      } else {
        EffectWithin(d, s, s1, 0, false, Spread(d, c.ttl) - 1, false, msg);
      }
    }

    /** The loop over the taps. */
    method Forward(taps: seq<Tap>)
      requires Ok() && msgs != []
      requires msgs[0] in memory && memory[msgs[0]].Plain?
      modifies this
      ensures Ok() && msgs == old(msgs) && Here() == old(Here())
      ensures Effect(d, old(View()), View(), Together(|taps|, old(Top())), false, -1)
      ensures var c := old(memory[msgs[0]]);
              && Wrote(old(History()), History(), msgs[0], Copies(c, taps))
              && Logged(old(History()), History(), msgs[1..], old(doNotReenter) == 0 && RunsAtTaps(old(Here()), taps))
              && (old(doNotReenter) > 0 ==> View() == AfterTaps(old(View()), c, taps))
      decreases if taps == [] then 0 else Fuel(), 7
    {
      hide Effect, Owned, ScriptCredit, Spread, Credit, Together, Logged, Wrote;
      hide RunsAtTap, RunsAtTaps, AfterTap, AfterTaps;
      TopIsThere();
      ghost var s, h := View(), History();
      ghost var each := Top();
      ghost var env, free := Here(), doNotReenter == 0;
      var msg := msgs[0];
      ghost var c := memory[msg];
      NoEffect(d, s, -1);
      LoggedNothing(h, msgs);
      WroteNothing(h, h, msgs, false, msg);
      LoggedNothing(h, msgs[1..]);
      TogetherNext(0, each);
      NoTaps(s, env, c);
      var i := 0;
      assert taps[..0] == [] && Copies(c, taps[..0]) == [];
      while i < |taps|
        invariant 0 <= i <= |taps| && Ok() && msgs == old(msgs) && Here() == env && (doNotReenter == 0) == free
        invariant Effect(d, s, View(), Together(i, each), false, -1)
        invariant Wrote(h, History(), msg, Copies(c, taps[..i]))
        invariant Logged(h, History(), msgs[1..], free && RunsAtTaps(env, taps[..i]))
        invariant !free ==> View() == AfterTaps(s, c, taps[..i])
      {
        ghost var s1, h1 := View(), History();
        EffectFacts(d, s, s1, Together(i, each), false, -1);
        TopIsThere();
        assert memory[msg] == c;
        SendToTap(taps[i]);
        TogetherNext(i, each);
        EffectThen(d, s, s1, View(), Together(i, each), each, false, false, -1);
        RunsAtTapsNext(env, taps, i);
        LoggedThen(h, h1, History(), msgs[1..], free && RunsAtTaps(env, taps[..i]), free && RunsAtTap(env, taps[i]));
        WroteThen(h, h1, History(), msg, Copies(c, taps[..i]), [Copy(c, taps[i])]);
        assert Copies(c, taps[..i + 1]) == Copies(c, taps[..i]) + [Copy(c, taps[i])];
        AfterTapsNext(s, c, taps, i);
        i := i + 1;
      }
      assert taps[..i] == taps;
    }

    lemma NoTaps(s: State, env: Env, c: Content)
      ensures !RunsAtTaps(env, [])
      ensures c.Plain? ==> AfterTaps(s, c, []) == s
    {
    }

    /** `msg_send_to_tap`: a copy for the tapper, which does not depend on which
        process is in charge of its service. */
    method SendToTap(tap: Tap)
      requires Ok() && msgs != []
      requires msgs[0] in memory && memory[msgs[0]].Plain?
      modifies this
      ensures Ok() && msgs == old(msgs) && Here() == old(Here()) && doNotReenter == old(doNotReenter)
      ensures Effect(d, old(View()), View(), old(Top()), false, -1)
      ensures var c, env := old(memory[msgs[0]]), old(Here());
              && SentNow(Pushed(old(View()), Copy(c, tap)), View(), Target(env, tap))
              && (old(doNotReenter) > 0 ==> View() == AfterTap(old(View()), c, tap))
              && Wrote(old(History()), History(), msgs[0], [Copy(c, tap)])
              && Logged(old(History()), History(), msgs[1..], old(doNotReenter) == 0 && RunsAtTap(env, tap))
      decreases Fuel(), 6
    {
      hide Effect, Owned, ScriptCredit, Logged, Wrote, SentNow, RunsAtTap, Target, AfterTap;
      ghost var s, h := View(), History();
      var c := memory[msgs[0]];
      TopIsThere();
      MadeIsLogged(h, Some(msgs[0]), Copy(c, tap), msgs[1..]);
      NewMessage(Copy(c, tap));
      ghost var s1, h1 := View(), History();
      TopIsThere();
      ghost var runs := doNotReenter == 0 && RunsAtTap(Here(), tap);
      SendCopy(tap);
      ghost var n := Spread(d, c.ttl);
      EffectThen(d, s, s1, View(), 0, n, false, false, -1);
      EffectFacts(d, s, View(), n, false, -1);
      SentToTapIs(s, View(), c, tap);
      WroteNothing(h1, History(), msgs, runs, msgs[0]);
      WroteThen(h, h1, History(), msgs[0], [Copy(c, tap)], []);
      assert [Copy(c, tap)] + [] == [Copy(c, tap)];
      LoggedLess(h1, History(), msgs, msgs[1..], runs);
      LoggedThen(h, h1, History(), msgs[1..], false, runs);
    }

    lemma SentToTapIs(s: State, t: State, c: Content, tap: Tap)
      requires c.Plain? && SentNow(Pushed(s, Copy(c, tap)), t, Target(s.env, tap))
      ensures s.doNotReenter > 0 ==> t == AfterTap(s, c, tap)
    {
    }

    /** The copy goes to the process or to the provider of the tapper. */
    method SendCopy(tap: Tap)
      requires Ok() && msgs != []
      requires msgs[0] in memory && memory[msgs[0]].Plain? && memory[msgs[0]].service == tap.tapper
      modifies this
      ensures Ok() && msgs == old(msgs)[1..] && Here() == old(Here())
      ensures Effect(d, old(View()), View(), old(Top()), false, -1)
      ensures SentNow(old(View()), View(), Target(old(Here()), tap))
      ensures Logged(old(History()), History(), msgs, old(doNotReenter) == 0 && RunsAtTap(old(Here()), tap))
      decreases Fuel(), 5
    {
      hide Effect, Owned, ScriptCredit, Logged, AnyRuns, DeliveredIn, Delivered, Calm;
      ghost var s, n, strict := View(), Top(), true;
      LoggedNothing(History(), msgs[1..]);
      if tap.remote {
        ProxySend();
      } else if tap.tapper in services && services[tap.tapper].local.Some? {
        var provider := services[tap.tapper].local.value;
        if provider.Local? {
          strict := doNotReenter == 0;
          SendLocal(provider);
        } else {
          ProxySend();
        }
      } else {
        CompleteDelivery();
        EffectWithin(d, s, View(), 0, false, n, false, -1);
        return;
      }
      EffectWithin(d, s, View(), n, strict, n, false, -1);
    }

    // ------------------------------------------------------------------
    // From outside
    // ------------------------------------------------------------------

    /** More was delivered and handed to proxies, and more handlers were called. */
    ghost predicate Grew(before: State, ran0: nat)
      reads `delivered, `sent, `ran
    {
      before.delivered <= delivered && before.sent <= sent && ran0 <= ran
    }

    /** A message is made and sent, as by `o2_send`.  When its handler is called
        with no other running, others run inside it if and only if it schedules
        a late message that is delivered by one. */
    method Send(c: Content) returns (err: Err)
      requires Ok()
      modifies this
      ensures Ok() && msgs == old(msgs) && Here() == old(Here()) && doNotReenter == old(doNotReenter)
      ensures Effect(d, old(View()), View(), Credit(d, c), old(doNotReenter) == 0, -1)
      ensures var s, env := Pushed(old(View()), c), old(Here());
              && (if Later(env, c) then SentLater(s, View()) else SentNow(s, View(), Find(env, c)))
              && Logged(old(History()), History(), if msgs == [] then [] else msgs[1..],
                        RunsWhenSent(env, c, doNotReenter == 0))
              && (RunsWhenSent(env, c, doNotReenter == 0) && running == 0 ==>
                   (nested == old(nested) <==> !AnyRuns(env, Now(old(script)), false)))
              && err == if Find(env, c) == None then NoService
                        else if Later(env, c) && !env.clock then NoClock else Success
    {
      hide Effect, Owned, ScriptCredit, Credit, Logged, AnyRuns, SentNow, SentLater, Find, Later, RunsWhenSent;
      ghost var s, h := View(), History();
      ghost var below := if msgs == [] then [] else msgs[1..];
      ghost var env, free := Here(), doNotReenter == 0;
      if msgs != [] { TopIsThere(); }
      MadeIsLogged(h, if msgs == [] then None else Some(msgs[0]), c, below);
      NewMessage(c);
      ghost var s1, h1 := View(), History();
      TopIsThere();
      err := MessageSend();
      EffectThen(d, s, s1, View(), 0, Credit(d, c), false, free, -1);
      EffectFacts(d, s, View(), Credit(d, c), free, -1);
      LoggedLess(h1, History(), msgs, below, RunsWhenSent(env, c, free));
      LoggedThen(h, h1, History(), below, false, RunsWhenSent(env, c, free));
    }

    /** `o2_deliver_pending`: messages are taken from a queue in the order in
        which they were put in; `trace` has the states in between, and the
        first `n` steps take messages for any process.  Both loops end, for what
        is left to do gets less with each message; messages for any process may
        come in again while the last local ones are delivered. */
    method DeliverPending() returns (ghost trace: seq<State>, ghost n: nat)
      requires Ok() && doNotReenter == 0
      modifies this
      ensures Ok() && doNotReenter == 0 && msgs == old(msgs) && Here() == old(Here())
      ensures Drain(trace, n) && trace[0] == old(View()) && trace[|trace| - 1] == View()
      ensures pendingLocal == [] && Work(d, View()) <= old(Work(d, View()))
      ensures Grew(old(View()), old(ran))
    {
      hide Effect, Owned, ScriptCredit, Credit, Work, Outstanding, TookAnywhere, TookLocal;
      trace, n := [View()], 0;
      while pendingAnywhere != []
        invariant Ok() && doNotReenter == 0 && msgs == old(msgs) && Here() == old(Here())
        invariant Work(d, View()) <= old(Work(d, View())) && Grew(old(View()), old(ran))
        invariant |trace| == n + 1 && trace[0] == old(View()) && trace[n] == View()
        invariant forall i :: 0 <= i < n ==> TookAnywhere(trace[i], trace[i + 1])
        decreases Outstanding(d, View())
      {
        SendFirstPending();
        trace, n := trace + [View()], n + 1;
      }
      while pendingLocal != []
        invariant Ok() && doNotReenter == 0 && msgs == old(msgs) && Here() == old(Here())
        invariant Work(d, View()) <= old(Work(d, View())) && Grew(old(View()), old(ran))
        invariant n < |trace| && trace[0] == old(View()) && trace[|trace| - 1] == View()
        invariant trace[n].pendingAnywhere == []
        invariant forall i :: 0 <= i < n ==> TookAnywhere(trace[i], trace[i + 1])
        invariant forall i :: n <= i < |trace| - 1 ==> TookLocal(trace[i], trace[i + 1])
        decreases Outstanding(d, View())
      {
        DeliverFirstLocal();
        trace := trace + [View()];
      }
    }

    method SendFirstPending()
      requires Ok() && doNotReenter == 0 && pendingAnywhere != []
      modifies this
      ensures Ok() && doNotReenter == 0 && msgs == old(msgs) && Here() == old(Here())
      ensures TookAnywhere(old(View()), View()) && Grew(old(View()), old(ran))
      ensures Work(d, View()) <= old(Work(d, View())) && Outstanding(d, View()) < old(Outstanding(d, View()))
    {
      hide Effect, Owned, ScriptCredit, Credit, Work, Outstanding, SentNow, SentLater, Logged, Find, Later;
      TakenAnywhereIsOk(d, View());
      msgs, pendingAnywhere := [pendingAnywhere[0]] + msgs, pendingAnywhere[1..];
      ghost var s := View();
      ghost var h := History();
      TopIsThere();
      ghost var c := memory[msgs[0]];
      ghost var env := Here();
      var _ := MessageSend();
      EffectSums(d, s, View(), CreditAt(d, s.memory, s.msgs[0]), true, -1);
      EffectLog(d, s, View(), CreditAt(d, s.memory, s.msgs[0]), true, -1);
      LoggedFacts(h, History(), msgs, RunsWhenSent(env, c, true));
    }

    /** A postponed copy for a tapper is delivered if it still can be.  Nothing
        is postponed meanwhile: handlers run inside its handler. */
    method DeliverFirstLocal()
      requires Ok() && doNotReenter == 0 && pendingLocal != []
      modifies this
      ensures Ok() && doNotReenter == 0 && msgs == old(msgs) && Here() == old(Here())
      ensures TookLocal(old(View()), View()) && running == old(running) && Grew(old(View()), old(ran))
      ensures Work(d, View()) <= old(Work(d, View())) && Outstanding(d, View()) < old(Outstanding(d, View()))
      ensures old(pendingLocal[0]) in old(memory)
      ensures var c := old(memory[pendingLocal[0]]);
              && running == 0 && c.Plain? && c.service in services && services[c.service].local == Some(Local(true))
              && AnyRuns(Here(), Now(old(script)), true)
              ==> nested > old(nested)
    {
      hide Effect, Owned, ScriptCredit, Credit, Work, Outstanding, Logged, AnyRuns, DeliveredIn, Delivered, Calm;
      TakenLocalIsOk(d, View());
      msgs, pendingLocal := [pendingLocal[0]] + msgs, pendingLocal[1..];
      ghost var s := View();
      TopIsThere();
      var name := memory[msgs[0]].service;
      if name in services && services[name].local.Some? && services[name].local.value.Local? {
        ghost var h := History();
        ghost var env, c, service := Here(), memory[msgs[0]], services[name].local;
        Deliver(services[name].local);
        LoggedFacts(h, History(), msgs, RunsWhenDelivered(env, c, service, true));
      } else {
        CompleteDelivery();
        EffectWithin(d, s, View(), 0, false, CreditAt(d, s.memory, s.msgs[0]), true, -1);
      }
      EffectSums(d, s, View(), CreditAt(d, s.memory, s.msgs[0]), true, -1);
      EffectLog(d, s, View(), CreditAt(d, s.memory, s.msgs[0]), true, -1);
    }

    /** One step of the scheduler: the first message leaves the queue and is
        sent now. */
    method DispatchFirst()
      requires Ok() && scheduled != []
      modifies this
      ensures Ok() && msgs == old(msgs) && doNotReenter == old(doNotReenter)
      ensures services == old(services) && clock == old(clock)
      ensures Work(d, View()) <= old(Work(d, View())) && Grew(old(View()), old(ran))
      ensures old(scheduled[0]) in old(memory)
      ensures var c := old(memory[scheduled[0]]);
              var s := TakenScheduled(old(View())).(env := Env(services, c.time, clock));
              && lastTime == c.time && SentNow(s, View(), Find(Here(), c))
              && (ran == old(ran) <==> !(doNotReenter == 0 && c.Plain? && Find(Here(), c) == Some(Local(true))))
    {
      hide Effect, Owned, ScriptCredit, Credit, Work, Outstanding, SentNow, Logged, AnyRuns;
      TakenScheduledIsOk(d, View());
      var msg := scheduled[0];
      msgs, scheduled := [msg] + msgs, scheduled[1..];
      ghost var s := View();
      TimeIsNoWork(d, s, memory[msg].time);
      lastTime := memory[msg].time;
      ghost var s1 := View();
      TopIsThere();
      ghost var h, c := History(), memory[msg];
      ghost var service := Find(Here(), c);
      var _ := ServiceMsgSend(Find(Here(), memory[msg]));
      EffectSums(d, s1, View(), CreditAt(d, s1.memory, msg), s1.doNotReenter == 0, -1);
      EffectLog(d, s1, View(), CreditAt(d, s1.memory, msg), s1.doNotReenter == 0, -1);
      LoggedFacts(h, History(), msgs, s1.doNotReenter == 0 && c.Plain? && service == Some(Local(true)));
    }
  }

  /** A handler that schedules a message for time 0 runs inside itself, although
      o2_do_not_reenter is 1 meanwhile. */
  method LateMessageNests() returns (ctx: Context)
    ensures fresh(ctx) && ctx.Ok() && ctx.doNotReenter == 0 && ctx.nested > 0
  {
    hide Effect, Owned, SentNow, SentLater, AnyRuns, RunsWhenSent, RunsWhenDelivered, Later, Find, Late;
    var services := map[0 := Entry(Some(Local(true)), Some(Local(true)), [])];
    var c := Plain(0, 0.0, false, 0);
    ctx := new Context(0, services, 1.0, true, [[Schedule(c)]]);
    ServiceRuns(ctx.Here(), c);
    var _ := ctx.Send(c);
    LoggedFacts(Log([], 0, 0, 0), ctx.History(), [], true);
  }

  lemma ServiceRuns(env: Env, c: Content)
    requires c.Plain? && c.time == 0.0 && c.service in env.services && !c.tap
    requires env.services[c.service].first == Some(Local(true))
    ensures !Later(env, c) && Find(env, c) == Some(Local(true)) && RunsWhenSent(env, c, true)
    ensures AnyRuns(env, [Schedule(c)], false) && AnyRuns(env, [Send(c)], true)
  {
    assert Runs(env, [Schedule(c)][0], false);
    assert Runs(env, [Send(c)][0], true);
  }

  /** Service 1 is tapped by service 2, and the handler of service 2 sends to
      service 1: when the postponed copy is delivered, the handler of service 1
      runs inside that of service 2. */
  method PostponedCopyNests() returns (ctx: Context)
    ensures fresh(ctx) && ctx.Ok() && ctx.doNotReenter == 0 && ctx.nested > 0
  {
    hide Effect, Owned, SentNow, SentLater, AnyRuns, RunsWhenSent, RunsWhenDelivered, Later, Find, Delivered, TookLocal;
    var here := Some(Local(true));
    var services := map[1 := Entry(here, here, [Tap(2, false)]), 2 := Entry(here, here, [])];
    var c := Plain(1, 0.0, false, 0);
    ctx := new Context(1, services, 1.0, true, [[], [Send(c)]]);
    ghost var s := Pushed(ctx.View(), c);
    ServiceRuns(s.env, c);
    NothingRunsInside(s.env);
    var _ := ctx.Send(c);
    LoggedFacts(Log([], 0, 0, 0), ctx.History(), [], true);
    ghost var t := ctx.View();
    CopyIsPostponed(s, t, c);
    assert AnyRuns(ctx.Here(), Now(ctx.script), true);
    ctx.DeliverFirstLocal();
  }

  lemma NothingRunsInside(env: Env)
    ensures !AnyRuns(env, [], false)
  {
  }

  lemma CopyIsPostponed(s: State, t: State, c: Content)
    requires s.msgs == [0] && s.memory == map[0 := c] && s.next == 1 && s.pendingLocal == [] && s.doNotReenter == 0
    requires c == Plain(1, 0.0, false, 0) && s.script != [] && s.script[0] == []
    requires 1 in s.env.services && s.env.services[1].taps == [Tap(2, false)]
    requires 2 in s.env.services && s.env.services[2].local == Some(Local(true))
    requires SentNow(s, t, Some(Local(true)))
    ensures t.pendingLocal == [1] && t.script == s.script[1..] && 1 in t.memory
    ensures t.memory[1] == Plain(2, 0.0, true, 1)
  {
    var u := s.(doNotReenter := 1);
    var v := u.(delivered := s.delivered + [0], script := s.script[1..]);
    assert Calm(s, true) && t == Delivered(u, true).(doNotReenter := 0);
    var m := Marked(v);
    var c1 := m.memory[0];
    assert c1 == Plain(1, 0.0, true, 1);
    var taps := [Tap(2, false)];
    assert AfterTaps(m, c1, taps) == AfterTap(m, c1, taps[0]) by {
      assert taps[..0] == [] && taps[..1] == taps;
      AfterTapsNext(m, c1, taps, 0);
    }
    var on := Pushed(m, Copy(c1, taps[0]));
    assert on.msgs == [1, 0] && on.memory[1] == Plain(2, 0.0, true, 1);
    var w := Postponed(on);
    assert w.pendingLocal == [1] && w.msgs == [0];
    assert t == Freed(w).(doNotReenter := 0);
  }
}
