/** Who owns a message, src/msgsend.cpp and src/o2sched.cpp: every message block
    is on the stack of messages being sent, in the scheduler, in one of the two
    queues of pending messages, or handed to a proxy; anything else is freed.
    This module is the state and its bookkeeping; Delivery has the program. */
module DeliveryState {
  import opened Common

  type Name = nat
  type Addr = nat

  /** A message is not forwarded to taps once it was delivered this often. */
  const MAX_TAP_FORWARDING := 3

  /** What matters here of a message: the service it is for, its timestamp, the
      tap flag and the forwarding count; a bundle carries messages. */
  datatype Content =
    | Plain(service: Name, time: real, tap: bool, ttl: nat)
    | Bundle(service: Name, time: real, tap: bool, parts: seq<Content>)

  datatype Tap = Tap(tapper: Name, remote: bool)

  /** A service provider: local, where a handler is found or not, or a proxy,
      which may want messages only when they are due. */
  datatype Provider = Local(found: bool) | Proxy(scheduleBeforeSend: bool)

  /** The provider in charge, the one in this process, and the taps. */
  datatype Entry = Entry(first: Option<Provider>, local: Option<Provider>, taps: seq<Tap>)

  /** What a handler does to a message it has made: `o2_send` and the like, or
      `o2_schedule_msg` with the global scheduler. */
  datatype Act = Send(content: Content) | Schedule(content: Content)

  /** What handlers will do: each call of a handler does the acts of one
      element, as long as there are any. */
  type Script = seq<seq<Act>>

  /** The acts of the next handler, and what is left for later ones. */
  function Now(script: Script): seq<Act> {
    if script == [] then [] else script[0]
  }

  function Rest(script: Script): Script {
    if script == [] then [] else script[1..]
  }

  function Contents(acts: seq<Act>): (cs: seq<Content>)
    ensures |cs| == |acts|
    ensures forall i :: 0 <= i < |acts| ==> cs[i] == acts[i].content
  {
    seq(|acts|, i requires 0 <= i < |acts| => acts[i].content)
  }

  /** The messages embedded in a bundle are sent. */
  function Sends(cs: seq<Content>): (acts: seq<Act>)
    ensures |acts| == |cs|
    ensures forall i :: 0 <= i < |cs| ==> acts[i] == Send(cs[i])
    ensures Contents(acts) == cs
  {
    seq(|cs|, i requires 0 <= i < |cs| => Send(cs[i]))
  }

  /** The copy of a message for a tap. */
  function Copy(c: Content, tap: Tap): Content
    requires c.Plain?
  {
    Plain(tap.tapper, c.time, true, c.ttl)
  }

  function Copies(c: Content, taps: seq<Tap>): seq<Content>
    requires c.Plain?
  {
    seq(|taps|, i requires 0 <= i < |taps| => Copy(c, taps[i]))
  }

  datatype Env = Env(services: map<Name, Entry>, lastTime: real, clock: bool)

  datatype State = State(
    memory: map<Addr, Content>, next: Addr,
    msgs: seq<Addr>, scheduled: seq<Addr>,
    pendingLocal: seq<Addr>, pendingAnywhere: seq<Addr>,
    sent: seq<Addr>, delivered: seq<Addr>,
    doNotReenter: nat, script: Script, env: Env)

  // ---------------------------------------------------------------------
  // Ownership
  // ---------------------------------------------------------------------

  /** What is owned by others than the stack. */
  ghost function Others(s: State): multiset<Addr> {
    multiset(s.scheduled) + multiset(s.pendingLocal) + multiset(s.pendingAnywhere) + multiset(s.sent)
  }

  ghost function Owners(s: State): multiset<Addr> {
    multiset(s.msgs) + Others(s)
  }

  /** Every block has exactly one owner, and nothing else is owned. */
  ghost predicate Owned(s: State) {
    && Owners(s) == multiset(s.memory.Keys)
    && forall x :: x in s.memory ==> x < s.next
  }

  lemma OneOwner(s: State, x: Addr)
    requires Owned(s)
    ensures multiset(s.msgs)[x] + multiset(s.scheduled)[x] + multiset(s.pendingLocal)[x]
            + multiset(s.pendingAnywhere)[x] + multiset(s.sent)[x] == if x in s.memory then 1 else 0
  {
    assert Owners(s)[x] == multiset(s.memory.Keys)[x];
  }

  // ---------------------------------------------------------------------
  // How much a message can lead to
  // ---------------------------------------------------------------------

  /** Deliveries of a message that was forwarded `ttl` times, when services have
      at most `d` taps. */
  function Spread(d: nat, ttl: nat): (n: nat)
    ensures n > 0
    decreases MAX_TAP_FORWARDING - ttl
  {
    if ttl >= MAX_TAP_FORWARDING then 1 else 1 + d * Spread(d, ttl + 1)
  }

  lemma SpreadOfNew(d: nat)
    ensures Spread(d, 0) == 1 + d + d * d + d * d * d
  {
    assert Spread(d, 2) == 1 + d * 1;
    assert Spread(d, 1) == 1 + d * Spread(d, 2) == 1 + d + d * d;
    assert Spread(d, 0) == 1 + d * (1 + d + d * d);
    assert d * (1 + d + d * d) == d + d * d + d * (d * d) == d + d * d + d * d * d;
  }

  lemma SpreadShrinks(d: nat, ttl: nat)
    requires d > 0 && ttl < MAX_TAP_FORWARDING
    ensures Spread(d, ttl + 1) < Spread(d, ttl)
  {
    assert d * Spread(d, ttl + 1) >= Spread(d, ttl + 1) by {
      assert (d - 1) * Spread(d, ttl + 1) >= 0;
    }
  }

  /** What `i` taps can lead to, each of them `each`. */
  function Together(i: nat, each: nat): nat {
    i * each
  }

  lemma TogetherNext(i: nat, each: nat)
    ensures Together(0, each) == 0 && Together(i + 1, each) == Together(i, each) + each
  {
  }

  lemma TapsWithinSpread(d: nat, i: nat, ttl: nat)
    requires i <= d && ttl < MAX_TAP_FORWARDING
    ensures Together(i, Spread(d, ttl + 1)) <= Spread(d, ttl) - 1
  {
    var each := Spread(d, ttl + 1);
    assert i * each <= d * each by { assert (d - i) * each >= 0; }
  }

  function Credit(d: nat, c: Content): (n: nat)
    ensures n > 0
    decreases c, 1
  {
    match c
    case Plain(_, _, _, ttl) => Spread(d, ttl)
    case Bundle(_, _, _, parts) => 1 + Credits(d, parts)
  }

  function Credits(d: nat, cs: seq<Content>): nat
    decreases cs, 0
  {
    if cs == [] then 0 else Credit(d, cs[0]) + Credits(d, cs[1..])
  }

  function ScriptCredit(d: nat, script: Script): nat {
    if script == [] then 0 else Credits(d, Contents(script[0])) + ScriptCredit(d, script[1..])
  }

  lemma NothingToSend(d: nat)
    ensures Credits(d, []) == 0
  {
  }

  lemma ScriptSplits(d: nat, script: Script)
    requires script != []
    ensures ScriptCredit(d, script) == Credits(d, Contents(script[0])) + ScriptCredit(d, script[1..])
  {
  }

  lemma {:induction false} CreditsFrom(d: nat, cs: seq<Content>, i: nat)
    requires i < |cs|
    ensures Credits(d, cs[i..]) == Credit(d, cs[i]) + Credits(d, cs[i + 1..])
    ensures Credits(d, cs[i..]) <= Credits(d, cs)
    decreases i
  {
    assert cs[i..][1..] == cs[i + 1..];
    if i == 0 {
      assert cs[0..] == cs;
    } else {
      CreditsFrom(d, cs[1..], i - 1);
      assert cs[1..][i - 1..] == cs[i..];
    }
  }

  function CreditAt(d: nat, memory: map<Addr, Content>, x: Addr): nat {
    if x in memory then Credit(d, memory[x]) else 0
  }

  function Sum(d: nat, memory: map<Addr, Content>, xs: seq<Addr>): nat {
    if xs == [] then 0 else CreditAt(d, memory, xs[0]) + Sum(d, memory, xs[1..])
  }

  lemma {:induction false} SumFrame(d: nat, m: map<Addr, Content>, m': map<Addr, Content>, xs: seq<Addr>)
    requires forall x :: x in xs ==> CreditAt(d, m, x) == CreditAt(d, m', x)
    ensures Sum(d, m, xs) == Sum(d, m', xs)
  {
    if xs != [] {
      SumFrame(d, m, m', xs[1..]);
    }
  }

  lemma {:induction false} SumConcat(d: nat, m: map<Addr, Content>, xs: seq<Addr>, ys: seq<Addr>)
    ensures Sum(d, m, xs + ys) == Sum(d, m, xs) + Sum(d, m, ys)
  {
    if xs == [] {
      assert xs + ys == ys;
    } else {
      assert (xs + ys)[1..] == xs[1..] + ys;
      SumConcat(d, m, xs[1..], ys);
    }
  }

  lemma SumInsert(d: nat, m: map<Addr, Content>, xs: seq<Addr>, k: nat, x: Addr)
    requires k <= |xs|
    ensures Sum(d, m, xs[..k] + [x] + xs[k..]) == Sum(d, m, xs) + CreditAt(d, m, x)
  {
    assert xs == xs[..k] + xs[k..];
    SumConcat(d, m, xs[..k], xs[k..]);
    SumConcat(d, m, xs[..k] + [x], xs[k..]);
    SumConcat(d, m, xs[..k], [x]);
    SumOne(d, m, x);
  }

  lemma SumOne(d: nat, m: map<Addr, Content>, x: Addr)
    ensures Sum(d, m, [x]) == CreditAt(d, m, x)
  {
    assert [x][1..] == [];
  }

  /** What pending messages and handlers still can lead to. */
  function Outstanding(d: nat, s: State): nat {
    Sum(d, s.memory, s.pendingLocal) + Sum(d, s.memory, s.pendingAnywhere) + ScriptCredit(d, s.script)
  }

  /** Deliveries so far and all that can still follow from messages that are not
      on the stack. */
  function Work(d: nat, s: State): nat {
    |s.delivered| + Outstanding(d, s) + Sum(d, s.memory, s.scheduled) + Sum(d, s.memory, s.sent)
  }

  // ---------------------------------------------------------------------
  // What the operations do to the state
  // ---------------------------------------------------------------------

  /** Blocks that last are not changed, except perhaps `but`; new ones are at
      new addresses. */
  ghost predicate Stable(a: State, b: State, but: int) {
    && a.next <= b.next
    && (forall x :: x in a.memory && x in b.memory && x != but ==> b.memory[x] == a.memory[x])
    && (forall x :: x in b.memory && x !in a.memory ==> a.next <= x)
  }

  /** The contract of all operations: ownership is kept, pending messages are
      appended only, and no more follows than `budget` allows; less, if
      `strict`. */
  ghost predicate Effect(d: nat, a: State, b: State, budget: int, strict: bool, but: int) {
    && Owned(b) && Stable(a, b, but)
    && b.doNotReenter == a.doNotReenter && b.env == a.env
    && Work(d, b) <= Work(d, a) + budget
    && Outstanding(d, b) <= Outstanding(d, a) + budget - (if strict then 1 else 0)
    && ScriptCredit(d, b.script) <= ScriptCredit(d, a.script)
    && a.delivered <= b.delivered && a.sent <= b.sent
    && a.pendingLocal <= b.pendingLocal && a.pendingAnywhere <= b.pendingAnywhere
  }

  lemma EffectThen(d: nat, a: State, b: State, c: State, x: int, y: int, s: bool, t: bool, but: int)
    requires Owned(a) && Effect(d, a, b, x, s, but) && Effect(d, b, c, y, t, but)
    ensures Effect(d, a, c, x + y, s || t, but)
  {
    hide Work, Outstanding, ScriptCredit;
    StableThen(a, b, c, but);
    hide Owned, Stable;
  }

  lemma StableThen(a: State, b: State, c: State, but: int)
    requires Owned(a) && Stable(a, b, but) && Stable(b, c, but)
    ensures Stable(a, c, but)
  {
    hide Owners;
  }

  lemma EffectWithin(d: nat, a: State, b: State, x: int, s: bool, y: int, t: bool, but: int)
    requires Effect(d, a, b, x, s, but) && x <= y && (t ==> s || x < y)
    ensures Effect(d, a, b, y, t, but)
  {
    hide Work, Outstanding, Owned;
  }

  lemma EffectFacts(d: nat, a: State, b: State, x: int, s: bool, but: int)
    requires Effect(d, a, b, x, s, but)
    ensures Owned(b) && b.env == a.env && b.doNotReenter == a.doNotReenter
    ensures ScriptCredit(d, b.script) <= ScriptCredit(d, a.script)
    ensures forall y :: y in a.memory && y in b.memory && y != but ==> b.memory[y] == a.memory[y]
  {
    hide Work, Outstanding, Owned;
  }

  lemma EffectLog(d: nat, a: State, b: State, x: int, s: bool, but: int)
    requires Effect(d, a, b, x, s, but)
    ensures a.delivered <= b.delivered && a.sent <= b.sent
  {
    hide Work, Outstanding, Owned;
  }

  lemma EffectSums(d: nat, a: State, b: State, x: int, s: bool, but: int)
    requires Effect(d, a, b, x, s, but)
    ensures Work(d, b) <= Work(d, a) + x && Outstanding(d, b) <= Outstanding(d, a) + x - (if s then 1 else 0)
    ensures b.env == a.env && b.doNotReenter == a.doNotReenter
    ensures a.pendingLocal <= b.pendingLocal && a.pendingAnywhere <= b.pendingAnywhere
  {
    hide Work, Outstanding, Owned;
  }

  lemma TimeIsNoWork(d: nat, s: State, time: real)
    ensures Work(d, s.(env := s.env.(lastTime := time))) == Work(d, s)
    ensures Owned(s) ==> Owned(s.(env := s.env.(lastTime := time)))
  {
  }

  /** The exception does not matter once the block is gone. */
  lemma EffectForgets(d: nat, a: State, b: State, x: int, s: bool, but: Addr, but': int)
    requires Effect(d, a, b, x, s, but) && (but !in b.memory || (but in b.memory && but !in a.memory))
    ensures Effect(d, a, b, x, s, but')
  {
    hide Work, Outstanding, Owned;
  }

  lemma EffectAllows(d: nat, a: State, b: State, x: int, s: bool, but: int)
    requires Effect(d, a, b, x, s, -1)
    ensures Effect(d, a, b, x, s, but)
  {
    hide Work, Outstanding, Owned;
  }

  lemma NoEffect(d: nat, a: State, but: int)
    requires Owned(a)
    ensures Effect(d, a, a, 0, false, but)
  {
    hide Work, Outstanding, Owned;
  }

  // ---------------------------------------------------------------------
  // Single steps
  // ---------------------------------------------------------------------

  /** A new message, on the stack. */
  function Pushed(s: State, c: Content): State {
    s.(memory := s.memory[s.next := c], msgs := [s.next] + s.msgs, next := s.next + 1)
  }

  /** The current message is freed. */
  function Freed(s: State): State
    requires s.msgs != []
  {
    s.(memory := s.memory - {s.msgs[0]}, msgs := s.msgs[1..])
  }

  function Postponed(s: State): State
    requires s.msgs != [] && s.msgs[0] in s.memory
  {
    var x := s.msgs[0];
    if s.memory[x].tap
    then s.(msgs := s.msgs[1..], pendingLocal := s.pendingLocal + [x])
    else s.(msgs := s.msgs[1..], pendingAnywhere := s.pendingAnywhere + [x])
  }

  function HandedOff(s: State): State
    requires s.msgs != []
  {
    s.(msgs := s.msgs[1..], sent := s.sent + [s.msgs[0]])
  }

  function Scheduled(s: State, k: nat): State
    requires s.msgs != [] && k <= |s.scheduled|
  {
    s.(msgs := s.msgs[1..], scheduled := s.scheduled[..k] + [s.msgs[0]] + s.scheduled[k..])
  }

  /** The current message is about to be forwarded to taps. */
  function Marked(s: State): State
    requires s.msgs != [] && s.msgs[0] in s.memory && s.memory[s.msgs[0]].Plain?
  {
    var x := s.msgs[0];
    s.(memory := s.memory[x := s.memory[x].(tap := true, ttl := s.memory[x].ttl + 1)])
  }

  lemma ScheduledAreThere(s: State)
    requires Owned(s)
    ensures forall j :: 0 <= j < |s.scheduled| ==> s.scheduled[j] in s.memory
  {
    forall j | 0 <= j < |s.scheduled| ensures s.scheduled[j] in s.memory {
      OneOwner(s, s.scheduled[j]);
    }
  }

  lemma TopIsOwned(s: State)
    requires Owned(s) && s.msgs != []
    ensures var x := s.msgs[0];
            && x in s.memory
            && x !in s.msgs[1..] && x !in s.scheduled && x !in s.pendingLocal && x !in s.pendingAnywhere && x !in s.sent
  {
    var x := s.msgs[0];
    assert s.msgs == [x] + s.msgs[1..];
    OneOwner(s, x);
  }

  /** Work does not depend on blocks that are only on the stack. */
  lemma WorkFrame(d: nat, s: State, m: map<Addr, Content>, x: Addr)
    requires forall y :: y != x ==> (y in m <==> y in s.memory) && (y in m ==> m[y] == s.memory[y])
    requires x !in s.scheduled && x !in s.pendingLocal && x !in s.pendingAnywhere && x !in s.sent
    ensures Outstanding(d, s.(memory := m)) == Outstanding(d, s) && Work(d, s.(memory := m)) == Work(d, s)
  {
    SumFrame(d, s.memory, m, s.scheduled);
    SumFrame(d, s.memory, m, s.pendingLocal);
    SumFrame(d, s.memory, m, s.pendingAnywhere);
    SumFrame(d, s.memory, m, s.sent);
  }

  lemma StackIsNoWork(d: nat, s: State, msgs: seq<Addr>, next: Addr)
    ensures Outstanding(d, s.(msgs := msgs, next := next)) == Outstanding(d, s)
    ensures Work(d, s.(msgs := msgs, next := next)) == Work(d, s)
  {
  }

  lemma OneMore(keys: set<Addr>, x: Addr)
    requires x !in keys
    ensures multiset(keys + {x}) == multiset(keys) + multiset{x}
  {
  }

  lemma PushedOthers(s: State, c: Content)
    ensures Others(Pushed(s, c)) == Others(s)
  {
  }

  lemma PushedIsOwned(s: State, c: Content)
    requires Owned(s)
    ensures Owned(Pushed(s, c)) && s.next !in s.memory
  {
    hide Others;
    var t := Pushed(s, c);
    OneMore(s.memory.Keys, s.next);
    PushedOthers(s, c);
    assert t.memory.Keys == s.memory.Keys + {s.next};
    assert multiset(t.msgs) == multiset{s.next} + multiset(s.msgs);
    assert Owners(t) == multiset{s.next} + Owners(s);
  }

  lemma PushedIsOk(d: nat, s: State, c: Content)
    requires Owned(s)
    ensures Effect(d, s, Pushed(s, c), 0, false, -1)
  {
    OneOwner(s, s.next);
    PushedIsOwned(s, c);
    var m := s.memory[s.next := c];
    WorkFrame(d, s, m, s.next);
    StackIsNoWork(d, s.(memory := m), [s.next] + s.msgs, s.next + 1);
    hide Work, Outstanding, Owned, ScriptCredit;
    var t := Pushed(s, c);
    assert t == s.(memory := m).(msgs := [s.next] + s.msgs, next := s.next + 1);
    assert Owned(t);
    assert Stable(s, t, -1);
    assert Work(d, t) == Work(d, s);
    assert Outstanding(d, t) == Outstanding(d, s);
  }

  lemma FreedIsOwned(s: State)
    requires Owned(s) && s.msgs != []
    ensures Owned(Freed(s))
  {
    TopIsOwned(s);
    var x := s.msgs[0];
    var m := s.memory - {x};
    assert s.msgs == [x] + s.msgs[1..];
    assert m.Keys == s.memory.Keys - {x};
    assert multiset(s.memory.Keys) == multiset(m.Keys) + multiset{x};
    assert multiset(s.msgs) == multiset{x} + multiset(s.msgs[1..]);
    assert Owners(Freed(s)) == Owners(s) - multiset{x};
    assert multiset(m.Keys) == multiset(s.memory.Keys) - multiset{x};
  }

  lemma FreedIsOk(d: nat, s: State)
    requires Owned(s) && s.msgs != []
    ensures Effect(d, s, Freed(s), 0, false, -1)
  {
    TopIsOwned(s);
    FreedIsOwned(s);
    var x := s.msgs[0];
    var m := s.memory - {x};
    WorkFrame(d, s, m, x);
    StackIsNoWork(d, s.(memory := m), s.msgs[1..], s.next);
    hide Work, Outstanding, Owned, ScriptCredit;
    assert Freed(s) == s.(memory := m).(msgs := s.msgs[1..], next := s.next);
  }

  lemma MovedIsOwned(s: State, t: State)
    requires Owned(s) && s.msgs != [] && t.msgs == s.msgs[1..] && t.memory == s.memory && t.next == s.next
    requires Others(t) == Others(s) + multiset{s.msgs[0]}
    ensures Owned(t)
  {
    hide Others;
    assert s.msgs == [s.msgs[0]] + s.msgs[1..];
    assert multiset(s.msgs) == multiset{s.msgs[0]} + multiset(t.msgs);
    assert Owners(t) == Owners(s);
  }

  lemma PostponedIsOwned(s: State)
    requires Owned(s) && s.msgs != [] && s.msgs[0] in s.memory
    ensures Owned(Postponed(s))
  {
    var x, t := s.msgs[0], Postponed(s);
    assert Others(t) == Others(s) + multiset{x};
    MovedIsOwned(s, t);
  }

  lemma PostponedIsOk(d: nat, s: State)
    requires Owned(s) && s.msgs != []
    ensures s.msgs[0] in s.memory
    ensures Effect(d, s, Postponed(s), CreditAt(d, s.memory, s.msgs[0]), false, -1)
  {
    TopIsOwned(s);
    PostponedIsOwned(s);
    var x := s.msgs[0];
    SumOne(d, s.memory, x);
    hide Owned, Sum, CreditAt, ScriptCredit;
    if s.memory[x].tap {
      SumConcat(d, s.memory, s.pendingLocal, [x]);
    } else {
      SumConcat(d, s.memory, s.pendingAnywhere, [x]);
    }
  }

  lemma HandedOffIsOwned(s: State)
    requires Owned(s) && s.msgs != []
    ensures Owned(HandedOff(s))
  {
    assert Others(HandedOff(s)) == Others(s) + multiset{s.msgs[0]};
    MovedIsOwned(s, HandedOff(s));
  }

  lemma HandedOffIsOk(d: nat, s: State)
    requires Owned(s) && s.msgs != []
    ensures Effect(d, s, HandedOff(s), CreditAt(d, s.memory, s.msgs[0]), true, -1)
  {
    TopIsOwned(s);
    HandedOffIsOwned(s);
    var x := s.msgs[0];
    SumOne(d, s.memory, x);
    SumConcat(d, s.memory, s.sent, [x]);
    hide Sum, ScriptCredit, Owned;
  }

  lemma ScheduledIsOwned(s: State, k: nat)
    requires Owned(s) && s.msgs != [] && k <= |s.scheduled|
    ensures Owned(Scheduled(s, k))
  {
    assert s.scheduled == s.scheduled[..k] + s.scheduled[k..];
    assert Others(Scheduled(s, k)) == Others(s) + multiset{s.msgs[0]};
    MovedIsOwned(s, Scheduled(s, k));
  }

  lemma ScheduledIsOk(d: nat, s: State, k: nat)
    requires Owned(s) && s.msgs != [] && k <= |s.scheduled|
    ensures Effect(d, s, Scheduled(s, k), CreditAt(d, s.memory, s.msgs[0]), true, -1)
  {
    TopIsOwned(s);
    ScheduledIsOwned(s, k);
    SumInsert(d, s.memory, s.scheduled, k, s.msgs[0]);
    hide Sum, ScriptCredit, Owned;
  }

  lemma MarkedIsOk(d: nat, s: State)
    requires Owned(s) && s.msgs != []
    ensures s.msgs[0] in s.memory
    ensures s.memory[s.msgs[0]].Plain? ==> Effect(d, s, Marked(s), 0, false, s.msgs[0])
  {
    TopIsOwned(s);
    var x := s.msgs[0];
    if s.memory[x].Plain? {
      var m := Marked(s).memory;
      WorkFrame(d, s, m, x);
      assert m.Keys == s.memory.Keys;
      hide Work, Outstanding;
    }
  }

  lemma LoggedIsOk(d: nat, s: State, x: Addr)
    requires Owned(s)
    ensures Effect(d, s, s.(delivered := s.delivered + [x]), 1, true, -1)
  {
  }

  lemma ScriptIsOk(d: nat, s: State)
    requires Owned(s) && s.script != []
    ensures Effect(d, s, s.(script := s.script[1..]), -(Credits(d, Contents(s.script[0])) as int), false, -1)
  {
  }

  /** The counter that postpones deliveries is raised and lowered again. */
  lemma CounterIsOk(s: State, n: nat)
    requires Owned(s)
    ensures Owned(s.(doNotReenter := n))
  {
  }

  lemma EffectOfRaised(d: nat, s: State, n: nat, b: State, x: int, t: bool, but: int)
    requires Effect(d, s.(doNotReenter := n), b, x, t, but)
    ensures Effect(d, s, b.(doNotReenter := s.doNotReenter), x, t, but)
  {
    CounterIsOk(b, s.doNotReenter);
    hide Owned;
  }

  // ---------------------------------------------------------------------
  // Taking messages from the queues
  // ---------------------------------------------------------------------

  function TakenAnywhere(s: State): State
    requires s.pendingAnywhere != []
  {
    s.(msgs := [s.pendingAnywhere[0]] + s.msgs, pendingAnywhere := s.pendingAnywhere[1..])
  }

  function TakenLocal(s: State): State
    requires s.pendingLocal != []
  {
    s.(msgs := [s.pendingLocal[0]] + s.msgs, pendingLocal := s.pendingLocal[1..])
  }

  function TakenScheduled(s: State): State
    requires s.scheduled != []
  {
    s.(msgs := [s.scheduled[0]] + s.msgs, scheduled := s.scheduled[1..])
  }

  /** A message that went over the network is freed here. */
  function Gone(s: State, k: nat): State
    requires k < |s.sent|
  {
    s.(memory := s.memory - {s.sent[k]}, sent := s.sent[..k] + s.sent[k + 1..])
  }

  /** The queue gives a message, and the stack gets it. */
  lemma TakenIsOwned(s: State, t: State, x: Addr)
    requires Owned(s) && t.msgs == [x] + s.msgs && t.memory == s.memory && t.next == s.next
    requires Others(s) == Others(t) + multiset{x}
    ensures Owned(t)
  {
    hide Others;
    assert multiset(t.msgs) == multiset{x} + multiset(s.msgs);
    assert Owners(t) == Owners(s);
  }

  lemma TakenAnywhereIsOk(d: nat, s: State)
    requires Owned(s) && s.pendingAnywhere != []
    ensures var x, t := s.pendingAnywhere[0], TakenAnywhere(s);
            && Owned(t) && x in s.memory
            && Work(d, t) == Work(d, s) - CreditAt(d, s.memory, x)
            && Outstanding(d, t) == Outstanding(d, s) - CreditAt(d, s.memory, x)
  {
    var x := s.pendingAnywhere[0];
    OneOwner(s, x);
    assert s.pendingAnywhere == [x] + s.pendingAnywhere[1..];
    assert Others(s) == Others(TakenAnywhere(s)) + multiset{x};
    TakenIsOwned(s, TakenAnywhere(s), x);
  }

  lemma TakenLocalIsOk(d: nat, s: State)
    requires Owned(s) && s.pendingLocal != []
    ensures var x, t := s.pendingLocal[0], TakenLocal(s);
            && Owned(t) && x in s.memory
            && Work(d, t) == Work(d, s) - CreditAt(d, s.memory, x)
            && Outstanding(d, t) == Outstanding(d, s) - CreditAt(d, s.memory, x)
  {
    var x := s.pendingLocal[0];
    OneOwner(s, x);
    assert s.pendingLocal == [x] + s.pendingLocal[1..];
    assert Others(s) == Others(TakenLocal(s)) + multiset{x};
    TakenIsOwned(s, TakenLocal(s), x);
  }

  lemma TakenScheduledIsOk(d: nat, s: State)
    requires Owned(s) && s.scheduled != []
    ensures var x, t := s.scheduled[0], TakenScheduled(s);
            && Owned(t) && x in s.memory
            && Work(d, t) == Work(d, s) - CreditAt(d, s.memory, x)
  {
    var x := s.scheduled[0];
    OneOwner(s, x);
    assert s.scheduled == [x] + s.scheduled[1..];
    assert Others(s) == Others(TakenScheduled(s)) + multiset{x};
    TakenIsOwned(s, TakenScheduled(s), x);
  }

  lemma GoneIsOk(d: nat, s: State, k: nat)
    requires Owned(s) && k < |s.sent|
    ensures var x, t := s.sent[k], Gone(s, k);
            && Owned(t) && x in s.memory
            && Work(d, t) == Work(d, s) - CreditAt(d, s.memory, x)
  {
    var x := s.sent[k];
    var on := s.(msgs := [x] + s.msgs, sent := s.sent[..k] + s.sent[k + 1..]);
    SentWithout(d, s, k);
    TakenIsOwned(s, on, x);
    assert Gone(s, k) == Freed(on) by { assert on.msgs[1..] == s.msgs; }
    TopIsOwned(on);
    FreedIsOwned(on);
    hide Owned;
    WorkFrame(d, on, s.memory - {x}, x);
    StackIsNoWork(d, on.(memory := s.memory - {x}), s.msgs, s.next);
    assert Gone(s, k) == on.(memory := s.memory - {x}).(msgs := s.msgs, next := s.next);
  }

  lemma SentWithout(d: nat, s: State, k: nat)
    requires Owned(s) && k < |s.sent|
    ensures var x := s.sent[k];
            var on := s.(msgs := [x] + s.msgs, sent := s.sent[..k] + s.sent[k + 1..]);
            && x in s.memory && Others(s) == Others(on) + multiset{x}
            && Work(d, on) == Work(d, s) - CreditAt(d, s.memory, x)
  {
    var x, rest := s.sent[k], s.sent[..k] + s.sent[k + 1..];
    OneOwner(s, x);
    assert s.sent == s.sent[..k] + [x] + s.sent[k + 1..];
    assert rest[..k] == s.sent[..k] && rest[k..] == s.sent[k + 1..];
    SumInsert(d, s.memory, rest, k, x);
    assert multiset(s.sent) == multiset(rest) + multiset{x};
  }

  lemma WorkIsMoreThanDelivered(d: nat, s: State)
    ensures |s.delivered| <= Work(d, s)
  {
  }
}
