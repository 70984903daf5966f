/** The lock-free stack of src/o2atomic.cpp: any number of threads run `pop`,
    `push` and `grab`, one atomic access to shared memory at a time.

    Shared memory is the queue head (an update counter and a pointer) and every
    element's `next` word.  A thread that holds an element may overwrite that
    word with anything, as the allocator's clients do with freed memory.

    The counter is compared modulo `wrap`, the number of values of the machine
    word that stores it.  Pointers are naturals, 0 is NULL. */
module LockFreeStack {
  import opened Common

  /** Where a thread stands.  `seen` and `first` are its local copy of the head. */
  datatype Thread =
    | Idle
    | PopTry(seen: nat, first: nat)
    | PopRead(seen: nat, first: nat, next: nat)
    | PushTry(elem: nat, seen: nat, first: nat)
    | PushLinked(elem: nat, seen: nat, first: nat)
    | GrabTry(seen: nat, first: nat)

  /** A completed operation, at the moment it takes effect. */
  datatype Op =
    | Push(t: nat, n: nat)
    | Pop(t: nat, n: nat)
    | PopNull(t: nat)
    | Grab(t: nat, ns: seq<nat>)
    | GrabNull(t: nat)

  /** `version`, `first` and `next` are shared memory; `held` says which
      elements each thread's client owns.  `stack` and `history` observe. */
  datatype State = State(
    version: nat, first: nat, next: map<nat, nat>,
    threads: map<nat, Thread>, held: map<nat, set<nat>>,
    stack: seq<nat>, history: seq<Op>)

  /** One atomic access.  A weak compare-and-swap may fail for no reason. */
  datatype Action =
    | StartPop
    | ReadNext
    | SwapPop(spurious: bool)
    | StartPush(elem: nat)
    | Link
    | SwapPush(spurious: bool)
    | StartGrab
    | SwapGrab(spurious: bool)
    | Scribble(n: nat, value: nat)

  predicate Enabled(s: State, t: nat, a: Action) {
    t in s.threads && t in s.held &&
    match a
    case StartPop => s.threads[t].Idle?
    case ReadNext => s.threads[t].PopTry? && s.threads[t].first in s.next
    case SwapPop(_) => s.threads[t].PopRead?
    case StartPush(e) => s.threads[t].Idle? && e in s.held[t]
    case Link => s.threads[t].PushTry?
    case SwapPush(_) => s.threads[t].PushLinked?
    case StartGrab => s.threads[t].Idle?
    case SwapGrab(_) => s.threads[t].GrabTry?
    case Scribble(n, _) => n in s.held[t]
  }

  /** Does the head still look like the thread's copy? */
  predicate Matches(s: State, p: Thread, wrap: nat)
    requires wrap > 0 && !p.Idle?
  {
    s.first == p.first && s.version % wrap == p.seen % wrap
  }

  function LoadForPop(s: State, t: nat): State {
    if s.first == 0 then s.(threads := s.threads[t := Idle], history := s.history + [PopNull(t)])
    else s.(threads := s.threads[t := PopTry(s.version, s.first)])
  }

  function LoadForGrab(s: State, t: nat): State {
    if s.first == 0 then s.(threads := s.threads[t := Idle], history := s.history + [GrabNull(t)])
    else s.(threads := s.threads[t := GrabTry(s.version, s.first)])
  }

  /** The head is replaced by the `next` word read earlier. */
  function DoPop(s: State, t: nat): State
    requires t in s.threads && t in s.held && s.threads[t].PopRead?
  {
    var p := s.threads[t];
    s.(version := s.version + 1, first := p.next,
       threads := s.threads[t := Idle],
       held := s.held[t := s.held[t] + {p.first}],
       stack := if s.stack == [] then [] else s.stack[1..],
       history := s.history + [Pop(t, p.first)])
  }

  function DoPush(s: State, t: nat): State
    requires t in s.threads && s.threads[t].PushLinked?
  {
    var p := s.threads[t];
    s.(version := s.version + 1, first := p.elem,
       threads := s.threads[t := Idle],
       stack := [p.elem] + s.stack,
       history := s.history + [Push(t, p.elem)])
  }

  function DoGrab(s: State, t: nat): State
    requires t in s.threads && t in s.held
  {
    s.(version := s.version + 1, first := 0,
       threads := s.threads[t := Idle],
       held := s.held[t := s.held[t] + (set n | n in s.stack)],
       stack := [],
       history := s.history + [Grab(t, s.stack)])
  }

  function Step(s: State, t: nat, a: Action, wrap: nat): State
    requires wrap > 0 && Enabled(s, t, a)
  {
    var p := s.threads[t];
    match a
    case StartPop => LoadForPop(s, t)
    case ReadNext =>
      s.(threads := s.threads[t := PopRead(p.seen, p.first, s.next[p.first])])
    case SwapPop(spurious) =>
      if spurious || !Matches(s, p, wrap) then LoadForPop(s, t) else DoPop(s, t)
    case StartPush(e) =>
      s.(threads := s.threads[t := PushTry(e, s.version, s.first)],
         held := s.held[t := s.held[t] - {e}])
    case Link =>
      s.(next := s.next[p.elem := p.first],
         threads := s.threads[t := PushLinked(p.elem, p.seen, p.first)])
    case SwapPush(spurious) =>
      if spurious || !Matches(s, p, wrap) then
        s.(threads := s.threads[t := PushTry(p.elem, s.version, s.first)])
      else DoPush(s, t)
    case StartGrab => LoadForGrab(s, t)
    case SwapGrab(spurious) =>
      if spurious || !Matches(s, p, wrap) then LoadForGrab(s, t) else DoGrab(s, t)
    case Scribble(n, value) =>
      s.(next := s.next[n := value])
  }

  // ---------------------------------------------------------------------
  // The sequential stack
  // ---------------------------------------------------------------------

  function Perform(stack: seq<nat>, op: Op): Option<seq<nat>> {
    match op
    case Push(_, n) => Some([n] + stack)
    case Pop(_, n) => if stack != [] && stack[0] == n then Some(stack[1..]) else None
    case PopNull(_) => if stack == [] then Some([]) else None
    case Grab(_, ns) => if stack != [] && ns == stack then Some([]) else None
    case GrabNull(_) => if stack == [] then Some([]) else None
  }

  /** Run operations one after the other from an empty stack; None if one of
      them could not have returned what it did. */
  function Replay(ops: seq<Op>): Option<seq<nat>>
    decreases |ops|
  {
    if ops == [] then Some([])
    else
      var before := Replay(ops[..|ops| - 1]);
      if before.None? then None else Perform(before.value, ops[|ops| - 1])
  }

  lemma ReplayAppend(ops: seq<Op>, op: Op)
    requires Replay(ops).Some?
    ensures Replay(ops + [op]) == Perform(Replay(ops).value, op)
  {
    assert (ops + [op])[..|ops|] == ops;
  }

  // ---------------------------------------------------------------------
  // The invariant
  // ---------------------------------------------------------------------

  /** Walking `next` from `first` visits exactly `ns`. */
  ghost predicate Chain(next: map<nat, nat>, first: nat, ns: seq<nat>)
    decreases |ns|
  {
    if ns == [] then first == 0
    else first == ns[0] && first != 0 && first in next && Chain(next, next[first], ns[1..])
  }

  ghost predicate Distinct(ns: seq<nat>) {
    forall i, j :: 0 <= i < j < |ns| ==> ns[i] != ns[j]
  }

  predicate Pushing(s: State, t: nat, n: nat) {
    t in s.threads && (s.threads[t].PushTry? || s.threads[t].PushLinked?) && s.threads[t].elem == n
  }

  predicate Has(s: State, t: nat, n: nat) {
    Pushing(s, t, n) || (t in s.held && n in s.held[t])
  }

  /** Every element is in exactly one place: on the stack, held by one thread's
      client, or being pushed by one thread. */
  ghost predicate EachInOnePlace(s: State) {
    && Distinct(s.stack)
    && (forall n :: n in s.stack ==> n in s.next)
    && (forall t, n :: Has(s, t, n) ==> n in s.next && n !in s.stack)
    && (forall t, u, n :: Has(s, t, n) && Has(s, u, n) ==> t == u)
    && (forall t, n :: Pushing(s, t, n) && t in s.held ==> n !in s.held[t])
    && (forall n :: n in s.next ==> n in s.stack || exists t :: Has(s, t, n))
  }

  /** A copy of the head that is not out of date is the head; in particular the
      `next` word read along with it is still the top element's. */
  ghost predicate CopyOk(s: State, p: Thread) {
    match p
    case Idle => true
    case PopTry(seen, first) =>
      first in s.next && seen <= s.version && (seen == s.version ==> first == s.first)
    case PopRead(seen, first, next) =>
      first in s.next && seen <= s.version &&
      (seen == s.version ==> first == s.first && next == s.next[first])
    case PushTry(elem, seen, first) =>
      seen <= s.version && (seen == s.version ==> first == s.first)
    case PushLinked(elem, seen, first) =>
      elem in s.next && s.next[elem] == first &&
      seen <= s.version && (seen == s.version ==> first == s.first)
    case GrabTry(seen, first) =>
      first != 0 && seen <= s.version && (seen == s.version ==> first == s.first)
  }

  ghost predicate Inv(s: State) {
    && s.threads.Keys == s.held.Keys
    && 0 !in s.next
    && Chain(s.next, s.first, s.stack)
    && EachInOnePlace(s)
    && (forall t :: t in s.threads ==> CopyOk(s, s.threads[t]))
    && Replay(s.history) == Some(s.stack)
  }

  /** A thread that is about to pop has not slept, since it read the head,
      through `wrap` or more updates of it. */
  predicate Recent(s: State, t: nat, wrap: nat)
    requires t in s.threads && s.threads[t].PopRead?
  {
    s.version < s.threads[t].seen + wrap
  }

  /** The compare-and-swap of a pop will succeed with a successor that is not
      the top element's any more. */
  predicate StalePop(s: State, t: nat, a: Action, wrap: nat)
    requires wrap > 0 && Enabled(s, t, a)
  {
    && a == SwapPop(false) && Matches(s, s.threads[t], wrap)
    && !(s.first in s.next && s.threads[t].next == s.next[s.first])
  }

  // ---------------------------------------------------------------------
  // Chains
  // ---------------------------------------------------------------------

  lemma {:induction false} ChainFrame(next: map<nat, nat>, next': map<nat, nat>, first: nat, ns: seq<nat>)
    requires Chain(next, first, ns)
    requires forall n :: n in ns ==> n in next && n in next' && next[n] == next'[n]
    ensures Chain(next', first, ns)
    decreases |ns|
  {
    if ns != [] {
      forall n | n in ns[1..] ensures n in next && n in next' && next[n] == next'[n] {
        assert n in ns;
      }
      ChainFrame(next, next', next[first], ns[1..]);
    }
  }

  /** A chain is determined by where it starts: a thread that walks a grabbed
      list finds exactly the elements it was given. */
  lemma {:induction false} ChainUnique(next: map<nat, nat>, first: nat, a: seq<nat>, b: seq<nat>)
    requires Chain(next, first, a) && Chain(next, first, b)
    ensures a == b
    decreases |a|
  {
    if a != [] {
      assert b != [];
      ChainUnique(next, next[first], a[1..], b[1..]);
      assert a == [a[0]] + a[1..];
      assert b == [b[0]] + b[1..];
    }
  }

  lemma SameResidue(a: nat, b: nat, w: nat)
    requires w > 0 && a <= b < a + w && a % w == b % w
    ensures a == b
  {
    var k := b / w - a / w;
    assert b - a == k * w by {
      assert a == a / w * w + a % w;
      assert b == b / w * w + b % w;
      assert k * w == b / w * w - a / w * w;
    }
    MultipleBounds(k, w);
  }

  lemma MultipleBounds(k: int, w: nat)
    ensures k >= 1 ==> k * w >= w
    ensures k <= -1 ==> k * w <= -1 * w
  {
    if k >= 1 { assert (k - 1) * w >= 0; }
    if k <= -1 { assert (-1 - k) * w >= 0; }
  }

  // ---------------------------------------------------------------------
  // Every step keeps the invariant
  // ---------------------------------------------------------------------

  lemma LoadForPopKeepsInv(s: State, t: nat)
    requires Inv(s) && t in s.threads
    requires !s.threads[t].PushTry? && !s.threads[t].PushLinked?
    ensures Inv(LoadForPop(s, t))
  {
    hide Replay;
    var s' := LoadForPop(s, t);
    assert forall u, n :: Has(s', u, n) <==> Has(s, u, n);
    assert forall u, n :: Pushing(s', u, n) <==> Pushing(s, u, n);
    if s.first == 0 { ReplayAppend(s.history, PopNull(t)); }
  }

  lemma LoadForGrabKeepsInv(s: State, t: nat)
    requires Inv(s) && t in s.threads
    requires !s.threads[t].PushTry? && !s.threads[t].PushLinked?
    ensures Inv(LoadForGrab(s, t))
  {
    hide Replay;
    var s' := LoadForGrab(s, t);
    assert forall u, n :: Has(s', u, n) <==> Has(s, u, n);
    assert forall u, n :: Pushing(s', u, n) <==> Pushing(s, u, n);
    if s.first == 0 { ReplayAppend(s.history, GrabNull(t)); }
  }

  lemma ReadNextKeepsInv(s: State, t: nat, wrap: nat)
    requires wrap > 0 && Inv(s) && Enabled(s, t, ReadNext)
    ensures Inv(Step(s, t, ReadNext, wrap))
  {
    var s' := Step(s, t, ReadNext, wrap);
    assert forall u, n :: Has(s', u, n) <==> Has(s, u, n);
    assert forall u, n :: Pushing(s', u, n) <==> Pushing(s, u, n);
  }

  lemma DoPopKeepsPlaces(s: State, t: nat)
    requires Inv(s) && t in s.threads && s.threads[t].PopRead?
    requires s.stack != [] && s.stack[0] == s.threads[t].first
    ensures EachInOnePlace(DoPop(s, t))
  {
    var s' := DoPop(s, t);
    var top := s.stack[0];
    assert s.stack == [top] + s.stack[1..];
    assert forall u, n :: Pushing(s', u, n) <==> Pushing(s, u, n);
    assert forall u, n :: Has(s', u, n) <==> Has(s, u, n) || (u == t && n == top);
    forall n | n in s'.next ensures n in s'.stack || exists u :: Has(s', u, n) {
      if n == top { assert Has(s', t, n); }
      else if n !in s.stack { var u :| Has(s, u, n); assert Has(s', u, n); }
    }
  }

  /** A pop keeps the invariant if and only if it does not install a stale
      successor. */
  lemma SwapPopKeepsInvIff(s: State, t: nat, spurious: bool, wrap: nat)
    requires wrap > 0 && Inv(s) && Enabled(s, t, SwapPop(spurious))
    ensures Inv(Step(s, t, SwapPop(spurious), wrap)) <==> !StalePop(s, t, SwapPop(spurious), wrap)
  {
    var p := s.threads[t];
    if spurious || !Matches(s, p, wrap) {
      LoadForPopKeepsInv(s, t);
    } else {
      PopIsOfTheTop(s, t);
      if StalePop(s, t, SwapPop(spurious), wrap) {
        StaleIsNoChain(s.next, s.next[s.first], p.next, s.stack[1..]);
      } else {
        DoPopKeepsInv(s, t);
      }
    }
  }

  lemma PopIsOfTheTop(s: State, t: nat)
    requires Inv(s) && t in s.threads && s.threads[t].PopRead? && s.first == s.threads[t].first
    ensures s.stack != [] && s.stack[0] == s.first && s.first in s.next && Chain(s.next, s.next[s.first], s.stack[1..])
  {
    assert CopyOk(s, s.threads[t]);
  }

  lemma StaleIsNoChain(next: map<nat, nat>, first: nat, other: nat, ns: seq<nat>)
    requires Chain(next, first, ns) && other != first
    ensures !Chain(next, other, ns)
  {
  }

  lemma DoPopKeepsInv(s: State, t: nat)
    requires Inv(s) && t in s.threads && s.threads[t].PopRead?
    requires s.first == s.threads[t].first && s.first in s.next && s.threads[t].next == s.next[s.first]
    ensures Inv(DoPop(s, t))
  {
    hide EachInOnePlace, Replay;
    PopIsOfTheTop(s, t);
    DoPopKeepsPlaces(s, t);
    ReplayAppend(s.history, Pop(t, s.first));
  }

  /** A thread that has not slept through a cycle of the counter never installs
      a stale successor: with an equal counter its copy of the head is current. */
  lemma RecentIsNotStale(s: State, t: nat, spurious: bool, wrap: nat)
    requires wrap > 0 && Inv(s) && Enabled(s, t, SwapPop(spurious)) && Recent(s, t, wrap)
    ensures !StalePop(s, t, SwapPop(spurious), wrap)
  {
    var p := s.threads[t];
    assert CopyOk(s, p);
    if Matches(s, p, wrap) {
      SameResidue(p.seen, s.version, wrap);
    }
  }

  lemma StartPushKeepsInv(s: State, t: nat, e: nat, wrap: nat)
    requires wrap > 0 && Inv(s) && Enabled(s, t, StartPush(e))
    ensures Inv(Step(s, t, StartPush(e), wrap))
  {
    var s' := Step(s, t, StartPush(e), wrap);
    assert Has(s, t, e);
    assert forall u, n :: Has(s', u, n) <==> Has(s, u, n);
  }

  lemma LinkKeepsInv(s: State, t: nat, wrap: nat)
    requires wrap > 0 && Inv(s) && Enabled(s, t, Link)
    ensures Inv(Step(s, t, Link, wrap))
  {
    var s' := Step(s, t, Link, wrap);
    var e := s.threads[t].elem;
    assert Has(s, t, e);
    assert forall u, n :: Has(s', u, n) <==> Has(s, u, n);
    assert forall u, n :: Pushing(s', u, n) <==> Pushing(s, u, n);
    ChainFrame(s.next, s'.next, s.first, s.stack);
    forall u | u in s'.threads ensures CopyOk(s', s'.threads[u]) {
      WritingElsewhere(s, s', u, t, e);
    }
  }

  /** A write to an element that is not on the stack disturbs no other thread's
      copy of the head. */
  lemma WritingElsewhere(s: State, s': State, u: nat, t: nat, e: nat)
    requires Inv(s) && Has(s, t, e) && u in s.threads && u in s'.threads
    requires s'.version == s.version && s'.first == s.first && s'.stack == s.stack
    requires s'.next.Keys == s.next.Keys && (forall n :: n in s.next && n != e ==> s'.next[n] == s.next[n])
    requires u != t ==> s'.threads[u] == s.threads[u]
    requires u == t ==> CopyOk(s', s'.threads[u])
    ensures CopyOk(s', s'.threads[u])
  {
    var p := s.threads[u];
    if u != t {
      assert CopyOk(s, p);
      if p.PopRead? && p.seen == s.version {
        assert s.stack != [] && s.stack[0] == p.first;
        assert p.first in s.stack;
      }
      if p.PushLinked? { assert Has(s, u, p.elem); }
    }
  }

  lemma DoPushKeepsPlaces(s: State, t: nat)
    requires Inv(s) && t in s.threads && s.threads[t].PushLinked?
    ensures EachInOnePlace(DoPush(s, t))
  {
    var s' := DoPush(s, t);
    var e := s.threads[t].elem;
    assert Has(s, t, e);
    assert forall u, n :: Pushing(s', u, n) <==> Pushing(s, u, n) && u != t;
    forall u, n ensures Has(s', u, n) <==> Has(s, u, n) && n != e {
      if Has(s, u, e) { assert u == t; }
      if n == e && u in s'.held { assert Has(s, u, e) ==> e !in s.held[u]; }
    }
    forall n | n in s'.next ensures n in s'.stack || exists u :: Has(s', u, n) {
      if n != e && n !in s.stack { var u :| Has(s, u, n); assert Has(s', u, n); }
    }
  }

  /** For a push no age of the copy matters: what counts is that the head still
      holds the pointer that the element was linked to. */
  lemma SwapPushKeepsInv(s: State, t: nat, spurious: bool, wrap: nat)
    requires wrap > 0 && Inv(s) && Enabled(s, t, SwapPush(spurious))
    ensures Inv(Step(s, t, SwapPush(spurious), wrap))
  {
    hide Inv;
    if spurious || !Matches(s, s.threads[t], wrap) {
      LoadForPushKeepsInv(s, t);
    } else {
      DoPushKeepsInv(s, t);
    }
  }

  lemma LoadForPushKeepsInv(s: State, t: nat)
    requires Inv(s) && t in s.threads && s.threads[t].PushLinked?
    ensures Inv(s.(threads := s.threads[t := PushTry(s.threads[t].elem, s.version, s.first)]))
  {
    hide Replay, Chain;
    var s' := s.(threads := s.threads[t := PushTry(s.threads[t].elem, s.version, s.first)]);
    assert forall u, n :: Pushing(s', u, n) <==> Pushing(s, u, n);
    assert forall u, n :: Has(s', u, n) <==> Has(s, u, n);
  }

  lemma DoPushKeepsInv(s: State, t: nat)
    requires Inv(s) && t in s.threads && s.threads[t].PushLinked? && s.threads[t].first == s.first
    ensures Inv(DoPush(s, t))
  {
    hide EachInOnePlace, Replay;
    var p := s.threads[t];
    assert CopyOk(s, p);
    DoPushKeepsPlaces(s, t);
    ReplayAppend(s.history, Push(t, p.elem));
    assert ([p.elem] + s.stack)[1..] == s.stack;
  }

  lemma DoGrabKeepsPlaces(s: State, t: nat)
    requires Inv(s) && t in s.threads && s.threads[t].GrabTry?
    ensures EachInOnePlace(DoGrab(s, t))
  {
    var s' := DoGrab(s, t);
    assert forall u, n :: Pushing(s', u, n) <==> Pushing(s, u, n);
    assert forall u, n :: Has(s', u, n) <==> Has(s, u, n) || (u == t && n in s.stack);
    forall n | n in s'.next ensures exists u :: Has(s', u, n) {
      if n in s.stack { assert Has(s', t, n); }
      else { var u :| Has(s, u, n); assert Has(s', u, n); }
    }
  }

  /** Nor does it for a grab. */
  lemma SwapGrabKeepsInv(s: State, t: nat, spurious: bool, wrap: nat)
    requires wrap > 0 && Inv(s) && Enabled(s, t, SwapGrab(spurious))
    ensures Inv(Step(s, t, SwapGrab(spurious), wrap))
  {
    hide Inv;
    if spurious || !Matches(s, s.threads[t], wrap) {
      LoadForGrabKeepsInv(s, t);
    } else {
      DoGrabKeepsInv(s, t);
    }
  }

  lemma DoGrabKeepsInv(s: State, t: nat)
    requires Inv(s) && t in s.threads && s.threads[t].GrabTry? && s.threads[t].first == s.first
    ensures Inv(DoGrab(s, t))
  {
    hide EachInOnePlace, Replay;
    assert CopyOk(s, s.threads[t]);
    assert s.stack != [];
    DoGrabKeepsPlaces(s, t);
    ReplayAppend(s.history, Grab(t, s.stack));
  }

  lemma ScribbleKeepsInv(s: State, t: nat, n: nat, value: nat, wrap: nat)
    requires wrap > 0 && Inv(s) && Enabled(s, t, Scribble(n, value))
    ensures Inv(Step(s, t, Scribble(n, value), wrap))
  {
    var s' := Step(s, t, Scribble(n, value), wrap);
    assert Has(s, t, n);
    assert forall u, m :: Has(s', u, m) <==> Has(s, u, m);
    assert forall u, m :: Pushing(s', u, m) <==> Pushing(s, u, m);
    ChainFrame(s.next, s'.next, s.first, s.stack);
    forall u | u in s'.threads ensures CopyOk(s', s'.threads[u]) {
      if u == t {
        var p := s.threads[t];
        if p.PushLinked? { assert Pushing(s, t, p.elem); }
        if p.PopRead? && p.seen == s.version {
          assert s.stack != [] && s.stack[0] == p.first;
          assert p.first in s.stack;
        }
      }
      WritingElsewhere(s, s', u, t, n);
    }
  }

  /** Every step of every thread keeps the invariant, but for exactly one kind:
      a pop that installs a stale successor. */
  lemma StepKeepsInvIff(s: State, t: nat, a: Action, wrap: nat)
    requires wrap > 0 && Inv(s) && Enabled(s, t, a)
    ensures Inv(Step(s, t, a, wrap)) <==> !StalePop(s, t, a, wrap)
  {
    hide Inv, Chain, EachInOnePlace, Replay;
    match a
    case StartPop => LoadForPopKeepsInv(s, t);
    case ReadNext => ReadNextKeepsInv(s, t, wrap);
    case SwapPop(spurious) => SwapPopKeepsInvIff(s, t, spurious, wrap);
    case StartPush(e) => StartPushKeepsInv(s, t, e, wrap);
    case Link => LinkKeepsInv(s, t, wrap);
    case SwapPush(spurious) => SwapPushKeepsInv(s, t, spurious, wrap);
    case StartGrab => LoadForGrabKeepsInv(s, t);
    case SwapGrab(spurious) => SwapGrabKeepsInv(s, t, spurious, wrap);
    case Scribble(n, value) => ScribbleKeepsInv(s, t, n, value, wrap);
  }

  // ---------------------------------------------------------------------
  // Whole runs
  // ---------------------------------------------------------------------

  /** Every element starts in the hands of a thread; the stack is empty. */
  predicate Initial(s: State) {
    && s.first == 0 && s.stack == [] && s.history == [] && s.version == 0
    && s.threads.Keys == s.held.Keys
    && (forall t :: t in s.threads ==> s.threads[t] == Idle)
    && 0 !in s.next
    && (forall t :: t in s.held ==> s.held[t] <= s.next.Keys)
    && (forall t, u :: t in s.held && u in s.held && t != u ==> s.held[t] !! s.held[u])
    && (forall n :: n in s.next ==> exists t :: t in s.held && n in s.held[t])
  }

  datatype Move = Move(t: nat, a: Action)

  /** `run[i]` steps to `run[i + 1]` by `moves[i]`. */
  ghost predicate IsRun(run: seq<State>, moves: seq<Move>, wrap: nat)
    requires wrap > 0
  {
    && |run| == |moves| + 1
    && Initial(run[0])
    && forall i :: 0 <= i < |moves| ==>
         Enabled(run[i], moves[i].t, moves[i].a) &&
         run[i + 1] == Step(run[i], moves[i].t, moves[i].a, wrap)
  }

  lemma InitialInv(s: State)
    requires Initial(s)
    ensures Inv(s)
  {
    assert forall t, n :: Has(s, t, n) <==> t in s.held && n in s.held[t];
    forall n | n in s.next ensures exists t :: Has(s, t, n) {
      var t :| t in s.held && n in s.held[t];
      assert Has(s, t, n);
    }
  }

  /** Up to a point of a run all is well if and only if no pop before it has
      installed a stale successor. */
  lemma {:induction false} RunKeepsInvIff(run: seq<State>, moves: seq<Move>, wrap: nat, k: nat)
    requires wrap > 0 && IsRun(run, moves, wrap) && k < |run|
    ensures (forall i :: 0 <= i <= k ==> Inv(run[i])) <==>
            (forall i :: 0 <= i < k ==> !StalePop(run[i], moves[i].t, moves[i].a, wrap))
  {
    hide Inv, StalePop, Step, Enabled, Initial;
    InitialInv(run[0]);
    if k > 0 {
      RunKeepsInvIff(run, moves, wrap, k - 1);
      assert (forall i :: 0 <= i <= k ==> Inv(run[i])) <==>
             (forall i :: 0 <= i <= k - 1 ==> Inv(run[i])) && Inv(run[k]);
      var j := k - 1;
      assert Inv(run[j]) ==> (Inv(run[k]) <==> !StalePop(run[j], moves[j].t, moves[j].a, wrap)) by {
        if Inv(run[j]) {
          StepKeepsInvIff(run[j], moves[j].t, moves[j].a, wrap);
        }
      }
    }
  }

  /** No thread has slept, between its read of the head and the compare-and-swap
      of a pop, through `wrap` or more updates of the head. */
  ghost predicate Awake(run: seq<State>, moves: seq<Move>, wrap: nat, k: nat)
    requires wrap > 0 && IsRun(run, moves, wrap) && k < |run|
  {
    forall i :: 0 <= i < k && moves[i].a.SwapPop? ==> Recent(run[i], moves[i].t, wrap)
  }

  lemma {:induction false} RunKeepsInv(run: seq<State>, moves: seq<Move>, wrap: nat, k: nat)
    requires wrap > 0 && IsRun(run, moves, wrap) && k < |run| && Awake(run, moves, wrap, k)
    ensures Inv(run[k])
  {
    hide Inv, StalePop, Step, Initial;
    if k == 0 {
      InitialInv(run[0]);
    } else {
      RunKeepsInv(run, moves, wrap, k - 1);
      var m := moves[k - 1];
      if m.a.SwapPop? {
        RecentIsNotStale(run[k - 1], m.t, m.a.spurious, wrap);
      } else {
        OnlyPopsAreStale(run[k - 1], m.t, m.a, wrap);
      }
      StepKeepsInvIff(run[k - 1], m.t, m.a, wrap);
    }
  }

  lemma OnlyPopsAreStale(s: State, t: nat, a: Action, wrap: nat)
    requires wrap > 0 && Enabled(s, t, a)
    ensures StalePop(s, t, a, wrap) ==> a.SwapPop?
  {
  }

  /** The same for every interleaving in which no pop has installed a stale
      successor, however long threads have slept. */
  lemma LinearizableUnlessStale(run: seq<State>, moves: seq<Move>, wrap: nat, k: nat)
    requires wrap > 0 && IsRun(run, moves, wrap) && k < |run|
    requires forall i :: 0 <= i < k ==> !StalePop(run[i], moves[i].t, moves[i].a, wrap)
    ensures Replay(run[k].history) == Some(run[k].stack)
    ensures Chain(run[k].next, run[k].first, run[k].stack)
    ensures EachInOnePlace(run[k])
  {
    hide StalePop, Step, Enabled, Initial;
    RunKeepsInvIff(run, moves, wrap, k);
  }

  /** Any interleaving of any number of threads: the completed operations, in
      the order of their taking effect, are a run of a sequential stack that
      ends with the elements reachable from the head; every element is in
      exactly one place.  The one condition is that no thread sleeps between
      its read of the head and its pop while the head is updated as many times
      as the counter has values; pushes and grabs may sleep as they like. */
  lemma Linearizable(run: seq<State>, moves: seq<Move>, wrap: nat, k: nat)
    requires wrap > 0 && IsRun(run, moves, wrap) && k < |run| && Awake(run, moves, wrap, k)
    ensures Replay(run[k].history) == Some(run[k].stack)
    ensures Chain(run[k].next, run[k].first, run[k].stack)
    ensures EachInOnePlace(run[k])
  {
    RunKeepsInv(run, moves, wrap, k);
  }

  /** An element that was on the stack is never lost by a grab: walking `next`
      from the returned pointer visits exactly the grabbed elements. */
  lemma GrabHandsOverTheChain(s: State, t: nat, wrap: nat, walked: seq<nat>)
    requires wrap > 0 && Inv(s) && Enabled(s, t, SwapGrab(false))
    requires Matches(s, s.threads[t], wrap)
    requires var s' := Step(s, t, SwapGrab(false), wrap);
             Chain(s'.next, s.threads[t].first, walked)
    ensures var s' := Step(s, t, SwapGrab(false), wrap);
            walked == s.stack && s'.first == 0 && forall n :: n in walked ==> n in s'.held[t]
  {
    ChainUnique(s.next, s.first, walked, s.stack);
  }

  // ---------------------------------------------------------------------
  // The condition on the counter is needed
  // ---------------------------------------------------------------------

  /** Moves that can be made one after the other from `s`, every pop awake. */
  ghost predicate CanMake(s: State, moves: seq<Move>, wrap: nat)
    requires wrap > 0
    decreases |moves|
  {
    moves == [] ||
    (&& Enabled(s, moves[0].t, moves[0].a)
     && (moves[0].a.SwapPop? ==> Recent(s, moves[0].t, wrap))
     && CanMake(Step(s, moves[0].t, moves[0].a, wrap), moves[1..], wrap))
  }

  ghost function Make(s: State, moves: seq<Move>, wrap: nat): State
    requires wrap > 0 && CanMake(s, moves, wrap)
    decreases |moves|
  {
    if moves == [] then s else Make(Step(s, moves[0].t, moves[0].a, wrap), moves[1..], wrap)
  }

  /** The states on the way. */
  ghost function Trace(s: State, moves: seq<Move>, wrap: nat): (run: seq<State>)
    requires wrap > 0 && CanMake(s, moves, wrap)
    ensures |run| == |moves| + 1 && run[0] == s && run[|moves|] == Make(s, moves, wrap)
    ensures forall i :: 0 <= i < |moves| ==>
              && Enabled(run[i], moves[i].t, moves[i].a)
              && run[i + 1] == Step(run[i], moves[i].t, moves[i].a, wrap)
              && (moves[i].a.SwapPop? ==> Recent(run[i], moves[i].t, wrap))
    decreases |moves|
  {
    if moves == [] then [s] else [s] + Trace(Step(s, moves[0].t, moves[0].a, wrap), moves[1..], wrap)
  }

  lemma {:induction false} MakeBoth(s: State, a: seq<Move>, b: seq<Move>, wrap: nat)
    requires wrap > 0 && CanMake(s, a, wrap) && CanMake(Make(s, a, wrap), b, wrap)
    ensures CanMake(s, a + b, wrap) && Make(s, a + b, wrap) == Make(Make(s, a, wrap), b, wrap)
    decreases |a|
  {
    hide Step, Enabled;
    if a == [] {
      assert a + b == b;
    } else {
      assert (a + b)[1..] == a[1..] + b;
      MakeBoth(Step(s, a[0].t, a[0].a, wrap), a[1..], b, wrap);
    }
  }

  lemma MakeThree(s: State, a: Move, b: Move, c: Move, wrap: nat)
    requires wrap > 0
    requires Enabled(s, a.t, a.a) && !a.a.SwapPop?
    requires var s1 := Step(s, a.t, a.a, wrap); Enabled(s1, b.t, b.a) && !b.a.SwapPop?
    requires var s2 := Step(Step(s, a.t, a.a, wrap), b.t, b.a, wrap);
             Enabled(s2, c.t, c.a) && (c.a.SwapPop? ==> Recent(s2, c.t, wrap))
    ensures CanMake(s, [a, b, c], wrap)
    ensures Make(s, [a, b, c], wrap) == Step(Step(Step(s, a.t, a.a, wrap), b.t, b.a, wrap), c.t, c.a, wrap)
  {
    hide Step, Enabled, Recent;
    assert [a, b, c][1..] == [b, c] && [b, c][1..] == [c] && [c][1..] == [];
    var s1 := Step(s, a.t, a.a, wrap);
    var s2 := Step(s1, b.t, b.a, wrap);
    var s3 := Step(s2, c.t, c.a, wrap);
    assert CanMake(s3, [], wrap);
    assert CanMake(s2, [c], wrap) && Make(s2, [c], wrap) == Make(s3, [], wrap);
    assert CanMake(s1, [b, c], wrap) && Make(s1, [b, c], wrap) == Make(s2, [c], wrap);
  }

  // Thread 1 does all the work; what it does, one operation at a time.

  function PushOf(e: nat): seq<Move> {
    [Move(1, StartPush(e)), Move(1, Link), Move(1, SwapPush(false))]
  }

  const POP := [Move(1, StartPop), Move(1, ReadNext), Move(1, SwapPop(false))]
  const GRAB := [Move(1, StartGrab), Move(1, SwapGrab(false))]

  predicate Ready(s: State) {
    1 in s.threads && 1 in s.held && s.threads[1] == Idle
  }

  lemma WorkerPushes(s: State, e: nat, wrap: nat)
    requires wrap > 0 && Ready(s) && e in s.held[1] && e in s.next
    ensures CanMake(s, PushOf(e), wrap)
    ensures Make(s, PushOf(e), wrap) ==
            s.(version := s.version + 1, first := e, next := s.next[e := s.first],
               held := s.held[1 := s.held[1] - {e}], stack := [e] + s.stack, history := s.history + [Push(1, e)])
  {
    var s1 := Step(s, 1, StartPush(e), wrap);
    var s2 := Step(s1, 1, Link, wrap);
    MakeThree(s, Move(1, StartPush(e)), Move(1, Link), Move(1, SwapPush(false)), wrap);
    assert s2.threads[1 := Idle] == s.threads;
  }

  lemma WorkerPops(s: State, wrap: nat)
    requires wrap > 0 && Ready(s) && s.first != 0 && s.first in s.next && s.stack != []
    ensures CanMake(s, POP, wrap)
    ensures Make(s, POP, wrap) ==
            s.(version := s.version + 1, first := s.next[s.first],
               held := s.held[1 := s.held[1] + {s.first}], stack := s.stack[1..],
               history := s.history + [Pop(1, s.first)])
  {
    var s1 := Step(s, 1, StartPop, wrap);
    var s2 := Step(s1, 1, ReadNext, wrap);
    MakeThree(s, Move(1, StartPop), Move(1, ReadNext), Move(1, SwapPop(false)), wrap);
    assert s2.threads[1 := Idle] == s.threads;
  }

  lemma WorkerGrabs(s: State, wrap: nat)
    requires wrap > 0 && Ready(s) && s.first != 0
    ensures CanMake(s, GRAB, wrap)
    ensures Make(s, GRAB, wrap) ==
            s.(version := s.version + 1, first := 0,
               held := s.held[1 := s.held[1] + (set n | n in s.stack)], stack := [],
               history := s.history + [Grab(1, s.stack)])
  {
    var s1 := Step(s, 1, StartGrab, wrap);
    assert s1.threads[1 := Idle] == s.threads;
    assert GRAB[1..] == [Move(1, SwapGrab(false))] && GRAB[1..][1..] == [];
    var s2 := Step(s1, 1, SwapGrab(false), wrap);
    assert CanMake(s2, [], wrap);
    assert CanMake(s1, GRAB[1..], wrap) && Make(s1, GRAB[1..], wrap) == s2;
  }

  /** Thread 0 has read element 1 and its successor NULL, the head being
      updated once, and sleeps. */
  function Asleep(): State {
    State(1, 1, map[1 := 0, 2 := 0], map[0 := PopRead(1, 1, 0), 1 := Idle], map[0 := {}, 1 := {2}],
          [1], [Push(1, 1)])
  }

  /** Meanwhile element 2 has got below element 1. */
  function Changed(version: nat, history: seq<Op>): State {
    State(version, 1, map[1 := 2, 2 := 0], map[0 := PopRead(1, 1, 0), 1 := Idle], map[0 := {}, 1 := {}],
          [1, 2], history)
  }

  function Fresh(): State {
    State(0, 0, map[1 := 0, 2 := 0], map[0 := Idle, 1 := Idle], map[0 := {}, 1 := {1, 2}], [], [])
  }

  lemma FallsAsleep(wrap: nat) returns (moves: seq<Move>)
    requires wrap > 0
    ensures Initial(Fresh()) && CanMake(Fresh(), moves, wrap) && Make(Fresh(), moves, wrap) == Asleep()
  {
    WorkerPushes(Fresh(), 1, wrap);
    var s := Make(Fresh(), PushOf(1), wrap);
    assert s.held[1] == {2} && s.next == map[1 := 0, 2 := 0];
    var sleep := ThreadZeroSleeps(s, wrap);
    MakeBoth(Fresh(), PushOf(1), sleep, wrap);
    moves := PushOf(1) + sleep;
  }

  lemma ThreadZeroSleeps(s: State, wrap: nat) returns (sleep: seq<Move>)
    requires wrap > 0
    requires s == Asleep().(threads := map[0 := Idle, 1 := Idle])
    ensures CanMake(s, sleep, wrap) && Make(s, sleep, wrap) == Asleep()
  {
    sleep := [Move(0, StartPop), Move(0, ReadNext)];
    assert sleep[1..] == [Move(0, ReadNext)] && sleep[1..][1..] == [];
    var s1 := Step(s, 0, StartPop, wrap);
    var s2 := Step(s1, 0, ReadNext, wrap);
    assert CanMake(s2, [], wrap);
    assert CanMake(s1, sleep[1..], wrap) && Make(s1, sleep[1..], wrap) == s2;
  }

  /** Three updates: pop 1, push 2, push 1. */
  lemma ChangedByThree(wrap: nat) returns (moves: seq<Move>, h: seq<Op>)
    requires wrap > 0
    ensures CanMake(Asleep(), moves, wrap) && Make(Asleep(), moves, wrap) == Changed(4, h)
  {
    hide Step, Enabled, CanMake, Make, Recent;
    var a := Asleep();
    WorkerPops(a, wrap);
    var b := Make(a, POP, wrap);
    assert b.held[1] == {1, 2};
    WorkerPushes(b, 2, wrap);
    MakeBoth(a, POP, PushOf(2), wrap);
    var c := Make(b, PushOf(2), wrap);
    assert c.held[1] == {1};
    WorkerPushes(c, 1, wrap);
    MakeBoth(a, POP + PushOf(2), PushOf(1), wrap);
    var e := Make(c, PushOf(1), wrap);
    assert e.held[1] == {};
    moves, h := POP + PushOf(2) + PushOf(1), e.history;
    assert e.held == map[0 := {}, 1 := {}] && e.next == map[1 := 2, 2 := 0];
    assert e.stack == [1, 2];
  }

  /** Four updates: push 2, grab both, push 2, push 1. */
  lemma ChangedByFour(wrap: nat) returns (moves: seq<Move>, h: seq<Op>)
    requires wrap > 0
    ensures CanMake(Asleep(), moves, wrap) && Make(Asleep(), moves, wrap) == Changed(5, h)
  {
    hide Step, Enabled, CanMake, Make, Recent;
    var a := Asleep();
    WorkerPushes(a, 2, wrap);
    var b := Make(a, PushOf(2), wrap);
    assert b.stack == [2, 1];
    WorkerGrabs(b, wrap);
    MakeBoth(a, PushOf(2), GRAB, wrap);
    var c := Make(b, GRAB, wrap);
    assert c.held[1] == {1, 2};
    WorkerPushes(c, 2, wrap);
    MakeBoth(a, PushOf(2) + GRAB, PushOf(2), wrap);
    var e := Make(c, PushOf(2), wrap);
    assert e.held[1] == {1};
    WorkerPushes(e, 1, wrap);
    MakeBoth(a, PushOf(2) + GRAB + PushOf(2), PushOf(1), wrap);
    var f := Make(e, PushOf(1), wrap);
    assert f.held[1] == {};
    moves, h := PushOf(2) + GRAB + PushOf(2) + PushOf(1), f.history;
    assert f.held == map[0 := {}, 1 := {}] && f.next == map[1 := 2, 2 := 0];
    assert f.stack == [1, 2];
  }

  /** Two more updates: pop 1 and push it again. */
  lemma ChangedByTwoMore(version: nat, h: seq<Op>, wrap: nat) returns (moves: seq<Move>, h': seq<Op>)
    requires wrap > 0
    ensures CanMake(Changed(version, h), moves, wrap)
    ensures Make(Changed(version, h), moves, wrap) == Changed(version + 2, h')
  {
    hide Step, Enabled, CanMake, Make, Recent;
    var a := Changed(version, h);
    WorkerPops(a, wrap);
    var b := Make(a, POP, wrap);
    assert b.held[1] == {1};
    WorkerPushes(b, 1, wrap);
    MakeBoth(a, POP, PushOf(1), wrap);
    var c := Make(b, PushOf(1), wrap);
    moves, h' := POP + PushOf(1), c.history;
    assert c.held == a.held && c.next == a.next && c.stack == a.stack;
  }

  /** Any number of updates from three on. */
  lemma {:induction false} ChangedByMany(n: nat, wrap: nat) returns (moves: seq<Move>, h: seq<Op>)
    requires wrap > 0 && n >= 3
    ensures CanMake(Asleep(), moves, wrap) && Make(Asleep(), moves, wrap) == Changed(1 + n, h)
  {
    if n == 3 {
      moves, h := ChangedByThree(wrap);
    } else if n == 4 {
      moves, h := ChangedByFour(wrap);
    } else {
      var before, h0 := ChangedByMany(n - 2, wrap);
      var more;
      more, h := ChangedByTwoMore(n - 1, h0, wrap);
      MakeBoth(Asleep(), before, more, wrap);
      moves := before + more;
    }
  }

  /** For every counter of three or more values there is a run, from a stack
      without elements, in which thread 0 reads element 1 and its successor NULL
      and sleeps while the head is updated exactly as often as the counter has
      values and comes back to element 1, now followed by element 2.  All other
      pops were awake and all is well up to there.  Its compare-and-swap
      succeeds, and element 2 is gone: not reachable from the head and in
      nobody's hands. */
  lemma SleepingThroughTheCounterLosesAnElement(wrap: nat) returns (run: seq<State>, moves: seq<Move>)
    requires wrap >= 3
    ensures IsRun(run, moves, wrap) && |moves| > 0
    ensures var k := |moves| - 1;
            && Awake(run, moves, wrap, k) && Inv(run[k])
            && moves[k] == Move(0, SwapPop(false)) && run[k].version == run[k].threads[0].seen + wrap
            && StalePop(run[k], 0, SwapPop(false), wrap)
    ensures var s := run[|moves|];
            s.first == 0 && 2 in s.next && !exists t :: Has(s, t, 2)
  {
    hide Step, Enabled, Initial, Inv, Matches, StalePop, Has, Make, CanMake, Changed, Fresh, Asleep, Recent;
    var asleep := FallsAsleep(wrap);
    var change, h := ChangedByMany(wrap, wrap);
    MakeBoth(Fresh(), asleep, change, wrap);
    TheLoss(wrap, h);
    var all := asleep + change;
    var s := Changed(1 + wrap, h);
    var trace := Trace(Fresh(), all, wrap);
    moves := all + [Move(0, SwapPop(false))];
    run := trace + [Step(s, 0, SwapPop(false), wrap)];
    Extends(trace, all, run, moves, wrap);
    RunKeepsInv(run, moves, wrap, |all|);
  }

  lemma TheLoss(wrap: nat, h: seq<Op>)
    requires wrap > 0
    ensures var s := Changed(1 + wrap, h);
            && Enabled(s, 0, SwapPop(false)) && s.version == s.threads[0].seen + wrap
            && StalePop(s, 0, SwapPop(false), wrap)
            && var s' := Step(s, 0, SwapPop(false), wrap);
               s'.first == 0 && 2 in s'.next && !exists t :: Has(s', t, 2)
  {
    var s := Changed(1 + wrap, h);
    assert Matches(s, s.threads[0], wrap);
  }

  lemma Extends(trace: seq<State>, all: seq<Move>, run: seq<State>, moves: seq<Move>, wrap: nat)
    requires wrap > 0 && |trace| == |all| + 1 && Initial(trace[0])
    requires forall i :: 0 <= i < |all| ==>
               && Enabled(trace[i], all[i].t, all[i].a)
               && trace[i + 1] == Step(trace[i], all[i].t, all[i].a, wrap)
               && (all[i].a.SwapPop? ==> Recent(trace[i], all[i].t, wrap))
    requires Enabled(trace[|all|], 0, SwapPop(false))
    requires moves == all + [Move(0, SwapPop(false))]
    requires run == trace + [Step(trace[|all|], 0, SwapPop(false), wrap)]
    ensures IsRun(run, moves, wrap) && Awake(run, moves, wrap, |all|)
  {
    hide Step, Enabled, Initial, Recent;
    forall i | 0 <= i < |moves|
      ensures Enabled(run[i], moves[i].t, moves[i].a) && run[i + 1] == Step(run[i], moves[i].t, moves[i].a, wrap)
    {
      if i < |all| {
        assert moves[i] == all[i] && run[i] == trace[i] && run[i + 1] == trace[i + 1];
      } else {
        assert run[i] == trace[|all|];
      }
    }
    assert forall i :: 0 <= i < |all| ==> moves[i] == all[i] && run[i] == trace[i];
  }
}
