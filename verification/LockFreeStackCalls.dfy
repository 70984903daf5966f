/** Calls of `pop`, `push` and `grab` and the operations that complete them,
    src/o2atomic.cpp: a call ends only by one operation of its own kind. */
module LockFreeStackCalls {
  import opened LockFreeStack

  datatype Call = CallPop | CallPush(elem: nat) | CallGrab

  /** The call that an action begins, if it does. */
  function Begun(a: Action): seq<Call> {
    match a
    case StartPop => [CallPop]
    case StartPush(e) => [CallPush(e)]
    case StartGrab => [CallGrab]
    case _ => []
  }

  /** The calls of thread `t`, in order. */
  function Calls(moves: seq<Move>, t: nat): seq<Call> {
    if moves == [] then []
    else
      var last := moves[|moves| - 1];
      Calls(moves[..|moves| - 1], t) + if last.t == t then Begun(last.a) else []
  }

  /** The kind of call that an operation of thread `t` completes. */
  function Completed(op: Op, t: nat): seq<Call> {
    if op.t != t then []
    else
      match op
      case Push(_, n) => [CallPush(n)]
      case Pop(_, _) => [CallPop]
      case PopNull(_) => [CallPop]
      case Grab(_, _) => [CallGrab]
      case GrabNull(_) => [CallGrab]
  }

  function Completions(ops: seq<Op>, t: nat): seq<Call> {
    if ops == [] then [] else Completions(ops[..|ops| - 1], t) + Completed(ops[|ops| - 1], t)
  }

  /** The call that a thread is in. */
  function Current(p: Thread): seq<Call> {
    match p
    case Idle => []
    case PopTry(_, _) => [CallPop]
    case PopRead(_, _, _) => [CallPop]
    case PushTry(e, _, _) => [CallPush(e)]
    case PushLinked(e, _, _) => [CallPush(e)]
    case GrabTry(_, _) => [CallGrab]
  }

  lemma CompletionsAppend(ops: seq<Op>, op: Op, t: nat)
    ensures Completions(ops + [op], t) == Completions(ops, t) + Completed(op, t)
  {
    assert (ops + [op])[..|ops|] == ops;
  }

  /** The calls that `t` has completed, and the one it is in. */
  ghost function Done(s: State, t: nat): seq<Call>
    requires t in s.threads
  {
    Completions(s.history, t) + Current(s.threads[t])
  }

  /** Thread `u` goes on with a call of the same kind. */
  lemma GoesOn(s: State, s': State, u: nat, call: Call, t: nat)
    requires u in s.threads && s'.history == s.history && t in s.threads
    requires exists p :: s'.threads == s.threads[u := p] && Current(p) == [call]
    ensures t in s'.threads
    ensures Done(s', t) == if u == t then Completions(s.history, t) + [call] else Done(s, t)
  {
  }

  /** Thread `u` completes a call and is idle. */
  lemma Completes(s: State, s': State, u: nat, op: Op, call: Call, t: nat)
    requires u in s.threads && t in s.threads && op.t == u && Completed(op, u) == [call]
    requires s'.history == s.history + [op] && s'.threads == s.threads[u := Idle]
    ensures t in s'.threads
    ensures Done(s', t) == if u == t then Completions(s.history, t) + [call] else Done(s, t)
  {
    CompletionsAppend(s.history, op, t);
  }

  lemma LoadForPopGoesOn(s: State, u: nat, t: nat)
    requires u in s.threads && t in s.threads
    ensures t in LoadForPop(s, u).threads
    ensures Done(LoadForPop(s, u), t) == if u == t then Completions(s.history, t) + [CallPop] else Done(s, t)
  {
    hide Done;
    if s.first == 0 {
      Completes(s, LoadForPop(s, u), u, PopNull(u), CallPop, t);
    } else {
      assert Current(PopTry(s.version, s.first)) == [CallPop];
      GoesOn(s, LoadForPop(s, u), u, CallPop, t);
    }
  }

  lemma LoadForGrabGoesOn(s: State, u: nat, t: nat)
    requires u in s.threads && t in s.threads
    ensures t in LoadForGrab(s, u).threads
    ensures Done(LoadForGrab(s, u), t) == if u == t then Completions(s.history, t) + [CallGrab] else Done(s, t)
  {
    hide Done;
    if s.first == 0 {
      Completes(s, LoadForGrab(s, u), u, GrabNull(u), CallGrab, t);
    } else {
      assert Current(GrabTry(s.version, s.first)) == [CallGrab];
      GoesOn(s, LoadForGrab(s, u), u, CallGrab, t);
    }
  }

  /** A step of thread `u` begins a call of `u`, or goes on with it, and it may
      complete it. */
  lemma StepCompletesOrGoesOn(s: State, u: nat, a: Action, wrap: nat, t: nat)
    requires wrap > 0 && Enabled(s, u, a) && t in s.threads
    ensures var s' := Step(s, u, a, wrap);
            t in s'.threads && Done(s', t) == Done(s, t) + if u == t then Begun(a) else []
  {
    hide Completions, Matches;
    var p, s' := s.threads[u], Step(s, u, a, wrap);
    assert Begun(a) == [] ==> Done(s, t) + Begun(a) == Done(s, t);
    match a {
      case StartPop => LoadForPopGoesOn(s, u, t);
      case SwapPop(spurious) =>
        if spurious || !Matches(s, p, wrap) {
          LoadForPopGoesOn(s, u, t);
        } else {
          Completes(s, s', u, Pop(u, p.first), CallPop, t);
        }
      case ReadNext =>
        assert Current(s'.threads[u]) == [CallPop];
        GoesOn(s, s', u, CallPop, t);
      case StartPush(e) =>
        assert Current(PushTry(e, s.version, s.first)) == [CallPush(e)];
        GoesOn(s, s', u, CallPush(e), t);
      case Link =>
        assert Current(PushLinked(p.elem, p.seen, p.first)) == [CallPush(p.elem)];
        GoesOn(s, s', u, CallPush(p.elem), t);
      case SwapPush(spurious) =>
        if spurious || !Matches(s, p, wrap) {
          assert Current(PushTry(p.elem, s.version, s.first)) == [CallPush(p.elem)];
          GoesOn(s, s', u, CallPush(p.elem), t);
        } else {
          Completes(s, s', u, Push(u, p.elem), CallPush(p.elem), t);
        }
      case StartGrab => LoadForGrabGoesOn(s, u, t);
      case SwapGrab(spurious) =>
        if spurious || !Matches(s, p, wrap) {
          LoadForGrabGoesOn(s, u, t);
        } else {
          Completes(s, s', u, Grab(u, s.stack), CallGrab, t);
        }
      case Scribble(_, _) =>
    }
  }

  /** In every run and for every thread: its calls, in order, are those that its
      operations have completed, in order, and the one it is in.  So a call that
      has ended has exactly one operation, of its own kind, and a push that of
      its own element. */
  lemma {:induction false} EveryCallHasItsOperation(run: seq<State>, moves: seq<Move>, wrap: nat, k: nat, t: nat)
    requires wrap > 0 && IsRun(run, moves, wrap) && k < |run| && t in run[0].threads
    ensures t in run[k].threads
    ensures Calls(moves[..k], t) == Completions(run[k].history, t) + Current(run[k].threads[t])
  {
    if k > 0 {
      EveryCallHasItsOperation(run, moves, wrap, k - 1, t);
      var m := moves[k - 1];
      StepCompletesOrGoesOn(run[k - 1], m.t, m.a, wrap, t);
      assert moves[..k][..k - 1] == moves[..k - 1];
      hide Step, Completions, Current, Begun, Enabled;
    }
  }

  /** The same, counted: how often `t` has made a call, and operations that
      complete it. */
  lemma OneOperationPerCall(run: seq<State>, moves: seq<Move>, wrap: nat, k: nat, t: nat, call: Call)
    requires wrap > 0 && IsRun(run, moves, wrap) && k < |run| && t in run[0].threads
    ensures t in run[k].threads
    ensures var p := run[k].threads[t];
            multiset(Calls(moves[..k], t))[call] == multiset(Completions(run[k].history, t))[call] +
              match p
              case Idle => 0
              case PopTry(_, _) => if call == CallPop then 1 else 0
              case PopRead(_, _, _) => if call == CallPop then 1 else 0
              case PushTry(e, _, _) => if call == CallPush(e) then 1 else 0
              case PushLinked(e, _, _) => if call == CallPush(e) then 1 else 0
              case GrabTry(_, _) => if call == CallGrab then 1 else 0
  {
    EveryCallHasItsOperation(run, moves, wrap, k, t);
  }
}
