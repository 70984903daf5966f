/** The timing wheel of src/o2sched.cpp: 128 sorted chains, hashed by 10 ms bin,
    swept bin by bin with a 1-second catch-up.  Each chain mixes messages of
    several laps.  Every operation does what the reference queue does. */
module TimingWheel {
  import opened StableQueue

  // ---------------------------------------------------------------------
  // Bins
  // ---------------------------------------------------------------------

  const TABLE_LEN := 128

  /** The 10 ms bin of a time; a C conversion truncates toward zero. */
  function Bin(t: real): int {
    if t >= 0.0 then (t * 100.0).Floor else -((-t * 100.0).Floor)
  }

  function Slot(bin: int): (k: nat)
    ensures k < TABLE_LEN
  {
    bin % TABLE_LEN
  }

  function InSlot(k: nat): Message -> bool {
    (m: Message) => Slot(Bin(m.time)) == k
  }

  lemma BinMonotone(a: real, b: real)
    requires a <= b
    ensures Bin(a) <= Bin(b)
  {
  }

  /** One second is 100 bins at most, so it never wraps a table of 128. */
  lemma BinOfOneSecond(a: real, b: real)
    requires b <= a + 1.0
    ensures Bin(b) <= Bin(a) + 100
  {
  }

  /** Scheduling `m` puts no message behind the cursor: it is late, and what its
      handler schedules does not either; or it is refused for want of a clock; or
      its bin is not before the cursor. */
  predicate Ahead(m: Message, lastTime: real, started: bool, lastBin: int)
    decreases m, 1
  {
    if m.time <= 0.0 || m.time < lastTime then AllAhead(m.sends, lastTime, started, lastBin)
    else !started || lastBin <= Bin(m.time)
  }

  predicate AllAhead(ms: seq<Message>, lastTime: real, started: bool, lastBin: int)
    decreases ms, 0
  {
    ms == [] || (Ahead(ms[0], lastTime, started, lastBin) && AllAhead(ms[1..], lastTime, started, lastBin))
  }

  /** As long as the cursor is at the bin of the time nothing gets behind it. */
  lemma {:induction false} InStepIsAhead(m: Message, lastTime: real, started: bool)
    ensures Ahead(m, lastTime, started, Bin(lastTime))
    decreases m, 1
  {
    if m.time <= 0.0 || m.time < lastTime {
      InStepAllAhead(m.sends, lastTime, started);
    } else {
      BinMonotone(lastTime, m.time);
    }
  }

  lemma {:induction false} InStepAllAhead(ms: seq<Message>, lastTime: real, started: bool)
    ensures AllAhead(ms, lastTime, started, Bin(lastTime))
    decreases ms, 0
  {
    if ms != [] {
      InStepIsAhead(ms[0], lastTime, started);
      InStepAllAhead(ms[1..], lastTime, started);
    }
  }

  // ---------------------------------------------------------------------
  // Taking the first message of a chain
  // ---------------------------------------------------------------------

  /** Without the first message that satisfies `p`. */
  function WithoutFirst(ms: seq<Message>, p: Message -> bool): seq<Message> {
    if ms == [] then []
    else if p(ms[0]) then ms[1..]
    else [ms[0]] + WithoutFirst(ms[1..], p)
  }

  lemma {:induction false} WithoutFirstIs(ms: seq<Message>, p: Message -> bool)
    requires Sorted(ms) && Filter(ms, p) != []
    ensures Sorted(WithoutFirst(ms, p))
    ensures forall x :: x in WithoutFirst(ms, p) ==> x in ms
    ensures Weight(WithoutFirst(ms, p)) + Size(Filter(ms, p)[0]) == Weight(ms)
    ensures Filter(WithoutFirst(ms, p), p) == Filter(ms, p)[1..]
  {
    if p(ms[0]) {
      assert ([ms[0]] + Filter(ms[1..], p))[1..] == Filter(ms[1..], p);
    } else {
      var rest := WithoutFirst(ms[1..], p);
      WithoutFirstIs(ms[1..], p);
      assert ([ms[0]] + rest)[1..] == rest;
      forall k | 0 <= k < |rest| ensures ms[0].time <= rest[k].time {
        assert rest[k] in ms[1..];
      }
    }
  }

  /** Other chains stay as they are. */
  lemma {:induction false} WithoutFirstElsewhere(ms: seq<Message>, p: Message -> bool, q: Message -> bool)
    requires forall m :: !(p(m) && q(m))
    ensures Filter(WithoutFirst(ms, p), q) == Filter(ms, q)
  {
    if ms != [] && !p(ms[0]) {
      var rest := WithoutFirst(ms[1..], p);
      WithoutFirstElsewhere(ms[1..], p, q);
      assert ([ms[0]] + rest)[1..] == rest;
    }
  }

  // ---------------------------------------------------------------------
  // The wheel
  // ---------------------------------------------------------------------

  class Wheel {
    const table: array<seq<Message>>
    var lastBin: int
    var lastTime: real
    var started: bool
    ghost var entered: seq<Message>
    ghost var left: seq<Message>
    ghost var immediate: seq<Message>
    ghost var dropped: seq<Message>
    ghost var pending: seq<Message>

    /** The 128 chains are the slots of one time-ordered list. */
    ghost predicate Represents()
      reads this, table
    {
      && table.Length == TABLE_LEN
      && Sorted(pending)
      && forall k :: 0 <= k < TABLE_LEN ==> table[k] == Filter(pending, InSlot(k))
    }

    /** The cursor is not behind the time, and no message is behind the cursor. */
    ghost predicate Valid()
      reads this, table
    {
      Represents() && Bin(lastTime) <= lastBin && NoneBehind()
    }

    ghost predicate NoneBehind()
      reads this
    {
      forall m :: m in pending ==> lastBin <= Bin(m.time)
    }

    /** The cursor is at the bin of the time, as it is unless a poll went back. */
    ghost predicate InStep()
      reads this
    {
      lastBin == Bin(lastTime)
    }

    /** Nothing due by `t` is at the head of a chain that a poll would sweep. */
    ghost predicate Unseen(t: real)
      reads this, table
    {
      && table.Length == TABLE_LEN && t <= lastTime + 1.0
      && forall bin :: lastBin <= bin <= Bin(t) ==> Shows(Slot(bin), t)
    }

    /** A chain shows nothing due. */
    ghost predicate Shows(k: nat, t: real)
      reads table
      requires k < table.Length
    {
      table[k] == [] || t < table[k][0].time
    }

    ghost function View(): Queue
      reads this
    {
      Queue(pending, lastTime, started, entered, left, immediate, dropped)
    }

    constructor (startTime: real, clock: bool)
      ensures Valid() && InStep() && View() == Start(startTime, clock) && fresh(table)
    {
      table := new seq<Message>[TABLE_LEN](_ => []);
      lastBin, lastTime, started := Bin(startTime), startTime, clock;
      entered, left, immediate, dropped, pending := [], [], [], [], [];
    }

    /** `o2_sched_start`: a clock was obtained; the table is emptied. */
    method StartClock(t: real)
      requires Represents()
      modifies this, table
      ensures Valid() && InStep()
      ensures View() == old(View()).(pending := [], lastTime := t, started := true)
    {
      forall k | 0 <= k < table.Length {
        table[k] := [];
      }
      pending := [];
      lastBin, lastTime, started := Bin(t), t, true;
    }

    /** `o2_schedule`: deliver at once, refuse, or walk the chain to the first
        later message and link in front of it.  No message gets behind the
        cursor if and only if `m` is ahead of it, in the sense of `Ahead`. */
    method Schedule(m: Message)
      requires Represents()
      modifies this, table
      ensures Represents() && View() == StableQueue.Schedule(old(View()), m)
      ensures lastBin == old(lastBin)
      ensures NoneBehind() <==> old(NoneBehind()) && Ahead(m, lastTime, started, lastBin)
      decreases m, 1
    {
      if m.time <= 0.0 || m.time < lastTime {
        immediate := immediate + [m];
        React(m.sends);
        return;
      }
      if !started {
        dropped := dropped + [m];
        return;
      }
      InsertMembers(pending, m);
      Link(m);
      entered := entered + [m];
    }

    /** Walk the chain to the first later message. */
    static method InsertionPoint(chain: seq<Message>, m: Message) returns (i: nat)
      ensures i <= |chain| && chain[..i] + [m] + chain[i..] == Insert(chain, m)
    {
      hide Insert;
      i := 0;
      assert chain[0..] == chain && [] + Insert(chain, m) == Insert(chain, m);
      while i < |chain| && chain[i].time <= m.time
        invariant 0 <= i <= |chain|
        invariant Insert(chain, m) == chain[..i] + Insert(chain[i..], m)
      {
        InsertLater(chain, m, i);
        i := i + 1;
      }
      InsertHere(chain[i..], m);
      assert chain[..i] + ([m] + chain[i..]) == chain[..i] + [m] + chain[i..];
    }

    static lemma InsertLater(chain: seq<Message>, m: Message, i: nat)
      requires i < |chain| && chain[i].time <= m.time
      ensures chain[..i] + Insert(chain[i..], m) == chain[..i + 1] + Insert(chain[i + 1..], m)
    {
      assert chain[i..][1..] == chain[i + 1..];
      assert Insert(chain[i..], m) == [chain[i]] + Insert(chain[i + 1..], m);
      hide Insert;
      assert chain[..i + 1] == chain[..i] + [chain[i]];
    }

    static lemma InsertHere(chain: seq<Message>, m: Message)
      requires chain == [] || m.time < chain[0].time
      ensures Insert(chain, m) == [m] + chain
    {
    }

    /** Link a message into the chain of its bin. */
    method Link(m: Message)
      requires Represents()
      modifies table, `pending
      ensures Represents() && pending == Insert(old(pending), m)
    {
      hide Bin, Insert, Filter;
      var index := Slot(Bin(m.time));
      var chain := table[index];
      var i := InsertionPoint(chain, m);
      ghost var after := Insert(pending, m);
      InsertSorted(pending, m);
      forall k | 0 <= k < TABLE_LEN
        ensures Filter(after, InSlot(k)) == if k == index then Insert(chain, m) else table[k]
      {
        FilterInsert(pending, m, InSlot(k));
      }
      table[index] := chain[..i] + [m] + chain[i..];
      pending := after;
    }

    /** A delivered message's handler runs. */
    method React(ms: seq<Message>)
      requires Represents()
      modifies this, table
      ensures Represents() && View() == StableQueue.React(old(View()), ms)
      ensures lastBin == old(lastBin)
      ensures NoneBehind() <==> old(NoneBehind()) && AllAhead(ms, lastTime, started, lastBin)
      decreases ms, 0
    {
      if ms != [] {
        Schedule(ms[0]);
        React(ms[1..]);
      }
    }

    /** A due message at the head of the chain being swept is the earliest
        message in the whole wheel. */
    lemma HeadOfSlotIsEarliest(t: real)
      requires Represents()
      requires Bin(t) < lastBin + TABLE_LEN
      requires forall m :: m in pending && m.time <= t ==> lastBin <= Bin(m.time)
      requires var chain := table[Slot(lastBin)]; chain != [] && chain[0].time <= t
      ensures pending != [] && table[Slot(lastBin)][0] == pending[0]
      ensures Bin(pending[0].time) == lastBin
    {
      hide Bin;
      var p := InSlot(Slot(lastBin));
      var h := table[Slot(lastBin)][0];
      FilterMembers(pending, p);
      assert h in Filter(pending, p);
      BinMonotone(h.time, t);
      assert Bin(h.time) == lastBin;
      var first := pending[0];
      assert first.time <= h.time;
      assert first in pending;
      BinMonotone(first.time, h.time);
      assert Bin(first.time) == lastBin;
      assert p(first);
    }

    /** When the chain being swept shows nothing due, nothing due has this bin. */
    lemma SlotExhausted(t: real)
      requires Represents()
      requires Shows(Slot(lastBin), t)
      ensures forall m :: m in pending && m.time <= t ==> Bin(m.time) != lastBin
    {
      var p := InSlot(Slot(lastBin));
      FilterMembers(pending, p);
      forall m | m in pending && m.time <= t ensures Bin(m.time) != lastBin {
        if Bin(m.time) == lastBin {
          assert p(m) && m in Filter(pending, p);
          FirstIsEarliest(pending, p, m);
        }
      }
    }

    static lemma {:induction false} FirstIsEarliest(ms: seq<Message>, p: Message -> bool, m: Message)
      requires Sorted(ms) && m in Filter(ms, p)
      ensures Filter(ms, p)[0].time <= m.time
    {
      FilterMembers(ms, p);
      if p(ms[0]) {
        assert m in ms;
      } else {
        FirstIsEarliest(ms[1..], p, m);
      }
    }

    /** Unlinking the first message of chain `k` leaves all chains right. */
    lemma SlotsAfterPop(k: nat, other: nat)
      requires Represents() && k < TABLE_LEN && other < TABLE_LEN && table[k] != []
      ensures Filter(WithoutFirst(pending, InSlot(k)), InSlot(other))
           == if other == k then table[k][1..] else table[other]
    {
      if other == k {
        WithoutFirstIs(pending, InSlot(k));
      } else {
        WithoutFirstElsewhere(pending, InSlot(k), InSlot(other));
      }
    }

    /** `sched_dispatch`.  If no message is behind the cursor the wheel does what
        the reference does for every poll time, forward or back, and again no
        message is behind.  Whatever is behind the cursor, a poll that sees
        nothing due changes nothing but the time. */
    method Dispatch(t: real)
      requires Represents()
      modifies this, table
      ensures Represents() && lastTime == t
      ensures old(Valid()) ==> Valid() && View() == StableQueue.Dispatch(old(View()), t)
      ensures old(Valid()) && old(lastBin) <= Bin(t) ==> InStep()
      ensures old(Valid() && InStep()) ==> (InStep() <==> old(lastBin) - 1 <= Bin(t))
      ensures old(Unseen(t)) ==> View() == old(View()).(lastTime := t)
      ensures old(t <= lastTime + 1.0) ==> lastBin == if old(lastBin) <= Bin(t) then Bin(t) else old(lastBin) - 1
      decreases if lastTime + 1.0 < t then 1 else 0, 1
    {
      hide Represents, StableQueue.Dispatch, Bin, NoneBehind;
      ghost var chains, near := table[..], t <= lastTime + 1.0;
      CatchUp(t);
      assert near ==> forall k :: 0 <= k < table.Length ==> table[k] == table[..][k] == chains[k];
      Finish(t);
    }

    /** Time advances a second at a time. */
    method CatchUp(t: real)
      requires Represents()
      modifies this, table
      ensures Represents() && t <= lastTime + 1.0
      ensures old(Valid()) ==>
                && Valid() && StableQueue.Dispatch(View(), t) == StableQueue.Dispatch(old(View()), t)
                && (old(lastBin) <= Bin(t) ==> lastBin <= Bin(t))
      ensures old(Valid() && InStep()) ==> InStep() && (lastBin == old(lastBin) || old(lastBin) <= lastBin <= Bin(t))
      ensures old(t <= lastTime + 1.0) ==>
                View() == old(View()) && lastBin == old(lastBin) && table[..] == old(table[..])
      decreases if lastTime + 1.0 < t then 1 else 0, 0
    {
      hide Filter, Bin, StableQueue.Dispatch;
      ghost var ok, stepped := Valid(), Valid() && InStep();
      ghost var start := View();
      while lastTime + 1.0 < t
        invariant Represents()
        invariant ok ==>
                    && Valid() && StableQueue.Dispatch(View(), t) == StableQueue.Dispatch(start, t)
                    && (old(lastBin) <= Bin(t) ==> lastBin <= Bin(t))
        invariant stepped ==> InStep() && (lastBin == old(lastBin) || old(lastBin) <= lastBin <= Bin(t))
        invariant old(t <= lastTime + 1.0) ==>
                    View() == start && lastBin == old(lastBin) && table[..] == old(table[..])
        decreases t - lastTime
      {
        ghost var before := View();
        BinMonotone(lastTime, lastTime + 1.0);
        BinMonotone(lastTime, t);
        BinMonotone(lastTime + 1.0, t);
        DispatchInTwoSteps(before, lastTime + 1.0, t);
        Dispatch(lastTime + 1.0);
      }
    }

    /** The last second, or a poll that goes back. */
    method Finish(t: real)
      requires Represents() && t <= lastTime + 1.0
      modifies this, table
      ensures Represents() && lastTime == t
      ensures lastBin == if old(lastBin) <= Bin(t) then Bin(t) else old(lastBin) - 1
      ensures old(Valid()) ==> Valid() && View() == StableQueue.Dispatch(old(View()), t)
      ensures old(Unseen(t)) ==> View() == old(View()).(lastTime := t)
    {
      hide Filter, Bin, Shows;
      BinOfOneSecond(lastTime, t);
      ghost var ok := Valid();
      Sweep(t, Bin(t));
      if ok { NothingDue(t); }
      lastBin := lastBin - 1;
      lastTime := t;
    }

    /** The bin-by-bin sweep of `sched_dispatch`. */
    method Sweep(t: real, bin: int)
      requires Represents() && bin == Bin(t)
      modifies this, table
      ensures Represents()
      ensures lastBin == if old(lastBin) <= bin then bin + 1 else old(lastBin)
      ensures old(NoneBehind() && bin <= lastBin + 100) ==>
                && (forall m :: m in pending && m.time <= t ==> lastBin <= Bin(m.time))
                && (forall m :: m in pending ==> lastBin - 1 <= Bin(m.time))
                && StableQueue.Dispatch(View(), t) == StableQueue.Dispatch(old(View()), t)
      ensures old(Unseen(t)) ==> View() == old(View())
    {
      hide Filter, Bin;
      ghost var ok, blind := NoneBehind() && bin <= lastBin + 100, Unseen(t);
      ghost var start := View();
      while lastBin <= bin
        invariant Represents() && old(lastBin) <= lastBin
        invariant lastBin <= bin + 1 || lastBin == old(lastBin)
        invariant ok ==> forall m :: m in pending && m.time <= t ==> lastBin <= Bin(m.time)
        invariant ok ==> forall m :: m in pending ==> lastBin - 1 <= Bin(m.time)
        invariant ok ==> StableQueue.Dispatch(View(), t) == StableQueue.Dispatch(start, t)
        invariant blind ==> View() == start && forall b :: lastBin <= b <= bin ==> Shows(Slot(b), t)
        decreases bin - lastBin
      {
        SweepBin(t, bin);
        SlotExhausted(t);
        forall m | m in pending && ok ensures lastBin <= Bin(m.time) {
          if t < m.time { BinMonotone(t, m.time); }
        }
        lastBin := lastBin + 1;
      }
    }

    /** Deliver what is due in the chain of the current bin. */
    method SweepBin(t: real, bin: int)
      requires Represents() && lastBin <= bin == Bin(t)
      modifies this, table
      ensures Represents() && lastBin == old(lastBin)
      ensures Shows(Slot(lastBin), t)
      ensures old(bin < lastBin + TABLE_LEN && forall m :: m in pending && m.time <= t ==> lastBin <= Bin(m.time)) ==>
                && (forall m :: m in pending && m.time <= t ==> lastBin <= Bin(m.time))
                && StableQueue.Dispatch(View(), t) == StableQueue.Dispatch(old(View()), t)
      ensures old(Shows(Slot(lastBin), t)) ==> View() == old(View()) && table[..] == old(table[..])
    {
      hide Filter, Bin, PopHead;
      ghost var ok := bin < lastBin + TABLE_LEN && forall m :: m in pending && m.time <= t ==> lastBin <= Bin(m.time);
      ghost var start, chains := View(), table[..];
      var index := Slot(lastBin);
      while table[index] != [] && table[index][0].time <= t
        invariant Represents() && lastBin == old(lastBin)
        invariant ok ==> forall m :: m in pending && m.time <= t ==> lastBin <= Bin(m.time)
        invariant ok ==> StableQueue.Dispatch(View(), t) == StableQueue.Dispatch(start, t)
        invariant old(Shows(Slot(lastBin), t)) ==> View() == start && table[..] == chains
        decreases Weight(pending)
      {
        ghost var before := View();
        if ok {
          HeadOfSlotIsEarliest(t);
          forall m | m in pending ensures lastBin <= Bin(m.time) {
            if t < m.time { BinMonotone(t, m.time); }
          }
        }
        DeliverFirst();
        assert ok ==> View() == PopHead(before);
      }
    }

    /** The first message of the chain of the current bin is unlinked, and its
        handler runs. */
    method DeliverFirst()
      requires Represents() && table[Slot(lastBin)] != []
      modifies this, table
      ensures Represents() && lastBin == old(lastBin) && Weight(pending) < Weight(old(pending))
      ensures var m, q := old(table[Slot(lastBin)][0]), old(View());
              View() == StableQueue.React(q.(pending := WithoutFirst(q.pending, InSlot(Slot(lastBin))),
                                             lastTime := m.time, left := q.left + [m]), m.sends)
      ensures old(NoneBehind() && pending != []) &&
              old(pending[0] == table[Slot(lastBin)][0] && Bin(pending[0].time) == lastBin)
              ==> NoneBehind() && View() == PopHead(old(View()))
    {
      hide Filter, Bin;
      var m := Unlink();
      lastTime := m.time;
      left := left + [m];
      InStepAllAhead(m.sends, lastTime, started);
      React(m.sends);
    }

    /** Take the first message out of the chain of the current bin. */
    method Unlink() returns (m: Message)
      requires Represents() && table[Slot(lastBin)] != []
      modifies table, `pending
      ensures Represents() && m == old(table[Slot(lastBin)][0])
      ensures pending == WithoutFirst(old(pending), InSlot(Slot(lastBin)))
      ensures Weight(pending) + Size(m) == Weight(old(pending)) && forall x :: x in pending ==> x in old(pending)
      ensures old(pending) != [] && InSlot(Slot(lastBin))(old(pending)[0]) ==> pending == old(pending)[1..]
    {
      var index := Slot(lastBin);
      WithoutFirstIs(pending, InSlot(index));
      ghost var rest := WithoutFirst(pending, InSlot(index));
      forall k | 0 <= k < TABLE_LEN
        ensures Filter(rest, InSlot(k)) == if k == index then table[k][1..] else table[k]
      {
        SlotsAfterPop(index, k);
      }
      m := table[index][0];
      table[index] := table[index][1..];
      pending := rest;
    }

    lemma NothingDue(t: real)
      requires Bin(t) < lastBin
      requires forall m :: m in pending && m.time <= t ==> lastBin <= Bin(m.time)
      ensures StableQueue.Dispatch(View(), t) == View().(lastTime := t)
    {
      if pending != [] && pending[0].time <= t {
        assert pending[0] in pending;
        BinMonotone(pending[0].time, t);
      }
    }
  }

  /** What a poll that goes back can do: from 10.0 the wheel is polled at 9.5, a
      message is scheduled for 9.6, which is not late, and polls at 10.0 and
      10.87 leave it where it is.  The reference delivers it at 10.0. */
  method ScheduledBehindTheCursor(id: nat) returns (wheel: Wheel)
    ensures fresh(wheel) && wheel.Represents() && wheel.lastTime == 10.87
    ensures var m := Message(id, 9.6, []);
            && wheel.pending == [m] && wheel.left == []
            && var q := StableQueue.Run(Start(10.0, true), [Poll(9.5), Arrive(m), Poll(10.0)]);
               q.pending == [] && q.left == [m]
  {
    hide Wheel.Represents, Wheel.Shows, Slot;
    var m := Message(id, 9.6, []);
    BinsOfExample();
    hide Bin;
    wheel := new Wheel(10.0, true);
    wheel.Dispatch(9.5);
    NothingPending(Start(10.0, true), 9.5);
    wheel.Schedule(m);
    assert wheel.pending == [m];
    OnlyMessage(wheel, m, 10.0);
    wheel.Dispatch(10.0);
    OnlyMessage(wheel, m, 10.87);
    wheel.Dispatch(10.87);
    ReferenceDelivers(m);
  }

  lemma BinsOfExample()
    ensures Bin(10.0) == 1000 && Bin(9.5) == 950 && Bin(9.6) == 960 && Bin(10.87) == 1087
    ensures forall bin :: 999 <= bin <= 1087 ==> Slot(bin) != Slot(960)
  {
  }

  lemma NothingPending(q: Queue, t: real)
    requires q.pending == []
    ensures StableQueue.Dispatch(q, t) == q.(lastTime := t)
  {
  }

  /** A message is seen only when a bin of its own slot is swept. */
  lemma OnlyMessage(wheel: Wheel, m: Message, t: real)
    requires wheel.Represents() && wheel.pending == [m] && t <= wheel.lastTime + 1.0
    requires forall bin :: wheel.lastBin <= bin <= Bin(t) ==> Slot(bin) != Slot(Bin(m.time))
    ensures wheel.Unseen(t)
  {
    forall bin | wheel.lastBin <= bin <= Bin(t) ensures wheel.Shows(Slot(bin), t) {
      assert wheel.table[Slot(bin)] == Filter([m], InSlot(Slot(bin)));
      assert [m][1..] == [];
    }
  }

  lemma ReferenceDelivers(m: Message)
    requires m.time == 9.6 && m.sends == []
    ensures var q := StableQueue.Run(Start(10.0, true), [Poll(9.5), Arrive(m), Poll(10.0)]);
            q.pending == [] && q.left == [m]
  {
    var q0 := Start(10.0, true);
    var q1 := StableQueue.Dispatch(q0, 9.5);
    NothingPending(q0, 9.5);
    var q2 := StableQueue.Schedule(q1, m);
    assert q2.pending == [m] && [m][1..] == [];
    var q3 := PopHead(q2);
    NothingPending(q3, 10.0);
    var q4 := StableQueue.Dispatch(q2, 10.0);
    assert q4 == q3.(lastTime := 10.0);
    var ops := [Poll(9.5), Arrive(m), Poll(10.0)];
    assert StableQueue.Run(q4, []) == q4;
    assert StableQueue.Run(q2, [Poll(10.0)]) == q4 by { assert [Poll(10.0)][1..] == []; }
    assert StableQueue.Run(q1, ops[1..]) == q4 by { assert ops[1..][1..] == [Poll(10.0)]; }
    assert StableQueue.Run(q0, ops) == q4;
  }
}
