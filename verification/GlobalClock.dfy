/** The global clock of src/clock.cpp: a line through a base point, bent a
    little to catch up with the reference, never turned back.  Times are real
    numbers. */
module GlobalClock {
  import opened Common

  /** A scheduled call of the catch-up handler. */
  datatype CatchUp = CatchUp(time: real, id: int)

  /** `now` is the local time of the last event; `pending` are the catch-ups in
      the local scheduler. */
  datatype Clock = Clock(
    localBase: real, globalBase: real, rate: real, rateId: int,
    pending: seq<CatchUp>, now: real)

  /** `LOCAL_TO_GLOBAL`. */
  function LocalToGlobal(globalBase: real, localBase: real, rate: real, t: real): real {
    globalBase + (t - localBase) * rate
  }

  function Global(c: Clock, t: real): real {
    LocalToGlobal(c.globalBase, c.localBase, c.rate, t)
  }

  /** How far the reference is ahead of the clock. */
  function Advance(c: Clock, local: real, newRef: real): real {
    newRef - Global(c, local)
  }

  /** `set_clock`.  `handled` is what a jump callback, if any, returns. */
  function Adjusted(c: Clock, local: real, newRef: real, handled: bool): Clock {
    var advance := Advance(c, local, newRef);
    var id := c.rateId + 1;
    var base := c.(localBase := local, globalBase := Global(c, local), rateId := id, now := local);
    if advance > 1.0 then
      if handled then base else base.(rate := 1.0, globalBase := newRef)
    else if advance > 0.0 then
      base.(rate := 1.1, pending := c.pending + [CatchUp(local + advance * 10.0, id)])
    else if advance > -1.0 then
      base.(rate := 0.9, pending := c.pending + [CatchUp(local + advance * -10.0, id)])
    else
      if handled then base else base.(rate := 0.0)
  }

  function Without(s: seq<CatchUp>, k: nat): seq<CatchUp>
    requires k < |s|
  {
    s[..k] + s[k + 1..]
  }

  /** `catch_up_handler` for the pending call `k`, taking effect at its
      timestamp. */
  function RunCatchUp(c: Clock, k: nat): Clock
    requires k < |c.pending|
  {
    var e := c.pending[k];
    var c' := c.(pending := Without(c.pending, k), now := e.time);
    if e.id != c.rateId then c'
    else c'.(globalBase := Global(c, e.time), localBase := e.time, rate := 1.0)
  }

  // ---------------------------------------------------------------------
  // Runs
  // ---------------------------------------------------------------------

  datatype Event = Sync(local: real, newRef: real, handled: bool) | Catch(k: nat)

  /** Local time goes forward, and the scheduler runs catch-ups on time. */
  ghost predicate Allowed(c: Clock, e: Event) {
    match e
    case Sync(local, _, _) => c.now <= local && forall i :: 0 <= i < |c.pending| ==> local <= c.pending[i].time
    case Catch(k) => k < |c.pending| && forall i :: 0 <= i < |c.pending| ==> c.pending[k].time <= c.pending[i].time
  }

  function Step(c: Clock, e: Event): Clock
    requires e.Catch? ==> e.k < |c.pending|
  {
    match e
    case Sync(local, newRef, handled) => Adjusted(c, local, newRef, handled)
    case Catch(k) => RunCatchUp(c, k)
  }

  predicate RateOk(r: real) {
    r == 0.0 || r == 0.9 || r == 1.0 || r == 1.1
  }

  ghost predicate Inv(c: Clock) {
    && RateOk(c.rate) && c.localBase <= c.now
    && (forall i :: 0 <= i < |c.pending| ==> c.now <= c.pending[i].time && c.pending[i].id <= c.rateId)
    && (forall i, j :: 0 <= i < j < |c.pending| ==> c.pending[i].id < c.pending[j].id)
  }

  lemma StepKeepsInv(c: Clock, e: Event)
    requires Inv(c) && Allowed(c, e)
    ensures Inv(Step(c, e))
  {
    hide Global, Inv;
    match e
    case Sync(local, newRef, handled) => SyncKeepsInv(c, local, newRef, handled);
    case Catch(k) => CatchKeepsInv(c, k);
  }

  lemma SyncKeepsInv(c: Clock, local: real, newRef: real, handled: bool)
    requires Inv(c) && Allowed(c, Sync(local, newRef, handled))
    ensures Inv(Adjusted(c, local, newRef, handled))
  {
    hide Global;
  }

  lemma CatchKeepsInv(c: Clock, k: nat)
    requires Inv(c) && Allowed(c, Catch(k))
    ensures Inv(RunCatchUp(c, k))
  {
    hide Global;
  }

  lemma GlobalMonotone(c: Clock, t: real, u: real)
    requires RateOk(c.rate) && t <= u
    ensures Global(c, t) <= Global(c, u)
  {
    assert (u - c.localBase) * c.rate - (t - c.localBase) * c.rate == (u - t) * c.rate;
  }

  /** An event never sets the clock back, and moves it only to jump ahead by
      more than a second. */
  lemma StepNeverGoesBack(c: Clock, e: Event)
    requires Inv(c) && Allowed(c, e)
    ensures var c' := Step(c, e);
            && c.now <= c'.now
            && Global(c, c'.now) <= Global(c', c'.now)
            && (Global(c, c'.now) == Global(c', c'.now) ||
                (e.Sync? && !e.handled && Advance(c, e.local, e.newRef) > 1.0 && Global(c', c'.now) == e.newRef))
  {
    var c' := Step(c, e);
    if e.Sync? || c.pending[e.k].id == c.rateId {
      GlobalAtBase(c');
    } else {
      assert Global(c', c'.now) == Global(c, c'.now);
    }
  }

  lemma GlobalAtBase(c: Clock)
    ensures Global(c, c.localBase) == c.globalBase
  {
  }

  /** `run[i]` becomes `run[i + 1]` by `events[i]`. */
  ghost predicate IsRun(run: seq<Clock>, events: seq<Event>) {
    && |run| == |events| + 1
    && Inv(run[0])
    && forall i :: 0 <= i < |events| ==> Allowed(run[i], events[i]) && run[i + 1] == Step(run[i], events[i])
  }

  lemma {:induction false} RunKeepsInv(run: seq<Clock>, events: seq<Event>, k: nat)
    requires IsRun(run, events) && k < |run|
    ensures Inv(run[k])
  {
    if k > 0 {
      RunKeepsInv(run, events, k - 1);
      StepKeepsInv(run[k - 1], events[k - 1]);
    }
  }

  /** Global time read at a local time `t` between events i and i + 1 is never
      more than when it is read at a later time `u` after event j. */
  lemma {:induction false} GlobalTimeNeverDecreases(run: seq<Clock>, events: seq<Event>, i: nat, j: nat, t: real,
                                                    u: real)
    requires IsRun(run, events) && i <= j < |run|
    requires run[i].now <= t <= u && run[j].now <= u
    requires i < j ==> t <= run[i + 1].now
    ensures Global(run[i], t) <= Global(run[j], u)
    decreases j - i
  {
    hide Global, Step, Allowed, Inv;
    RunKeepsInv(run, events, i);
    RateIsOk(run[i]);
    if i == j {
      GlobalMonotone(run[i], t, u);
    } else {
      var next := run[i + 1].now;
      StepNeverGoesBack(run[i], events[i]);
      GlobalMonotone(run[i], t, next);
      NowMonotone(run, events, i + 1, j);
      GlobalTimeNeverDecreases(run, events, i + 1, j, next, u);
    }
  }

  lemma RateIsOk(c: Clock)
    requires Inv(c)
    ensures RateOk(c.rate)
  {
  }

  lemma {:induction false} NowMonotone(run: seq<Clock>, events: seq<Event>, i: nat, j: nat)
    requires IsRun(run, events) && i <= j < |run|
    ensures run[i].now <= run[j].now
    ensures i < j ==> run[i].now <= run[i + 1].now
    decreases j - i
  {
    hide Step, Allowed, Inv, Global;
    if i < j {
      RunKeepsInv(run, events, i);
      StepNeverGoesBack(run[i], events[i]);
      NowMonotone(run, events, i + 1, j);
    }
  }

  // ---------------------------------------------------------------------
  // Catching up
  // ---------------------------------------------------------------------

  /** After a small correction the clock approaches the reference line at a
      tenth of a second per second, from the side it was on, and does not move
      at the moment of the correction. */
  lemma ApproachesReference(c: Clock, local: real, newRef: real, handled: bool, t: real)
    requires -1.0 < Advance(c, local, newRef) <= 1.0
    requires local <= t <= local + 10.0 * Abs(Advance(c, local, newRef))
    ensures var a := Advance(c, local, newRef);
            var c' := Adjusted(c, local, newRef, handled);
            && Global(c', local) == Global(c, local)
            && newRef + (t - local) - Global(c', t)
               == if a > 0.0 then a - (t - local) / 10.0 else a + (t - local) / 10.0
  {
    var a := Advance(c, local, newRef);
    var c' := Adjusted(c, local, newRef, handled);
    if a > 0.0 {
      assert (t - local) * 1.1 == (t - local) + (t - local) / 10.0;
    } else {
      assert (t - local) * 0.9 == (t - local) - (t - local) / 10.0;
    }
  }

  /** When its catch-up runs, exactly 10 |advance| seconds later, the clock is on
      the reference line and from then on stays there. */
  lemma LandsOnReference(c: Clock, local: real, newRef: real, handled: bool, t: real)
    requires -1.0 < Advance(c, local, newRef) <= 1.0
    ensures var a := Advance(c, local, newRef);
            var c' := Adjusted(c, local, newRef, handled);
            && |c'.pending| == |c.pending| + 1
            && c'.pending[|c.pending|] == CatchUp(local + 10.0 * Abs(a), c'.rateId)
            && Global(RunCatchUp(c', |c.pending|), t) == newRef + (t - local)
  {
    var a := Advance(c, local, newRef);
    var land := local + 10.0 * Abs(a);
    ApproachesReference(c, local, newRef, handled, land);
  }

  /** What is read after a correction, until the next event, for any advance of
      the reference.  More than a second ahead: the reference at once, unless the
      jump is handled.  A second behind or more: the clock stands still, unless
      the jump is handled.  A handled jump changes nothing; a small advance is
      made up for by a tenth. */
  lemma ReadingsAfterCorrection(c: Clock, local: real, newRef: real, handled: bool, t: real)
    ensures var a, c' := newRef - Global(c, local), Adjusted(c, local, newRef, handled);
            && (a > 1.0 && !handled ==> Global(c', t) == newRef + (t - local) && c'.pending == c.pending)
            && (a <= -1.0 && !handled ==> Global(c', t) == Global(c, local) && c'.pending == c.pending)
            && ((a > 1.0 || a <= -1.0) && handled ==> Global(c', t) == Global(c, t) && c'.pending == c.pending)
            && (0.0 < a <= 1.0 ==> Global(c', t) == Global(c, local) + (t - local) * 1.1)
            && (-1.0 < a <= 0.0 ==> Global(c', t) == Global(c, local) + (t - local) * 0.9)
  {
    ReadingSplits(c, local, t - local);
    var c' := Adjusted(c, local, newRef, handled);
    ReadingSplits(c', local, t - local);
    GlobalAtBase(c');
    assert Times(t - local, 1.0) == t - local && Times(t - local, 0.0) == 0.0;
    hide Global;
  }

  /** A catch-up from before the last `set_clock` does nothing, and of all the
      pending ones only the last can be current. */
  lemma CancelledCatchUpDoesNothing(c: Clock, k: nat, t: real)
    requires Inv(c) && k < |c.pending| && c.pending[k].id != c.rateId
    ensures Global(RunCatchUp(c, k), t) == Global(c, t)
    ensures RunCatchUp(c, k).rate == c.rate && RunCatchUp(c, k).rateId == c.rateId
  {
  }

  lemma SetClockCancels(c: Clock, local: real, newRef: real, handled: bool, k: nat)
    requires Inv(c) && k < |c.pending|
    ensures var c' := Adjusted(c, local, newRef, handled);
            k < |c'.pending| && c'.pending[k] == c.pending[k] && c'.pending[k].id != c'.rateId
  {
    hide Global;
  }

  /** If a catch-up runs late, readings taken after its timestamp are revised:
      the clock goes back if and only if it was running fast, by a tenth of the
      delay. */
  lemma LateCatchUp(c: Clock, k: nat, u: real)
    requires Inv(c) && k < |c.pending| && c.pending[k].id == c.rateId
    requires c.pending[k].time <= u
    ensures Global(RunCatchUp(c, k), u) < Global(c, u) <==> c.rate == 1.1 && c.pending[k].time < u
    ensures c.rate == 1.1 ==>
              Global(c, u) - Global(RunCatchUp(c, k), u) == (u - c.pending[k].time) / 10.0
  {
    hide RateOk, Global;
    var e := c.pending[k];
    var c' := RunCatchUp(c, k);
    var late := u - e.time;
    ReadingSplits(c, e.time, late);
    ReadingSplits(c', e.time, late);
    GlobalAtBase(c');
    assert Times(late, 1.0) == late;
    hide Times;
    GainWhenLate(c.rate, late);
  }

  /** For instance: at 1 the reference is found half a second ahead; the
      catch-up is due at 6 and runs at 7, and the clock goes back by 0.1. */
  lemma LateCatchUpHappens(handled: bool)
    ensures var c := Adjusted(Clock(0.0, 0.0, 1.0, 0, [], 0.0), 1.0, 1.5, handled);
            && Inv(c) && c.pending == [CatchUp(6.0, c.rateId)]
            && Global(c, 7.0) - Global(RunCatchUp(c, 0), 7.0) == 0.1
  {
    var start := Clock(0.0, 0.0, 1.0, 0, [], 0.0);
    StepKeepsInv(start, Sync(1.0, 1.5, handled));
    LateCatchUp(Adjusted(start, 1.0, 1.5, handled), 0, 7.0);
  }

  function Times(x: real, y: real): real {
    x * y
  }

  lemma ReadingSplits(c: Clock, t: real, late: real)
    ensures Global(c, t + late) == Global(c, t) + Times(late, c.rate)
  {
    assert (t + late - c.localBase) * c.rate == (t - c.localBase) * c.rate + late * c.rate;
  }

  lemma GainWhenLate(rate: real, late: real)
    requires RateOk(rate) && 0.0 <= late
    ensures late < Times(late, rate) <==> rate == 1.1 && 0.0 < late
    ensures rate == 1.1 ==> Times(late, rate) - late == late / 10.0
  {
    assert late * 1.1 == late + late / 10.0;
    assert late * 0.9 == late - late / 10.0;
  }

  // ---------------------------------------------------------------------
  // The program's variables
  // ---------------------------------------------------------------------

  class ClockVariables {
    var localTimeBase: real
    var globalTimeBase: real
    var clockRate: real
    var clockRateId: int
    /** Catch-up messages in the local scheduler. */
    var scheduled: seq<CatchUp>
    ghost var now: real

    ghost function View(): Clock
      reads this
    {
      Clock(localTimeBase, globalTimeBase, clockRate, clockRateId, scheduled, now)
    }

    /** `o2_clock_synchronized`: the first estimate. */
    constructor (localTime: real, refTime: real)
      ensures View() == Clock(localTime, refTime, 1.0, 0, [], localTime) && Inv(View())
    {
      localTimeBase, globalTimeBase, clockRate, clockRateId := localTime, refTime, 1.0, 0;
      scheduled, now := [], localTime;
    }

    method SetClock(localTime: real, newRef: real, handled: bool)
      modifies this
      ensures View() == Adjusted(old(View()), localTime, newRef, handled)
    {
      hide LocalToGlobal;
      globalTimeBase := LocalToGlobal(globalTimeBase, localTimeBase, clockRate, localTime);
      localTimeBase := localTime;
      now := localTime;
      var clockAdvance := newRef - globalTimeBase;
      clockRateId := clockRateId + 1;
      if clockAdvance > 1.0 {
        if !handled {
          clockRate := 1.0;
          globalTimeBase := newRef;
        }
      } else if clockAdvance > 0.0 {
        clockRate := 1.1;
        WillCatchUpAfter(clockAdvance * 10.0);
      } else if clockAdvance > -1.0 {
        clockRate := 0.9;
        WillCatchUpAfter(clockAdvance * -10.0);
      } else {
        if !handled {
          clockRate := 0.0;
        }
      }
    }

    method WillCatchUpAfter(delay: real)
      modifies `scheduled
      ensures scheduled == old(scheduled) + [CatchUp(localTimeBase + delay, clockRateId)]
    {
      scheduled := scheduled + [CatchUp(localTimeBase + delay, clockRateId)];
    }

    method CatchUpHandler(k: nat)
      requires k < |scheduled|
      modifies this
      ensures View() == RunCatchUp(old(View()), k)
    {
      hide LocalToGlobal;
      var msg := scheduled[k];
      scheduled := scheduled[..k] + scheduled[k + 1..];
      now := msg.time;
      if msg.id != clockRateId {
        return;
      }
      globalTimeBase := LocalToGlobal(globalTimeBase, localTimeBase, clockRate, msg.time);
      localTimeBase := msg.time;
      clockRate := 1.0;
    }
  }
}
