/** Clock synchronization by round trips, src/clock.cpp: pings with serial
    numbers, a ring of the last five accepted replies, and the choice of the
    reply with the shortest round trip. */
module ClockSync {
  import opened Common

  const HISTORY_LEN := 5

  /** Round-trip time and estimated reference minus local, of an accepted reply. */
  datatype Sample = Sample(rtt: real, offset: real)

  // ---------------------------------------------------------------------
  // One round trip
  // ---------------------------------------------------------------------

  /** The serial number of the last ping, the send time that is noted for it,
      and the time at which it was really sent. */
  datatype Ping = Ping(id: int, sent: real, issued: real)

  /** `o2_ping_send_handler` at local time `now`: when the clock service is not
      known the send time is noted, but no ping goes out. */
  function Pinged(p: Ping, now: real, csKnown: bool): Ping {
    if csKnown then Ping(p.id + 1, now, now) else p.(sent := now)
  }

  /** An accepted reply: to which ping, when the reference was read, and when
      the reply arrived, in local time. */
  datatype Reply = Reply(ping: Ping, read: real, arrived: real)

  /** A reply comes after its ping, and the reference is read in between. */
  predicate Causal(r: Reply) {
    r.ping.issued <= r.ping.sent && r.ping.issued <= r.read <= r.arrived
  }

  /** The estimate of `cs_ping_reply_handler` from reference time `refTime`. */
  function Estimate(sent: real, refTime: real, now: real): Sample {
    var rtt := now - sent;
    Sample(rtt, refTime + rtt * 0.5 - now)
  }

  /** With clocks of equal rate the reference read at local time `read` shows
      `read + offset`. */
  function SampleOf(r: Reply, offset: real): Sample {
    Estimate(r.ping.sent, r.read + offset, r.arrived)
  }

  predicate Accurate(s: Sample, offset: real) {
    Abs(s.offset - offset) <= s.rtt * 0.5
  }

  /** A reply's estimate is within half its round trip of the true offset if and
      only if the send time noted is not after the reading. */
  lemma AccurateIff(r: Reply, offset: real)
    requires Causal(r)
    ensures Accurate(SampleOf(r, offset), offset) <==> r.ping.sent <= r.read
  {
  }

  /** While the clock service is known every reply is accurate. */
  lemma KnownServiceIsAccurate(p: Ping, now: real, read: real, arrived: real, offset: real)
    requires now <= read <= arrived
    ensures Accurate(SampleOf(Reply(Pinged(p, now, true), read, arrived), offset), offset)
  {
  }

  /** A ping at `t`, then the service is unknown at `u`, then the reply to the
      ping arrives: it is accepted, for the serial number is the same, and its
      estimate is off by more than half its apparent round trip if and only if
      the reference was read before `u`. */
  lemma MovedSendTime(p: Ping, t: real, u: real, read: real, arrived: real, offset: real)
    requires t <= read <= arrived && t <= u <= arrived
    ensures var sent := Pinged(p, t, true);
            var moved := Pinged(sent, u, false);
            && moved.id == sent.id && Causal(Reply(moved, read, arrived))
            && (!Accurate(SampleOf(Reply(moved, read, arrived), offset), offset) <==> read < u)
  {
  }

  /** For instance: sent at 0, read at 0.1, service unknown at 0.2, reply at 0.3.
      The apparent round trip is 0.1, and the estimate is off by 0.15. */
  lemma MovedSendTimeHappens(p: Ping, offset: real)
    ensures var r := Reply(Pinged(Pinged(p, 0.0, true), 0.2, false), 0.1, 0.3);
            && Causal(r) && SampleOf(r, offset) == Sample(0.1, offset - 0.15)
            && !Accurate(SampleOf(r, offset), offset)
  {
  }

  // ---------------------------------------------------------------------
  // The program's variables
  // ---------------------------------------------------------------------

  class Synchronizer {
    var clockSyncId: int
    var clockSyncSendTime: real
    var pingReplyCount: nat
    const roundTripTime: array<real>
    const refMinusLocal: array<real>
    var minRtt: real
    var meanRtt: real
    /** Reference time minus local time. */
    ghost const offset: real
    /** When the current serial number was sent out. */
    ghost var issued: real
    /** Every accepted reply, oldest first. */
    ghost var replies: seq<Reply>
    /** The clock service was known whenever a ping was due. */
    ghost var alwaysKnown: bool

    ghost function CurrentPing(): Ping
      reads `clockSyncId, `clockSyncSendTime, `issued
    {
      Ping(clockSyncId, clockSyncSendTime, issued)
    }

    ghost function Slot(i: nat): Sample
      reads this, roundTripTime, refMinusLocal
      requires roundTripTime.Length == refMinusLocal.Length == HISTORY_LEN
    {
      Sample(roundTripTime[i % HISTORY_LEN], refMinusLocal[i % HISTORY_LEN])
    }

    ghost predicate RingOk()
      reads this, roundTripTime, refMinusLocal
    {
      && roundTripTime != refMinusLocal
      && roundTripTime.Length == refMinusLocal.Length == HISTORY_LEN
      && pingReplyCount == |replies|
      && forall i {:trigger replies[i]} :: 0 <= i < |replies| && |replies| - HISTORY_LEN <= i ==>
           Slot(i) == SampleOf(replies[i], offset)
    }

    /** The ring holds exactly the last five accepted replies.  Send times are
        those of the pings as long as the service is known. */
    ghost predicate Valid()
      reads this, roundTripTime, refMinusLocal
    {
      && RingOk()
      && issued <= clockSyncSendTime
      && (forall i :: 0 <= i < |replies| ==> Causal(replies[i]))
      && (alwaysKnown ==> clockSyncSendTime == issued)
      && (alwaysKnown ==> forall i :: 0 <= i < |replies| ==> replies[i].ping.sent == replies[i].ping.issued)
    }

    constructor (ghost offset: real, now: real)
      ensures Valid() && replies == [] && alwaysKnown && this.offset == offset
      ensures CurrentPing() == Ping(0, now, now)
      ensures fresh(roundTripTime) && fresh(refMinusLocal)
    {
      clockSyncId, clockSyncSendTime, pingReplyCount, minRtt, meanRtt := 0, now, 0, 0.0, 0.0;
      roundTripTime, refMinusLocal := new real[HISTORY_LEN], new real[HISTORY_LEN];
      this.offset, issued, replies, alwaysKnown := offset, now, [], true;
    }

    /** `o2_ping_send_handler`; local time goes forward. */
    method PingSend(now: real, csKnown: bool)
      requires Valid() && clockSyncSendTime <= now
      modifies `clockSyncId, `clockSyncSendTime, `issued, `alwaysKnown
      ensures Valid() && CurrentPing() == Pinged(old(CurrentPing()), now, csKnown)
      ensures alwaysKnown == (old(alwaysKnown) && csKnown)
    {
      alwaysKnown := alwaysKnown && csKnown;
      clockSyncSendTime := now;
      if !csKnown {
        return;
      }
      clockSyncId := clockSyncId + 1;
      issued := now;
    }

    /** One of the last five replies, whose round trip is the shortest of them. */
    ghost predicate Chosen(i: nat)
      reads this
    {
      && i < |replies| && |replies| - HISTORY_LEN <= i
      && SampleOf(replies[i], offset).rtt == minRtt
      && forall j :: 0 <= j < |replies| && |replies| - HISTORY_LEN <= j ==> minRtt <= SampleOf(replies[j], offset).rtt
    }

    /** `cs_ping_reply_handler`, for a reply with the reference's reading of
        local time `read`.  A reply to any but the last ping is ignored.  From
        the fifth accepted reply on there is a new reference time, from the one
        with the shortest round trip of the last five.  It is within half that
        round trip of the true reference time if and only if the send time
        noted for that reply was not after the reading, and so always if the
        clock service was known whenever a ping was due. */
    method PingReply(id: int, refTime: real, now: real, ghost read: real)
      returns (newRef: Option<real>, ghost chosen: nat)
      requires Valid()
      requires id == clockSyncId ==> refTime == read + offset && issued <= read <= now
      modifies `pingReplyCount, `minRtt, `meanRtt, `replies, roundTripTime, refMinusLocal
      ensures Valid()
      ensures id != clockSyncId ==> newRef == None && replies == old(replies)
      ensures id == clockSyncId ==> replies == old(replies) + [Reply(CurrentPing(), read, now)]
      ensures newRef.Some? <==> id == clockSyncId && |replies| >= HISTORY_LEN
      ensures newRef.Some? ==> Chosen(chosen) && newRef.value == now + SampleOf(replies[chosen], offset).offset
      ensures newRef.Some? ==>
                && minRtt == replies[chosen].arrived - replies[chosen].ping.sent
                && forall j :: |replies| - 5 <= j < |replies| ==> minRtt <= replies[j].arrived - replies[j].ping.sent
      ensures newRef.Some? ==>
                (Abs(newRef.value - (now + offset)) <= minRtt * 0.5
                 <==> replies[chosen].ping.sent <= replies[chosen].read)
      ensures newRef.Some? && alwaysKnown ==> Abs(newRef.value - (now + offset)) <= minRtt * 0.5
    {
      newRef, chosen := None, 0;
      if id != clockSyncId {
        return;
      }
      var rtt := now - clockSyncSendTime;
      var refNow := refTime + rtt * 0.5;
      Record(rtt, refNow - now, read, now);
      if pingReplyCount >= HISTORY_LEN {
        var best;
        best, chosen := Best();
        newRef := Some(now + refMinusLocal[best]);
        AccurateIff(replies[chosen], offset);
      }
    }

    method Record(rtt: real, refOffset: real, ghost read: real, ghost now: real)
      requires Valid()
      requires Sample(rtt, refOffset) == SampleOf(Reply(CurrentPing(), read, now), offset) && issued <= read <= now
      modifies `pingReplyCount, `replies, roundTripTime, refMinusLocal
      ensures Valid() && replies == old(replies) + [Reply(CurrentPing(), read, now)]
    {
      hide SampleOf;
      var i := pingReplyCount % HISTORY_LEN;
      roundTripTime[i] := rtt;
      refMinusLocal[i] := refOffset;
      pingReplyCount := pingReplyCount + 1;
      replies := replies + [Reply(CurrentPing(), read, now)];
    }

    /** Which of the accepted replies a slot of a full ring holds. */
    ghost function Index(slot: nat): (i: nat)
      reads `replies
      requires |replies| >= HISTORY_LEN && slot < HISTORY_LEN
      ensures |replies| - HISTORY_LEN <= i < |replies| && i % HISTORY_LEN == slot
    {
      var last := |replies| - 1;
      last - (last - slot) % HISTORY_LEN
    }

    /** The search for the minimum round-trip time. */
    method Best() returns (best: nat, ghost chosen: nat)
      requires Valid() && |replies| >= HISTORY_LEN
      modifies `minRtt, `meanRtt
      ensures Valid() && best < HISTORY_LEN
      ensures Chosen(chosen) && refMinusLocal[best] == SampleOf(replies[chosen], offset).offset
      ensures meanRtt * 5.0 ==
              roundTripTime[0] + roundTripTime[1] + roundTripTime[2] + roundTripTime[3] + roundTripTime[4]
    {
      hide SampleOf, Causal;
      minRtt := roundTripTime[0];
      meanRtt := minRtt;
      best := 0;
      var i := 1;
      while i < HISTORY_LEN
        invariant 1 <= i <= HISTORY_LEN && best < i && Valid()
        invariant minRtt == roundTripTime[best]
        invariant forall j :: 0 <= j < i ==> minRtt <= roundTripTime[j]
        invariant meanRtt == Sum(roundTripTime[..], i)
      {
        meanRtt := meanRtt + roundTripTime[i];
        if roundTripTime[i] < minRtt {
          minRtt := roundTripTime[i];
          best := i;
        }
        i := i + 1;
      }
      SumOfFive(roundTripTime[..]);
      meanRtt := meanRtt / 5.0;
      chosen := Index(best);
      assert SampleOf(replies[chosen], offset) == Slot(chosen);
      forall j | 0 <= j < |replies| && |replies| - HISTORY_LEN <= j
        ensures minRtt <= SampleOf(replies[j], offset).rtt
      {
        assert SampleOf(replies[j], offset) == Slot(j);
      }
    }

    static function Sum(s: seq<real>, n: nat): real
      requires n <= |s|
    {
      if n == 0 then 0.0 else Sum(s, n - 1) + s[n - 1]
    }

    static lemma SumOfFive(s: seq<real>)
      requires |s| == 5
      ensures Sum(s, 5) == s[0] + s[1] + s[2] + s[3] + s[4]
    {
      var n := |s| - 5;
      assert Sum(s, n) == 0.0;
      assert Sum(s, n + 1) == s[0];
      assert Sum(s, n + 2) == s[0] + s[1];
      assert Sum(s, n + 3) == s[0] + s[1] + s[2];
      assert Sum(s, n + 4) == s[0] + s[1] + s[2] + s[3];
    }
  }

  /** One round while the clock service is known: sent, read and answered. */
  method Round(sync: Synchronizer, offset: real, at: real)
    requires sync.Valid() && sync.offset == offset && sync.clockSyncSendTime <= at
    modifies sync, sync.roundTripTime, sync.refMinusLocal
    ensures sync.Valid() && sync.clockSyncSendTime == at
    ensures sync.replies == old(sync.replies) + [Reply(Ping(sync.clockSyncId, at, at), at + 0.5, at + 1.0)]
  {
    sync.PingSend(at, true);
    var _, _ := sync.PingReply(sync.clockSyncId, at + 0.5 + offset, at + 1.0, at + 0.5);
  }

  /** After four good rounds one with a moved send time seems to be the fastest,
      and the new reference time misses its bound. */
  method MovedSendTimeMisses(offset: real) returns (newRef: Option<real>, sync: Synchronizer)
    ensures fresh(sync) && sync.Valid() && sync.offset == offset && newRef.Some? && sync.minRtt == 0.1
    ensures newRef.Some? && Abs(newRef.value - (8.3 + offset)) > sync.minRtt * 0.5
  {
    sync := new Synchronizer(offset, 0.0);
    Round(sync, offset, 0.0);
    Round(sync, offset, 2.0);
    Round(sync, offset, 4.0);
    Round(sync, offset, 6.0);
    sync.PingSend(8.0, true);
    sync.PingSend(8.2, false);
    ghost var chosen;
    newRef, chosen := sync.PingReply(sync.clockSyncId, 8.1 + offset, 8.3, 8.1);
    assert SampleOf(sync.replies[4], offset) == Sample(8.3 - 8.2, offset - 0.15);
    assert chosen == 4;
  }
}
