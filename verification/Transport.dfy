/** Messages over a byte stream, src/o2network.cpp: each message is sent as a
    4-byte big-endian length and its payload, in as many pieces as the socket
    likes, and put together again at the other end from pieces of any size. */
module Transport {
  import opened Common
  import opened Bytes

  type Payload = seq<Byte>

  /** `msg->length` is a 32-bit signed integer. */
  const MAX_LENGTH := 0x8000_0000
  /** A receiver hangs up on lengths from here on. */
  const IMPLAUSIBLE := 0x10000

  // ---------------------------------------------------------------------
  // Framing
  // ---------------------------------------------------------------------

  function Frame(m: Payload): (f: seq<Byte>)
    ensures |f| == 4 + |m|
  {
    Be(|m|, 4) + m
  }

  function Frames(ms: seq<Payload>): seq<Byte> {
    if ms == [] then [] else Frame(ms[0]) + Frames(ms[1..])
  }

  ghost predicate Sendable(ms: seq<Payload>) {
    forall i :: 0 <= i < |ms| ==> |ms[i]| < MAX_LENGTH
  }

  lemma {:induction false} FramesAppend(ms: seq<Payload>, m: Payload)
    ensures Frames(ms + [m]) == Frames(ms) + Frame(m)
  {
    if ms == [] {
      assert ms + [m] == [m] && [m][1..] == [];
    } else {
      assert (ms + [m])[1..] == ms[1..] + [m];
      FramesAppend(ms[1..], m);
    }
  }

  lemma NoFrames(ms: seq<Payload>)
    ensures Frames(ms[|ms|..]) == []
  {
  }

  /** Two frames at the start of the same bytes are the same frame. */
  lemma FrameUnique(a: Payload, x: seq<Byte>, b: Payload, y: seq<Byte>)
    requires |a| < MAX_LENGTH && |b| < MAX_LENGTH
    requires Frame(a) + x == Frame(b) + y
    ensures a == b && x == y
  {
    LimitValues();
    BeRoundTrip(|a|, 4);
    BeRoundTrip(|b|, 4);
    assert Be(|a|, 4) == (Frame(a) + x)[..4];
    assert Be(|b|, 4) == (Frame(b) + y)[..4];
    assert a == (Frame(a) + x)[4..4 + |a|];
    assert b == (Frame(b) + y)[4..4 + |b|];
    assert x == (Frame(a) + x)[4 + |a|..];
    assert y == (Frame(b) + y)[4 + |b|..];
  }

  /** Framing can be undone: a stream that starts with the frames of `d` and is
      the frames of `e` carries `d` first and then the rest of `e`. */
  lemma {:induction false} FramesUnique(d: seq<Payload>, rest: seq<Byte>, e: seq<Payload>)
    requires Sendable(d) && Sendable(e)
    requires Frames(d) + rest == Frames(e)
    ensures |d| <= |e| && d == e[..|d|] && rest == Frames(e[|d|..])
  {
    hide Frame;
    if d == [] {
      assert Frames(d) + rest == rest;
      assert e[0..] == e;
    } else {
      assert e != [];
      var x, y := Frames(d[1..]) + rest, Frames(e[1..]);
      assert Frame(d[0]) + x == Frames(d) + rest;
      FrameUnique(d[0], x, e[0], y);
      FramesUnique(d[1..], rest, e[1..]);
      assert e[1..][|d| - 1..] == e[|d|..];
      assert d == [d[0]] + d[1..] && e[..|d|] == [e[0]] + e[1..][..|d| - 1];
    }
  }

  /** The bytes of queued messages of which `sent` are already on the wire. */
  ghost function Tail(ms: seq<Payload>, sent: nat): seq<Byte>
    requires ms != [] ==> sent <= |Frame(ms[0])|
  {
    if ms == [] then [] else Frame(ms[0])[sent..] + Frames(ms[1..])
  }

  lemma TailFromStart(ms: seq<Payload>)
    ensures Tail(ms, 0) == Frames(ms)
  {
    if ms != [] { assert Frame(ms[0])[0..] == Frame(ms[0]); }
  }

  lemma TailWhenQueued(ms: seq<Payload>, sent: nat, m: Payload)
    requires if ms == [] then sent == 0 else sent <= |Frame(ms[0])|
    ensures Tail(ms + [m], sent) == Tail(ms, sent) + Frame(m)
  {
    hide Frame;
    if ms == [] {
      TailFromStart([m]);
      assert [] + [m] == [m] && [m][1..] == [];
    } else {
      FramesAppend(ms[1..], m);
      assert (ms + [m])[1..] == ms[1..] + [m];
    }
  }

  lemma TailWhenSent(ms: seq<Payload>, sent: nat, n: nat)
    requires ms != [] && sent + n <= |Frame(ms[0])|
    ensures Tail(ms, sent) == Frame(ms[0])[sent..sent + n] + Tail(ms, sent + n)
    ensures sent + n == |Frame(ms[0])| ==> Tail(ms, sent + n) == Tail(ms[1..], 0)
  {
    hide Frame, Frames;
    var f, rest := Frame(ms[0]), Frames(ms[1..]);
    assert f[sent..] == f[sent..sent + n] + f[sent + n..];
    assert (f[sent..sent + n] + f[sent + n..]) + rest == f[sent..sent + n] + (f[sent + n..] + rest);
    if sent + n == |f| {
      assert f[sent + n..] == [] && [] + rest == rest;
      TailFromStart(ms[1..]);
    }
  }

  // ---------------------------------------------------------------------
  // Where the bytes are
  // ---------------------------------------------------------------------

  /** Delivered messages, the part of a message that was read, a refused length,
      the bytes in flight and the bytes still to be sent. */
  ghost function Total(d: seq<Payload>, p: seq<Byte>, r: seq<Byte>, w: seq<Byte>, t: seq<Byte>): seq<Byte> {
    Frames(d) + (p + (r + (w + t)))
  }

  lemma TotalWhenSent(d: seq<Payload>, p: seq<Byte>, r: seq<Byte>, w: seq<Byte>, x: seq<Byte>, t: seq<Byte>)
    ensures Total(d, p, r, w, x + t) == Total(d, p, r, w + x, t)
  {
    assert w + (x + t) == (w + x) + t;
  }

  lemma TotalWhenQueued(d: seq<Payload>, p: seq<Byte>, r: seq<Byte>, w: seq<Byte>, t: seq<Byte>, f: seq<Byte>)
    ensures Total(d, p, r, w, t + f) == Total(d, p, r, w, t) + f
  {
    assert w + (t + f) == (w + t) + f;
    assert r + ((w + t) + f) == (r + (w + t)) + f;
    assert p + ((r + (w + t)) + f) == (p + (r + (w + t))) + f;
  }

  lemma TotalWhenRead(d: seq<Payload>, p: seq<Byte>, w: seq<Byte>, t: seq<Byte>, n: nat)
    requires n <= |w|
    ensures Total(d, p, [], w, t) == Total(d, p + w[..n], [], w[n..], t)
  {
    assert w == w[..n] + w[n..];
    assert [] + (w + t) == w[..n] + (w[n..] + t);
    assert [] + (w[n..] + t) == w[n..] + t;
    assert p + (w[..n] + (w[n..] + t)) == (p + w[..n]) + (w[n..] + t);
  }

  lemma TotalWhenRefused(d: seq<Payload>, p: seq<Byte>, w: seq<Byte>, t: seq<Byte>)
    ensures Total(d, p, [], w, t) == Total(d, [], p, w, t)
  {
    assert [] + (w + t) == w + t;
    assert [] + (p + (w + t)) == p + (w + t);
  }

  lemma TotalWhenDelivered(d: seq<Payload>, m: Payload, w: seq<Byte>, t: seq<Byte>)
    ensures Total(d, Frame(m), [], w, t) == Total(d + [m], [], [], w, t)
  {
    hide Frame, Frames;
    FramesAppend(d, m);
    assert [] + (w + t) == w + t;
    assert Frames(d) + (Frame(m) + (w + t)) == (Frames(d) + Frame(m)) + (w + t);
  }

  // ---------------------------------------------------------------------
  // What a call of send does
  // ---------------------------------------------------------------------

  /** What a call of `send` returned; `Running` when the answers of the socket
      end before a blocking call does. */
  datatype SendResult = Success | Blocked | Fail | Running

  const TERMINATING := -2

  /** Messages still queued, how much of the first is sent, what was written. */
  datatype Progress = Progress(left: seq<Payload>, sent: nat, wrote: seq<Byte>, result: SendResult)

  /** The same after one attempt; `stop` when the call returns. */
  datatype Attempted = Attempted(left: seq<Payload>, sent: nat, wrote: seq<Byte>, stop: Option<SendResult>)

  /** One attempt: the socket takes up to `answer` bytes, or says a negative
      error. */
  ghost function Attempt(ms: seq<Payload>, sent: nat, block: bool, answer: int): (t: Attempted)
    requires ms != [] && sent < |Frame(ms[0])|
    ensures t.left == [] || t.sent < |Frame(t.left[0])|
  {
    var f := Frame(ms[0]);
    if answer == TERMINATING then Attempted(ms, sent, [], Some(Fail))
    else if answer < 0 then Attempted(ms, sent, [], if block then None else Some(Blocked))
    else if answer >= |f| - sent then Attempted(ms[1..], 0, f[sent..], None)
    else Attempted(ms, sent + answer, f[sent..sent + answer], if block then None else Some(Blocked))
  }

  /** A whole call. */
  ghost function Sending(ms: seq<Payload>, sent: nat, block: bool, answers: seq<int>): Progress
    requires ms == [] || sent < |Frame(ms[0])|
    decreases |answers|
  {
    if ms == [] then Progress(ms, sent, [], Success)
    else if answers == [] then Progress(ms, sent, [], Running)
    else
      var t := Attempt(ms, sent, block, answers[0]);
      if t.stop.Some? then Progress(t.left, t.sent, t.wrote, t.stop.value)
      else After(t.wrote, Sending(t.left, t.sent, block, answers[1..]))
  }

  /** On the wire, the length comes in network order. */
  lemma KnownFrames()
    ensures Frame([7, 8]) == [0, 0, 0, 2, 7, 8]
    ensures Frame(seq(258, _ => 7))[..5] == [0, 0, 1, 2, 7]
  {
    FourBytes(0, 0, 0, 2);
    FourBytes(0, 0, 1, 2);
  }

  /** The same with something written before. */
  ghost function After(wrote: seq<Byte>, p: Progress): Progress {
    p.(wrote := wrote + p.wrote)
  }

  lemma AfterTwice(a: seq<Byte>, b: seq<Byte>, p: Progress)
    ensures After(a, After(b, p)) == After(a + b, p)
  {
    assert a + (b + p.wrote) == (a + b) + p.wrote;
  }

  lemma SendingNothing(sent: nat, block: bool, answers: seq<int>)
    ensures Sending([], sent, block, answers) == Progress([], sent, [], Success)
  {
  }

  lemma AfterNothing(p: Progress)
    ensures After([], p) == p
  {
  }

  lemma AfterIs(wrote: seq<Byte>, p: Progress)
    ensures After(wrote, p) == Progress(p.left, p.sent, wrote + p.wrote, p.result)
  {
  }

  lemma SendingStep(ms: seq<Payload>, sent: nat, block: bool, answers: seq<int>, i: nat)
    requires ms != [] && sent < |Frame(ms[0])| && i <= |answers|
    ensures i == |answers| ==> Sending(ms, sent, block, answers[i..]) == Progress(ms, sent, [], Running)
    ensures i < |answers| ==>
              var t := Attempt(ms, sent, block, answers[i]);
              Sending(ms, sent, block, answers[i..])
              == if t.stop.Some? then Progress(t.left, t.sent, t.wrote, t.stop.value)
                 else After(t.wrote, Sending(t.left, t.sent, block, answers[i + 1..]))
  {
    hide Frame, Attempt, After;
    if i < |answers| {
      assert answers[i..][0] == answers[i] && answers[i..][1..] == answers[i + 1..];
    }
  }

  /** What one more answer of the socket changes: nothing, if the call has
      returned; else a terminating error ends it, another error leaves all as it
      was, and a number of bytes is written. */
  ghost predicate AnswerChanges(p: Progress, q: Progress, block: bool, a: int) {
    && (p.result == Running <==> p.left != [] && p.result != Fail && p.result != Blocked)
    && (p.left != [] ==> p.sent < |Frame(p.left[0])|)
    && if p.result != Running then q == p
       else
         var f := Frame(p.left[0]);
         var n := |f| - p.sent;
         if a == TERMINATING then q == p.(result := Fail)
         else if a < 0 then q == p.(result := if block then Running else Blocked)
         else if a < n then
           q == Progress(p.left, p.sent + a, p.wrote + f[p.sent..p.sent + a], if block then Running else Blocked)
         else
           q == Progress(p.left[1..], 0, p.wrote + f[p.sent..], if |p.left| == 1 then Success else Running)
  }

  /** So it is for the first answer, and after any others. */
  lemma {:induction false} OneMoreAnswer(ms: seq<Payload>, sent: nat, block: bool, answers: seq<int>, a: int)
    requires ms == [] || sent < |Frame(ms[0])|
    ensures AnswerChanges(Sending(ms, sent, block, answers), Sending(ms, sent, block, answers + [a]), block, a)
    decreases |answers|
  {
    if ms != [] {
      if answers == [] {
        FirstAnswer(ms, sent, block, a);
        assert [] + [a] == [a];
      } else {
        var t := Attempt(ms, sent, block, answers[0]);
        assert (answers + [a])[1..] == answers[1..] + [a] && (answers + [a])[0] == answers[0];
        hide AnswerChanges, After;
        if t.stop.None? {
          OneMoreAnswer(t.left, t.sent, block, answers[1..], a);
          AfterChanges(t.wrote, Sending(t.left, t.sent, block, answers[1..]),
                       Sending(t.left, t.sent, block, answers[1..] + [a]), block, a);
        } else {
          StoppedChanges(ms, sent, block, answers[0], a);
        }
      }
    }
  }

  lemma StoppedChanges(ms: seq<Payload>, sent: nat, block: bool, answer: int, a: int)
    requires ms != [] && sent < |Frame(ms[0])| && Attempt(ms, sent, block, answer).stop.Some?
    ensures var t := Attempt(ms, sent, block, answer);
            var p := Progress(t.left, t.sent, t.wrote, t.stop.value);
            AnswerChanges(p, p, block, a)
  {
    hide Frame;
  }

  lemma FirstAnswer(ms: seq<Payload>, sent: nat, block: bool, a: int)
    requires ms != [] && sent < |Frame(ms[0])|
    ensures AnswerChanges(Sending(ms, sent, block, []), Sending(ms, sent, block, [a]), block, a)
  {
    hide Frame;
    var t := Attempt(ms, sent, block, a);
    assert [a][1..] == [];
    if t.stop.None? {
      AfterIs(t.wrote, Sending(t.left, t.sent, block, []));
      assert t.wrote + [] == t.wrote;
    }
    assert [] + t.wrote == t.wrote;
  }

  lemma AfterChanges(wrote: seq<Byte>, p: Progress, q: Progress, block: bool, a: int)
    requires AnswerChanges(p, q, block, a)
    ensures AnswerChanges(After(wrote, p), After(wrote, q), block, a)
  {
    hide Frame;
    if p.result == Running {
      var f := Frame(p.left[0]);
      if 0 <= a < |f| - p.sent {
        assert wrote + (p.wrote + f[p.sent..p.sent + a]) == (wrote + p.wrote) + f[p.sent..p.sent + a];
      }
      assert wrote + (p.wrote + f[p.sent..]) == (wrote + p.wrote) + f[p.sent..];
    }
  }

  /** A call that is still trying after `i` answers gets a terminating error. */
  ghost predicate Terminates(ms: seq<Payload>, sent: nat, block: bool, answers: seq<int>)
    requires ms == [] || sent < |Frame(ms[0])|
  {
    exists i :: && 0 <= i < |answers| && answers[i] == TERMINATING
                && Sending(ms, sent, block, answers[..i]).result == Running
  }

  /** A call that must not block, and is still trying after `i` answers, gets an
      answer that does not finish the message. */
  ghost predicate WouldBlock(ms: seq<Payload>, sent: nat, block: bool, answers: seq<int>)
    requires ms == [] || sent < |Frame(ms[0])|
  {
    !block && exists i :: 0 <= i < |answers| && StillTries(ms, sent, block, answers[..i], answers[i])
  }

  ghost predicate StillTries(ms: seq<Payload>, sent: nat, block: bool, answers: seq<int>, next: int)
    requires ms == [] || sent < |Frame(ms[0])|
  {
    var p := Sending(ms, sent, block, answers);
    p.result == Running && p.left != [] && next != TERMINATING && next < |Frame(p.left[0])| - p.sent
  }

  /** For every sequence of answers: a call fails if and only if an answer that it
      used, with messages still queued, was a terminating error; it gives up if
      and only if it must not block and an answer it used did not finish a
      message. */
  lemma {:induction false} SendFailsIff(ms: seq<Payload>, sent: nat, block: bool, answers: seq<int>)
    requires ms == [] || sent < |Frame(ms[0])|
    ensures var r := Sending(ms, sent, block, answers).result;
            && (r == Fail <==> Terminates(ms, sent, block, answers))
            && (r == Blocked <==> WouldBlock(ms, sent, block, answers))
            && (r == Success ==> Sending(ms, sent, block, answers).left == [])
    decreases |answers|
  {
    if answers != [] {
      var before, a := answers[..|answers| - 1], answers[|answers| - 1];
      SendFailsIff(ms, sent, block, before);
      OneMoreAnswer(ms, sent, block, before, a);
      assert answers == before + [a];
      TerminatesNext(ms, sent, block, before, a);
      WouldBlockNext(ms, sent, block, before, a);
      hide Sending, Frame, Terminates, WouldBlock;
    } else {
      hide Frame;
    }
  }

  lemma TerminatesNext(ms: seq<Payload>, sent: nat, block: bool, answers: seq<int>, a: int)
    requires ms == [] || sent < |Frame(ms[0])|
    ensures Terminates(ms, sent, block, answers + [a]) <==>
              Terminates(ms, sent, block, answers) ||
              (a == TERMINATING && Sending(ms, sent, block, answers).result == Running)
  {
    var all := answers + [a];
    forall i | 0 <= i < |answers| ensures all[..i] == answers[..i] && all[i] == answers[i] {
    }
    assert all[..|answers|] == answers && all[|answers|] == a;
    hide Sending, Frame;
    if Terminates(ms, sent, block, answers) {
      var i :| && 0 <= i < |answers| && answers[i] == TERMINATING
               && Sending(ms, sent, block, answers[..i]).result == Running;
      assert all[i] == TERMINATING && all[..i] == answers[..i];
    }
  }

  lemma WouldBlockNext(ms: seq<Payload>, sent: nat, block: bool, answers: seq<int>, a: int)
    requires ms == [] || sent < |Frame(ms[0])|
    ensures WouldBlock(ms, sent, block, answers + [a]) <==>
              WouldBlock(ms, sent, block, answers) ||
              (!block && StillTries(ms, sent, block, answers, a))
  {
    var all := answers + [a];
    forall i | 0 <= i < |answers| ensures all[..i] == answers[..i] && all[i] == answers[i] {
    }
    assert all[..|answers|] == answers && all[|answers|] == a;
    hide StillTries, Frame;
    if WouldBlock(ms, sent, block, answers) {
      var i :| 0 <= i < |answers| && StillTries(ms, sent, block, answers[..i], answers[i]);
      assert StillTries(ms, sent, block, all[..i], all[i]);
    }
    if WouldBlock(ms, sent, block, all) {
      var i :| 0 <= i < |all| && StillTries(ms, sent, block, all[..i], all[i]);
      if i < |answers| { assert StillTries(ms, sent, block, answers[..i], answers[i]); }
    }
    if !block && StillTries(ms, sent, block, answers, a) {
      assert StillTries(ms, sent, block, all[..|answers|], all[|answers|]);
    }
  }

  /** A socket that takes all it is offered lets everything out in one call. */
  lemma {:induction false} WillingSocketSendsAll(ms: seq<Payload>, sent: nat, block: bool, answers: seq<int>)
    requires ms == [] || sent < |Frame(ms[0])|
    requires |answers| >= |ms|
    requires forall i, j :: 0 <= i < |ms| && 0 <= j < |answers| ==> answers[j] >= |Frame(ms[i])|
    ensures Sending(ms, sent, block, answers) == Progress([], if ms == [] then sent else 0, Tail(ms, sent), Success)
    decreases |ms|
  {
    hide Frame;
    if ms != [] {
      assert answers[0] >= |Frame(ms[0])|;
      assert Attempt(ms, sent, block, answers[0]) == Attempted(ms[1..], 0, Frame(ms[0])[sent..], None);
      forall i, j | 0 <= i < |ms[1..]| && 0 <= j < |answers[1..]|
        ensures answers[1..][j] >= |Frame(ms[1..][i])|
      {
        assert answers[j + 1] >= |Frame(ms[i + 1])|;
      }
      WillingSocketSendsAll(ms[1..], 0, block, answers[1..]);
      TailFromStart(ms[1..]);
    }
  }

  // ---------------------------------------------------------------------
  // The link
  // ---------------------------------------------------------------------

  /** A sending socket, the bytes on their way, and the receiving socket. */
  class Link {
    // the sender
    var connecting: bool
    var open: bool
    var outMessages: seq<Payload>
    var outMsgSent: nat
    // in flight
    var wire: seq<Byte>
    // the receiver
    var listening: bool
    var lengthBytes: seq<Byte>
    var inLength: nat
    var inMessage: Payload
    var delivered: seq<Payload>
    // observers
    ghost var enqueued: seq<Payload>
    ghost var refused: seq<Byte>
    ghost var lost: seq<Byte>

    /** What the sender still has to put on the wire. */
    ghost function Unsent(): seq<Byte>
      reads `outMessages, `outMsgSent
      requires outMessages != [] ==> outMsgSent <= |Frame(outMessages[0])|
    {
      Tail(outMessages, outMsgSent)
    }

    /** What the receiver has of the message it is reading. */
    ghost function Partial(): seq<Byte>
      reads `lengthBytes, `inMessage
    {
      lengthBytes + inMessage
    }

    ghost predicate SenderOk()
      reads `enqueued, `outMessages, `outMsgSent, `open, `lost
    {
      && Sendable(enqueued) && Sendable(outMessages)
      && (outMessages == [] ==> outMsgSent == 0)
      && (outMessages != [] ==> outMsgSent < |Frame(outMessages[0])|)
      && (open ==> lost == [])
    }

    ghost predicate ReceiverOk()
      reads `lengthBytes, `inLength, `inMessage, `delivered, `listening, `refused
    {
      && |lengthBytes| <= 4
      && (|lengthBytes| < 4 ==> inMessage == [])
      && (|lengthBytes| == 4 ==> lengthBytes == Be(inLength, 4) && |inMessage| < inLength < IMPLAUSIBLE)
      && (forall i :: 0 <= i < |delivered| ==> |delivered[i]| < IMPLAUSIBLE)
      && (listening ==> refused == [])
      && (!listening ==> Partial() == [] && |refused| == 4 && FromBe(refused) >= IMPLAUSIBLE)
    }

    /** Delivered, partly read, in flight and unsent together are exactly what
        was put in the queue. */
    ghost predicate Conserved()
      reads `enqueued, `outMessages, `outMsgSent, `open, `lost, `wire
      reads `lengthBytes, `inMessage, `delivered, `refused
      requires SenderOk()
    {
      Total(delivered, Partial(), refused, wire, if open then Unsent() else lost) == Frames(enqueued)
    }

    ghost predicate Valid()
      reads `enqueued, `outMessages, `outMsgSent, `open, `lost, `wire
      reads `lengthBytes, `inLength, `inMessage, `delivered, `listening, `refused
    {
      SenderOk() && ReceiverOk() && Conserved()
    }

    constructor ()
      ensures Valid() && enqueued == [] && delivered == [] && open && listening
    {
      connecting, open, listening := true, true, true;
      outMessages, outMsgSent, wire := [], 0, [];
      lengthBytes, inLength, inMessage, delivered := [], 0, [], [];
      enqueued, refused, lost := [], [], [];
    }

    /** The TCP connection is established. */
    method Connected()
      requires Valid()
      modifies `connecting
      ensures Valid() && !connecting
    {
      hide Valid;
      connecting := false;
    }

    /** `enqueue`: start sending if nothing is being sent, else wait in line. */
    method Enqueue(m: Payload, script: seq<int>)
      requires Valid() && |m| < MAX_LENGTH
      modifies this
      ensures Valid() && enqueued == old(enqueued) + [m]
      ensures delivered == old(delivered) && Partial() == old(Partial()) && listening == old(listening)
      ensures old(outMessages) != [] || connecting || !old(open) ==>
                wire == old(wire) && outMessages == old(outMessages) + [m]
      ensures old(outMessages) == [] && !connecting && old(open) ==>
                var p := Sending([m], 0, false, script);
                wire == old(wire) + p.wrote && (open ==> outMessages == p.left && outMsgSent == p.sent)
    {
      hide Total, Frame, Be, FromBe, Tail, Frames, Sending;
      IdleSentNothing();
      var first := outMessages == [] && !connecting;
      AppendOut(m);
      if first && open {
        assert outMessages == [m];
        var _ := Send(false, script);
      }
    }

    lemma IdleSentNothing()
      requires Valid()
      ensures outMessages == [] ==> outMsgSent == 0
    {
    }

    method AppendOut(m: Payload)
      requires Valid() && |m| < MAX_LENGTH
      modifies `outMessages, `enqueued, `lost
      ensures Valid() && enqueued == old(enqueued) + [m] && outMessages == old(outMessages) + [m]
    {
      hide Total, Frame, Frames, Tail;
      ghost var before := if open then Unsent() else lost;
      FramesAppend(enqueued, m);
      TotalWhenQueued(delivered, Partial(), refused, wire, before, Frame(m));
      TailWhenQueued(outMessages, outMsgSent, m);
      outMessages := outMessages + [m];
      enqueued := enqueued + [m];
      if !open { lost := lost + Frame(m); }
    }

    ghost predicate SentIsPart()
      reads `outMessages, `outMsgSent
    {
      outMessages == [] || outMsgSent < |Frame(outMessages[0])|
    }

    lemma SentIsShort()
      requires Valid()
      ensures SentIsPart()
    {
    }

    /** `send`, when the socket is connected. */
    method Send(block: bool, script: seq<int>) returns (r: SendResult)
      requires Valid() && !connecting
      modifies `outMessages, `outMsgSent, `wire, `open, `lost
      ensures Valid()
      ensures r == Fail <==> !open
      ensures !old(open) ==> wire == old(wire) && outMessages == old(outMessages)
      ensures old(SentIsPart())
      ensures old(open) ==>
                var p := Sending(old(outMessages), old(outMsgSent), block, script);
                && r == p.result && wire == old(wire) + p.wrote
                && (open ==> outMessages == p.left && outMsgSent == p.sent)
      ensures old(open) ==>
                && (r == Fail <==> Terminates(old(outMessages), old(outMsgSent), block, script))
                && (r == Blocked <==> WouldBlock(old(outMessages), old(outMsgSent), block, script))
                && (r == Fail || r == Success ==> outMessages == [])
    {
      hide Valid, Sending, Attempt, Frame, After, Terminates, WouldBlock;
      SentIsShort();
      SendFailsIff(outMessages, outMsgSent, block, script);
      if !open {
        return Fail;
      }
      ghost var wrote := [];
      var i := 0;
      assert script[0..] == script;
      AfterNothing(Sending(outMessages, outMsgSent, block, script));
      while outMessages != []
        invariant Valid() && SentIsPart() && open && i <= |script|
        invariant wire == old(wire) + wrote
        invariant Sending(old(outMessages), old(outMsgSent), block, script)
                  == After(wrote, Sending(outMessages, outMsgSent, block, script[i..]))
        decreases |script| - i
      {
        SendingStep(outMessages, outMsgSent, block, script, i);
        AfterIs(wrote, Sending(outMessages, outMsgSent, block, script[i..]));
        if i == |script| {
          return Running;
        }
        ghost var t := Attempt(outMessages, outMsgSent, block, script[i]);
        var stop := SendOnce(block, script[i]);
        i := i + 1;
        if stop.Some? {
          return stop.value;
        }
        AfterTwice(wrote, t.wrote, Sending(outMessages, outMsgSent, block, script[i..]));
        wrote := wrote + t.wrote;
      }
      SendingNothing(outMsgSent, block, script[i..]);
      AfterIs(wrote, Sending(outMessages, outMsgSent, block, script[i..]));
      r := Success;
    }

    /** One attempt of `send`. */
    method SendOnce(block: bool, answer: int) returns (stop: Option<SendResult>)
      requires Valid() && open && outMessages != []
      modifies `outMessages, `outMsgSent, `wire, `open, `lost
      ensures Valid() && SentIsPart() && old(SentIsPart())
      ensures var t := Attempt(old(outMessages), old(outMsgSent), block, answer);
              && stop == t.stop && wire == old(wire) + t.wrote && open == (stop != Some(Fail))
              && (if open then outMessages == t.left && outMsgSent == t.sent else outMessages == [])
    {
      hide Frame, Total, Frames, Tail, Be, FromBe, Valid;
      SentIsShort();
      var n := |Frame(outMessages[0])| - outMsgSent;
      var err := if answer > n then n else answer;
      stop := None;
      if err < 0 {
        if !block && err != TERMINATING {
          stop := Some(Blocked);
        } else if err == TERMINATING {
          Close();
          stop := Some(Fail);
        }
      } else {
        var finished := Transmit(err);
        if !finished && !block {
          stop := Some(Blocked);
        }
      }
      SentIsShort();
    }

    /** The socket took `n` bytes. */
    method Transmit(n: nat) returns (finished: bool)
      requires Valid() && open && outMessages != []
      requires n <= |Frame(outMessages[0])| - outMsgSent
      modifies `outMessages, `outMsgSent, `wire
      ensures Valid() && wire == old(wire) + old(Frame(outMessages[0])[outMsgSent..outMsgSent + n])
      ensures finished <==> old(outMsgSent) + n == |old(Frame(outMessages[0]))|
      ensures finished ==> outMessages == old(outMessages)[1..] && outMsgSent == 0
      ensures !finished ==> outMessages == old(outMessages) && outMsgSent == old(outMsgSent) + n
    {
      hide Total, Frame, Frames, Tail;
      var frame := Frame(outMessages[0]);
      var piece := frame[outMsgSent..outMsgSent + n];
      TailWhenSent(outMessages, outMsgSent, n);
      TotalWhenSent(delivered, Partial(), refused, wire, piece, Tail(outMessages, outMsgSent + n));
      wire := wire + piece;
      outMsgSent := outMsgSent + n;
      finished := outMsgSent == |frame|;
      if finished {
        outMsgSent := 0;
        outMessages := outMessages[1..];
      }
    }

    /** A terminating socket error: unsent messages are freed. */
    method Close()
      requires Valid() && open
      modifies `outMessages, `outMsgSent, `open, `lost
      ensures Valid() && !open && outMessages == [] && lost == old(Unsent())
    {
      hide Total, Frame, Be, FromBe, Tail, Frames;
      lost := Unsent();
      outMessages, outMsgSent, open := [], 0, false;
    }

    /** `read_event_handler`: the socket is readable.  `take` and `takeMore` are
        how many bytes the two reads get, 0 when a read would block. */
    method ReadEvent(take: nat, takeMore: nat)
      requires Valid() && listening
      modifies `wire, `listening, `lengthBytes, `inLength, `inMessage, `delivered, `refused
      ensures Valid()
      ensures old(delivered) <= delivered && |delivered| <= |old(delivered)| + 1
      ensures take > 0 && takeMore > 0 && old(wire) != [] ==> |wire| < |old(wire)|
    {
      hide Total, Frame, Be, FromBe, Tail, Frames;
      if |lengthBytes| < 4 {
        ReadLength(take);
        if |lengthBytes| < 4 {
          return;
        }
        if inLength == 0 {
          Deliver();
          return;
        }
      }
      ReadBody(takeMore);
      if |inMessage| == inLength {
        Deliver();
      }
    }

    /** The whole length is known and the payload is being read. */
    ghost predicate MidMessage()
      reads this
    {
      && SenderOk() && Conserved()
      && listening && refused == []
      && |lengthBytes| == 4 && lengthBytes == Be(inLength, 4)
      && |inMessage| <= inLength < IMPLAUSIBLE
      && (forall i :: 0 <= i < |delivered| ==> |delivered[i]| < IMPLAUSIBLE)
    }

    /** Read up to the end of the length field, and hang up if the length is
        implausible. */
    method ReadLength(take: nat)
      requires Valid() && listening && |lengthBytes| < 4
      modifies `wire, `listening, `lengthBytes, `inLength, `refused
      ensures |lengthBytes| < 4 ==> Valid()
      ensures |lengthBytes| == 4 ==> MidMessage() && inMessage == []
      ensures |wire| <= |old(wire)| && (take > 0 && old(wire) != [] ==> |wire| < |old(wire)|)
      ensures |lengthBytes| <= 4
    {
      hide Total, Frame, Be, FromBe, Tail, Frames;
      var n := Smallest(take, 4 - |lengthBytes|, |wire|);
      ghost var tail := if open then Unsent() else lost;
      TotalWhenRead(delivered, Partial(), wire, tail, n);
      lengthBytes := lengthBytes + wire[..n];
      wire := wire[n..];
      assert Partial() == old(Partial()) + old(wire)[..n];
      if |lengthBytes| == 4 {
        CheckLength();
      }
    }

    /** The length field is complete: decode it. */
    method CheckLength()
      requires SenderOk() && Conserved() && listening && refused == []
      requires |lengthBytes| == 4 && inMessage == []
      requires forall i :: 0 <= i < |delivered| ==> |delivered[i]| < IMPLAUSIBLE
      modifies `listening, `lengthBytes, `inLength, `refused
      ensures |lengthBytes| == 0 || |lengthBytes| == 4
      ensures |lengthBytes| == 0 ==> Valid()
      ensures |lengthBytes| == 4 ==> MidMessage()
      ensures listening <==> FromBe(old(lengthBytes)) < IMPLAUSIBLE
    {
      hide Total, Frame, Be, FromBe, Tail, Frames;
      FromBeRoundTrip(lengthBytes);
      TotalWhenRefused(delivered, lengthBytes, wire, if open then Unsent() else lost);
      assert Partial() == lengthBytes;
      inLength := FromBe(lengthBytes);
      if inLength >= IMPLAUSIBLE {
        listening, refused, lengthBytes := false, lengthBytes, [];
        assert Partial() == [];
      }
    }

    method ReadBody(take: nat)
      requires Valid() && listening && |lengthBytes| == 4
      modifies `wire, `inMessage
      ensures MidMessage()
      ensures |wire| <= |old(wire)| && (take > 0 && old(wire) != [] ==> |wire| < |old(wire)|)
    {
      hide Total, Frame, Be, FromBe, Tail, Frames;
      var n := Smallest(take, inLength - |inMessage|, |wire|);
      TotalWhenRead(delivered, Partial(), wire, if open then Unsent() else lost, n);
      inMessage := inMessage + wire[..n];
      wire := wire[n..];
      assert Partial() == old(Partial()) + old(wire)[..n];
    }

    /** A whole message: hand it on and get ready for the next one. */
    method Deliver()
      requires MidMessage() && |inMessage| == inLength
      modifies `lengthBytes, `inLength, `inMessage, `delivered
      ensures Valid() && delivered == old(delivered) + [old(inMessage)]
    {
      hide Total, Be, FromBe;
      TotalWhenDelivered(delivered, inMessage, wire, if open then Unsent() else lost);
      assert Partial() == Frame(inMessage);
      delivered := delivered + [inMessage];
      lengthBytes, inLength, inMessage := [], 0, [];
      assert Partial() == [];
    }

    static function Smallest(a: nat, b: nat, c: nat): nat {
      if a <= b && a <= c then a else if b <= c then b else c
    }

    /** At every moment the receiver has handed on exactly the first messages
        that were put in the queue, in order and unmodified. */
    lemma DeliversInOrder()
      requires Valid()
      ensures delivered <= enqueued
    {
      hide Frames, Be, FromBe, Frame;
      var rest := Partial() + (refused + (wire + (if open then Unsent() else lost)));
      FramesUnique(delivered, rest, enqueued);
    }

    /** When everything was sent and nothing is in flight, everything was
        delivered, unless the receiver hung up. */
    lemma DeliversAll()
      requires Valid() && open && listening && outMessages == [] && wire == []
      ensures delivered == enqueued
    {
      var rest := Partial();
      assert Partial() + (refused + (wire + Unsent())) == Partial();
      FramesUnique(delivered, rest, enqueued);
      var k := |delivered|;
      if k < |enqueued| {
        assert Frames(enqueued[k..]) == Frame(enqueued[k]) + Frames(enqueued[k..][1..]);
        PartialIsShort(enqueued[k], Frames(enqueued[k..][1..]));
      }
    }

    lemma PartialIsShort(m: Payload, rest: seq<Byte>)
      requires ReceiverOk() && listening && |m| < MAX_LENGTH
      ensures Partial() != Frame(m) + rest
    {
      if Partial() == Frame(m) + rest {
        assert |lengthBytes| == 4;
        assert lengthBytes == (Frame(m) + rest)[..4] == Be(|m|, 4);
        LimitValues();
        BeRoundTrip(|m|, 4);
        BeRoundTrip(inLength, 4);
        assert false;
      }
    }

    /** A receiver that hung up did so at the first message of 65536 bytes or
        more: none that was delivered before was so long. */
    lemma HangsUpOnlyOnLongMessages()
      requires Valid()
      ensures !listening ==> |delivered| < |enqueued| && |enqueued[|delivered|]| >= 65536
      ensures forall i :: 0 <= i < |delivered| ==> |delivered[i]| < 65536
      ensures (forall i :: 0 <= i < |enqueued| ==> |enqueued[i]| < 65536) ==> listening
    {
      if !listening {
        var tail := wire + (if open then Unsent() else lost);
        var rest := refused + tail;
        assert Partial() + rest == rest;
        FramesUnique(delivered, rest, enqueued);
        var k := |delivered|;
        NoFrames(enqueued);
        assert |rest| >= 4;
        assert k < |enqueued|;
        var m := enqueued[k];
        assert rest == Frame(m) + Frames(enqueued[k..][1..]);
        assert refused == rest[..4] == Be(|m|, 4);
        LimitValues();
        BeRoundTrip(|m|, 4);
      }
    }
  }
}
