/** The MQTT bridge of src/mqttcomm.cpp: control packets with a length field of
    one to four bytes, and a parser that finds whole packets in a stream that
    arrives in pieces. */
module Mqtt {
  import opened Common
  import opened Bytes

  const CONNACK: Byte := 0x20
  const PUBLISH: Byte := 0x30
  const PUBACK: Byte := 0x40
  const SUBACK: Byte := 0x90
  /** The most a length field can say, plus one. */
  const MAX_LEN := 128 * 128 * 128 * 128

  // ---------------------------------------------------------------------
  // The length field
  // ---------------------------------------------------------------------

  /** The length field of section 2.2.3 of MQTT 3.1.1: seven bits a byte, least
      significant first, the high bit saying that more bytes follow. */
  function VarLen(n: nat): (r: seq<Byte>)
    ensures |r| > 0
  {
    if n < 128 then [n] else [n % 128 + 128] + VarLen(n / 128)
  }

  datatype Length = Length(value: nat, size: nat)

  /** The length at the start of `s`; the fourth byte ends it whatever its high
      bit says. */
  function LengthField(s: seq<Byte>, depth: nat): (r: Option<Length>)
    requires depth <= 3
    ensures r.Some? ==> 0 < r.value.size <= |s|
    decreases 3 - depth
  {
    if s == [] then None
    else if s[0] < 128 || depth == 3 then Some(Length(s[0] % 128, 1))
    else
      match LengthField(s[1..], depth + 1)
      case None => None
      case Some(l) => Some(Length(s[0] % 128 + 128 * l.value, l.size + 1))
  }

  /** The place value of a length byte. */
  function Multiplier(depth: nat): nat
    requires depth <= 4
  {
    match depth
    case 0 => 1
    case 1 => 128
    case 2 => 16384
    case 3 => 2097152
    case 4 => 268435456
  }

  lemma {:induction false} LengthRoundTrip(n: nat, rest: seq<Byte>, depth: nat)
    requires depth <= 3 && n < Multiplier(4 - depth)
    ensures LengthField(VarLen(n) + rest, depth) == Some(Length(n, |VarLen(n)|))
    decreases 3 - depth
  {
    if n >= 128 {
      LengthRoundTrip(n / 128, rest, depth + 1);
      assert (VarLen(n) + rest)[1..] == VarLen(n / 128) + rest;
    }
  }

  lemma {:induction false} LengthFieldExtends(s: seq<Byte>, t: seq<Byte>, depth: nat)
    requires depth <= 3 && LengthField(s, depth).Some?
    ensures LengthField(s + t, depth) == LengthField(s, depth)
    decreases 3 - depth
  {
    assert (s + t)[1..] == s[1..] + t;
    if s[0] >= 128 && depth < 3 {
      LengthFieldExtends(s[1..], t, depth + 1);
    }
  }

  // ---------------------------------------------------------------------
  // Parsing
  // ---------------------------------------------------------------------

  /** What the program does with a packet: act on a publication, count an
      acknowledgement, or empty its buffer on a packet of another kind.
      `Overrun` is a publication whose topic does not fit in its length. */
  datatype Event =
    | Published(topic: seq<Byte>, payload: seq<Byte>)
    | Overrun
    | ConnAck
    | SubAck
    | PubAck
    | Unknown

  datatype Parsed = Parsed(event: Event, size: nat)

  /** The content of a publication without its length field. */
  function Publication(body: seq<Byte>): Event {
    if |body| < 4 then Overrun
    else
      var topicLen := body[0] as int * 256 + body[1];
      if topicLen + 4 > |body| then Overrun
      else Published(body[2..2 + topicLen], body[topicLen + 4..])
  }

  function Fixed(event: Event, size: nat, s: seq<Byte>): Option<Parsed> {
    if |s| < size then None else Some(Parsed(event, size))
  }

  /** The first packet of the buffer, if it is there in full. */
  function First(s: seq<Byte>): (r: Option<Parsed>)
    requires s != []
    ensures r.Some? ==> 0 < r.value.size <= |s|
  {
    if s[0] / 16 * 16 == PUBLISH then
      match LengthField(s[1..], 0)
      case None => None
      case Some(l) =>
        var start := 1 + l.size;
        if start + l.value > |s| then None
        else Some(Parsed(Publication(s[start..start + l.value]), start + l.value))
    else if s[0] == CONNACK then Fixed(ConnAck, 4, s)
    else if s[0] == SUBACK then Fixed(SubAck, 5, s)
    else if s[0] == PUBACK then Fixed(PubAck, 4, s)
    else Some(Parsed(Unknown, |s|))
  }

  datatype Outcome = Outcome(events: seq<Event>, left: seq<Byte>)

  /** All packets of the buffer, and what is left. */
  function Drain(s: seq<Byte>): (r: Outcome)
    decreases |s|
  {
    if s == [] then Outcome([], [])
    else
      match First(s)
      case None => Outcome([], s)
      case Some(p) =>
        var next := Drain(s[p.size..]);
        Outcome([p.event] + next.events, next.left)
  }

  function Then(a: Outcome, b: Outcome): Outcome {
    Outcome(a.events + b.events, b.left)
  }

  /** The parser meets no packet of an unknown kind in `s`, except perhaps one
      whose first byte is the last byte of `s`. */
  predicate InSync(s: seq<Byte>)
    decreases |s|
  {
    if s == [] then true
    else
      match First(s)
      case None => true
      case Some(p) => if p.event == Unknown then |s| == 1 else InSync(s[p.size..])
  }

  lemma SliceExtends(s: seq<Byte>, t: seq<Byte>, i: nat, j: nat)
    requires i <= j <= |s|
    ensures (s + t)[i..j] == s[i..j]
  {
  }

  lemma FirstExtends(s: seq<Byte>, t: seq<Byte>)
    requires s != [] && First(s).Some? && First(s).value.event != Unknown
    ensures First(s + t) == First(s)
  {
    hide LengthField, Publication;
    assert (s + t)[0] == s[0];
    if s[0] / 16 * 16 == PUBLISH {
      LengthFieldExtends(s[1..], t, 0);
      assert (s + t)[1..] == s[1..] + t;
      var l := LengthField(s[1..], 0).value;
      SliceExtends(s, t, 1 + l.size, 1 + l.size + l.value);
    }
  }

  lemma UnknownExtends(s: seq<Byte>, t: seq<Byte>)
    requires s != []
    ensures First(s + t) == Some(Parsed(Unknown, |s| + |t|)) <==> First(s) == Some(Parsed(Unknown, |s|))
    ensures First(s).Some? && First(s).value.event == Unknown ==> First(s) == Some(Parsed(Unknown, |s|))
  {
    hide LengthField;
  }

  /** Handling `s` and then, with what was left, `t` is handling `s` and `t`
      together. */
  lemma {:induction false} DrainInTwo(s: seq<Byte>, t: seq<Byte>)
    requires InSync(s + t) && t != []
    ensures Then(Drain(s), Drain(Drain(s).left + t)) == Drain(s + t)
    ensures InSync(Drain(s).left + t)
    decreases |s|
  {
    hide First;
    if s == [] {
      assert s + t == t && [] + t == t;
    } else if First(s).Some? {
      UnknownExtends(s, t);
      FirstExtends(s, t);
      var n := First(s).value.size;
      assert (s + t)[n..] == s[n..] + t;
      DrainInTwo(s[n..], t);
      assert Then(Drain(s), Drain(Drain(s).left + t)).events == Drain(s + t).events;
    } else {
      assert [] + Drain(s + t).events == Drain(s + t).events;
    }
  }

  // ---------------------------------------------------------------------
  // Cutting the stream
  // ---------------------------------------------------------------------

  function Flatten(pieces: seq<seq<Byte>>): seq<Byte> {
    if pieces == [] then [] else pieces[0] + Flatten(pieces[1..])
  }

  ghost predicate NonEmpty(pieces: seq<seq<Byte>>) {
    forall i :: 0 <= i < |pieces| ==> pieces[i] != []
  }

  /** The pieces handled one after the other. */
  function Feed(left: seq<Byte>, pieces: seq<seq<Byte>>): Outcome
    decreases |pieces|
  {
    if pieces == [] then Outcome([], left)
    else
      var now := Drain(left + pieces[0]);
      Then(now, Feed(now.left, pieces[1..]))
  }

  lemma {:induction false} DrainIsFinal(s: seq<Byte>)
    ensures Drain(Drain(s).left) == Outcome([], Drain(s).left)
    decreases |s|
  {
    if s != [] && First(s).Some? {
      DrainIsFinal(s[First(s).value.size..]);
    }
  }

  lemma {:induction false} FeedIsDrain(left: seq<Byte>, pieces: seq<seq<Byte>>)
    requires NonEmpty(pieces) && InSync(left + Flatten(pieces))
    requires Drain(left) == Outcome([], left)
    ensures Feed(left, pieces) == Drain(left + Flatten(pieces))
    decreases |pieces|
  {
    hide First, InSync;
    if pieces == [] {
      assert left + [] == left;
    } else {
      var head, rest := left + pieces[0], Flatten(pieces[1..]);
      assert left + Flatten(pieces) == head + rest;
      DrainIsFinal(head);
      if pieces[1..] == [] {
        assert head + rest == head;
        assert Drain(head).events + [] == Drain(head).events;
      } else {
        assert rest != [] by { assert pieces[1..][0] == pieces[1]; }
        DrainInTwo(head, rest);
        FeedIsDrain(Drain(head).left, pieces[1..]);
      }
    }
  }

  ghost predicate IsCut(pieces: seq<seq<Byte>>, s: seq<Byte>) {
    NonEmpty(pieces) && Flatten(pieces) == s
  }

  /** The packets handled and the bytes left do not depend on how a stream is
      cut if and only if the stream is in sync: an unknown packet empties the
      buffer, so with anything after its first byte the cut decides what is
      lost. */
  lemma CutDoesNotMatterIff(s: seq<Byte>)
    ensures (forall pieces :: IsCut(pieces, s) ==> Feed([], pieces) == Drain(s)) <==> InSync(s)
  {
    hide InSync, Drain, Feed;
    if InSync(s) {
      assert [] + s == s;
      EmptyDrains();
      forall pieces | IsCut(pieces, s) ensures Feed([], pieces) == Drain(s) {
        FeedIsDrain([], pieces);
      }
    } else {
      var k := BadCut(s);
      FeedTwo(s, k);
      assert [] + s[k..] == s[k..];
      assert Feed([], [s[..k], s[k..]]) != Drain(s);
    }
  }

  lemma EmptyDrains()
    ensures Drain([]) == Outcome([], [])
  {
  }

  lemma FeedTwo(s: seq<Byte>, k: nat)
    requires 0 < k < |s|
    ensures Feed([], [s[..k], s[k..]]) == Then(Drain(s[..k]), Drain(Drain(s[..k]).left + s[k..]))
    ensures IsCut([s[..k], s[k..]], s)
  {
    hide Drain;
    var pieces: seq<seq<Byte>> := [s[..k], s[k..]];
    assert pieces[1..] == [s[k..]] && pieces[1..][1..] == [];
    assert pieces[0] != [] && pieces[1] != [] && NonEmpty(pieces);
    assert s[..k] + (s[k..] + []) == s;
    assert Flatten(pieces) == s[..k] + Flatten(pieces[1..]);
    assert [] + s[..k] == s[..k];
    var last := Drain(Drain(s[..k]).left + s[k..]);
    assert last.events + [] == last.events;
    assert Feed(last.left, pieces[1..][1..]) == Outcome([], last.left);
  }

  /** Where to cut a stream that gets out of sync so that it shows: right after
      the first byte of the unknown packet. */
  lemma {:induction false} BadCut(s: seq<Byte>) returns (k: nat)
    requires !InSync(s)
    ensures 0 < k < |s|
    ensures Drain(s[..k]).left == [] && Drain(s).left == []
    ensures Then(Drain(s[..k]), Drain(s[k..])) != Drain(s)
    ensures |Drain(s[..k]).events| == |Drain(s).events|
    decreases |s|
  {
    hide LengthField;
    var p := First(s).value;
    if p.event == Unknown {
      k := 1;
      UnknownExtends(s[..1], s[1..]);
      assert s[..1] + s[1..] == s;
      assert s[1..] != [];
      assert Drain(s[..1]) == Outcome([Unknown], []);
      assert Drain(s) == Outcome([Unknown], []);
      DrainDoesSomething(s[1..]);
    } else {
      var k' := BadCut(s[p.size..]);
      k := p.size + k';
      FirstWithin(s, k);
      assert s[..k][p.size..] == s[p.size..][..k'];
      assert s[k..] == s[p.size..][k'..];
      assert Drain(s[..k]).events == [p.event] + Drain(s[p.size..][..k']).events;
    }
  }

  lemma DrainDoesSomething(s: seq<Byte>)
    requires s != []
    ensures Drain(s).events != [] || Drain(s).left != []
  {
  }

  /** A packet of a known kind is found without looking past its end. */
  lemma FirstWithin(s: seq<Byte>, k: nat)
    requires s != [] && First(s).Some? && First(s).value.event != Unknown
    requires First(s).value.size <= k <= |s|
    ensures First(s[..k]) == First(s)
  {
    hide LengthField, Publication;
    if s[0] / 16 * 16 == PUBLISH {
      var l := LengthField(s[1..], 0).value;
      var start := 1 + l.size;
      LengthFieldWithin(s[1..], k - 1, 0);
      assert s[..k][1..] == s[1..][..k - 1];
      assert s[..k] + s[k..] == s;
      SliceExtends(s[..k], s[k..], start, start + l.value);
    }
  }

  lemma {:induction false} LengthFieldWithin(s: seq<Byte>, k: nat, depth: nat)
    requires depth <= 3 && LengthField(s, depth).Some?
    requires LengthField(s, depth).value.size <= k <= |s|
    ensures LengthField(s[..k], depth) == LengthField(s, depth)
    decreases 3 - depth
  {
    assert s[..k][0] == s[0];
    if s[0] >= 128 && depth < 3 {
      LengthFieldWithin(s[1..], k - 1, depth + 1);
      assert s[..k][1..] == s[1..][..k - 1];
    }
  }

  // ---------------------------------------------------------------------
  // Packets
  // ---------------------------------------------------------------------

  /** The packets a broker may send here, and those sent to it to publish. */
  datatype Packet =
    | PublishPacket(flags: nat, topic: seq<Byte>, id: nat, payload: seq<Byte>)
    | ConnAckPacket(c0: Byte, c1: Byte, c2: Byte)
    | SubAckPacket(s0: Byte, s1: Byte, s2: Byte, s3: Byte)
    | PubAckPacket(p0: Byte, p1: Byte, p2: Byte)

  /** A 16-bit number, the high byte first; what does not fit is lost. */
  function Int16(i: nat): seq<Byte> {
    [i / 256 % 256, i % 256]
  }

  function Body(topic: seq<Byte>, id: nat, payload: seq<Byte>): seq<Byte> {
    Int16(|topic|) + topic + Int16(id) + payload
  }

  function Framed(command: Byte, body: seq<Byte>): seq<Byte> {
    [command] + VarLen(|body|) + body
  }

  predicate WellFormed(p: Packet) {
    p.PublishPacket? ==> p.flags < 16 && |p.topic| < 65536 && |Body(p.topic, p.id, p.payload)| < MAX_LEN
  }

  function Wire(p: Packet): (w: seq<Byte>)
    requires WellFormed(p)
    ensures |w| > 0
  {
    match p
    case PublishPacket(flags, topic, id, payload) => Framed(PUBLISH + flags, Body(topic, id, payload))
    case ConnAckPacket(c0, c1, c2) => [CONNACK, c0, c1, c2]
    case SubAckPacket(s0, s1, s2, s3) => [SUBACK, s0, s1, s2, s3]
    case PubAckPacket(p0, p1, p2) => [PUBACK, p0, p1, p2]
  }

  /** Packets byte for byte; the length of 321 is the example of section 2.2.3 of
      MQTT 3.1.1. */
  lemma KnownBytes()
    ensures VarLen(0) == [0] && VarLen(127) == [127] && VarLen(128) == [0x80, 1] && VarLen(321) == [193, 2]
    ensures Wire(PublishPacket(1, [97, 47, 98], 5, [7, 8])) == [0x31, 9, 0, 3, 97, 47, 98, 0, 5, 7, 8]
    ensures Wire(ConnAckPacket(2, 0, 0)) == [0x20, 2, 0, 0] && Wire(PubAckPacket(2, 0, 5)) == [0x40, 2, 0, 5]
    ensures Wire(SubAckPacket(3, 0, 1, 0)) == [0x90, 3, 0, 1, 0]
  {
    assert VarLen(1) == [1] && VarLen(2) == [2];
    assert Body([97, 47, 98], 5, [7, 8]) == [0, 3, 97, 47, 98, 0, 5, 7, 8];
  }

  function EventOf(p: Packet): Event {
    match p
    case PublishPacket(_, topic, _, payload) => Published(topic, payload)
    case ConnAckPacket(_, _, _) => ConnAck
    case SubAckPacket(_, _, _, _) => SubAck
    case PubAckPacket(_, _, _) => PubAck
  }

  lemma FramedParses(command: Byte, body: seq<Byte>, rest: seq<Byte>)
    requires command / 16 * 16 == PUBLISH && |body| < MAX_LEN
    ensures First(Framed(command, body) + rest) == Some(Parsed(Publication(body), |Framed(command, body)|))
  {
    hide Publication;
    var s := Framed(command, body) + rest;
    LengthRoundTrip(|body|, body + rest, 0);
    assert s[1..] == VarLen(|body|) + (body + rest);
    hide VarLen, LengthField;
    var head := [command] + VarLen(|body|);
    assert s == head + body + rest;
    assert (head + body)[|head|..] == body;
    SliceExtends(head + body, rest, |head|, |head| + |body|);
  }

  /** A publication comes back with its topic and payload if and only if the
      topic is shorter than 65536 bytes. */
  lemma PublicationRoundTripIff(topic: seq<Byte>, id: nat, payload: seq<Byte>)
    ensures Publication(Body(topic, id, payload)) == Published(topic, payload) <==> |topic| < 65536
  {
    var body := Body(topic, id, payload);
    var n := |topic|;
    assert body[0] == n / 256 % 256 && body[1] == n % 256;
    if n < 65536 {
      assert body[0] as int * 256 + body[1] == n;
      assert body[2..2 + n] == topic;
      assert body[n + 4..] == payload;
    }
  }

  lemma PacketParses(p: Packet, rest: seq<Byte>)
    requires WellFormed(p)
    ensures First(Wire(p) + rest) == Some(Parsed(EventOf(p), |Wire(p)|))
  {
    hide LengthField, VarLen, Publication;
    if p.PublishPacket? {
      hide First, Body, Framed;
      FramedParses(PUBLISH + p.flags, Body(p.topic, p.id, p.payload), rest);
      PublicationRoundTripIff(p.topic, p.id, p.payload);
    }
  }

  /** Part of a packet is recognized as incomplete. */
  lemma PartIsIncomplete(p: Packet, k: nat)
    requires WellFormed(p) && 0 < k < |Wire(p)|
    ensures First(Wire(p)[..k]) == None
  {
    hide LengthField, VarLen, Publication, Wire, First;
    var part, rest := Wire(p)[..k], Wire(p)[k..];
    assert part + rest == Wire(p) + [];
    PacketParses(p, []);
    UnknownExtends(part, rest);
    if First(part).Some? {
      FirstExtends(part, rest);
      assert false;
    }
  }

  function Wires(ps: seq<Packet>): seq<Byte>
    requires forall i :: 0 <= i < |ps| ==> WellFormed(ps[i])
  {
    if ps == [] then [] else Wire(ps[0]) + Wires(ps[1..])
  }

  function Events(ps: seq<Packet>): seq<Event> {
    if ps == [] then [] else [EventOf(ps[0])] + Events(ps[1..])
  }

  lemma {:induction false} StreamParses(ps: seq<Packet>, tail: seq<Byte>)
    requires forall i :: 0 <= i < |ps| ==> WellFormed(ps[i])
    requires Drain(tail) == Outcome([], tail)
    ensures Drain(Wires(ps) + tail) == Outcome(Events(ps), tail)
    ensures InSync(Wires(ps) + tail)
  {
    hide Wire;
    if ps == [] {
      assert Wires(ps) + tail == tail;
    } else {
      hide First;
      var s, next := Wires(ps) + tail, Wires(ps[1..]) + tail;
      assert s == Wire(ps[0]) + next;
      PacketParses(ps[0], next);
      assert s[|Wire(ps[0])|..] == next;
      StreamParses(ps[1..], tail);
    }
  }

  /** Any stream of well-formed packets, the last perhaps not yet complete, cut
      in any way: exactly those packets are handled, in order, and the bytes of
      the incomplete one are kept. */
  lemma AnyCutDeliversThePackets(ps: seq<Packet>, next: Packet, k: nat, pieces: seq<seq<Byte>>)
    requires forall i :: 0 <= i < |ps| ==> WellFormed(ps[i])
    requires WellFormed(next) && k < |Wire(next)|
    requires IsCut(pieces, Wires(ps) + Wire(next)[..k])
    ensures Feed([], pieces) == Outcome(Events(ps), Wire(next)[..k])
  {
    hide Wire, First, Feed;
    var tail := Wire(next)[..k];
    if k > 0 { PartIsIncomplete(next, k); }
    StreamParses(ps, tail);
    CutDoesNotMatterIff(Wires(ps) + tail);
  }

  /** A stream where the cut matters. */
  lemma UnknownPacketLosesWhatFollows()
    ensures var s: seq<Byte> := [0xD0, CONNACK, 2, 0, 0];
            && Drain(s) == Outcome([Unknown], [])
            && Feed([], [s[..1], s[1..]]) == Outcome([Unknown, ConnAck], [])
  {
    var s: seq<Byte> := [0xD0, CONNACK, 2, 0, 0];
    assert First(s) == Some(Parsed(Unknown, 5));
    assert s[..1] == [0xD0] && First([0xD0]) == Some(Parsed(Unknown, 1));
    assert [] + s[..1] == [0xD0] && [0xD0][1..] == [];
    var t := [] + s[1..];
    assert t == [CONNACK, 2, 0, 0] && First(t) == Some(Parsed(ConnAck, 4)) && t[4..] == [];
    var pieces: seq<seq<Byte>> := [s[..1], s[1..]];
    assert pieces[1..] == [s[1..]] && pieces[1..][1..] == [];
    assert Drain(s[..1]) == Outcome([Unknown], []);
    assert Drain(t) == Outcome([ConnAck], []);
    assert Feed([], pieces[1..]) == Outcome([ConnAck], []);
  }

  // ---------------------------------------------------------------------
  // The program
  // ---------------------------------------------------------------------

  function Count(events: seq<Event>, e: Event): nat {
    if events == [] then 0 else (if events[0] == e then 1 else 0) + Count(events[1..], e)
  }

  lemma {:induction false} CountAppend(events: seq<Event>, e: Event, x: Event)
    ensures Count(events + [e], x) == Count(events, x) + if e == x then 1 else 0
  {
    if events == [] {
      assert [] + [e] == [e] && [e][1..] == [];
    } else {
      assert (events + [e])[1..] == events[1..] + [e];
      CountAppend(events[1..], e, x);
    }
  }

  class MqttComm {
    /** Bytes received and not yet handled. */
    var mqttInput: seq<Byte>
    var packetId: nat
    var connackCount: nat
    var subackCount: nat
    var pubackCount: nat
    ghost var handled: seq<Event>

    ghost predicate Valid()
      reads this
    {
      && packetId < 65536
      && connackCount == Count(handled, ConnAck)
      && subackCount == Count(handled, SubAck)
      && pubackCount == Count(handled, PubAck)
      && Drain(mqttInput) == Outcome([], mqttInput)
    }

    constructor ()
      ensures Valid() && handled == [] && mqttInput == []
    {
      mqttInput, packetId, connackCount, subackCount, pubackCount := [], 0, 0, 0, 0;
      handled := [];
    }

    /** `mqtt_finish_msg`: the varlen array has room for four bytes. */
    static method FinishMsg(command: Byte, data: seq<Byte>) returns (msg: seq<Byte>)
      requires |data| < MAX_LEN
      ensures msg == Framed(command, data)
    {
      hide VarLen, LengthField;
      var len := |data|;
      var varlen := new Byte[4];
      var n := 0;
      var more := true;
      while more
        invariant 0 <= n <= 4 && 0 <= len
        invariant more ==> n < 4 && len < Multiplier(4 - n)
        invariant more ==> VarLen(|data|) == varlen[..n] + VarLen(len)
        invariant !more ==> VarLen(|data|) == varlen[..n]
        decreases more, len
      {
        ghost var before := varlen[..n];
        VarLenStep(len);
        var encoded := len % 128;
        len := len / 128;
        if len > 0 {
          encoded := encoded + 128;
        }
        varlen[n] := encoded;
        n := n + 1;
        more := len > 0;
        assert varlen[..n] == before + [encoded];
        assert more ==> before + ([encoded] + VarLen(len)) == (before + [encoded]) + VarLen(len);
      }
      msg := [command] + varlen[..n] + data;
    }

    static lemma VarLenStep(len: nat)
      ensures len < 128 ==> VarLen(len) == [len] && len / 128 == 0 && len % 128 == len
      ensures len >= 128 ==> VarLen(len) == [len % 128 + 128] + VarLen(len / 128) && len / 128 > 0
      ensures len < Multiplier(1) ==> len / 128 == 0
      ensures len < Multiplier(2) ==> len / 128 < Multiplier(1)
      ensures len < Multiplier(3) ==> len / 128 < Multiplier(2)
      ensures len < Multiplier(4) ==> len / 128 < Multiplier(3)
    {
    }

    /** `mqtt_int_len`.  One byte past the end of the input may be read; whatever
        it is, the result then says that the packet is incomplete. */
    static method IntLen(m: seq<Byte>, beyond: Byte) returns (length: int, posn: nat)
      requires m != []
      ensures match LengthField(m[1..], 0)
              case Some(l) => length == l.value && posn == 1 + l.size
              case None => length == -1 || (0 <= length && posn > |m|)
    {
      hide Rest;
      posn, length := 1, 0;
      var multiplier := 1;
      StartOfLength(m);
      var done := false;
      while !done
        invariant 1 <= posn <= 5 && 0 <= length
        invariant multiplier == Multiplier(posn - 1)
        invariant !done ==> posn <= 4 && posn <= |m| + 1
        invariant !done && posn <= |m| ==> LengthField(m[1..], 0) == Rest(m, posn, length)
        invariant !done && posn > |m| ==> LengthField(m[1..], 0) == None
        invariant done ==> match LengthField(m[1..], 0)
                           case Some(l) => length == l.value && posn == 1 + l.size
                           case None => posn > |m|
        decreases !done, 5 - posn
      {
        if posn > |m| {
          return -1, posn;
        }
        var byte := if posn < |m| then m[posn] else beyond;
        if posn < |m| {
          LengthStep(m, posn, length);
        } else {
          EndOfLength(m, length);
        }
        posn := posn + 1;
        length := length + byte % 128 * multiplier;
        multiplier := multiplier * 128;
        done := byte < 128 || multiplier > 128 * 128 * 128;
      }
    }

    /** The length field when `length` was read from the bytes before `posn`. */
    static ghost function Rest(m: seq<Byte>, posn: nat, length: nat): Option<Length>
      requires 1 <= posn <= 4 && posn <= |m|
    {
      match LengthField(m[posn..], posn - 1)
      case None => None
      case Some(l) => Some(Length(length + Multiplier(posn - 1) * l.value, posn - 1 + l.size))
    }

    static lemma StartOfLength(m: seq<Byte>)
      requires m != []
      ensures Rest(m, 1, 0) == LengthField(m[1..], 0)
    {
    }

    static lemma EndOfLength(m: seq<Byte>, length: nat)
      requires 1 <= |m| <= 4
      ensures Rest(m, |m|, length) == None
    {
    }

    static lemma LengthStep(m: seq<Byte>, posn: nat, length: nat)
      requires 1 <= posn <= 4 && posn < |m|
      ensures m[posn] < 128 || posn == 4 ==>
                Rest(m, posn, length) == Some(Length(length + m[posn] % 128 * Multiplier(posn - 1), posn))
      ensures m[posn] >= 128 && posn < 4 ==>
                Rest(m, posn, length) == Rest(m, posn + 1, length + m[posn] % 128 * Multiplier(posn - 1))
    {
      assert m[posn..][0] == m[posn];
      assert m[posn..][1..] == m[posn + 1..];
    }

    /** `handle_first_msg`. */
    method HandleFirstMsg(beyond: Byte) returns (found: bool)
      requires mqttInput != []
      requires Counted()
      modifies `mqttInput, `connackCount, `subackCount, `pubackCount, `handled
      ensures Counted()
      ensures found <==> First(old(mqttInput)).Some?
      ensures !found ==> mqttInput == old(mqttInput) && handled == old(handled)
      ensures found ==> var p := First(old(mqttInput)).value;
                mqttInput == old(mqttInput)[p.size..] && handled == old(handled) + [p.event]
    {
      hide LengthField;
      var first, size := mqttInput[0], |mqttInput|;
      CountsAppend(handled);
      if first / 16 * 16 == PUBLISH {
        var len, posn := IntLen(mqttInput, beyond);
        if len < 0 || posn + len > size {
          return false;
        }
        handled := handled + [Publication(mqttInput[posn..posn + len])];
        mqttInput := mqttInput[posn + len..];
      } else if first == CONNACK {
        if size < 4 {
          return false;
        }
        connackCount := connackCount + 1;
        mqttInput := mqttInput[4..];
        handled := handled + [ConnAck];
      } else if first == SUBACK {
        if size < 5 {
          return false;
        }
        subackCount := subackCount + 1;
        mqttInput := mqttInput[5..];
        handled := handled + [SubAck];
      } else if first == PUBACK {
        if size < 4 {
          return false;
        }
        pubackCount := pubackCount + 1;
        mqttInput := mqttInput[4..];
        handled := handled + [PubAck];
      } else {
        mqttInput := mqttInput[size..];
        handled := handled + [Unknown];
      }
      found := true;
    }

    ghost predicate Counted()
      reads this
    {
      && connackCount == Count(handled, ConnAck)
      && subackCount == Count(handled, SubAck)
      && pubackCount == Count(handled, PubAck)
    }

    static lemma CountsAppend(events: seq<Event>)
      ensures forall e, x :: Count(events + [e], x) == Count(events, x) + if e == x then 1 else 0
    {
      forall e, x ensures Count(events + [e], x) == Count(events, x) + if e == x then 1 else 0 {
        CountAppend(events, e, x);
      }
    }

    /** `deliver`: `beyond` is whatever byte follows the input in memory. */
    method Deliver(data: seq<Byte>, beyond: Byte)
      requires Valid() && data != []
      modifies `mqttInput, `connackCount, `subackCount, `pubackCount, `handled
      ensures Valid()
      ensures var now := Drain(old(mqttInput) + data);
              handled == old(handled) + now.events && mqttInput == now.left
    {
      hide First, Count;
      mqttInput := mqttInput + data;
      ghost var all := mqttInput;
      ghost var events := [];
      var found := HandleFirstMsg(beyond);
      if found { events := [First(all).value.event]; }
      while found && |mqttInput| > 0
        invariant Counted()
        invariant handled == old(handled) + events
        invariant !found ==> mqttInput != [] && First(mqttInput) == None
        invariant Drain(all) == Then(Outcome(events, []), Drain(mqttInput))
        decreases |mqttInput|, found
      {
        ghost var before := mqttInput;
        found := HandleFirstMsg(beyond);
        if found {
          events := events + [First(before).value.event];
        }
      }
      DrainIsFinal(all);
    }

    /** `publish`: the message for the broker; the topic is prefixed with the
        ensemble name. */
    method Publish(ensemble: seq<Byte>, subtopic: seq<Byte>, payload: seq<Byte>, suffix: seq<Byte>, retain: bool)
      returns (msg: seq<Byte>)
      requires Valid()
      requires |ensemble| + |subtopic| + |payload| + |suffix| + 8 < MAX_LEN
      modifies `packetId
      ensures Valid() && packetId == (old(packetId) + 1) % 65536
      ensures var topic := Topic(ensemble, subtopic);
              |topic| < 65536 ==>
                msg == Wire(PublishPacket(if retain then 1 else 0, topic, packetId, payload + suffix))
      ensures var topic := Topic(ensemble, subtopic);
              msg != [] && (First(msg) == Some(Parsed(Published(topic, payload + suffix), |msg|)) <==> |topic| < 65536)
    {
      hide First, Drain, Publication, VarLen, Int16;
      packetId := (packetId + 1) % 65536;
      var data := Int16(4 + |ensemble| + |subtopic|);
      ghost var size := data;
      data := data + [0x4F, 0x32, 0x2D] + ensemble + [0x2F] + subtopic;
      assert data == size + Topic(ensemble, subtopic);
      data := data + Int16(packetId);
      data := data + payload;
      data := data + suffix;
      ghost var topic := Topic(ensemble, subtopic);
      BodyInParts(topic, packetId, payload, suffix);
      var command := PUBLISH + if retain then 1 else 0;
      msg := FinishMsg(command, data);
      FramedParses(command, data, []);
      assert msg + [] == msg;
      PublicationRoundTripIff(topic, packetId, payload + suffix);
    }

    static lemma BodyInParts(topic: seq<Byte>, id: nat, payload: seq<Byte>, suffix: seq<Byte>)
      ensures Body(topic, id, payload + suffix) == Int16(|topic|) + topic + Int16(id) + payload + suffix
      ensures |Body(topic, id, payload + suffix)| == |topic| + 4 + |payload| + |suffix|
    {
    }

    /** "O2-", the ensemble name, a slash and the subtopic. */
    static function Topic(ensemble: seq<Byte>, subtopic: seq<Byte>): seq<Byte> {
      [0x4F, 0x32, 0x2D] + ensemble + [0x2F] + subtopic
    }
  }
}
