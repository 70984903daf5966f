/** Copying a message for a tapper: `msg_send_to_tap` of src/msgsend.cpp
    replaces the service name in the address and keeps everything else. */
module MessageTap {
  import opened Common
  import opened Bytes
  import opened MessageFormat
  import opened MessageBuilder

  datatype SendMode = Keep | Reliable | BestEffort

  /** Position of the slash after the service name, or the end of the address.
      The first character is skipped: it is a slash or an exclamation mark. */
  function ServiceEnd(addr: seq<Byte>, i: nat): (n: nat)
    ensures i <= |addr| ==> i <= n <= |addr|
    decreases |addr| - i
  {
    if i >= |addr| || addr[i] == SLASH then i else ServiceEnd(addr, i + 1)
  }

  /** The same address at the tapper's service. */
  function TapAddress(addr: seq<Byte>, tapper: seq<Byte>): seq<Byte>
    requires |addr| > 0
  {
    [addr[0]] + tapper + addr[ServiceEnd(addr, 1)..]
  }

  /** Only the service is replaced: what is in front of it and what follows it
      stays. */
  lemma TapAddressIs(first: Byte, service: seq<Byte>, rest: seq<Byte>, tapper: seq<Byte>)
    requires forall i :: 0 <= i < |service| ==> service[i] != SLASH
    requires rest == [] || rest[0] == SLASH
    ensures TapAddress([first] + service + rest, tapper) == [first] + tapper + rest
  {
    var addr := [first] + service + rest;
    ServiceEndIs(addr, 1, 1 + |service|);
    assert addr[1 + |service|..] == rest;
  }

  lemma {:induction false} ServiceEndIs(addr: seq<Byte>, i: nat, end: nat)
    requires i <= end <= |addr| && (forall k :: i <= k < end ==> addr[k] != SLASH)
    requires end == |addr| || addr[end] == SLASH
    ensures ServiceEnd(addr, i) == end
    decreases end - i
  {
    if i < end { ServiceEndIs(addr, i + 1, end); }
  }

  const TAP_FLAG := 2

  /** The word of flags and TTL: the tap flag is set, TCP is kept or chosen by
      the tap's mode, and the TTL bits (`misc & 0xFF00`) are copied. */
  function TapMisc(mode: SendMode, misc: nat): nat {
    var base := if mode == Keep then misc else if mode == Reliable then TCP_FLAG else 0;
    var tapped := if base / 2 % 2 == 1 then base else base + TAP_FLAG;
    if mode == Keep then tapped else tapped + misc / 256 % 256 * 256
  }

  lemma TapMiscKeepsTtl(mode: SendMode, misc: nat)
    requires misc < 0x10000
    ensures var m := TapMisc(mode, misc);
            && m / 256 == misc / 256
            && m / 2 % 2 == 1
            && m % 2 == (match mode case Keep => misc % 2 case Reliable => 1 case BestEffort => 0)
  {
    var ttl, low := misc / 256, misc % 256;
    LowBits(ttl, low);
    if mode == Keep {
      if low / 2 % 2 != 1 {
        ByteHasRoom(low);
        LowBits(ttl, low + 2);
      }
    } else {
      LowBits(ttl, 2);
      LowBits(ttl, 3);
      assert ttl % 256 == ttl;
    }
  }

  lemma LowBits(ttl: nat, low: nat)
    requires low < 256
    ensures (256 * ttl + low) / 256 == ttl
    ensures (256 * ttl + low) % 2 == low % 2
    ensures (256 * ttl + low) / 2 % 2 == low / 2 % 2
  {
    HalfOfSum(128 * ttl, low);
    HalfOfSum(64 * ttl, low / 2);
    assert low / 256 == 0;
  }

  lemma HalfOfSum(k: nat, n: nat)
    ensures (2 * k + n) / 2 == k + n / 2 && (2 * k + n) % 2 == n % 2
  {
  }

  lemma ByteHasRoom(low: nat)
    requires low < 256 && low / 2 % 2 == 0
    ensures low + 2 < 256 && (low + 2) / 2 % 2 == 1 && (low + 2) % 2 == low % 2
  {
  }

  /** A slice of the encoded message, from the end of its address on. */
  lemma AfterAddress(misc: nat, time: nat, addr: seq<Byte>, args: seq<Arg>)
    ensures var b := Encode(misc, time, addr, args, Host);
            && |b| >= HEADER + |PadText(addr)|
            && b[HEADER + |PadText(addr)|..] == TypeBlock(args) + DataOf(args, Host)
            && b[4..HEADER] == Le(time, 8) && b[..4] == Le(misc, 4)
  {
    hide PadText, TypeBlock, DataOf, Le;
    var h, p, rest := Header(misc, time, Host), PadText(addr), TypeBlock(args) + DataOf(args, Host);
    var b := h + (p + rest);
    assert b[HEADER + |p|..] == rest;
    assert b[4..HEADER] == h[4..] && b[..4] == h[..4];
  }

  /** The strings in front of `k` are known from the encoding. */
  lemma AddressAt(misc: nat, time: nat, addr: seq<Byte>, args: seq<Arg>)
    requires NoZero(addr)
    ensures var b := Encode(misc, time, addr, args, Host);
            && |b| >= HEADER + |PadText(addr)|
            && StrLen(b, HEADER) == |addr| && b[HEADER..HEADER + |addr|] == addr
  {
    hide TypeBlock, DataOf, Le, StrLen, RoundUp, Encode;
    var b := Encode(misc, time, addr, args, Host);
    PartsOf(misc, time, addr, args, Host);
    ScanPadded(b, HEADER, addr);
    var p := PadText(addr);
    assert b[HEADER..HEADER + |addr|] == b[HEADER..HEADER + |p|][..|addr|] == p[..|addr|] == addr;
  }

  /** The new message is exactly what building it for the tapper would have
      given: same timestamp, types and data, so the same arguments, at the
      same address of the tapper's service. */
  method CopyForTap(msg: seq<Byte>, tapper: seq<Byte>, mode: SendMode,
                    ghost misc: nat, ghost time: nat, ghost addr: seq<Byte>, ghost args: seq<Arg>)
    returns (newmsg: array<Byte>)
    requires msg == Encode(misc, time, addr, args, Host) && NoZero(addr) && |addr| > 0
    requires misc < Limit(4) && NoZero(tapper)
    ensures fresh(newmsg)
    ensures newmsg[..] == Encode(TapMisc(mode, misc), time, TapAddress(addr, tapper), args, Host)
    ensures NoZero(TapAddress(addr, tapper))
  {
    hide Encode, Splice, PadText, TypeBlock, DataOf, RoundUp, Le, FromLe, Limit, TapMisc;
    AddressAt(misc, time, addr, args);
    AfterAddress(misc, time, addr, args);
    LeRoundTrip(misc, 4);
    PadTextLength(addr);
    var curaddrlen := StrLen(msg, HEADER);
    var address := msg[HEADER..HEADER + curaddrlen];
    var curlen := ServiceEnd(address, 1);
    var newlen := |tapper| + 1;
    var newaddrlen := curaddrlen + newlen - curlen;
    var curaddrall, newaddrall := RoundUp(curaddrlen + 1), RoundUp(newaddrlen + 1);
    ghost var newaddr := TapAddress(addr, tapper);
    newmsg := new Byte[|msg| + newaddrall - curaddrall];
    WriteHeader(newmsg, TapMisc(mode, FromLe(msg[..4])), msg[4..HEADER]);
    WriteAddress(newmsg, newaddrall, address[0], tapper, address[curlen..]);
    var rest := msg[HEADER + curaddrall..];
    SpliceIndex(newmsg[..], HEADER + newaddrall, rest);
    CopyTo(newmsg, HEADER + newaddrall, rest);
    assert newmsg[..] == newmsg[..HEADER + newaddrall + |rest|];
    Together(newmsg[..], TapMisc(mode, misc), time, newaddr, args);
  }

  lemma PadTextLength(s: seq<Byte>)
    ensures |PadText(s)| == RoundUp(|s| + 1)
  {
  }

  lemma Together(b: seq<Byte>, misc: nat, time: nat, addr: seq<Byte>, args: seq<Arg>)
    requires b == (Le(misc, 4) + Le(time, 8) + PadText(addr)) + (TypeBlock(args) + DataOf(args, Host))
    ensures b == Encode(misc, time, addr, args, Host)
  {
    hide PadText, TypeBlock, DataOf, Le;
  }

  method WriteHeader(buf: array<Byte>, misc: nat, time: seq<Byte>)
    requires HEADER <= buf.Length && |time| == 8
    modifies buf
    ensures buf[..HEADER] == Le(misc, 4) + time
  {
    hide Splice, Le;
    SpliceIndex(buf[..], 0, Le(misc, 4));
    CopyTo(buf, 0, Le(misc, 4));
    SpliceIndex(buf[..], 4, time);
    CopyTo(buf, 4, time);
  }

  method WriteAddress(buf: array<Byte>, size: nat, first: Byte, tapper: seq<Byte>, rest: seq<Byte>)
    requires size == RoundUp(|[first] + tapper + rest| + 1) && HEADER + size <= buf.Length
    modifies buf
    ensures buf[..HEADER + size] == old(buf[..HEADER]) + PadText([first] + tapper + rest)
  {
    hide Splice, PadText, RoundUp;
    ghost var s := buf[..];
    PaddedLayout(s, HEADER, size, [first] + tapper + rest);
    SpliceIndex(s, HEADER + size - 4, Zeros(4));
    CopyTo(buf, HEADER + size - 4, Zeros(4));
    ServiceLayout(buf[..], HEADER, first, tapper, rest);
    CopyTo(buf, HEADER, [first]);
    CopyTo(buf, HEADER + 1, tapper + [0]);
    CopyTo(buf, HEADER + 1 + |tapper|, rest);
    assert buf[..HEADER + size] == buf[..][..HEADER + size];
    assert s[..HEADER] == old(buf[..HEADER]);
  }
}
