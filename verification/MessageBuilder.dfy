/** Building messages: the type and data buffers of src/message.cpp and the
    copying that puts a finished message together in uninitialized memory. */
module MessageBuilder {
  import opened Common
  import opened Bytes
  import opened MessageFormat

  const TCP_FLAG := 1
  const SLASH: Byte := 47
  const HASH: Byte := 35

  /** `s` with `src` written over it at `at`. */
  function Splice(s: seq<Byte>, at: nat, src: seq<Byte>): (r: seq<Byte>)
    requires at + |src| <= |s|
    ensures |r| == |s|
  {
    s[..at] + src + s[at + |src|..]
  }

  lemma SpliceIndex(s: seq<Byte>, at: nat, src: seq<Byte>)
    requires at + |src| <= |s|
    ensures var r := Splice(s, at, src);
            && r[..at] == s[..at]
            && r[..at + |src|] == s[..at] + src
            && forall i :: 0 <= i < |s| ==> r[i] == if at <= i < at + |src| then src[i - at] else s[i]
  {
  }

  /** `memcpy`. */
  method CopyTo(buf: array<Byte>, at: nat, src: seq<Byte>)
    requires at + |src| <= buf.Length
    modifies buf
    ensures buf[..] == Splice(old(buf[..]), at, src)
  {
    forall i | 0 <= i < |src| {
      buf[at + i] := src[i];
    }
  }

  /** Clear the last word, then write the string: the string comes out padded. */
  lemma PaddedLayout(s: seq<Byte>, at: nat, size: nat, str: seq<Byte>)
    requires size == RoundUp(|str| + 1) && at + size <= |s|
    ensures var r := Splice(Splice(s, at + size - 4, Zeros(4)), at, str);
            r[..at + size] == s[..at] + PadText(str)
  {
    hide RoundUp, Splice;
    var cleared := Splice(s, at + size - 4, Zeros(4));
    var r := Splice(cleared, at, str);
    SpliceIndex(s, at + size - 4, Zeros(4));
    SpliceIndex(cleared, at, str);
    var p := r[at..at + size];
    assert forall i :: 0 <= i < |str| ==> p[i] == r[at + i] == str[i];
    assert p[..|str|] == str;
    PadTextFromParts(p, str);
    assert r[..at] == s[..at];
    assert r[..at + size] == r[..at] + p;
  }

  /** Writing a service with its end, and then the rest over that end. */
  lemma ServiceLayout(s: seq<Byte>, at: nat, prefix: Byte, service: seq<Byte>, address: seq<Byte>)
    requires at + |service| + |address| + 2 <= |s| && s[at + |service| + |address| + 1] == 0
    ensures var one := Splice(s, at, [prefix]);
            var two := Splice(one, at + 1, service + [0]);
            Splice(two, at + 1 + |service|, address) == Splice(s, at, [prefix] + service + address)
  {
    hide Splice;
    var one := Splice(s, at, [prefix]);
    var two := Splice(one, at + 1, service + [0]);
    var three := Splice(two, at + 1 + |service|, address);
    SpliceIndex(s, at, [prefix]);
    SpliceIndex(one, at + 1, service + [0]);
    SpliceIndex(two, at + 1 + |service|, address);
    SpliceIndex(s, at, [prefix] + service + address);
  }

  lemma PadTextFromParts(p: seq<Byte>, s: seq<Byte>)
    requires |p| == RoundUp(|s| + 1) && p[..|s|] == s
    requires forall i :: |s| <= i < |p| ==> p[i] == 0
    ensures p == PadText(s)
  {
    assert p == p[..|s|] + p[|s|..];
  }

  /** The whole address of a message: a service, if given, goes in front. */
  function FullAddress(service: Option<seq<Byte>>, address: seq<Byte>, prefix: Byte): seq<Byte> {
    if service.None? then address else [prefix] + service.value + address
  }

  /** The service "a" and the address "/b" come out as "/a/b", in a bundle as
      "#a/b"; without a service the address stays. */
  lemma KnownAddress()
    ensures FullAddress(Some([97]), [47, 98], SLASH) == [47, 97, 47, 98]
    ensures FullAddress(Some([97]), [47, 98], HASH) == [35, 97, 47, 98]
    ensures FullAddress(None, [47, 98], SLASH) == [47, 98] && TCP_FLAG == 1
  {
  }

  class Builder {
    var buildingLock: bool
    var isBundle: bool
    var isNormal: bool
    var msgTypes: seq<Byte>
    var msgData: seq<Byte>
    /** The arguments added so far. */
    ghost var args: seq<Arg>

    ghost predicate Valid()
      reads this
    {
      && |msgData| % 4 == 0
      && (buildingLock ==>
            && msgTypes == [COMMA] + Codes(args)
            && !(isBundle && isNormal)
            && (!isNormal ==> args == [])
            && (!isBundle ==> msgData == DataOf(args, Host)))
    }

    constructor ()
      ensures Valid() && !buildingLock
    {
      buildingLock, isBundle, isNormal := false, false, false;
      msgTypes, msgData, args := [], [], [];
    }

    /** `o2_send_start`: one message at a time. */
    method Start() returns (ok: bool)
      requires Valid()
      modifies this
      ensures Valid() && buildingLock && ok == !old(buildingLock)
      ensures ok ==> args == [] && !isBundle && !isNormal
      ensures !ok ==> args == old(args) && isBundle == old(isBundle) && isNormal == old(isNormal)
    {
      if buildingLock {
        return false;
      }
      buildingLock, isBundle, isNormal := true, false, false;
      msgTypes, msgData, args := [COMMA], [], [];
      assert [COMMA] + Codes([]) == [COMMA];
      ok := true;
    }

    /** What a successful `o2_add_*` does; they all refuse in a bundle. */
    twostate predicate Added(ok: bool, a: Arg)
      reads this
    {
      && Valid() && buildingLock == old(buildingLock)
      && ok == !old(isBundle) && isBundle == old(isBundle)
      && (ok ==> isNormal && args == old(args) + [a])
      && (!ok ==> isNormal == old(isNormal) && args == old(args) && msgData == old(msgData))
    }

    /** Append an argument's bytes and its code. */
    method Append(bytes: seq<Byte>, code: Byte, ghost a: Arg)
      requires Valid() && !isBundle && bytes == Data(a, Host) && code == Code(a)
      modifies this
      ensures Valid() && isNormal && args == old(args) + [a]
      ensures buildingLock == old(buildingLock) && !isBundle
    {
      hide Data;
      isNormal := true;
      if buildingLock {
        DataOfConcat(args, [a], Host);
        DataOfOne(a, Host);
        CodesAppend(args, a);
      }
      msgData := msgData + bytes;
      msgTypes := msgTypes + [code];
      args := args + [a];
    }

    static lemma CodesAppend(args: seq<Arg>, a: Arg)
      ensures [COMMA] + Codes(args + [a]) == ([COMMA] + Codes(args)) + [Code(a)]
    {
    }

    method AddInt32OrChar(k: Kind32, bits: nat) returns (ok: bool)
      requires Valid() && bits < Limit(4)
      modifies this
      ensures Added(ok, Word(k, bits))
    {
      if isBundle { return false; }
      Append(Le(bits, 4), Code(Word(k, bits)), Word(k, bits));
      ok := true;
    }

    method AddInt64OrDoubleOrTime(k: Kind64, bits: nat) returns (ok: bool)
      requires Valid() && bits < Limit(8)
      modifies this
      ensures Added(ok, Long(k, bits))
    {
      if isBundle { return false; }
      Append(Le(bits, 8), Code(Long(k, bits)), Long(k, bits));
      ok := true;
    }

    method AddOnlyTypecode(k: KindFlag) returns (ok: bool)
      requires Valid()
      modifies this
      ensures Added(ok, Flag(k))
    {
      if isBundle { return false; }
      Append([], Code(Flag(k)), Flag(k));
      ok := true;
    }

    /** The string, its end, and zeros up to a word boundary of the buffer. */
    method AddStringOrSymbol(k: KindText, s: seq<Byte>) returns (ok: bool)
      requires Valid() && NoZero(s)
      modifies this
      ensures Added(ok, Text(k, s))
    {
      if isBundle { return false; }
      var padded := PadData(msgData + (s + [0]));
      PaddingOfText(msgData, s);
      assert padded[|msgData|..] == PadText(s);
      Append(padded[|msgData|..], Code(Text(k, s)), Text(k, s));
      ok := true;
    }

    method AddBlobData(data: seq<Byte>) returns (ok: bool)
      requires Valid() && |data| < Limit(4)
      modifies this
      ensures Added(ok, Blob(data))
    {
      if isBundle { return false; }
      var padded := PadData(msgData + (Le(|data|, 4) + data));
      PaddingOfBlob(msgData, data);
      Append(padded[|msgData|..], Code(Blob(data)), Blob(data));
      ok := true;
    }

    static lemma PaddingOfText(d: seq<Byte>, s: seq<Byte>)
      requires |d| % 4 == 0
      ensures PadData(d + (s + [0])) == d + PadText(s)
    {
      hide RoundUp;
      RoundUpSum(|d|, |s| + 1);
      var n := RoundUp(|s| + 1) - |s|;
      assert Zeros(n) == [0] + Zeros(n - 1);
    }

    static lemma PaddingOfWordAndData(d: seq<Byte>, n: seq<Byte>, data: seq<Byte>)
      requires |d| % 4 == 0 && |n| == 4
      ensures PadData(d + (n + data)) == d + (n + PadData(data))
    {
      hide RoundUp, Zeros;
      var x := d + (n + data);
      RoundUpSum(|d|, 4 + |data|);
      RoundUpSum(4, |data|);
      assert |x| == |d| + (4 + |data|);
      var z := Zeros(RoundUp(|data|) - |data|);
      assert PadData(x) == x + z;
      assert x + z == d + (n + (data + z));
      assert PadData(data) == data + z;
    }

    static lemma PaddingOfBlob(d: seq<Byte>, data: seq<Byte>)
      requires |d| % 4 == 0
      ensures PadData(d + (Le(|data|, 4) + data)) == d + Data(Blob(data), Host)
    {
      hide PadData, Le, Data;
      PaddingOfWordAndData(d, Le(|data|, 4), data);
      HostBlob(data);
    }

    static lemma HostBlob(data: seq<Byte>)
      ensures Data(Blob(data), Host) == Le(|data|, 4) + PadData(data)
    {
      hide PadData, Le;
    }

    static lemma RoundUpSum(a: nat, b: nat)
      requires a % 4 == 0
      ensures RoundUp(a + b) == a + RoundUp(b)
    {
    }

    /** `o2_add_message`: an embedded message, with its length. */
    method AddMessage(m: seq<Byte>) returns (ok: bool)
      requires Valid()
      modifies this
      ensures Valid() && ok == !old(isNormal) && buildingLock == old(buildingLock)
      ensures ok ==> isBundle && msgData == PadData(old(msgData) + (Le(|m|, 4) + m))
      ensures !ok ==> isBundle == old(isBundle) && args == old(args) && msgData == old(msgData)
    {
      if isNormal { return false; }
      isBundle := true;
      msgData := PadData(msgData + (Le(|m|, 4) + m));
      ok := true;
    }

    /** `o2_service_message_finish`.  Memory for the message comes with
        arbitrary contents; every byte of the result is accounted for. */
    method Finish(time: nat, service: Option<seq<Byte>>, address: seq<Byte>, tcp: bool)
      returns (msg: array?<Byte>)
      requires Valid() && time < Limit(8)
      modifies `buildingLock
      ensures Valid() && !buildingLock
      ensures msg == null <==> !old(buildingLock)
      ensures msg != null ==> fresh(msg)
      ensures msg != null && !isBundle ==>
                msg[..] == Encode(if tcp then TCP_FLAG else 0, time, FullAddress(service, address, SLASH), args, Host)
      ensures msg != null && isBundle ==>
                msg[..] == Header(if tcp then TCP_FLAG else 0, time, Host)
                           + (PadText(FullAddress(service, address, HASH)) + ([] + msgData))
    {
      hide Header, PadText, DataOf, Codes;
      if !buildingLock {
        return null;
      }
      buildingLock := false;
      msg := Write(if tcp then TCP_FLAG else 0, time, service, address, isBundle, msgTypes, msgData);
    }

    /** Lay out a message in fresh memory. */
    static method Write(misc: nat, time: nat, service: Option<seq<Byte>>, address: seq<Byte>,
                        isBundle: bool, types: seq<Byte>, data: seq<Byte>)
      returns (buf: array<Byte>)
      ensures fresh(buf)
      ensures buf[..] == Header(misc, time, Host)
                         + (PadText(FullAddress(service, address, if isBundle then HASH else SLASH))
                            + ((if isBundle then [] else PadText(types)) + data))
    {
      hide Header, PadText, RoundUp, Splice;
      var serviceLen := if service.None? then 0 else |service.value| + 1;
      var addrSize := RoundUp(serviceLen + |address| + 1);
      var typesSize := if isBundle then 0 else RoundUp(|types| + 1);
      var prefix := if isBundle then HASH else SLASH;
      ghost var full := FullAddress(service, address, prefix);
      ghost var typePart := if isBundle then [] else PadText(types);
      var size := HEADER + addrSize + typesSize + |data|;
      buf := new Byte[size];
      FillHeader(buf, misc, time);
      FillAddress(buf, addrSize, service, address, prefix);
      var end := HEADER + addrSize;
      if !isBundle {
        FillTypes(buf, end, typesSize, types);
      }
      assert buf[..end + typesSize] == (Header(misc, time, Host) + PadText(full)) + typePart;
      SpliceIndex(buf[..], end + typesSize, data);
      CopyTo(buf, end + typesSize, data);
      Regroup(Header(misc, time, Host), PadText(full), typePart, data);
      assert buf[..] == buf[..size];
    }

    static lemma Regroup(h: seq<Byte>, a: seq<Byte>, t: seq<Byte>, d: seq<Byte>)
      ensures ((h + a) + t) + d == h + (a + (t + d))
    {
    }

    static method FillHeader(buf: array<Byte>, misc: nat, time: nat)
      requires HEADER <= buf.Length
      modifies buf
      ensures buf[..HEADER] == Header(misc, time, Host)
    {
      hide Splice, Le;
      SpliceIndex(buf[..], 0, Le(misc, 4));
      CopyTo(buf, 0, Le(misc, 4));
      SpliceIndex(buf[..], 4, Le(time, 8));
      CopyTo(buf, 4, Le(time, 8));
    }

    static method FillAddress(buf: array<Byte>, addrSize: nat, service: Option<seq<Byte>>, address: seq<Byte>,
                              prefix: Byte)
      requires addrSize == RoundUp(|FullAddress(service, address, prefix)| + 1)
      requires HEADER + addrSize <= buf.Length
      modifies buf
      ensures buf[..HEADER + addrSize] == old(buf[..HEADER]) + PadText(FullAddress(service, address, prefix))
    {
      hide Splice, PadText, RoundUp;
      ghost var s := buf[..];
      PaddedLayout(s, HEADER, addrSize, FullAddress(service, address, prefix));
      SpliceIndex(s, HEADER + addrSize - 4, Zeros(4));
      CopyTo(buf, HEADER + addrSize - 4, Zeros(4));
      var dst := HEADER;
      if service.Some? {
        ServiceLayout(buf[..], HEADER, prefix, service.value, address);
        CopyTo(buf, dst, [prefix]);
        CopyTo(buf, dst + 1, service.value + [0]);
        dst := dst + |service.value| + 1;
      }
      CopyTo(buf, dst, address);
      assert buf[..HEADER + addrSize] == buf[..][..HEADER + addrSize];
      assert s[..HEADER] == old(buf[..HEADER]);
    }

    static method FillTypes(buf: array<Byte>, at: nat, typesSize: nat, types: seq<Byte>)
      requires typesSize == RoundUp(|types| + 1) && at + typesSize <= buf.Length
      modifies buf
      ensures buf[..at + typesSize] == old(buf[..at]) + PadText(types)
    {
      hide Splice, PadText, RoundUp;
      ghost var s := buf[..];
      PaddedLayout(s, at, typesSize, types);
      CopyTo(buf, at + typesSize - 4, Zeros(4));
      CopyTo(buf, at, types);
      assert buf[..at + typesSize] == buf[..][..at + typesSize];
      assert s[..at] == old(buf[..at]);
    }
  }
}
