/** Changing the byte order of a message in place: `o2_msg_swap_endian` of
    src/message.cpp, for messages that are not bundles and have no vectors. */
module MessageSwap {
  import opened Bytes
  import opened MessageFormat

  datatype Outcome = Success | Fail | Invalid | Vector

  /** Reverse `n` bytes at `at`. */
  function Flip(b: seq<Byte>, at: nat, n: nat): (r: seq<Byte>)
    requires at + n <= |b|
    ensures |r| == |b|
  {
    b[..at] + Reverse(b[at..at + n]) + b[at + n..]
  }

  predicate IsCode4(c: Byte) {
    c == CodeOf('i') || c == CodeOf('B') || c == CodeOf('m') || c == CodeOf('f') || c == CodeOf('c')
  }

  predicate IsCode8(c: Byte) {
    c == CodeOf('t') || c == CodeOf('h') || c == CodeOf('d')
  }

  predicate IsCodeText(c: Byte) {
    c == CodeOf('s') || c == CodeOf('S')
  }

  predicate IsCodeFlag(c: Byte) {
    c == CodeOf('T') || c == CodeOf('F') || c == CodeOf('N') || c == CodeOf('I')
  }

  /** The loop over the type codes from `t` on, with the data cursor at `d`, for
      any bytes at all.  A blob's length is read before or after it is
      reversed, whichever is the host's order, and the blob is skipped without
      its padding. */
  function SwapFrom(b: seq<Byte>, t: nat, d: nat, host: bool): (r: (seq<Byte>, Outcome))
    ensures |r.0| == |b|
    decreases |b| - t
  {
    if t >= |b| || b[t] == 0 then (b, Success)
    else if d >= |b| then (b, Fail)
    else if IsCode4(b[t]) then
      if d + 4 > |b| then (b, Invalid) else SwapFrom(Flip(b, d, 4), t + 1, d + 4, host)
    else if IsCode8(b[t]) then
      if d + 8 > |b| then (b, Invalid) else SwapFrom(Flip(b, d, 8), t + 1, d + 8, host)
    else if IsCodeText(b[t]) then
      var end := d + RoundUp(StrLen(b, d) + 1);
      if end > |b| then (b, Invalid) else SwapFrom(b, t + 1, end, host)
    else if b[t] == CodeOf('b') then
      if d + 4 > |b| then (b, Invalid)
      else
        var flipped := Flip(b, d, 4);
        var size := FromLe((if host then b else flipped)[d..d + 4]);
        if d + 4 + size > |b| then (flipped, Invalid) else SwapFrom(flipped, t + 1, d + 4 + size, host)
    else if IsCodeFlag(b[t]) then SwapFrom(b, t + 1, d, host)
    else if b[t] == CodeOf('v') then (b, Vector)
    else (b, Invalid)
  }

  /** The whole operation. */
  function Swapped(b: seq<Byte>, host: bool): (r: (seq<Byte>, Outcome))
    requires |b| >= HEADER
    ensures |r.0| == |b|
  {
    var h := Flip(Flip(b, 0, 4), 4, 8);
    var types := NextString(h, HEADER);
    SwapFrom(h, types + 1, NextString(h, types), host)
  }

  // ---------------------------------------------------------------------
  // In place
  // ---------------------------------------------------------------------

  method FlipInPlace(buf: array<Byte>, at: nat, n: nat)
    requires at + n <= buf.Length
    modifies buf
    ensures buf[..] == Flip(old(buf[..]), at, n)
  {
    var s := Reverse(buf[at..at + n]);
    forall i | 0 <= i < n {
      buf[at + i] := s[i];
    }
  }

  method SwapEndian(buf: array<Byte>, isHostOrder: bool) returns (r: Outcome)
    requires buf.Length >= HEADER
    modifies buf
    ensures (buf[..], r) == Swapped(old(buf[..]), isHostOrder)
  {
    hide Flip, StrLen, NextString, FromLe, RoundUp, IsCode4, IsCode8, IsCodeText, IsCodeFlag, CodeOf;
    FlipInPlace(buf, 0, 4);
    FlipInPlace(buf, 4, 8);
    var types := NextString(buf[..], HEADER);
    var t: nat, d: nat := types + 1, NextString(buf[..], types);
    while t < buf.Length && buf[t] != 0
      invariant SwapFrom(buf[..], t, d, isHostOrder) == Swapped(old(buf[..]), isHostOrder)
      decreases buf.Length - t
    {
      var code := buf[t];
      if d >= buf.Length {
        return Fail;
      }
      if IsCode4(code) {
        if d + 4 > buf.Length { return Invalid; }
        FlipInPlace(buf, d, 4);
        d := d + 4;
      } else if IsCode8(code) {
        if d + 8 > buf.Length { return Invalid; }
        FlipInPlace(buf, d, 8);
        d := d + 8;
      } else if IsCodeText(code) {
        var end := d + RoundUp(StrLen(buf[..], d) + 1);
        if end > buf.Length { return Invalid; }
        d := end;
      } else if code == CodeOf('b') {
        if d + 4 > buf.Length { return Invalid; }
        var size := FromLe(buf[d..d + 4]);
        assert buf[d..d + 4] == buf[..][d..d + 4];
        FlipInPlace(buf, d, 4);
        assert buf[d..d + 4] == buf[..][d..d + 4];
        if !isHostOrder { size := FromLe(buf[d..d + 4]); }
        if d + 4 + size > buf.Length { return Invalid; }
        d := d + 4 + size;
      } else if IsCodeFlag(code) {
      } else if code == CodeOf('v') {
        return Vector;
      } else {
        return Invalid;
      }
      t := t + 1;
    }
    r := Success;
  }

  // ---------------------------------------------------------------------
  // Swapping an encoded message gives the other encoding
  // ---------------------------------------------------------------------

  function Other(o: Order): Order {
    if o == Host then Network else Host
  }

  /** A blob that needs padding. */
  predicate Ragged(a: Arg) {
    a.Blob? && |a.data| % 4 != 0
  }

  /** An argument whose data is the same in both orders. */
  predicate Neutral(a: Arg) {
    a.Text? || a.Flag?
  }

  /** No number and no blob follows a blob that needs padding. */
  ghost predicate PaddingIsLast(args: seq<Arg>) {
    forall i, j :: 0 <= i < j < |args| && Ragged(args[i]) ==> Neutral(args[j])
  }

  lemma FlipNum(x: seq<Byte>, n: nat, width: nat, o: Order, y: seq<Byte>)
    ensures Flip(x + (Num(n, width, o) + y), |x|, width) == x + (Num(n, width, Other(o)) + y)
  {
    hide Le, Be, Reverse;
    SwapsOrder(n, width);
    var m := Num(n, width, o);
    var b := x + (m + y);
    assert b[..|x|] == x && b[|x|..|x| + width] == m && b[|x| + width..] == y;
    var m' := Num(n, width, Other(o));
    assert x + m' + y == x + (m' + y);
  }

  /** Everything in front of argument `k`, already in the other order. */
  ghost function Before(misc: nat, time: nat, addr: seq<Byte>, args: seq<Arg>, k: nat, o: Order): seq<Byte>
    requires k <= |args|
  {
    Header(misc, time, Other(o)) + (PadText(addr) + (TypeBlock(args) + DataOf(args[..k], Other(o))))
  }

  /** The message when `k` arguments have been swapped. */
  ghost function Mixed(misc: nat, time: nat, addr: seq<Byte>, args: seq<Arg>, k: nat, o: Order): seq<Byte>
    requires k <= |args|
  {
    Before(misc, time, addr, args, k, o) + DataOf(args[k..], o)
  }

  lemma BeforeNext(misc: nat, time: nat, addr: seq<Byte>, args: seq<Arg>, k: nat, o: Order)
    requires k < |args|
    ensures Before(misc, time, addr, args, k + 1, o) == Before(misc, time, addr, args, k, o) + Data(args[k], Other(o))
    ensures DataOf(args[k..], o) == Data(args[k], o) + DataOf(args[k + 1..], o)
  {
    hide Header, PadText, TypeBlock, Data;
    var h, p, t := Header(misc, time, Other(o)), PadText(addr), TypeBlock(args);
    var before, d := DataOf(args[..k], Other(o)), Data(args[k], Other(o));
    assert args[..k + 1] == args[..k] + [args[k]];
    DataOfConcat(args[..k], [args[k]], Other(o));
    DataOfOne(args[k], Other(o));
    assert args[k..][1..] == args[k + 1..];
    assert t + (before + d) == (t + before) + d;
    assert p + ((t + before) + d) == (p + (t + before)) + d;
    assert h + ((p + (t + before)) + d) == (h + (p + (t + before))) + d;
  }

  /** The type string is where it was, and the data cursor's place is known. */
  lemma MixedParts(misc: nat, time: nat, addr: seq<Byte>, args: seq<Arg>, k: nat, o: Order)
    requires k <= |args|
    ensures var b := Mixed(misc, time, addr, args, k, o);
            && IsAt(b, HEADER, PadText(addr)) && IsAt(b, TypesAt(addr), TypeBlock(args))
            && |Before(misc, time, addr, args, k, o)| == DataAt(addr, args) + |DataOf(args[..k], Other(o))|
  {
    hide Header, PadText, TypeBlock, DataOf, RoundUp;
    var h, p, t := Header(misc, time, Other(o)), PadText(addr), TypeBlock(args);
    var x, y := DataOf(args[..k], Other(o)), DataOf(args[k..], o);
    var b := Mixed(misc, time, addr, args, k, o);
    assert b == h + (p + (t + (x + y)));
    assert b[HEADER..HEADER + |p|] == p;
    assert b[HEADER + |p|..HEADER + |p| + |t|] == t;
  }

  /** One argument's data is put in the other order by the step for its code. */
  lemma SwapsArg(misc: nat, time: nat, addr: seq<Byte>, args: seq<Arg>, k: nat, o: Order)
    requires k < |args| && NoZero(addr) && ArgsOk(args) && !Ragged(args[k])
    requires DataOf(args[k..], o) != []
    ensures var d := |Before(misc, time, addr, args, k, o)|;
            var d' := |Before(misc, time, addr, args, k + 1, o)|;
            SwapFrom(Mixed(misc, time, addr, args, k, o), TypesAt(addr) + 1 + k, d, o == Host)
            == SwapFrom(Mixed(misc, time, addr, args, k + 1, o), TypesAt(addr) + 2 + k, d', o == Host)
  {
    hide SwapFrom, Mixed, Before, DataOf, TypeBlock, PadText, Data, Code, ArgOk, RoundUp, TypesAt;
    ArgShape(misc, time, addr, args, k, o);
    ArgIsOk(args, k);
    var x, rest := Before(misc, time, addr, args, k, o), DataOf(args[k + 1..], o);
    SwapsData(x, args[k], rest, TypesAt(addr) + 1 + k, o);
  }

  lemma ArgIsOk(args: seq<Arg>, k: nat)
    requires ArgsOk(args) && k < |args|
    ensures ArgOk(args[k])
  {
  }

  /** The step for one argument, whatever is around its data. */
  lemma SwapsData(x: seq<Byte>, a: Arg, rest: seq<Byte>, t: nat, o: Order)
    requires ArgOk(a) && !Ragged(a)
    requires var b := x + (Data(a, o) + rest); t < |b| && b[t] == Code(a) && |x| < |b|
    ensures SwapFrom(x + (Data(a, o) + rest), t, |x|, o == Host)
         == SwapFrom(x + (Data(a, Other(o)) + rest), t + 1, |x + Data(a, Other(o))|, o == Host)
  {
    hide SwapFrom, PadText, Flip, RoundUp, Limit, Le, Be, StrLen, FromLe, PadData, NoZero;
    var b, d, host := x + (Data(a, o) + rest), |x|, o == Host;
    CodeKind(a);
    hide Code, IsCode4, IsCode8, IsCodeText, IsCodeFlag, CodeOf;
    match a
    case Word(_, bits) => FlipNum(x, bits, 4, o, rest); Step4(b, t, d, host);
    case Long(_, bits) => FlipNum(x, bits, 8, o, rest); Step8(b, t, d, host);
    case Text(_, s) => TextEnds(x, s, rest); StepText(b, t, d, host);
    case Blob(data) => SwapsBlob(x, data, o, rest); WholeNeedsNoPadding(|data|); StepBlob(b, t, d, host, |data|);
    case Flag(_) => StepFlag(b, t, d, host);
  }

  lemma CodeKind(a: Arg)
    ensures a.Word? ==> IsCode4(Code(a))
    ensures a.Long? ==> IsCode8(Code(a))
    ensures a.Text? ==> IsCodeText(Code(a))
    ensures a.Blob? ==> Code(a) == CodeOf('b')
    ensures a.Flag? ==> IsCodeFlag(Code(a))
  {
  }

  lemma ArgShape(misc: nat, time: nat, addr: seq<Byte>, args: seq<Arg>, k: nat, o: Order)
    requires k < |args| && NoZero(addr) && ArgsOk(args)
    requires DataOf(args[k..], o) != []
    ensures var b, b' := Mixed(misc, time, addr, args, k, o), Mixed(misc, time, addr, args, k + 1, o);
            var x, rest := Before(misc, time, addr, args, k, o), DataOf(args[k + 1..], o);
            && b == x + (Data(args[k], o) + rest) && |x| < |b|
            && b' == x + (Data(args[k], Other(o)) + rest)
            && Before(misc, time, addr, args, k + 1, o) == x + Data(args[k], Other(o))
            && TypesAt(addr) + 1 + k < |b| && b[TypesAt(addr) + 1 + k] == Code(args[k])
  {
    hide Before, DataOf, Data, TypeBlock, PadText, RoundUp, StrLen;
    var b, b' := Mixed(misc, time, addr, args, k, o), Mixed(misc, time, addr, args, k + 1, o);
    MixedParts(misc, time, addr, args, k, o);
    TypeCodesAt(b, TypesAt(addr), args);
    BeforeNext(misc, time, addr, args, k, o);
    assert b[TypesAt(addr) + 1 + k] == Code(args[k]);
    var x, d, rest := Before(misc, time, addr, args, k, o), Data(args[k], Other(o)), DataOf(args[k + 1..], o);
    assert (x + d) + rest == x + (d + rest);
  }

  // One step of the loop, by kind of code.

  lemma Step4(b: seq<Byte>, t: nat, d: nat, host: bool)
    requires t < |b| && IsCode4(b[t]) && d + 4 <= |b|
    ensures SwapFrom(b, t, d, host) == SwapFrom(Flip(b, d, 4), t + 1, d + 4, host)
  {
  }

  lemma Step8(b: seq<Byte>, t: nat, d: nat, host: bool)
    requires t < |b| && IsCode8(b[t]) && d + 8 <= |b|
    ensures SwapFrom(b, t, d, host) == SwapFrom(Flip(b, d, 8), t + 1, d + 8, host)
  {
  }

  lemma StepText(b: seq<Byte>, t: nat, d: nat, host: bool)
    requires t < |b| && IsCodeText(b[t]) && d < |b| && d + RoundUp(StrLen(b, d) + 1) <= |b|
    ensures SwapFrom(b, t, d, host) == SwapFrom(b, t + 1, d + RoundUp(StrLen(b, d) + 1), host)
  {
  }

  lemma StepBlob(b: seq<Byte>, t: nat, d: nat, host: bool, size: nat)
    requires t < |b| && b[t] == CodeOf('b') && d + 4 + size <= |b|
    requires size == FromLe((if host then b else Flip(b, d, 4))[d..d + 4])
    ensures SwapFrom(b, t, d, host) == SwapFrom(Flip(b, d, 4), t + 1, d + 4 + size, host)
  {
  }

  lemma StepFlag(b: seq<Byte>, t: nat, d: nat, host: bool)
    requires t < |b| && IsCodeFlag(b[t]) && d < |b|
    ensures SwapFrom(b, t, d, host) == SwapFrom(b, t + 1, d, host)
  {
  }

  lemma StepStops(b: seq<Byte>, t: nat, d: nat, host: bool)
    requires t < |b|
    ensures b[t] == 0 ==> SwapFrom(b, t, d, host) == (b, Success)
    ensures b[t] != 0 && d >= |b| ==> SwapFrom(b, t, d, host) == (b, Fail)
  {
  }

  lemma TextEnds(x: seq<Byte>, s: seq<Byte>, rest: seq<Byte>)
    requires NoZero(s)
    ensures var b := x + (PadText(s) + rest);
            RoundUp(StrLen(b, |x|) + 1) == |PadText(s)|
  {
    hide RoundUp;
    var p := PadText(s);
    var b := x + (p + rest);
    assert b[|x|..|x| + |p|] == p;
    ScanPadded(b, |x|, s);
  }

  lemma SwapsBlob(x: seq<Byte>, data: seq<Byte>, o: Order, rest: seq<Byte>)
    requires |data| < Limit(4)
    ensures var b := x + (Data(Blob(data), o) + rest);
            var f := Flip(b, |x|, 4);
            && f == x + (Data(Blob(data), Other(o)) + rest)
            && FromLe((if o == Host then b else f)[|x|..|x| + 4]) == |data|
            && |Data(Blob(data), o)| == 4 + RoundUp(|data|)
  {
    hide Flip, Le, Be, FromLe, Limit, PadData, RoundUp;
    var p := PadData(data);
    var y := p + rest;
    var n, n' := Num(|data|, 4, o), Num(|data|, 4, Other(o));
    var b := x + ((n + p) + rest);
    assert b == x + (n + y);
    assert x + (n' + y) == x + ((n' + p) + rest);
    FlipNum(x, |data|, 4, o, y);
    LeRoundTrip(|data|, 4);
    var f := Flip(b, |x|, 4);
    assert b[|x|..|x| + 4] == n && f[|x|..|x| + 4] == n';
  }

  lemma WholeNeedsNoPadding(n: nat)
    ensures RoundUp(n) == n <==> n % 4 == 0
  {
  }

  // ---------------------------------------------------------------------
  // The cursor behind the data
  // ---------------------------------------------------------------------

  /** The cursor is somewhere before argument `k`, and not by whole words: all
      that follows a blob whose padding was not skipped. */
  ghost predicate Behind(misc: nat, time: nat, addr: seq<Byte>, args: seq<Arg>, k: nat, o: Order, d: nat)
    requires k <= |args|
  {
    var x := Before(misc, time, addr, args, k, o);
    d < |x| && (|x| - d) % 4 != 0 && x[|x| - 1] == 0
  }

  /** Less than a word behind, with only zeros in between. */
  ghost predicate JustBehind(misc: nat, time: nat, addr: seq<Byte>, args: seq<Arg>, k: nat, o: Order, d: nat)
    requires k <= |args|
  {
    var x := Before(misc, time, addr, args, k, o);
    d < |x| < d + 4 && forall i :: d <= i < |x| ==> x[i] == 0
  }

  lemma JustBehindIsBehind(misc: nat, time: nat, addr: seq<Byte>, args: seq<Arg>, k: nat, o: Order, d: nat)
    requires k <= |args| && JustBehind(misc, time, addr, args, k, o, d)
    ensures Behind(misc, time, addr, args, k, o, d)
  {
    hide Before;
  }

  lemma {:induction false} NeutralData(args: seq<Arg>, o: Order)
    requires forall i :: 0 <= i < |args| ==> Neutral(args[i])
    ensures DataOf(args, o) == DataOf(args, Other(o))
  {
    if args != [] {
      NeutralData(args[1..], o);
    }
  }

  /** From argument `k` on nothing has to be changed. */
  lemma OnlyNeutralLeft(misc: nat, time: nat, addr: seq<Byte>, args: seq<Arg>, k: nat, o: Order)
    requires k <= |args| && forall j :: k <= j < |args| ==> Neutral(args[j])
    ensures Mixed(misc, time, addr, args, k, o) == Mixed(misc, time, addr, args, |args|, o)
  {
    hide Header, PadText, TypeBlock, DataOf;
    NeutralData(args[k..], o);
    assert args[..k] + args[k..] == args[..|args|] == args;
    DataOfConcat(args[..k], args[k..], Other(o));
    assert args[|args|..] == [];
    EmptyData(o);
    var h, p, t := Header(misc, time, Other(o)), PadText(addr), TypeBlock(args);
    var x, y := DataOf(args[..k], Other(o)), DataOf(args[k..], o);
    assert (h + (p + (t + x))) + y == (h + (p + (t + (x + y)))) + [];
  }

  lemma StrLenAtMost(b: seq<Byte>, d: nat, z: nat)
    requires d <= z < |b| && b[z] == 0
    ensures StrLen(b, d) <= z - d && (b[d] == 0 ==> StrLen(b, d) == 0)
    decreases z - d
  {
  }

  /** The cursor goes to the end of the string it is in, or a word on. */
  lemma TextIsScanned(x: seq<Byte>, s: seq<Byte>, rest: seq<Byte>, d: nat)
    requires d < |x| && (|x| - d) % 4 != 0 && x[|x| - 1] == 0
    ensures var b, y := x + (PadText(s) + rest), x + PadText(s);
            var d' := d + RoundUp(StrLen(b, d) + 1);
            && d < d' < |y| <= |b| && (|y| - d') % 4 != 0 && y[|y| - 1] == 0
            && (|x| < d + 4 && s == [] && (forall i :: d <= i < |x| ==> x[i] == 0) ==>
                 |y| < d' + 4 && forall i :: d' <= i < |y| ==> y[i] == 0)
  {
    var p := PadText(s);
    hide PadText;
    var b, y := x + (p + rest), x + p;
    StrLenAtMost(b, d, |x| - 1);
    hide StrLen;
    assert |p| >= 4 && p[|p| - 1] == 0;
  }

  /** Strings and codes without data leave the cursor behind. */
  lemma {:induction false} NeutralPass(misc: nat, time: nat, addr: seq<Byte>, args: seq<Arg>, k: nat, l: nat, d: nat,
                                       o: Order) returns (d': nat)
    requires k <= l <= |args| && (forall j :: k <= j < l ==> Neutral(args[j]))
    requires Behind(misc, time, addr, args, k, o, d)
    ensures Behind(misc, time, addr, args, l, o, d')
    ensures SwapFrom(Mixed(misc, time, addr, args, k, o), TypesAt(addr) + 1 + k, d, o == Host)
         == SwapFrom(Mixed(misc, time, addr, args, l, o), TypesAt(addr) + 1 + l, d', o == Host)
    ensures d <= d'
    ensures JustBehind(misc, time, addr, args, k, o, d) &&
            (forall j :: k <= j < l ==> args[j].Text? ==> args[j].s == []) ==>
              JustBehind(misc, time, addr, args, l, o, d')
    decreases l - k
  {
    hide SwapFrom, Mixed, Before, Behind, JustBehind;
    if k == l {
      d' := d;
    } else {
      var e := NeutralStep(misc, time, addr, args, k, d, o);
      d' := NeutralPass(misc, time, addr, args, k + 1, l, e, o);
      assert TypesAt(addr) + 1 + (k + 1) == TypesAt(addr) + 2 + k;
    }
  }

  lemma NeutralStep(misc: nat, time: nat, addr: seq<Byte>, args: seq<Arg>, k: nat, d: nat, o: Order) returns (d': nat)
    requires k < |args| && Neutral(args[k]) && Behind(misc, time, addr, args, k, o, d)
    ensures Behind(misc, time, addr, args, k + 1, o, d') && d <= d'
    ensures SwapFrom(Mixed(misc, time, addr, args, k, o), TypesAt(addr) + 1 + k, d, o == Host)
         == SwapFrom(Mixed(misc, time, addr, args, k + 1, o), TypesAt(addr) + 2 + k, d', o == Host)
    ensures JustBehind(misc, time, addr, args, k, o, d) && (args[k].Text? ==> args[k].s == []) ==>
              JustBehind(misc, time, addr, args, k + 1, o, d')
  {
    hide SwapFrom, Mixed, Before, DataOf, TypeBlock, PadText, RoundUp, TypesAt, StrLen;
    var b := Mixed(misc, time, addr, args, k, o);
    var x, rest := Before(misc, time, addr, args, k, o), DataOf(args[k + 1..], o);
    ArgBytes(misc, time, addr, args, k, o);
    CodeKind(args[k]);
    hide Code, IsCodeText, IsCodeFlag, CodeOf;
    var t := TypesAt(addr) + 1 + k;
    match args[k] {
      case Text(_, s) =>
        TextIsScanned(x, s, rest, d);
        d' := d + RoundUp(StrLen(b, d) + 1);
        StepText(b, t, d, o == Host);
      case Flag(_) =>
        d' := d;
        assert x + [] == x;
        StepFlag(b, t, d, o == Host);
    }
  }

  /** A blob that needs padding leaves the cursor behind. */
  lemma RaggedStep(misc: nat, time: nat, addr: seq<Byte>, args: seq<Arg>, k: nat, o: Order) returns (d: nat)
    requires k < |args| && ArgOk(args[k]) && Ragged(args[k])
    ensures JustBehind(misc, time, addr, args, k + 1, o, d) && Behind(misc, time, addr, args, k + 1, o, d)
    ensures d > |Before(misc, time, addr, args, k, o)|
    ensures SwapFrom(Mixed(misc, time, addr, args, k, o), TypesAt(addr) + 1 + k,
                     |Before(misc, time, addr, args, k, o)|, o == Host)
         == SwapFrom(Mixed(misc, time, addr, args, k + 1, o), TypesAt(addr) + 2 + k, d, o == Host)
  {
    hide SwapFrom, Mixed, Before, DataOf, TypeBlock, PadText, Flip, RoundUp, Limit, Le, Be, StrLen, FromLe, TypesAt;
    var data := args[k].data;
    var x, rest := Before(misc, time, addr, args, k, o), DataOf(args[k + 1..], o);
    ArgBytes(misc, time, addr, args, k, o);
    CodeKind(args[k]);
    hide Code;
    SwapsBlob(x, data, o, rest);
    WholeNeedsNoPadding(|data|);
    var b := Mixed(misc, time, addr, args, k, o);
    d := |x| + 4 + |data|;
    var y := Before(misc, time, addr, args, k + 1, o);
    assert y == x + (Num(|data|, 4, Other(o)) + PadData(data));
    assert |y| == |x| + 4 + RoundUp(|data|);
    PaddingIsZero(data);
    hide PadData;
    forall i | d <= i < |y| ensures y[i] == 0 {
      assert y[i] == PadData(data)[i - |x| - 4];
    }
    assert JustBehind(misc, time, addr, args, k + 1, o, d);
    JustBehindIsBehind(misc, time, addr, args, k + 1, o, d);
    StepBlob(b, TypesAt(addr) + 1 + k, |x|, o == Host, |data|);
  }

  lemma PaddingIsZero(data: seq<Byte>)
    ensures forall i :: |data| <= i < |PadData(data)| ==> PadData(data)[i] == 0
  {
  }

  /** Where the code and the data of argument `k` are. */
  lemma ArgBytes(misc: nat, time: nat, addr: seq<Byte>, args: seq<Arg>, k: nat, o: Order)
    requires k < |args|
    ensures var b, b' := Mixed(misc, time, addr, args, k, o), Mixed(misc, time, addr, args, k + 1, o);
            var x, rest := Before(misc, time, addr, args, k, o), DataOf(args[k + 1..], o);
            && b == x + (Data(args[k], o) + rest)
            && b' == x + (Data(args[k], Other(o)) + rest)
            && Before(misc, time, addr, args, k + 1, o) == x + Data(args[k], Other(o))
            && TypesAt(addr) + 1 + k < |x| && b[TypesAt(addr) + 1 + k] == Code(args[k])
  {
    hide Before, DataOf, Data, TypeBlock, PadText, RoundUp, StrLen;
    var b := Mixed(misc, time, addr, args, k, o);
    MixedParts(misc, time, addr, args, k, o);
    TypeCodesAt(b, TypesAt(addr), args);
    BeforeNext(misc, time, addr, args, k, o);
    var x, d, rest := Before(misc, time, addr, args, k, o), Data(args[k], Other(o)), DataOf(args[k + 1..], o);
    assert (x + d) + rest == x + (d + rest);
  }

  /** A blob that needs padding, and after it only what needs no change. */
  lemma SwapsLastBlob(misc: nat, time: nat, addr: seq<Byte>, args: seq<Arg>, k: nat, o: Order)
    requires k < |args| && ArgOk(args[k]) && Ragged(args[k])
    requires forall j :: k < j < |args| ==> Neutral(args[j])
    ensures SwapFrom(Mixed(misc, time, addr, args, k, o), TypesAt(addr) + 1 + k,
                     |Before(misc, time, addr, args, k, o)|, o == Host)
            == (Mixed(misc, time, addr, args, |args|, o), Success)
  {
    hide SwapFrom, Mixed, Before, Behind, JustBehind;
    hide TypeBlock, TypesAt, PadText, DataOf, RoundUp, StrLen, NextString, Code;
    var d := RaggedStep(misc, time, addr, args, k, o);
    var e := NeutralPass(misc, time, addr, args, k + 1, |args|, d, o);
    var b := Mixed(misc, time, addr, args, |args|, o);
    MixedParts(misc, time, addr, args, |args|, o);
    TypeCodesAt(b, TypesAt(addr), args);
    StepStops(b, TypesAt(addr) + 1 + |args|, e, o == Host);
  }

  /** Success means that data was left when the last code was reached. */
  function Expected(args: seq<Arg>): Outcome {
    if args == [] || !args[|args| - 1].Flag? || (exists i :: 0 <= i < |args| && Ragged(args[i])) then Success
    else Fail
  }

  lemma {:induction false} SwapsFromArg(misc: nat, time: nat, addr: seq<Byte>, args: seq<Arg>, k: nat, o: Order)
    requires k <= |args| && NoZero(addr) && ArgsOk(args) && PaddingIsLast(args)
    requires forall i :: 0 <= i < k ==> !Ragged(args[i])
    requires k == |args| ==> args == [] || !args[|args| - 1].Flag?
    ensures SwapFrom(Mixed(misc, time, addr, args, k, o), TypesAt(addr) + 1 + k,
                     |Before(misc, time, addr, args, k, o)|, o == Host)
            == (Mixed(misc, time, addr, args, |args|, o), Expected(args))
    decreases |args| - k
  {
    hide SwapFrom, Mixed, Before, DataOf, TypeBlock, PadText, RoundUp, Data;
    var b := Mixed(misc, time, addr, args, k, o);
    MixedParts(misc, time, addr, args, k, o);
    TypeCodesAt(b, TypesAt(addr), args);
    StepStops(b, TypesAt(addr) + 1 + k, |Before(misc, time, addr, args, k, o)|, o == Host);
    if k < |args| {
      assert b[TypesAt(addr) + 1 + k] == Code(args[k]);
      if DataOf(args[k..], o) == [] {
        NothingLeft(misc, time, addr, args, k, o);
      } else if Ragged(args[k]) {
        SwapsLastBlob(misc, time, addr, args, k, o);
      } else {
        SwapsArg(misc, time, addr, args, k, o);
        if k + 1 == |args| { LastHasData(args, o); }
        SwapsFromArg(misc, time, addr, args, k + 1, o);
      }
    }
  }

  lemma LastHasData(args: seq<Arg>, o: Order)
    requires args != [] && DataOf(args[|args| - 1..], o) != []
    ensures !args[|args| - 1].Flag?
  {
    assert args[|args| - 1..] == [args[|args| - 1]];
    DataOfOne(args[|args| - 1], o);
  }

  /** When no data is left only flags are left, and the message is complete. */
  lemma NothingLeft(misc: nat, time: nat, addr: seq<Byte>, args: seq<Arg>, k: nat, o: Order)
    requires k < |args| && DataOf(args[k..], o) == []
    requires forall i :: 0 <= i < k ==> !Ragged(args[i])
    ensures Mixed(misc, time, addr, args, k, o) == Mixed(misc, time, addr, args, |args|, o)
    ensures |Mixed(misc, time, addr, args, k, o)| == |Before(misc, time, addr, args, k, o)|
    ensures Expected(args) == Fail
  {
    OnlyFlags(args[k..], o);
    forall j | k <= j < |args| ensures args[j].Flag? {
      assert args[j] == args[k..][j - k];
    }
    OnlyNeutralLeft(misc, time, addr, args, k, o);
    hide Before;
  }

  lemma {:induction false} OnlyFlags(args: seq<Arg>, o: Order)
    requires DataOf(args, o) == []
    ensures forall i :: 0 <= i < |args| ==> args[i].Flag?
    ensures DataOf(args, Other(o)) == []
  {
    if args != [] {
      assert |Data(args[0], o)| == 0;
      assert args[0].Flag? by { DataNotEmpty(args[0], o); }
      OnlyFlags(args[1..], o);
    }
  }

  lemma DataNotEmpty(a: Arg, o: Order)
    ensures !a.Flag? ==> |Data(a, o)| >= 4
  {
    hide Le, Be, Limit;
  }

  /** Swapping a message of either order gives exactly the message with the same
      contents in the other order, and so does swapping it back, when no number
      and no blob follows a blob that needs padding.  The call reports failure if
      and only if the last argument is one without data and no blob has padding. */
  lemma SwapsToTheOtherOrder(misc: nat, time: nat, addr: seq<Byte>, args: seq<Arg>, o: Order)
    requires NoZero(addr) && ArgsOk(args) && PaddingIsLast(args)
    ensures var (b, outcome) := Swapped(Encode(misc, time, addr, args, o), o == Host);
            && b == Encode(misc, time, addr, args, Other(o))
            && (outcome == Success || outcome == Fail)
            && (outcome == Fail <==>
                 && args != [] && args[|args| - 1].Flag?
                 && forall i :: 0 <= i < |args| && args[i].Blob? ==> |args[i].data| % 4 == 0)
  {
    hide Swapped, Encode, Mixed, Before, SwapFrom;
    SwapStarts(misc, time, addr, args, o);
    MixedEnds(misc, time, addr, args, o);
    SwapsFromArg(misc, time, addr, args, 0, o);
  }

  /** To network order and back, or the other way round. */
  lemma SwappingTwiceRestores(misc: nat, time: nat, addr: seq<Byte>, args: seq<Arg>, o: Order)
    requires NoZero(addr) && ArgsOk(args) && PaddingIsLast(args)
    ensures |Encode(misc, time, addr, args, o)| >= HEADER
    ensures var there := Swapped(Encode(misc, time, addr, args, o), o == Host).0;
            Swapped(there, o != Host).0 == Encode(misc, time, addr, args, o)
  {
    hide Encode, Swapped;
    PartsOf(misc, time, addr, args, o);
    SwapsToTheOtherOrder(misc, time, addr, args, o);
    SwapsToTheOtherOrder(misc, time, addr, args, Other(o));
  }

  /** The header is reversed, the type codes and the data are found. */
  lemma SwapStarts(misc: nat, time: nat, addr: seq<Byte>, args: seq<Arg>, o: Order)
    requires NoZero(addr)
    ensures |Encode(misc, time, addr, args, o)| >= HEADER
    ensures Swapped(Encode(misc, time, addr, args, o), o == Host)
         == SwapFrom(Mixed(misc, time, addr, args, 0, o), TypesAt(addr) + 1,
                     |Before(misc, time, addr, args, 0, o)|, o == Host)
  {
    hide Encode, Mixed, Before, SwapFrom, PadText, TypeBlock, DataOf, Flip, RoundUp, NextString, StrLen, Le, Be;
    PartsOf(misc, time, addr, args, o);
    var h := Mixed(misc, time, addr, args, 0, o);
    SwapsHeader(misc, time, addr, args, o);
    MixedParts(misc, time, addr, args, 0, o);
    ScanPadded(h, HEADER, addr);
    TypeCodesAt(h, TypesAt(addr), args);
    assert args[..0] == [];
    EmptyData(Other(o));
  }

  lemma SwapsHeader(misc: nat, time: nat, addr: seq<Byte>, args: seq<Arg>, o: Order)
    ensures Flip(Flip(Encode(misc, time, addr, args, o), 0, 4), 4, 8) == Mixed(misc, time, addr, args, 0, o)
  {
    hide Mixed, Before, PadText, TypeBlock, DataOf, Flip, Le, Be;
    var tail := PadText(addr) + (TypeBlock(args) + DataOf(args, o));
    var m, t := Num(misc, 4, o), Num(time, 8, o);
    var m', t' := Num(misc, 4, Other(o)), Num(time, 8, Other(o));
    assert Encode(misc, time, addr, args, o) == [] + (m + (t + tail));
    FlipNum([], misc, 4, o, t + tail);
    assert [] + (m' + (t + tail)) == m' + (t + tail);
    FlipNum(m', time, 8, o, tail);
    MixedEnds(misc, time, addr, args, o);
  }

  lemma EmptyData(o: Order)
    ensures DataOf([], o) == []
  {
  }

  lemma MixedEnds(misc: nat, time: nat, addr: seq<Byte>, args: seq<Arg>, o: Order)
    ensures Mixed(misc, time, addr, args, 0, o)
         == Num(misc, 4, Other(o)) + (Num(time, 8, Other(o)) + (PadText(addr) + (TypeBlock(args) + DataOf(args, o))))
    ensures Mixed(misc, time, addr, args, |args|, o) == Encode(misc, time, addr, args, Other(o))
  {
    hide Num, PadText, TypeBlock, DataOf;
    assert args[..0] == [] && args[0..] == args && args[..|args|] == args && args[|args|..] == [];
    EmptyData(o);
    EmptyData(Other(o));
    var m, t, p, y := Num(misc, 4, Other(o)), Num(time, 8, Other(o)), PadText(addr), TypeBlock(args);
    Regroup(m, t, p, y, DataOf(args, o));
    assert Mixed(misc, time, addr, args, |args|, o) == Encode(misc, time, addr, args, Other(o)) + [];
  }

  lemma Regroup(m: seq<Byte>, t: seq<Byte>, p: seq<Byte>, y: seq<Byte>, d: seq<Byte>)
    ensures ((m + t) + (p + (y + []))) + d == m + (t + (p + (y + d)))
  {
    assert y + [] == y;
  }
}
