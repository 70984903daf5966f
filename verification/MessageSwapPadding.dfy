/** What goes wrong when `o2_msg_swap_endian` of src/message.cpp meets a blob
    whose size is not a multiple of 4: its padding is not skipped, and the data
    cursor stays behind. */
module MessageSwapPadding {
  import opened Bytes
  import opened MessageFormat
  import opened MessageSwap

  /** Swapping gives the bytes of the same message in the other order. */
  ghost predicate SwapsRight(misc: nat, time: nat, addr: seq<Byte>, args: seq<Arg>, o: Order) {
    var b := Encode(misc, time, addr, args, o);
    |b| >= HEADER && Swapped(b, o == Host).0 == Encode(misc, time, addr, args, Other(o))
  }

  predicate SameType(a: Arg, b: Arg) {
    match a
    case Word(k, _) => b.Word? && b.k32 == k
    case Long(k, _) => b.Long? && b.k64 == k
    case Text(k, _) => b.Text? && b.ks == k
    case Blob(_) => b.Blob?
    case Flag(k) => b.Flag? && b.kf == k
  }

  predicate SameLength(a: Arg, b: Arg) {
    (a.Text? && b.Text? ==> |a.s| == |b.s|) && (a.Blob? && b.Blob? ==> |a.data| == |b.data|)
  }

  /** The same types, and padding after the same blobs. */
  predicate Alike(args: seq<Arg>, other: seq<Arg>) {
    && |args| == |other|
    && forall j :: 0 <= j < |args| ==> SameType(args[j], other[j]) && Ragged(args[j]) == Ragged(other[j])
  }

  /** The same types, and the same lengths of strings and blobs. */
  predicate SameShape(args: seq<Arg>, other: seq<Arg>) {
    |args| == |other| && forall j :: 0 <= j < |args| ==> SameType(args[j], other[j]) && SameLength(args[j], other[j])
  }

  lemma SameShapeIsAlike(args: seq<Arg>, other: seq<Arg>)
    requires SameShape(args, other)
    ensures Alike(args, other)
  {
  }

  lemma AlikeKeepsPadding(args: seq<Arg>, other: seq<Arg>)
    requires Alike(args, other) && PaddingIsLast(args)
    ensures PaddingIsLast(other)
  {
  }

  // ---------------------------------------------------------------------
  // Bytes that are done
  // ---------------------------------------------------------------------

  /** Nothing before the cursor is changed. */
  lemma {:induction false} KeepsBefore(b: seq<Byte>, t: nat, d: nat, host: bool, q: nat)
    requires q < d && q < |b|
    ensures SwapFrom(b, t, d, host).0[q] == b[q]
    decreases |b| - t
  {
    hide StrLen, FromLe, RoundUp, IsCode4, IsCode8, IsCodeText, IsCodeFlag, CodeOf, Flip;
    if t >= |b| || b[t] == 0 || d >= |b| {
    } else if IsCode4(b[t]) {
      if d + 4 <= |b| {
        FlipAt(b, d, 4, q);
        KeepsBefore(Flip(b, d, 4), t + 1, d + 4, host, q);
      }
    } else if IsCode8(b[t]) {
      if d + 8 <= |b| {
        FlipAt(b, d, 8, q);
        KeepsBefore(Flip(b, d, 8), t + 1, d + 8, host, q);
      }
    } else if IsCodeText(b[t]) {
      var end := d + RoundUp(StrLen(b, d) + 1);
      if end <= |b| { KeepsBefore(b, t + 1, end, host, q); }
    } else if b[t] == CodeOf('b') {
      if d + 4 <= |b| {
        var flipped := Flip(b, d, 4);
        var size := FromLe((if host then b else flipped)[d..d + 4]);
        FlipAt(b, d, 4, q);
        if d + 4 + size <= |b| { KeepsBefore(flipped, t + 1, d + 4 + size, host, q); }
      }
    } else if IsCodeFlag(b[t]) {
      KeepsBefore(b, t + 1, d, host, q);
    }
  }

  lemma FlipAt(b: seq<Byte>, d: nat, n: nat, k: nat)
    requires d + n <= |b| && k < |b|
    ensures Flip(b, d, n)[k] == if d <= k < d + n then b[d + n - 1 - (k - d)] else b[k]
  {
    if d <= k < d + n { ReverseAt(b[d..d + n], k - d); }
  }

  // ---------------------------------------------------------------------
  // Numbers
  // ---------------------------------------------------------------------

  // Numbers whose bytes are all different, and occur nowhere else.
  const N4 := 10 + 256 * (11 + 256 * (12 + 256 * 13))
  const N8 := 20 + 256 * (21 + 256 * (22 + 256 * (23 + 256 * (24 + 256 * (25 + 256 * (26 + 256 * 27))))))

  predicate Mark(x: Byte, width: nat) {
    if width == 4 then 10 <= x < 14 else 20 <= x < 28
  }

  lemma BytesOfN4()
    ensures Le(N4, 4) == [10, 11, 12, 13] && N4 < Limit(4)
  {
    hide Le;
    LimitValues();
    LeZero();
    LeNext(13, 0, 0);
    LeNext(12, 13, 1);
    LeNext(11, 12 + 256 * 13, 2);
    LeNext(10, 11 + 256 * (12 + 256 * 13), 3);
  }

  lemma BytesOfN8()
    ensures Le(N8, 8) == [20, 21, 22, 23, 24, 25, 26, 27] && N8 < Limit(8)
  {
    hide Le;
    LeZero();
    var n1 := 26 + 256 * 27;
    var n2 := 25 + 256 * n1;
    var n3 := 24 + 256 * n2;
    var n4 := 23 + 256 * n3;
    var n5 := 22 + 256 * n4;
    var n6 := 21 + 256 * n5;
    LeNext(27, 0, 0);
    LeNext(26, 27, 1);
    LeNext(25, n1, 2);
    LeNext(24, n2, 3);
    LeNext(23, n3, 4);
    LeNext(22, n4, 5);
    LeNext(21, n5, 6);
    LeNext(20, n6, 7);
    LimitOf8();
  }

  lemma LimitOf8()
    ensures Limit(8) == 0x1_0000_0000_0000_0000
  {
    LimitValues();
    assert Limit(8) == 256 * Limit(7) == 65536 * Limit(6) == 16777216 * Limit(5) == 0x1_0000_0000 * Limit(4);
  }

  /** A number of marks, in either order. */
  lemma MarksOf(width: nat, o: Order)
    requires width == 4 || width == 8
    ensures var n := if width == 4 then N4 else N8;
            && n < Limit(width)
            && (forall j :: 0 <= j < width ==> Mark(Num(n, width, o)[j], width))
            && Num(n, width, o)[0] != Num(n, width, Other(o))[0]
  {
    hide Le, Limit;
    BytesOfN4();
    BytesOfN8();
    var s := Le(if width == 4 then N4 else N8, width);
    forall j | 0 <= j < width ensures Reverse(s)[j] == s[width - 1 - j] { ReverseAt(s, j); }
  }

  // ---------------------------------------------------------------------
  // The first number after the blob, whatever else there is
  // ---------------------------------------------------------------------

  /** A number of marks at `p` is never put in order when the cursor, now at
      `d`, comes nearer by whole words only; `e` is how it should be. */
  lemma {:induction false} NeverPutInOrder(b: seq<Byte>, t: nat, end: nat, d: nat, host: bool, p: nat, width: nat,
                                           e: seq<Byte>)
    requires width == 4 || width == 8
    requires t <= end < d < p && p + width <= |b| == |e| && (p - d) % 4 != 0
    requires b[end] == 0
    requires forall j :: t <= j < end ==>
               b[j] != 0 && b[j] != CodeOf('b') && (width == 4 ==> !IsCode8(b[j]))
    requires forall q :: p <= q < p + width ==> Mark(b[q], width)
    requires forall q :: d <= q < p ==> !Mark(e[q], width)
    requires b[p] != e[p]
    ensures SwapFrom(b, t, d, host).0 != e
    decreases end - t
  {
    hide SwapFrom, Flip, StrLen, RoundUp, IsCode4, IsCode8, IsCodeText, IsCodeFlag, CodeOf, Mark;
    StepStops(b, t, d, host);
    if t < end {
      if IsCode4(b[t]) {
        Step4(b, t, d, host);
        Exchanged(b, t, end, d, host, p, width, e, 4);
      } else if IsCode8(b[t]) {
        Step8(b, t, d, host);
        Exchanged(b, t, end, d, host, p, width, e, 8);
      } else if IsCodeText(b[t]) {
        var d' := d + RoundUp(StrLen(b, d) + 1);
        if d' < p {
          StepText(b, t, d, host);
          NeverPutInOrder(b, t + 1, end, d', host, p, width, e);
        } else if d' <= |b| {
          StepText(b, t, d, host);
          KeepsBefore(b, t + 1, d', host, p);
        } else {
          TextTooLong(b, t, d, host);
        }
      } else if IsCodeFlag(b[t]) {
        StepFlag(b, t, d, host);
        NeverPutInOrder(b, t + 1, end, d, host, p, width, e);
      } else {
        UnknownStops(b, t, d, host);
      }
    }
  }

  lemma TextTooLong(b: seq<Byte>, t: nat, d: nat, host: bool)
    requires t < |b| && d < |b| && IsCodeText(b[t]) && d + RoundUp(StrLen(b, d) + 1) > |b|
    ensures SwapFrom(b, t, d, host).0 == b
  {
  }

  lemma UnknownStops(b: seq<Byte>, t: nat, d: nat, host: bool)
    requires t < |b| && b[t] != 0 && d < |b|
    requires !IsCode4(b[t]) && !IsCode8(b[t]) && !IsCodeText(b[t]) && !IsCodeFlag(b[t]) && b[t] != CodeOf('b')
    ensures SwapFrom(b, t, d, host).0 == b
  {
  }

  /** `n` bytes are exchanged, before the number or partly in it. */
  lemma {:induction false} Exchanged(b: seq<Byte>, t: nat, end: nat, d: nat, host: bool, p: nat, width: nat,
                                     e: seq<Byte>, n: nat)
    requires width == 4 || width == 8
    requires n == 4 || (n == 8 && width == 8)
    requires t < end < d < p && p + width <= |b| == |e| && (p - d) % 4 != 0
    requires b[end] == 0
    requires forall j :: t <= j < end ==>
               b[j] != 0 && b[j] != CodeOf('b') && (width == 4 ==> !IsCode8(b[j]))
    requires forall q :: p <= q < p + width ==> Mark(b[q], width)
    requires forall q :: d <= q < p ==> !Mark(e[q], width)
    requires b[p] != e[p]
    ensures SwapFrom(Flip(b, d, n), t + 1, d + n, host).0 != e
    decreases end - t, 0
  {
    hide SwapFrom, Flip, IsCode8, CodeOf, Mark;
    var f := Flip(b, d, n);
    if p < d + n {
      FlipAt(b, d, n, d);
      assert p <= d + n - 1 < p + width;
      KeepsBefore(f, t + 1, d + n, host, d);
    } else {
      forall q | 0 <= q < |b| && !(d <= q < d + n) ensures f[q] == b[q] { FlipAt(b, d, n, q); }
      NeverPutInOrder(f, t + 1, end, d + n, host, p, width, e);
    }
  }

  /** Whole arguments are swapped up to the first blob that needs padding. */
  lemma {:induction false} ReachesRagged(misc: nat, time: nat, addr: seq<Byte>, args: seq<Arg>, k: nat, i: nat,
                                         o: Order)
    requires k <= i < |args| && NoZero(addr) && ArgsOk(args) && Ragged(args[i])
    requires forall j :: 0 <= j < i ==> !Ragged(args[j])
    ensures SwapFrom(Mixed(misc, time, addr, args, k, o), TypesAt(addr) + 1 + k,
                     |Before(misc, time, addr, args, k, o)|, o == Host)
         == SwapFrom(Mixed(misc, time, addr, args, i, o), TypesAt(addr) + 1 + i,
                     |Before(misc, time, addr, args, i, o)|, o == Host)
    decreases i - k
  {
    hide SwapFrom, Mixed, Before, DataOf, ArgOk;
    if k < i {
      DataIsLeft(args, k, i, o);
      SwapsArg(misc, time, addr, args, k, o);
      ReachesRagged(misc, time, addr, args, k + 1, i, o);
      assert TypesAt(addr) + 1 + (k + 1) == TypesAt(addr) + 2 + k;
    }
  }

  lemma {:induction false} DataIsLeft(args: seq<Arg>, k: nat, i: nat, o: Order)
    requires k <= i < |args| && !args[i].Flag?
    ensures DataOf(args[k..], o) != []
    decreases i - k
  {
    hide Data;
    if k == i {
      DataNotEmpty(args[i], o);
    } else {
      DataIsLeft(args, k + 1, i, o);
      assert args[k..][1..] == args[k + 1..];
    }
  }

  /** The whole operation up to the step after the first blob that needs
      padding. */
  lemma AfterRagged(misc: nat, time: nat, addr: seq<Byte>, args: seq<Arg>, i: nat, o: Order) returns (d: nat)
    requires i < |args| && NoZero(addr) && ArgsOk(args) && Ragged(args[i])
    requires forall j :: 0 <= j < i ==> !Ragged(args[j])
    ensures |Encode(misc, time, addr, args, o)| >= HEADER
    ensures Swapped(Encode(misc, time, addr, args, o), o == Host)
         == SwapFrom(Mixed(misc, time, addr, args, i + 1, o), TypesAt(addr) + 2 + i, d, o == Host)
    ensures JustBehind(misc, time, addr, args, i + 1, o, d) && Behind(misc, time, addr, args, i + 1, o, d)
    ensures d > |Before(misc, time, addr, args, i, o)|
  {
    hide SwapFrom, Mixed, Before, Encode, Swapped, Behind, JustBehind;
    SwapStarts(misc, time, addr, args, o);
    ReachesRagged(misc, time, addr, args, 0, i, o);
    ArgIsOk(args, i);
    d := RaggedStep(misc, time, addr, args, i, o);
  }

  // ---------------------------------------------------------------------
  // Where the bytes are
  // ---------------------------------------------------------------------

  /** Data that is not swapped yet. */
  lemma {:induction false} DataStillThere(misc: nat, time: nat, addr: seq<Byte>, args: seq<Arg>, k: nat, l: nat,
                                          o: Order)
    requires k <= l < |args|
    ensures |Before(misc, time, addr, args, k, o)| <= |Before(misc, time, addr, args, l, o)|
    ensures |Mixed(misc, time, addr, args, k, o)| == |Mixed(misc, time, addr, args, l, o)|
    ensures IsAt(Mixed(misc, time, addr, args, k, o), |Before(misc, time, addr, args, l, o)|, Data(args[l], o))
    decreases l - k
  {
    hide Before, Mixed, Data, TypesAt, DataOf, Code;
    ArgBytes(misc, time, addr, args, k, o);
    DataLength(args[k], o);
    var b, b' := Mixed(misc, time, addr, args, k, o), Mixed(misc, time, addr, args, k + 1, o);
    var x, y := Before(misc, time, addr, args, k, o), Before(misc, time, addr, args, k + 1, o);
    if k < l {
      DataStillThere(misc, time, addr, args, k + 1, l, o);
      var p, n := |Before(misc, time, addr, args, l, o)|, |Data(args[l], o)|;
      assert b[|y|..] == b'[|y|..];
      assert b[p..p + n] == b[|y|..][p - |y|..p - |y| + n] == b'[|y|..][p - |y|..p - |y| + n] == b'[p..p + n];
    }
  }

  lemma DataLength(a: Arg, o: Order)
    ensures |Data(a, o)| == |Data(a, Other(o))|
  {
    hide Le, Be;
  }

  /** Data that is swapped, in the finished message. */
  lemma {:induction false} DataInOrder(misc: nat, time: nat, addr: seq<Byte>, args: seq<Arg>, l: nat, m: nat, o: Order)
    requires l <= m <= |args|
    ensures Before(misc, time, addr, args, l, o) <= Before(misc, time, addr, args, m, o)
    decreases m - l
  {
    hide Before, DataOf, Data, TypesAt, Mixed, Code;
    if l < m {
      ArgBytes(misc, time, addr, args, l, o);
      DataInOrder(misc, time, addr, args, l + 1, m, o);
    }
  }

  lemma Finished(misc: nat, time: nat, addr: seq<Byte>, args: seq<Arg>, l: nat, o: Order)
    requires l < |args|
    ensures var e, x := Encode(misc, time, addr, args, Other(o)), Before(misc, time, addr, args, l, o);
            x <= e && IsAt(e, |x|, Data(args[l], Other(o)))
            && |e| == |Mixed(misc, time, addr, args, l, o)|
  {
    hide Before, DataOf, Data, TypesAt, Encode, Code;
    var e, x := Encode(misc, time, addr, args, Other(o)), Before(misc, time, addr, args, l, o);
    EncodeIsBefore(misc, time, addr, args, o);
    DataInOrder(misc, time, addr, args, l, |args|, o);
    DataInOrder(misc, time, addr, args, l + 1, |args|, o);
    ArgBytes(misc, time, addr, args, l, o);
    assert e[..|x| + |Data(args[l], Other(o))|] == x + Data(args[l], Other(o));
    SameLengths(misc, time, addr, args, l, o);
  }

  lemma EncodeIsBefore(misc: nat, time: nat, addr: seq<Byte>, args: seq<Arg>, o: Order)
    ensures Encode(misc, time, addr, args, Other(o)) == Before(misc, time, addr, args, |args|, o)
  {
    assert args[..|args|] == args;
  }

  lemma SameLengths(misc: nat, time: nat, addr: seq<Byte>, args: seq<Arg>, l: nat, o: Order)
    requires l <= |args|
    ensures |Mixed(misc, time, addr, args, l, o)| == |Encode(misc, time, addr, args, Other(o))|
    decreases |args| - l
  {
    if l == |args| {
      MixedEnds(misc, time, addr, args, o);
    } else {
      DataLength(args[l], o);
      hide Before, DataOf, Data, TypesAt, Encode, Code, Mixed;
      ArgBytes(misc, time, addr, args, l, o);
      SameLengths(misc, time, addr, args, l + 1, o);
    }
  }

  // ---------------------------------------------------------------------
  // Numbers after the blob, with the same lengths
  // ---------------------------------------------------------------------

  /** The contents that show it: marks in numbers, other bytes in strings. */
  function Marked(a: Arg): (r: Arg) {
    match a
    case Word(k, _) => Word(k, N4)
    case Long(k, _) => Long(k, N8)
    case Text(k, s) => Text(k, seq(|s|, _ => 1 as Byte))
    case Blob(_) => a
    case Flag(_) => a
  }

  lemma MarkedIs(a: Arg)
    requires ArgOk(a)
    ensures ArgOk(Marked(a)) && SameType(a, Marked(a)) && SameLength(a, Marked(a)) && (a.Blob? ==> Marked(a) == a)
  {
    BytesOfN4();
    BytesOfN8();
  }

  function MarkedAfter(args: seq<Arg>, i: nat): (r: seq<Arg>)
    ensures |r| == |args|
    ensures forall j :: 0 <= j < |args| ==> r[j] == if j <= i then args[j] else Marked(args[j])
  {
    seq(|args|, j requires 0 <= j < |args| => if j <= i then args[j] else Marked(args[j]))
  }

  ghost predicate NoMarks(a: Arg, width: nat, o: Order) {
    forall q :: 0 <= q < |Data(a, o)| ==> !Mark(Data(a, o)[q], width)
  }

  lemma NoMarksIn(a: Arg, width: nat, o: Order)
    requires width == 4 || width == 8
    requires Neutral(a) || (a.Word? && width == 8)
    ensures NoMarks(Marked(a), width, o)
  {
    if a.Word? {
      MarksOf(4, o);
    }
  }

  /** Between the blob and the number there are no marks. */
  lemma {:induction false} NoMarksBefore(misc: nat, time: nat, addr: seq<Byte>, args: seq<Arg>, k: nat, l: nat, d: nat,
                                         width: nat, o: Order)
    requires k <= l <= |args| && (width == 4 || width == 8)
    requires forall j :: k <= j < l ==> NoMarks(args[j], width, Other(o))
    requires forall q :: d <= q < |Before(misc, time, addr, args, k, o)| ==>
                           Before(misc, time, addr, args, k, o)[q] == 0
    ensures forall q :: d <= q < |Before(misc, time, addr, args, l, o)| ==>
                          !Mark(Before(misc, time, addr, args, l, o)[q], width)
    decreases l - k
  {
    hide Before, DataOf, Data, TypesAt, Mixed, Code;
    if k < l {
      NoMarksBefore(misc, time, addr, args, k, l - 1, d, width, o);
      ArgBytes(misc, time, addr, args, l - 1, o);
    }
  }

  lemma CodeKindIff(a: Arg)
    ensures IsCode8(Code(a)) <==> a.Long?
    ensures Code(a) == CodeOf('b') <==> a.Blob?
  {
  }

  /** A number made of marks. */
  ghost predicate AllMarks(a: Arg, width: nat, o: Order) {
    && |Data(a, o)| == width == |Data(a, Other(o))|
    && (forall j :: 0 <= j < width ==> Mark(Data(a, o)[j], width))
    && width > 0 && Data(a, o)[0] != Data(a, Other(o))[0]
  }

  lemma AllMarksIn(a: Arg, width: nat, o: Order)
    requires if width == 4 then a.Word? else width == 8 && a.Long?
    ensures AllMarks(Marked(a), width, o)
  {
    MarksOf(width, o);
  }

  /** A blob that needs padding, then no other blob, and then a number: the
      first of the widest is spoiled. */
  lemma NumberIsSpoiled(misc: nat, time: nat, addr: seq<Byte>, args: seq<Arg>, i: nat, l: nat, width: nat, o: Order)
    requires i < l < |args| && NoZero(addr) && ArgsOk(args) && Ragged(args[i])
    requires forall j :: 0 <= j < i ==> !Ragged(args[j])
    requires forall j :: i < j < |args| ==> !args[j].Blob? && (width == 4 ==> !args[j].Long?)
    requires if width == 4 then args[l].Word? else width == 8 && args[l].Long?
    requires forall j :: i < j < l ==> Neutral(args[j]) || (args[j].Word? && width == 8)
    ensures var other := MarkedAfter(args, i);
            ArgsOk(other) && SameShape(args, other) && !SwapsRight(misc, time, addr, other, o)
  {
    var other := MarkedAfter(args, i);
    forall j | 0 <= j < |args|
      ensures ArgOk(other[j]) && SameType(args[j], other[j]) && SameLength(args[j], other[j])
      ensures args[j].Blob? ==> other[j] == args[j]
    {
      if j > i { MarkedIs(args[j]); }
    }
    forall j | i + 1 <= j < l ensures NoMarks(other[j], width, Other(o)) {
      NoMarksIn(args[j], width, Other(o));
    }
    AllMarksIn(args[l], width, o);
    hide NoMarks, AllMarks, Marked, ArgOk, SwapsRight, SameType, SameLength;
    MarksAreSpoiled(misc, time, addr, other, i, l, width, o);
  }

  lemma MarksAreSpoiled(misc: nat, time: nat, addr: seq<Byte>, args: seq<Arg>, i: nat, l: nat, width: nat, o: Order)
    requires i < l < |args| && NoZero(addr) && ArgsOk(args) && Ragged(args[i])
    requires forall j :: 0 <= j < i ==> !Ragged(args[j])
    requires forall j :: i < j < |args| ==> !args[j].Blob? && (width == 4 ==> !args[j].Long?)
    requires width == 4 || width == 8
    requires forall j :: i < j < l ==> NoMarks(args[j], width, Other(o))
    requires AllMarks(args[l], width, o)
    ensures !SwapsRight(misc, time, addr, args, o)
  {
    hide SwapFrom, Mixed, Before, Encode, Swapped, Behind, JustBehind, TypeBlock, PadText, RoundUp, TypesAt;
    hide Data, Mark, Code, NoMarks, Ragged, ArgOk;
    var d := AfterRagged(misc, time, addr, args, i, o);
    var b, e := Mixed(misc, time, addr, args, i + 1, o), Encode(misc, time, addr, args, Other(o));
    var p := |Before(misc, time, addr, args, l, o)|;
    DataStillThere(misc, time, addr, args, i + 1, l, o);
    Finished(misc, time, addr, args, l, o);
    SameLengths(misc, time, addr, args, i + 1, o);
    CodesLeft(misc, time, addr, args, i, width, o);
    StillBehind(misc, time, addr, args, i + 1, l, d, o);
    NoMarksBefore(misc, time, addr, args, i + 1, l, d, width, o);
    forall q | p <= q < p + width ensures Mark(b[q], width) { IsAtIndex(b, p, Data(args[l], o), q - p); }
    IsAtIndex(b, p, Data(args[l], o), 0);
    IsAtIndex(e, p, Data(args[l], Other(o)), 0);
    NeverPutInOrder(b, TypesAt(addr) + 2 + i, TypesAt(addr) + 1 + |args|, d, o == Host, p, width, e);
  }

  lemma CodesLeft(misc: nat, time: nat, addr: seq<Byte>, args: seq<Arg>, i: nat, width: nat, o: Order)
    requires i < |args|
    requires forall j :: i < j < |args| ==> !args[j].Blob? && (width == 4 ==> !args[j].Long?)
    ensures var b, t, end := Mixed(misc, time, addr, args, i + 1, o), TypesAt(addr) + 2 + i, TypesAt(addr) + 1 + |args|;
            && t <= end < |b| && b[end] == 0 && end < |Before(misc, time, addr, args, i, o)|
            && forall j :: t <= j < end ==> b[j] != 0 && b[j] != CodeOf('b') && (width == 4 ==> !IsCode8(b[j]))
  {
    hide Mixed, Before, TypeBlock, PadText, StrLen, NextString, RoundUp, DataOf, Code, IsCode8, TypesAt, IsAt;
    MixedParts(misc, time, addr, args, i, o);
    MixedParts(misc, time, addr, args, i + 1, o);
    CodesFrom(Mixed(misc, time, addr, args, i + 1, o), TypesAt(addr), args, i, width);
  }

  lemma CodesFrom(b: seq<Byte>, at: nat, args: seq<Arg>, i: nat, width: nat)
    requires i < |args| && IsAt(b, at, TypeBlock(args))
    requires forall j :: i < j < |args| ==> !args[j].Blob? && (width == 4 ==> !args[j].Long?)
    ensures at + 1 + |args| < at + |TypeBlock(args)| && at + 1 + |args| < |b| && b[at + 1 + |args|] == 0
    ensures forall j :: at + 2 + i <= j < at + 1 + |args| ==>
              b[j] != 0 && b[j] != CodeOf('b') && (width == 4 ==> !IsCode8(b[j]))
  {
    hide TypeBlock, StrLen, NextString, RoundUp, Code, IsCode8, IsAt;
    TypeCodesAt(b, at, args);
    forall j | at + 2 + i <= j < at + 1 + |args|
      ensures b[j] != 0 && b[j] != CodeOf('b') && (width == 4 ==> !IsCode8(b[j]))
    {
      var n := j - at - 1;
      assert b[at + 1 + n] == Code(args[n]);
      CodeKindIff(args[n]);
    }
  }

  lemma Whole(misc: nat, time: nat, addr: seq<Byte>, args: seq<Arg>, k: nat, o: Order)
    requires k <= |args|
    ensures |Before(misc, time, addr, args, k, o)| % 4 == 0
  {
    hide Before;
    MixedParts(misc, time, addr, args, k, o);
    WholeSum(DataAt(addr, args), |DataOf(args[..k], Other(o))|);
  }

  lemma StillBehind(misc: nat, time: nat, addr: seq<Byte>, args: seq<Arg>, k: nat, l: nat, d: nat, o: Order)
    requires k <= l < |args| && JustBehind(misc, time, addr, args, k, o, d)
    ensures d < |Before(misc, time, addr, args, l, o)| && (|Before(misc, time, addr, args, l, o)| - d) % 4 != 0
    ensures forall q :: d <= q < |Before(misc, time, addr, args, k, o)| ==> Before(misc, time, addr, args, k, o)[q] == 0
  {
    hide Before, Mixed, JustBehind, IsAt, Data;
    JustBehindIs(misc, time, addr, args, k, o, d);
    Whole(misc, time, addr, args, k, o);
    Whole(misc, time, addr, args, l, o);
    DataStillThere(misc, time, addr, args, k, l, o);
    NotWhole(|Before(misc, time, addr, args, k, o)|, |Before(misc, time, addr, args, l, o)|, d);
  }

  lemma NotWhole(x: int, y: int, d: int)
    requires x % 4 == 0 && y % 4 == 0 && d < x < d + 4
    ensures (y - d) % 4 != 0
  {
  }

  // ---------------------------------------------------------------------
  // The next number or blob, with strings and blobs of other lengths
  // ---------------------------------------------------------------------

  /** Contents that show it at once: nothing in strings, marks in numbers and
      little in blobs.  All bytes are less than 128, so that no size is negative
      wherever it is read. */
  function Telling(a: Arg): Arg {
    match a
    case Word(k, _) => Word(k, N4)
    case Long(k, _) => Long(k, N8)
    case Text(k, _) => Text(k, [])
    case Blob(_) => if Ragged(a) then Blob([1]) else Blob([1, 1, 1, 1])
    case Flag(_) => a
  }

  function TellingAfter(args: seq<Arg>, i: nat): (r: seq<Arg>)
    ensures |r| == |args|
    ensures forall j :: 0 <= j < |args| ==> r[j] == if i < j then Telling(args[j]) else args[j]
  {
    seq(|args|, j requires 0 <= j < |args| => if i < j then Telling(args[j]) else args[j])
  }

  lemma TellingIsSmall(a: Arg, o: Order)
    ensures forall q :: 0 <= q < |Data(Telling(a), o)| ==> Data(Telling(a), o)[q] < 128
  {
    hide Num, Limit;
    match a {
      case Word(_, _) => MarksOf(4, o);
      case Long(_, _) => MarksOf(8, o);
      case Text(_, _) =>
      case Blob(_) => SmallSize(1, o); SmallSize(4, o);
      case Flag(_) =>
    }
  }

  lemma TellingIs(a: Arg)
    requires ArgOk(a)
    ensures ArgOk(Telling(a)) && SameType(a, Telling(a)) && Ragged(a) == Ragged(Telling(a))
  {
    BytesOfN4();
    BytesOfN8();
  }

  /** The bytes of a small size. */
  lemma SmallSize(n: nat, o: Order)
    requires n < 256
    ensures Num(n, 4, o) == if o == Host then [n as Byte, 0, 0, 0] else [0, 0, 0, n as Byte]
  {
    hide Le;
    LeZero();
    LeNext(0, 0, 0);
    LeNext(0, 0, 1);
    LeNext(0, 0, 2);
    LeNext(n as Byte, 0, 3);
    var s := Le(n, 4);
    forall j | 0 <= j < 4 ensures Reverse(s)[j] == s[3 - j] { ReverseAt(s, j); }
  }

  /** The bytes exchanged reach into the data of `a`. */
  lemma StepSpoils(x: seq<Byte>, a: Arg, rest: seq<Byte>, t: nat, d: nat, o: Order, e: seq<Byte>)
    requires !Neutral(a) && a == Telling(a)
    requires d < |x| < d + 4 && forall q :: d <= q < |x| ==> x[q] == 0
    requires var b := x + (Data(a, o) + rest); t < |b| == |e| && b[t] == Code(a)
    requires x <= e && IsAt(e, |x|, Data(a, Other(o)))
    ensures SwapFrom(x + (Data(a, o) + rest), t, d, o == Host).0 != e
  {
    hide SwapFrom, Flip, FromLe, Le, Be, Num, Limit, IsAt, PadData;
    CodeKind(a);
    hide Code, IsCode4, IsCode8, IsCodeText, IsCodeFlag, CodeOf;
    match a {
      case Word(_, bits) =>
        MarksOf(4, o);
        NumberStep(x, bits, 4, rest, t, d, o, e);
      case Long(_, bits) =>
        MarksOf(8, o);
        NumberStep(x, bits, 8, rest, t, d, o, e);
      case Blob(data) =>
        BlobStep(x, data, rest, t, d, o, e);
    }
  }

  lemma NumberStep(x: seq<Byte>, bits: nat, width: nat, rest: seq<Byte>, t: nat, d: nat, o: Order, e: seq<Byte>)
    requires d < |x| < d + 4 && x[d] == 0 && (width == 4 || width == 8)
    requires var b := x + (Num(bits, width, o) + rest);
             t < |b| == |e| && if width == 4 then IsCode4(b[t]) else IsCode8(b[t])
    requires forall j :: 0 <= j < width ==> Mark(Num(bits, width, o)[j], width)
    requires x <= e
    ensures SwapFrom(x + (Num(bits, width, o) + rest), t, d, o == Host).0 != e
  {
    hide SwapFrom, Flip, IsCode4, IsCode8, Num;
    var b, host := x + (Num(bits, width, o) + rest), o == Host;
    if width == 4 { Step4(b, t, d, host); } else { Step8(b, t, d, host); }
    FlipAt(b, d, width, d);
    KeepsBefore(Flip(b, d, width), t + 1, d + width, host, d);
    assert b[d + width - 1] == Num(bits, width, o)[d + width - 1 - |x|];
  }

  lemma BlobStep(x: seq<Byte>, data: seq<Byte>, rest: seq<Byte>, t: nat, d: nat, o: Order, e: seq<Byte>)
    requires d < |x| < d + 4 && forall q :: d <= q < |x| ==> x[q] == 0
    requires 0 < |data| < 256
    requires var b := x + (Data(Blob(data), o) + rest); t < |b| == |e| && b[t] == CodeOf('b')
    requires x <= e && IsAt(e, |x|, Data(Blob(data), Other(o)))
    ensures SwapFrom(x + (Data(Blob(data), o) + rest), t, d, o == Host).0 != e
  {
    hide SwapFrom, Flip, FromLe, Le, Be, Num, Limit, IsAt, PadData, CodeOf;
    var p, n, n' := |x|, Num(|data|, 4, o), Num(|data|, 4, Other(o));
    var b := x + (Data(Blob(data), o) + rest);
    SmallSize(|data|, Host);
    SmallSize(|data|, Network);
    var q := if o == Host then d + 3 - (p - d) else p;
    var from := d + 3 - (q - d);
    FlipAt(b, d, 4, q);
    BlobKeeps(b, t, d, o == Host, q);
    assert SwapFrom(b, t, d, o == Host).0[q] == b[from];
    if q >= p { IsAtIndex(e, p, Data(Blob(data), Other(o)), q - p); }
    var there := if from < p then 0 else n[from - p];
    var here := if q < p then 0 else n'[q - p];
    assert b[from] == there && e[q] == here;
    assert there != here;
  }

  lemma BlobKeeps(b: seq<Byte>, t: nat, d: nat, host: bool, q: nat)
    requires t < |b| && b[t] == CodeOf('b') && d + 4 <= |b| && q < d + 4
    ensures SwapFrom(b, t, d, host).0[q] == Flip(b, d, 4)[q]
  {
    var f := Flip(b, d, 4);
    hide StrLen, FromLe, RoundUp, IsCode4, IsCode8, IsCodeText, IsCodeFlag, Reverse, Flip;
    var size := FromLe((if host then b else f)[d..d + 4]);
    if d + 4 + size <= |b| { KeepsBefore(f, t + 1, d + 4 + size, host, q); }
  }

  lemma NextIsSpoiled(misc: nat, time: nat, addr: seq<Byte>, args: seq<Arg>, i: nat, l: nat, o: Order)
    requires i < l < |args| && NoZero(addr) && ArgsOk(args) && Ragged(args[i])
    requires forall j :: 0 <= j < i ==> !Ragged(args[j])
    requires !Neutral(args[l]) && forall j :: i < j < l ==> Neutral(args[j])
    ensures var other := TellingAfter(args, i);
            && ArgsOk(other) && Alike(args, other) && !SwapsRight(misc, time, addr, other, o)
            && forall j, q :: i < j < |args| && 0 <= q < |Data(other[j], o)| ==> Data(other[j], o)[q] < 128
  {
    var other := TellingAfter(args, i);
    hide Data, SwapsRight;
    forall j | i < j < |args| ensures forall q :: 0 <= q < |Data(other[j], o)| ==> Data(other[j], o)[q] < 128 {
      TellingIsSmall(args[j], o);
    }
    forall j | 0 <= j < |args|
      ensures ArgOk(other[j]) && SameType(args[j], other[j]) && Ragged(args[j]) == Ragged(other[j])
    {
      TellingIs(args[j]);
    }
    hide ArgOk;
    TellingIsSpoiled(misc, time, addr, other, i, l, o);
  }

  lemma TellingIsSpoiled(misc: nat, time: nat, addr: seq<Byte>, args: seq<Arg>, i: nat, l: nat, o: Order)
    requires i < l < |args| && NoZero(addr) && ArgsOk(args) && Ragged(args[i])
    requires forall j :: 0 <= j < i ==> !Ragged(args[j])
    requires !Neutral(args[l]) && args[l] == Telling(args[l])
    requires forall j :: i < j < l ==> Neutral(args[j])
    requires forall j :: i < j < l && args[j].Text? ==> args[j].s == []
    ensures !SwapsRight(misc, time, addr, args, o)
  {
    hide SwapFrom, Mixed, Before, Encode, Swapped, Behind, JustBehind, RoundUp, TypesAt, Data, Code, ArgOk, DataOf;
    hide Telling, Ragged, IsAt, Neutral, Limit, PadText, TypeBlock;
    var d0 := AfterRagged(misc, time, addr, args, i, o);
    var d := NeutralPass(misc, time, addr, args, i + 1, l, d0, o);
    assert TypesAt(addr) + 2 + i == TypesAt(addr) + 1 + (i + 1);
    AtNumber(misc, time, addr, args, l, d, o);
  }

  lemma AtNumber(misc: nat, time: nat, addr: seq<Byte>, args: seq<Arg>, l: nat, d: nat, o: Order)
    requires l < |args| && !Neutral(args[l]) && args[l] == Telling(args[l])
    requires JustBehind(misc, time, addr, args, l, o, d)
    ensures SwapFrom(Mixed(misc, time, addr, args, l, o), TypesAt(addr) + 1 + l, d, o == Host).0
            != Encode(misc, time, addr, args, Other(o))
  {
    hide SwapFrom, Mixed, Before, Encode, JustBehind, RoundUp, TypesAt, Data, Code, DataOf, Telling, IsAt;
    ArgBytes(misc, time, addr, args, l, o);
    Finished(misc, time, addr, args, l, o);
    JustBehindIs(misc, time, addr, args, l, o, d);
    StepSpoils(Before(misc, time, addr, args, l, o), args[l], DataOf(args[l + 1..], o), TypesAt(addr) + 1 + l, d, o,
               Encode(misc, time, addr, args, Other(o)));
  }

  lemma JustBehindIs(misc: nat, time: nat, addr: seq<Byte>, args: seq<Arg>, k: nat, o: Order, d: nat)
    requires k <= |args| && JustBehind(misc, time, addr, args, k, o, d)
    ensures var x := Before(misc, time, addr, args, k, o);
            d < |x| < d + 4 && forall i :: d <= i < |x| ==> x[i] == 0
  {
  }

  // ---------------------------------------------------------------------
  // Exactly when every message is swapped
  // ---------------------------------------------------------------------

  lemma RightWhenPaddingIsLast(misc: nat, time: nat, addr: seq<Byte>, args: seq<Arg>, o: Order)
    requires NoZero(addr) && ArgsOk(args) && PaddingIsLast(args)
    ensures SwapsRight(misc, time, addr, args, o)
  {
    hide Encode, Swapped;
    PartsOf(misc, time, addr, args, o);
    SwapsToTheOtherOrder(misc, time, addr, args, o);
  }

  /** The first blob that needs padding, and the first argument after it that
      has to be swapped. */
  lemma FirstOffence(args: seq<Arg>) returns (i: nat, l: nat)
    requires !PaddingIsLast(args)
    ensures i < l < |args| && Ragged(args[i]) && !Neutral(args[l])
    ensures forall j :: 0 <= j < i ==> !Ragged(args[j])
    ensures forall j :: i < j < l ==> Neutral(args[j])
  {
    i := 0;
    while !Ragged(args[i])
      invariant 0 <= i < |args| && forall j :: 0 <= j < i ==> !Ragged(args[j])
      invariant exists j, k :: i <= j < k < |args| && Ragged(args[j]) && !Neutral(args[k])
      decreases |args| - i
    {
      i := i + 1;
    }
    l := i + 1;
    while Neutral(args[l])
      invariant i < l < |args| && forall j :: i < j < l ==> Neutral(args[j])
      invariant exists k :: l <= k < |args| && !Neutral(args[k])
      decreases |args| - l
    {
      l := l + 1;
    }
  }

  /** Every message with these types, and padding after these blobs, is swapped
      if and only if no number and no blob follows a blob with padding. */
  lemma EveryMessageIsSwappedIff(misc: nat, time: nat, addr: seq<Byte>, args: seq<Arg>, o: Order)
    requires NoZero(addr) && ArgsOk(args)
    ensures PaddingIsLast(args) <==>
            forall other :: ArgsOk(other) && Alike(args, other) ==> SwapsRight(misc, time, addr, other, o)
  {
    hide SwapsRight, Alike, ArgsOk, PaddingIsLast;
    if PaddingIsLast(args) {
      forall other | ArgsOk(other) && Alike(args, other) ensures SwapsRight(misc, time, addr, other, o) {
        AlikeKeepsPadding(args, other);
        RightWhenPaddingIsLast(misc, time, addr, other, o);
      }
    } else {
      var i, l := FirstOffence(args);
      NextIsSpoiled(misc, time, addr, args, i, l, o);
    }
  }

  /** If no blob follows a blob with padding, that is so for the messages that
      have the same lengths of strings and blobs, too. */
  lemma EveryMessageOfTheseLengthsIff(misc: nat, time: nat, addr: seq<Byte>, args: seq<Arg>, o: Order)
    requires NoZero(addr) && ArgsOk(args)
    requires forall i, j :: 0 <= i < j < |args| && Ragged(args[i]) ==> !args[j].Blob?
    ensures PaddingIsLast(args) <==>
            forall other :: ArgsOk(other) && SameShape(args, other) ==> SwapsRight(misc, time, addr, other, o)
  {
    hide SwapsRight, SameShape, ArgsOk, PaddingIsLast;
    if PaddingIsLast(args) {
      forall other | ArgsOk(other) && SameShape(args, other) ensures SwapsRight(misc, time, addr, other, o) {
        SameShapeIsAlike(args, other);
        AlikeKeepsPadding(args, other);
        RightWhenPaddingIsLast(misc, time, addr, other, o);
      }
    } else {
      var i, l := FirstOffence(args);
      if j :| i < j < |args| && args[j].Long? {
        var m := FirstLong(args, i, j);
        NumberIsSpoiled(misc, time, addr, args, i, m, 8, o);
      } else {
        NumberIsSpoiled(misc, time, addr, args, i, l, 4, o);
      }
    }
  }

  lemma {:induction false} FirstLong(args: seq<Arg>, i: nat, j: nat) returns (m: nat)
    requires i < j < |args| && args[j].Long?
    ensures i < m < |args| && args[m].Long? && forall k :: i < k < m ==> !args[k].Long?
    decreases j
  {
    if k :| i < k < j && args[k].Long? {
      m := FirstLong(args, i, k);
    } else {
      m := j;
    }
  }

  /** Lengths alone do not decide it when a blob follows: an empty one does no
      harm after a blob of one byte. */
  lemma EmptyBlobIsHarmless(misc: nat, time: nat, addr: seq<Byte>, c: Byte, o: Order)
    requires NoZero(addr)
    ensures var args := [Blob([c]), Blob([])];
            !PaddingIsLast(args) && SwapsRight(misc, time, addr, args, o)
  {
    hide SwapFrom, Mixed, Before, Encode, Swapped, Behind, JustBehind, TypesAt, Data, Code, DataOf, Limit, TypeBlock;
    var args := [Blob([c]), Blob([])];
    assert Ragged(args[0]) && !Neutral(args[1]);
    LimitValues();
    var d := AfterRagged(misc, time, addr, args, 0, o);
    ArgBytes(misc, time, addr, args, 1, o);
    JustBehindIs(misc, time, addr, args, 1, o, d);
    var b, x := Mixed(misc, time, addr, args, 1, o), Before(misc, time, addr, args, 1, o);
    EmptyBlobData(o);
    EmptyBlobData(Other(o));
    CodeKindIff(args[1]);
    assert args[2..] == [];
    EmptyBlobStep(b, TypesAt(addr) + 2, d, o == Host);
    MixedParts(misc, time, addr, args, 1, o);
    TypeCodesAt(b, TypesAt(addr), args);
    StepStops(b, TypesAt(addr) + 3, d + 4, o == Host);
    MixedEnds(misc, time, addr, args, o);
    EmptyData(o);
  }

  lemma EmptyBlobData(o: Order)
    ensures Data(Blob([]), o) == [0, 0, 0, 0]
  {
    hide Le, Be, Num;
    SmallSize(0, o);
    NothingToPad([]);
    hide PadData;
    var n: seq<Byte> := [0, 0, 0, 0];
    assert Data(Blob([]), o) == n + [];
  }

  lemma NothingToPad(data: seq<Byte>)
    requires data == []
    ensures PadData(data) == []
  {
  }

  lemma EmptyBlobStep(b: seq<Byte>, t: nat, d: nat, host: bool)
    requires t < |b| && b[t] == CodeOf('b') && d + 4 <= |b| && forall q :: d <= q < d + 4 ==> b[q] == 0
    ensures SwapFrom(b, t, d, host) == SwapFrom(b, t + 1, d + 4, host)
  {
    hide SwapFrom, Flip, Reverse;
    forall q | 0 <= q < |b| ensures Flip(b, d, 4)[q] == b[q] { FlipAt(b, d, 4, q); }
    assert Flip(b, d, 4) == b;
    ZeroSize(b[d..d + 4]);
    StepBlob(b, t, d, host, 0);
  }

  lemma {:induction false} ZeroSize(s: seq<Byte>)
    requires forall q :: 0 <= q < |s| ==> s[q] == 0
    ensures FromLe(s) == 0
  {
    if s != [] { ZeroSize(s[1..]); }
  }
}
