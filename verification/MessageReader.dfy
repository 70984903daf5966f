/** Taking messages apart: `o2_extract_start` and `o2_get_next` of
    src/message.cpp.  Results are positions in the message, as the program's
    are pointers into it. */
module MessageReader {
  import opened Bytes
  import opened MessageFormat

  /** What `o2_get_next` gives: nothing, a pointer to the argument's data, a
      pointer that stands for a value without data, a pointer to a converted
      number, or something about an array or a vector. */
  datatype Got = Null | At(pos: nat) | Present | Converted | Composite

  /** A 32-bit word; bytes past the end read as zero. */
  function WordAt(b: seq<Byte>, at: nat): nat {
    if at + 4 <= |b| then FromLe(b[at..at + 4]) else 0
  }

  /** What a program finds at a pointer it was given for a type code. */
  function ValueAt(b: seq<Byte>, pos: nat, code: Byte): Arg
    requires pos <= |b|
  {
    if code == CodeOf('i') then Word(Int32, WordAt(b, pos))
    else if code == CodeOf('f') then Word(Float, WordAt(b, pos))
    else if code == CodeOf('c') then Word(Char, WordAt(b, pos))
    else if code == CodeOf('B') then Word(Bool, WordAt(b, pos))
    else if code == CodeOf('m') then Word(Midi, WordAt(b, pos))
    else if code == CodeOf('h') then Long(Int64, LongAt(b, pos))
    else if code == CodeOf('d') then Long(Double, LongAt(b, pos))
    else if code == CodeOf('t') then Long(Time, LongAt(b, pos))
    else if code == CodeOf('s') then Text(String, b[pos..pos + StrLen(b, pos)])
    else if code == CodeOf('S') then Text(Symbol, b[pos..pos + StrLen(b, pos)])
    else if code == CodeOf('b') then Blob(BytesAt(b, pos + 4, WordAt(b, pos)))
    else if code == CodeOf('T') then Flag(True)
    else if code == CodeOf('F') then Flag(False)
    else if code == CodeOf('N') then Flag(Nil)
    else Flag(Infinitum)
  }

  function LongAt(b: seq<Byte>, at: nat): nat {
    if at + 8 <= |b| then FromLe(b[at..at + 8]) else 0
  }

  function BytesAt(b: seq<Byte>, at: nat, n: nat): seq<Byte> {
    if at + n <= |b| then b[at..at + n] else []
  }

  // ---------------------------------------------------------------------
  // Every argument can be read back
  // ---------------------------------------------------------------------

  lemma WordIsAt(b: seq<Byte>, at: nat, bits: nat)
    requires IsAt(b, at, Le(bits, 4)) && bits < Limit(4)
    ensures WordAt(b, at) == bits
  {
    LeRoundTrip(bits, 4);
  }

  lemma LongIsAt(b: seq<Byte>, at: nat, bits: nat)
    requires IsAt(b, at, Le(bits, 8)) && bits < Limit(8)
    ensures LongAt(b, at) == bits
  {
    hide Le, FromLe, Limit;
    LeRoundTrip(bits, 8);
  }

  /** `MX_SKIP` over a string or a blob lands on the next argument. */
  function Width(b: seq<Byte>, pos: nat, code: Byte): nat
  {
    if code == CodeOf('i') || code == CodeOf('f') || code == CodeOf('c') ||
       code == CodeOf('B') || code == CodeOf('m') then 4
    else if code == CodeOf('h') || code == CodeOf('d') || code == CodeOf('t') then 8
    else if code == CodeOf('s') || code == CodeOf('S') then RoundUp(StrLen(b, pos) + 1)
    else if code == CodeOf('b') then RoundUp(4 + WordAt(b, pos))
    else 0
  }

  lemma RoundUpAfterWord(n: nat)
    ensures RoundUp(4 + n) == 4 + RoundUp(n)
  {
  }

  /** Whatever surrounds it, encoded data reads back as the argument, and its
      width is known from its first bytes. */
  lemma ReadsBack(b: seq<Byte>, pos: nat, a: Arg)
    requires ArgOk(a) && IsAt(b, pos, Data(a, Host))
    ensures ValueAt(b, pos, Code(a)) == a
    ensures Width(b, pos, Code(a)) == |Data(a, Host)|
  {
    hide Le, FromLe, Limit, RoundUp, PadText, PadData;
    match a
    case Word(_, bits) => WordIsAt(b, pos, bits);
    case Long(_, bits) => LongIsAt(b, pos, bits);
    case Text(_, s) => TextReadsBack(b, pos, s);
    case Blob(data) => BlobReadsBack(b, pos, data);
    case Flag(_) =>
  }

  lemma TextReadsBack(b: seq<Byte>, pos: nat, s: seq<Byte>)
    requires NoZero(s) && IsAt(b, pos, PadText(s))
    ensures StrLen(b, pos) == |s| && b[pos..pos + |s|] == s
    ensures RoundUp(StrLen(b, pos) + 1) == |PadText(s)|
  {
    hide RoundUp;
    ScanPadded(b, pos, s);
    var p := PadText(s);
    assert b[pos..pos + |s|] == b[pos..pos + |p|][..|s|] == p[..|s|] == s;
  }

  lemma BlobReadsBack(b: seq<Byte>, pos: nat, data: seq<Byte>)
    requires |data| < Limit(4) && IsAt(b, pos, Le(|data|, 4) + PadData(data))
    ensures WordAt(b, pos) == |data| && BytesAt(b, pos + 4, |data|) == data
    ensures RoundUp(4 + WordAt(b, pos)) == 4 + |PadData(data)|
  {
    hide Le, FromLe, Limit, RoundUp;
    IsAtParts(b, pos, Le(|data|, 4), PadData(data));
    WordIsAt(b, pos, |data|);
    RoundUpAfterWord(|data|);
    var p := PadData(data);
    assert b[pos + 4..pos + 4 + |data|] == b[pos + 4..pos + 4 + |p|][..|data|] == p[..|data|] == data;
  }

  // ---------------------------------------------------------------------
  // Asking for another type
  // ---------------------------------------------------------------------

  // A float or double is zero if all bits below this are.
  const SIGN32 := 0x8000_0000
  const SIGN64 := 0x8000_0000_0000_0000

  predicate IsNumber(to: Byte) {
    || to == CodeOf('i') || to == CodeOf('h') || to == CodeOf('f')
    || to == CodeOf('d') || to == CodeOf('t') || to == CodeOf('B')
  }

  /** `convert_int` and `convert_float` of a number that is zero or not. */
  function Convert(to: Byte, nonZero: bool): Got {
    if IsNumber(to) then Converted
    else if to == (if nonZero then CodeOf('T') else CodeOf('F')) then Present
    else Null
  }

  /** Is the argument a number that counts as true? */
  predicate NonZero(a: Arg) {
    match a
    case Word(kind, bits) => if kind == Float then bits % SIGN32 != 0 else bits != 0
    case Long(kind, bits) => if kind == Int64 then bits != 0 else bits % SIGN64 != 0
    case Flag(kind) => kind == True
    case _ => false
  }

  /** Can the argument be had as type `to`?  Numbers and truth values convert to
      all types of numbers, and to the truth value they have; only False can be
      had as True and as False. */
  predicate Obtainable(a: Arg, to: Byte) {
    if (a.Word? && a.k32 != Char && a.k32 != Midi) || a.Long? || a == Flag(True) then
      IsNumber(to) || to == CodeOf(if NonZero(a) then 'T' else 'F')
    else if a == Flag(False) then
      IsNumber(to) || to == CodeOf('T') || to == CodeOf('F')
    else SameData(a, to)
  }

  /** Strings and symbols, doubles and times need no conversion. */
  predicate SameData(a: Arg, to: Byte) {
    || to == Code(a)
    || (a.Text? && (to == CodeOf('s') || to == CodeOf('S')))
    || (a.Long? && a.k64 != Int64 && (to == CodeOf('d') || to == CodeOf('t')))
  }

  function As(a: Arg, to: Byte): Arg
    requires SameData(a, to)
  {
    match a
    case Text(_, s) => Text(if to == CodeOf('s') then String else Symbol, s)
    case Long(kind, bits) => Long(if kind == Int64 then Int64 else if to == CodeOf('d') then Double else Time, bits)
    case _ => a
  }

  /** The result `r` of asking for type `to` is the argument `a`. */
  ghost predicate Gives(b: seq<Byte>, r: Got, to: Byte, a: Arg) {
    match r
    case At(pos) => pos <= |b| && ValueAt(b, pos, to) == a
    case Present => a.Flag? && to == Code(a)
    case _ => false
  }

  /** What has been given, when the data of `a` is at `pos`. */
  lemma Given(b: seq<Byte>, pos: nat, a: Arg, to: Byte, r: Got)
    requires pos <= |b| && ValueAt(b, pos, Code(a)) == a
    requires match a
      case Word(kind, _) =>
        if kind == Char || kind == Midi then r == if to == Code(a) then At(pos) else Null
        else r == if to == Code(a) then At(pos)
                  else Convert(to, if kind == Float then WordAt(b, pos) % SIGN32 != 0 else WordAt(b, pos) != 0)
      case Long(kind, _) =>
        if kind == Int64 then r == if to == Code(a) then At(pos) else Convert(to, LongAt(b, pos) != 0)
        else r == if to == CodeOf('d') || to == CodeOf('t') then At(pos) else Convert(to, LongAt(b, pos) % SIGN64 != 0)
      case Text(_, _) => r == if to == CodeOf('s') || to == CodeOf('S') then At(pos) else Null
      case Blob(_) => r == if to == CodeOf('b') then At(pos) else Null
      case Flag(True) => r == if to == CodeOf('T') then Present else Convert(to, true)
      case Flag(False) => r == if to == CodeOf('T') then Present else Convert(to, false)
      case Flag(_) => r == if to == Code(a) then Present else Null
    ensures r != Null <==> Obtainable(a, to)
    ensures SameData(a, to) ==> Gives(b, r, to, As(a, to))
  {
    hide WordAt, LongAt, StrLen, BytesAt;
  }

  /** Only False can be had as True and as False. */
  lemma BothTruthValuesIff(a: Arg)
    ensures Obtainable(a, CodeOf('T')) && Obtainable(a, CodeOf('F')) <==> a == Flag(False)
  {
  }

  /** All numbers and truth values, but for characters and MIDI, can be had as any
      number type and as the truth value they have. */
  lemma ConversionsAre(a: Arg, to: Byte)
    requires (a.Word? && a.k32 != Char && a.k32 != Midi) || a.Long? || a == Flag(True)
    ensures Obtainable(a, to) <==>
              to == 105 || to == 104 || to == 102 || to == 100 || to == 116 || to == 66 ||
              to == if NonZero(a) then 84 else 70
  {
  }

  lemma BlobIsWide(b: seq<Byte>, pos: nat, data: seq<Byte>)
    ensures Width(b, pos, Code(Blob(data))) >= 4
  {
  }

  // ---------------------------------------------------------------------
  // The extractor
  // ---------------------------------------------------------------------

  /** `o2_next_o2string`. */
  method NextO2String(b: seq<Byte>, at: nat) returns (n: nat)
    ensures n == NextString(b, at)
  {
    n := at;
    while n + 3 < |b| && b[n + 3] != 0
      invariant NextString(b, n) == NextString(b, at)
      decreases |b| - n
    {
      n := n + 4;
    }
    n := n + 4;
  }

  class Extractor {
    const msg: seq<Byte>
    var typeNext: nat
    var dataNext: nat

    /** The cursors stand at argument `k` of an encoded message. */
    ghost predicate Positioned(misc: nat, time: nat, addr: seq<Byte>, args: seq<Arg>, k: nat)
      reads this
    {
      && msg == Encode(misc, time, addr, args, Host)
      && NoZero(addr) && ArgsOk(args) && k <= |args|
      && typeNext == TypesAt(addr) + 1 + k
      && dataNext == DataAt(addr, args) + |DataOf(args[..k], Host)|
    }

    /** `o2_extract_start`: find the type string and the data of any message. */
    constructor (msg: seq<Byte>, ghost misc: nat, ghost time: nat, ghost addr: seq<Byte>, ghost args: seq<Arg>)
      requires |msg| >= HEADER
      ensures this.msg == msg
      ensures msg == Encode(misc, time, addr, args, Host) && NoZero(addr) && ArgsOk(args) ==>
                Positioned(misc, time, addr, args, 0)
    {
      this.msg := msg;
      var next := NextString(msg, HEADER);
      var types := next + 1;
      typeNext := types;
      dataNext := (types + StrLen(msg, types) + 4) / 4 * 4;
      new;
      if msg == Encode(misc, time, addr, args, Host) && NoZero(addr) && ArgsOk(args) {
        StartsAtArguments(msg, misc, time, addr, args);
      }
    }

    static lemma StartsAtArguments(msg: seq<Byte>, misc: nat, time: nat, addr: seq<Byte>, args: seq<Arg>)
      requires msg == Encode(misc, time, addr, args, Host) && NoZero(addr)
      ensures var types := NextString(msg, HEADER) + 1;
              && types == TypesAt(addr) + 1
              && (types + StrLen(msg, types) + 4) / 4 * 4 == DataAt(addr, args) + |DataOf(args[..0], Host)|
    {
      hide Encode, DataOf, PadText, TypeBlock, RoundUp, StrLen, NextString;
      PartsOf(misc, time, addr, args, Host);
      ScanPadded(msg, HEADER, addr);
      TypeCodesAt(msg, TypesAt(addr), args);
      DataAfterTypes(TypesAt(addr), |args|);
      assert args[..0] == [];
      DataOfNothing();
    }

    static lemma DataOfNothing()
      ensures DataOf([], Host) == []
    {
    }

    static lemma DataAfterTypes(at: nat, n: nat)
      requires at % 4 == 0
      ensures (at + 1 + n + 4) / 4 * 4 == at + RoundUp(n + 2)
    {
    }

    /** `o2_get_next`.  Exactly when the argument can be had as `to` something
        is given; the argument that was added, if no conversion is needed.  The
        cursors move on to the next argument, except after asking for another
        type than a blob's; when no argument is left nothing is given. */
    method GetNext(to: Byte, ghost misc: nat, ghost time: nat, ghost addr: seq<Byte>, ghost args: seq<Arg>,
                   ghost k: nat)
      returns (r: Got)
      modifies this
      ensures old(Positioned(misc, time, addr, args, k)) && k < |args| ==>
                && (r != Null <==> Obtainable(args[k], to))
                && (Positioned(misc, time, addr, args, k + 1) <==> (args[k].Blob? ==> to == CodeOf('b')))
                && (SameData(args[k], to) ==> Gives(msg, r, to, As(args[k], to)))
      ensures old(Positioned(misc, time, addr, args, k)) && k == |args| ==> r == Null
    {
      hide Encode, DataOf, Data, PadText, TypeBlock, ValueAt, RoundUp, StrLen, Width, Code;
      hide SameData, As, Gives, Obtainable;
      ghost var inside, pos := Positioned(misc, time, addr, args, k), dataNext;
      if inside {
        NextArgument(misc, time, addr, args, k);
        if k < |args| && args[k].Blob? { BlobIsWide(msg, pos, args[k].data); }
      }
      if typeNext >= |msg| || msg[typeNext] == 0 {
        return Null;
      }
      var code := msg[typeNext];
      typeNext := typeNext + 1;
      var width, known;
      r, width, known := Switch(code, to, if inside then args[k] else Flag(Nil));
      if !known { return; }
      dataNext := dataNext + width;
      if dataNext > |msg| {
        dataNext := |msg|;
        r := Null;
      }
    }

    /** The switch on the type in the message. */
    method Switch(code: Byte, to: Byte, ghost a: Arg) returns (r: Got, width: nat, known: bool)
      ensures dataNext <= |msg| && code == Code(a) && ValueAt(msg, dataNext, code) == a ==>
                && known && (r != Null <==> Obtainable(a, to)) && (SameData(a, to) ==> Gives(msg, r, to, As(a, to)))
                && width == if a.Blob? && to != CodeOf('b') then 0 else Width(msg, dataNext, code)
    {
      hide ValueAt, WordAt, LongAt, Width, SameData, As, Gives, Obtainable;
      r, width, known := At(dataNext), Width(msg, dataNext, code), true;
      if code == CodeOf('i') || code == CodeOf('B') {
        if to != code { r := Convert(to, WordAt(msg, dataNext) != 0); }
      } else if code == CodeOf('h') {
        if to != code { r := Convert(to, LongAt(msg, dataNext) != 0); }
      } else if code == CodeOf('f') {
        if to != code { r := Convert(to, WordAt(msg, dataNext) % SIGN32 != 0); }
      } else if code == CodeOf('d') || code == CodeOf('t') {
        if to != CodeOf('d') && to != CodeOf('t') { r := Convert(to, LongAt(msg, dataNext) % SIGN64 != 0); }
      } else if code == CodeOf('T') {
        r := if to == CodeOf('T') then Present else Convert(to, true);
      } else if code == CodeOf('F') {
        r := if to == CodeOf('T') then Present else Convert(to, false);
      } else if code == CodeOf('s') || code == CodeOf('S') {
        if to != CodeOf('s') && to != CodeOf('S') { r := Null; }
      } else if code == CodeOf('c') || code == CodeOf('m') {
        if to != code { r := Null; }
      } else if code == CodeOf('b') {
        if to != CodeOf('b') { r, width := Null, 0; }
      } else if code == CodeOf('N') || code == CodeOf('I') {
        r := if to == code then Present else Null;
      } else if code == CodeOf('[') || code == CodeOf(']') || code == CodeOf('v') {
        r, known := Composite, false;
      } else {
        r, known := Null, false;
      }
      if dataNext <= |msg| && code == Code(a) && ValueAt(msg, dataNext, code) == a { Given(msg, dataNext, a, to, r); }
    }

    lemma NextArgument(misc: nat, time: nat, addr: seq<Byte>, args: seq<Arg>, k: nat)
      requires Positioned(misc, time, addr, args, k)
      ensures typeNext < |msg| && (msg[typeNext] == 0 <==> k == |args|)
      ensures k < |args| ==>
                && msg[typeNext] == Code(args[k]) && dataNext <= |msg|
                && ValueAt(msg, dataNext, Code(args[k])) == args[k]
                && dataNext + Width(msg, dataNext, Code(args[k]))
                   == DataAt(addr, args) + |DataOf(args[..k + 1], Host)| <= |msg|
    {
      hide Encode, DataOf, Data, PadText, TypeBlock, ValueAt, Width, Code, RoundUp, StrLen;
      PartsOf(misc, time, addr, args, Host);
      TypeCodesAt(msg, TypesAt(addr), args);
      if k < |args| {
        ArgDataAt(msg, DataAt(addr, args), args, k, Host);
        ReadsBack(msg, dataNext, args[k]);
      }
    }

    /** The parsing loop of a handler's invocation: one `o2_get_next` per code
        of the message's own type string returns exactly the arguments. */
    method GetAll(codes: seq<Byte>, ghost misc: nat, ghost time: nat, ghost addr: seq<Byte>, ghost args: seq<Arg>)
      returns (values: seq<Arg>, ok: bool)
      requires Positioned(misc, time, addr, args, 0) && codes == Codes(args)
      modifies this
      ensures ok && values == args
    {
      hide Encode, DataOf, ValueAt, PadText, TypeBlock;
      values, ok := [], true;
      var i := 0;
      while i < |codes|
        invariant 0 <= i <= |codes| && ok
        invariant Positioned(misc, time, addr, args, i) && values == args[..i]
      {
        var r := GetNext(codes[i], misc, time, addr, args, i);
        match r {
          case At(pos) => values := values + [ValueAt(msg, pos, codes[i])];
          case Present => values := values + [ValueAt(msg, 0, codes[i])]; FlagValue(msg, args[i]);
          case _ => ok := false; return;
        }
        i := i + 1;
      }
    }

    static lemma FlagValue(b: seq<Byte>, a: Arg)
      requires a.Flag?
      ensures ValueAt(b, 0, Code(a)) == a
    {
    }
  }
}
