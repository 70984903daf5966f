/** The O2 message format of src/message.cpp, byte for byte.

    A message (without its length word) is: flags and TTL in 4 bytes, the
    timestamp in 8, the address string, the type string, which starts with a
    comma, and the data of the arguments.  Strings are padded with 1 to 4 zeros
    to a multiple of 4 bytes; numbers are little-endian on the host and
    big-endian on the network.  Floats and doubles are their bit patterns. */
module MessageFormat {
  import opened Bytes

  datatype Order = Host | Network

  datatype Kind32 = Int32 | Float | Char | Bool | Midi
  datatype Kind64 = Int64 | Double | Time
  datatype KindText = String | Symbol
  datatype KindFlag = True | False | Nil | Infinitum

  datatype Arg =
    | Word(k32: Kind32, bits: nat)
    | Long(k64: Kind64, bits: nat)
    | Text(ks: KindText, s: seq<Byte>)
    | Blob(data: seq<Byte>)
    | Flag(kf: KindFlag)

  ghost predicate NoZero(s: seq<Byte>) {
    forall i :: 0 <= i < |s| ==> s[i] != 0
  }

  /** What the type of an argument allows. */
  ghost predicate ArgOk(a: Arg) {
    match a
    case Word(_, bits) => bits < Limit(4)
    case Long(_, bits) => bits < Limit(8)
    case Text(_, s) => NoZero(s)
    case Blob(data) => |data| < Limit(4)
    case Flag(_) => true
  }

  ghost predicate ArgsOk(args: seq<Arg>) {
    forall i :: 0 <= i < |args| ==> ArgOk(args[i])
  }

  function CodeOf(c: char): (b: Byte)
    requires 0 < c as int < 256
    ensures b != 0
  {
    c as int as Byte
  }

  /** The type code of an argument. */
  function Code(a: Arg): (b: Byte)
    ensures b != 0
  {
    match a
    case Word(Int32, _) => CodeOf('i')
    case Word(Float, _) => CodeOf('f')
    case Word(Char, _) => CodeOf('c')
    case Word(Bool, _) => CodeOf('B')
    case Word(Midi, _) => CodeOf('m')
    case Long(Int64, _) => CodeOf('h')
    case Long(Double, _) => CodeOf('d')
    case Long(Time, _) => CodeOf('t')
    case Text(String, _) => CodeOf('s')
    case Text(Symbol, _) => CodeOf('S')
    case Blob(_) => CodeOf('b')
    case Flag(True) => CodeOf('T')
    case Flag(False) => CodeOf('F')
    case Flag(Nil) => CodeOf('N')
    case Flag(Infinitum) => CodeOf('I')
  }

  // ---------------------------------------------------------------------
  // Encoding
  // ---------------------------------------------------------------------

  function Num(n: nat, width: nat, o: Order): (r: seq<Byte>)
    ensures |r| == width
  {
    if o == Host then Le(n, width) else Be(n, width)
  }

  function Zeros(n: nat): (r: seq<Byte>)
    ensures |r| == n && forall i :: 0 <= i < n ==> r[i] == 0
  {
    seq(n, _ => 0 as Byte)
  }

  /** `ROUNDUP_TO_32BIT`. */
  function RoundUp(n: nat): (r: nat)
    ensures n <= r < n + 4 && r % 4 == 0
  {
    (n + 3) / 4 * 4
  }

  /** A string with its end and padding. */
  function PadText(s: seq<Byte>): (r: seq<Byte>)
    ensures |r| == RoundUp(|s| + 1) && |r| % 4 == 0 && s <= r
    ensures forall i :: |s| <= i < |r| ==> r[i] == 0
  {
    s + Zeros(RoundUp(|s| + 1) - |s|)
  }

  /** `ADD_PADDING`. */
  function PadData(d: seq<Byte>): (r: seq<Byte>)
    ensures |r| == RoundUp(|d|) && |r| % 4 == 0 && d <= r
  {
    d + Zeros(RoundUp(|d|) - |d|)
  }

  function Data(a: Arg, o: Order): (r: seq<Byte>)
    ensures |r| % 4 == 0
  {
    match a
    case Word(_, bits) => Num(bits, 4, o)
    case Long(_, bits) => Num(bits, 8, o)
    case Text(_, s) => PadText(s)
    case Blob(data) => WholeSum(4, |PadData(data)|); Num(|data|, 4, o) + PadData(data)
    case Flag(_) => []
  }

  function DataOf(args: seq<Arg>, o: Order): (r: seq<Byte>)
    ensures |r| % 4 == 0
  {
    if args == [] then []
    else
      var d, rest := Data(args[0], o), DataOf(args[1..], o);
      WholeSum(|d|, |rest|);
      d + rest
  }

  lemma WholeSum(a: int, b: int)
    requires a % 4 == 0 && b % 4 == 0
    ensures (a + b) % 4 == 0
  {
  }

  function Codes(args: seq<Arg>): (r: seq<Byte>)
    ensures |r| == |args| && forall i :: 0 <= i < |args| ==> r[i] == Code(args[i]) != 0
  {
    seq(|args|, i requires 0 <= i < |args| => Code(args[i]))
  }

  const COMMA: Byte := 44

  /** Flags and TTL, timestamp. */
  const HEADER := 12

  function Header(misc: nat, time: nat, o: Order): (r: seq<Byte>)
    ensures |r| == HEADER
  {
    Num(misc, 4, o) + Num(time, 8, o)
  }

  function TypeBlock(args: seq<Arg>): (r: seq<Byte>)
    ensures |r| % 4 == 0 && |r| == RoundUp(|args| + 2)
  {
    PadText([COMMA] + Codes(args))
  }

  function Encode(misc: nat, time: nat, addr: seq<Byte>, args: seq<Arg>, o: Order): seq<Byte> {
    Header(misc, time, o) + (PadText(addr) + (TypeBlock(args) + DataOf(args, o)))
  }

  /** An untimed message to "/a" with the integer 258, the string "hi", the blob
      of one byte 9, and True, byte for byte. */
  lemma KnownMessage(o: Order)
    ensures var args := [Word(Int32, 258), Text(String, [104, 105]), Blob([9]), Flag(True)];
            var one, big := if o == Host then [1, 0, 0, 0] else [0, 0, 0, 1],
                            if o == Host then [2, 1, 0, 0] else [0, 0, 1, 2];
            var zero: seq<Byte> := [0, 0, 0, 0, 0, 0, 0, 0];
            Encode(1, 0, [47, 97], args, o) ==
              (one + zero) + ([47, 97, 0, 0] + ([44, 105, 115, 98, 84, 0, 0, 0] +
                (big + [104, 105, 0, 0] + (one + [9, 0, 0, 0]))))
  {
    KnownNumbers(o);
    KnownStrings();
    KnownData(o);
    hide DataOf, PadText, TypeBlock, Num;
  }

  lemma KnownNumbers(o: Order)
    ensures Num(1, 4, o) == if o == Host then [1, 0, 0, 0] else [0, 0, 0, 1]
    ensures Num(258, 4, o) == if o == Host then [2, 1, 0, 0] else [0, 0, 1, 2]
    ensures Num(0, 8, o) == [0, 0, 0, 0, 0, 0, 0, 0]
  {
    hide Le, Be;
    FourBytes(0, 0, 0, 1);
    FourBytes(0, 0, 1, 2);
    ZeroBytes(8);
    assert seq(8, _ => 0 as Byte) == [0, 0, 0, 0, 0, 0, 0, 0];
  }

  lemma KnownStrings()
    ensures PadText([47, 97]) == [47, 97, 0, 0]
    ensures TypeBlock([Word(Int32, 258), Text(String, [104, 105]), Blob([9]), Flag(True)])
         == [44, 105, 115, 98, 84, 0, 0, 0]
  {
    var args := [Word(Int32, 258), Text(String, [104, 105]), Blob([9]), Flag(True)];
    assert [COMMA] + Codes(args) == [44, 105, 115, 98, 84];
    assert PadText([44, 105, 115, 98, 84]) == [44, 105, 115, 98, 84, 0, 0, 0];
  }

  lemma KnownPadding()
    ensures PadText([104, 105]) == [104, 105, 0, 0] && PadData([9]) == [9, 0, 0, 0]
  {
  }

  lemma KnownData(o: Order)
    ensures DataOf([Word(Int32, 258), Text(String, [104, 105]), Blob([9]), Flag(True)], o)
         == Num(258, 4, o) + [104, 105, 0, 0] + (Num(1, 4, o) + [9, 0, 0, 0])
  {
    var w, t, b, f := Word(Int32, 258), Text(String, [104, 105]), Blob([9]), Flag(True);
    hide Num, DataOf, PadText, PadData;
    KnownPadding();
    assert Data(b, o) == Num(1, 4, o) + [9, 0, 0, 0] && Data(f, o) == [];
    DataOfOne(w, o);
    DataOfOne(t, o);
    DataOfOne(b, o);
    DataOfOne(f, o);
    hide Data;
    DataOfConcat([w], [t], o);
    DataOfConcat([w, t], [b], o);
    DataOfConcat([w, t, b], [f], o);
    assert [w] + [t] == [w, t] && [w, t] + [b] == [w, t, b] && [w, t, b] + [f] == [w, t, b, f];
  }

  /** Where the type string (its comma) and the data start. */
  function TypesAt(addr: seq<Byte>): (r: nat)
    ensures r % 4 == 0
  {
    HEADER + |PadText(addr)|
  }

  function DataAt(addr: seq<Byte>, args: seq<Arg>): (r: nat)
    ensures r % 4 == 0
  {
    TypesAt(addr) + |TypeBlock(args)|
  }

  // ---------------------------------------------------------------------
  // Finding the parts
  // ---------------------------------------------------------------------

  /** `part` is at position `at` of `b`. */
  ghost predicate IsAt(b: seq<Byte>, at: nat, part: seq<Byte>) {
    at + |part| <= |b| && b[at..at + |part|] == part
  }

  lemma PartsOf(misc: nat, time: nat, addr: seq<Byte>, args: seq<Arg>, o: Order)
    ensures var b := Encode(misc, time, addr, args, o);
            && IsAt(b, 0, Header(misc, time, o))
            && IsAt(b, HEADER, PadText(addr))
            && IsAt(b, TypesAt(addr), TypeBlock(args))
            && IsAt(b, DataAt(addr, args), DataOf(args, o))
            && |b| == DataAt(addr, args) + |DataOf(args, o)|
  {
    hide Header, PadText, TypeBlock, DataOf;
  }

  /** Parts of a part. */
  lemma IsAtParts(b: seq<Byte>, at: nat, x: seq<Byte>, y: seq<Byte>)
    requires IsAt(b, at, x + y)
    ensures IsAt(b, at, x) && IsAt(b, at + |x|, y)
  {
    assert b[at..at + |x|] == (x + y)[..|x|] == x;
    assert b[at + |x|..at + |x| + |y|] == (x + y)[|x|..] == y;
  }

  lemma IsAtIndex(b: seq<Byte>, at: nat, x: seq<Byte>, i: nat)
    requires IsAt(b, at, x) && i < |x|
    ensures b[at + i] == x[i]
  {
    assert b[at..at + |x|][i] == x[i];
  }

  lemma {:induction false} DataOfConcat(a: seq<Arg>, b: seq<Arg>, o: Order)
    ensures DataOf(a + b, o) == DataOf(a, o) + DataOf(b, o)
  {
    hide Data;
    if a == [] {
      assert a + b == b;
    } else {
      assert (a + b)[1..] == a[1..] + b;
      DataOfConcat(a[1..], b, o);
    }
  }

  /** The data of argument `k` is where the data of those before it ends. */
  lemma ArgDataAt(b: seq<Byte>, at: nat, args: seq<Arg>, k: nat, o: Order)
    requires IsAt(b, at, DataOf(args, o)) && k < |args|
    ensures IsAt(b, at + |DataOf(args[..k], o)|, Data(args[k], o))
    ensures |DataOf(args[..k + 1], o)| == |DataOf(args[..k], o)| + |Data(args[k], o)|
    ensures |DataOf(args[..k + 1], o)| <= |DataOf(args, o)|
  {
    hide Data;
    var before, after := args[..k], args[k..];
    assert args == before + after;
    DataOfConcat(before, after, o);
    IsAtParts(b, at, DataOf(before, o), DataOf(after, o));
    assert after[0] == args[k];
    IsAtParts(b, at + |DataOf(before, o)|, Data(args[k], o), DataOf(after[1..], o));
    assert args[..k + 1] == before + [args[k]];
    DataOfConcat(before, [args[k]], o);
    DataOfOne(args[k], o);
  }

  lemma DataOfOne(a: Arg, o: Order)
    ensures DataOf([a], o) == Data(a, o)
  {
    assert [a][1..] == [];
  }

  /** Both orders have the same layout. */
  lemma {:induction false} SameLayout(args: seq<Arg>)
    ensures |DataOf(args, Host)| == |DataOf(args, Network)|
  {
    if args != [] { SameLayout(args[1..]); }
  }

  // ---------------------------------------------------------------------
  // Scanning strings
  // ---------------------------------------------------------------------

  /** `strlen`: bytes up to the first zero; the end of the buffer ends a
      string too. */
  function StrLen(b: seq<Byte>, at: nat): (n: nat)
    ensures at <= |b| ==> at + n <= |b|
    decreases |b| - at
  {
    if at >= |b| || b[at] == 0 then 0 else 1 + StrLen(b, at + 1)
  }

  /** `o2_next_o2string`: past the first word that ends in a zero byte. */
  function NextString(b: seq<Byte>, at: nat): (n: nat)
    ensures n >= at + 4
    decreases |b| - at
  {
    if at + 3 >= |b| || b[at + 3] == 0 then at + 4 else NextString(b, at + 4)
  }

  lemma {:induction false} StrLenIs(b: seq<Byte>, at: nat, n: nat)
    requires at + n < |b| && b[at + n] == 0
    requires forall i :: at <= i < at + n ==> b[i] != 0
    ensures StrLen(b, at) == n
    decreases n
  {
    if n > 0 { StrLenIs(b, at + 1, n - 1); }
  }

  lemma {:induction false} NextStringIs(b: seq<Byte>, at: nat, end: nat)
    requires at + 4 <= end <= |b| && (end - at) % 4 == 0
    requires forall i :: at <= i < end - 4 ==> b[i] != 0
    requires b[end - 1] == 0
    ensures NextString(b, at) == end
    decreases end - at
  {
    if at + 4 < end {
      assert b[at + 3] != 0;
      NextStringIs(b, at + 4, end);
    }
  }

  /** Scanning a padded string finds its length and what follows it. */
  lemma ScanPadded(b: seq<Byte>, at: nat, s: seq<Byte>)
    requires IsAt(b, at, PadText(s)) && NoZero(s)
    ensures StrLen(b, at) == |s| && NextString(b, at) == at + |PadText(s)|
  {
    var p := PadText(s);
    forall i | 0 <= i < |p| ensures b[at + i] == p[i] { IsAtIndex(b, at, p, i); }
    assert forall i :: 0 <= i < |s| ==> p[i] == s[i];
    forall i | at <= i < at + |s| ensures b[i] != 0 { assert b[at + (i - at)] == p[i - at]; }
    StrLenIs(b, at, |s|);
    forall i | at <= i < at + |p| - 4 ensures b[i] != 0 { assert b[at + (i - at)] == p[i - at]; }
    assert b[at + (|p| - 1)] == 0;
    NextStringIs(b, at, at + |p|);
  }

  /** The codes of an encoded message, and the zero after them. */
  lemma TypeCodesAt(b: seq<Byte>, at: nat, args: seq<Arg>)
    requires IsAt(b, at, TypeBlock(args))
    ensures at + |args| + 2 <= |b|
    ensures b[at] == COMMA
    ensures forall k :: 0 <= k < |args| ==> b[at + 1 + k] == Code(args[k])
    ensures b[at + 1 + |args|] == 0
    ensures StrLen(b, at + 1) == |args| && NextString(b, at) == at + |TypeBlock(args)|
  {
    var p, t := TypeBlock(args), [COMMA] + Codes(args);
    hide PadText, TypeBlock;
    TypeBlockIs(args);
    forall i | 0 <= i < |p| ensures b[at + i] == p[i] { IsAtIndex(b, at, p, i); }
    forall k | 0 <= k < |args| ensures b[at + 1 + k] == Code(args[k]) {
      assert b[at + (1 + k)] == p[1 + k] == t[1 + k];
    }
    assert b[at + 0] == p[0] == t[0];
    assert b[at + (1 + |args|)] == 0;
    ScanPadded(b, at, t);
    forall i | at + 1 <= i < at + 1 + |args| ensures b[i] != 0 { assert b[at + 1 + (i - at - 1)] != 0; }
    StrLenIs(b, at + 1, |args|);
  }

  lemma TypeBlockIs(args: seq<Arg>)
    ensures var t := [COMMA] + Codes(args);
            && TypeBlock(args) == PadText(t) && NoZero(t) && |t| == |args| + 1
            && (forall i :: 0 <= i < |t| ==> TypeBlock(args)[i] == t[i])
            && TypeBlock(args)[|args| + 1] == 0
  {
  }
}
