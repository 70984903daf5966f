/** Bytes and fixed-width unsigned numbers. */
module Bytes {

  type Byte = b: int | 0 <= b < 256

  function Reverse(s: seq<Byte>): (r: seq<Byte>)
    ensures |r| == |s|
  {
    if s == [] then [] else Reverse(s[1..]) + [s[0]]
  }

  /** `n` in `width` bytes, least significant first. */
  function Le(n: nat, width: nat): (r: seq<Byte>)
    ensures |r| == width
    decreases width, n
  {
    if width == 0 then [] else [(n % 256) as Byte] + Le(n / 256, width - 1)
  }

  /** `n` in `width` bytes, most significant first. */
  function Be(n: nat, width: nat): (r: seq<Byte>)
    ensures |r| == width
  {
    Reverse(Le(n, width))
  }

  function FromLe(s: seq<Byte>): nat {
    if s == [] then 0 else s[0] as nat + 256 * FromLe(s[1..])
  }

  function FromBe(s: seq<Byte>): nat {
    FromLe(Reverse(s))
  }

  /** 256 to the power `width`. */
  function Limit(width: nat): (p: nat)
    ensures p > 0
  {
    if width == 0 then 1 else 256 * Limit(width - 1)
  }

  lemma LimitValues()
    ensures Limit(4) == 0x1_0000_0000
  {
    assert Limit(4) == 256 * Limit(3) == 65536 * Limit(2) == 16777216 * Limit(1);
  }

  lemma {:induction false} ReverseConcat(a: seq<Byte>, b: seq<Byte>)
    ensures Reverse(a + b) == Reverse(b) + Reverse(a)
  {
    if a == [] {
      assert a + b == b;
      assert Reverse(b) + [] == Reverse(b);
    } else {
      assert (a + b)[1..] == a[1..] + b;
      ReverseConcat(a[1..], b);
    }
  }

  lemma {:induction false} ReverseTwice(s: seq<Byte>)
    ensures Reverse(Reverse(s)) == s
  {
    if s != [] {
      ReverseConcat(Reverse(s[1..]), [s[0]]);
      assert Reverse([s[0]]) == [s[0]];
      ReverseTwice(s[1..]);
      assert s == [s[0]] + s[1..];
    }
  }

  lemma {:induction false} LeRoundTrip(n: nat, width: nat)
    requires n < Limit(width)
    ensures FromLe(Le(n, width)) == n
    decreases width
  {
    if width > 0 {
      LeRoundTrip(n / 256, width - 1);
      assert Le(n, width)[1..] == Le(n / 256, width - 1);
    }
  }

  lemma {:induction false} FromLeRoundTrip(s: seq<Byte>)
    ensures FromLe(s) < Limit(|s|) && Le(FromLe(s), |s|) == s
  {
    if s != [] {
      FromLeRoundTrip(s[1..]);
      assert s == [s[0]] + s[1..];
    }
  }

  lemma BeRoundTrip(n: nat, width: nat)
    requires n < Limit(width)
    ensures FromBe(Be(n, width)) == n
  {
    ReverseTwice(Le(n, width));
    LeRoundTrip(n, width);
  }

  lemma FromBeRoundTrip(s: seq<Byte>)
    ensures FromBe(s) < Limit(|s|) && Be(FromBe(s), |s|) == s
  {
    FromLeRoundTrip(Reverse(s));
    ReverseTwice(s);
  }

  /** The same number in the other byte order. */
  lemma SwapsOrder(n: nat, width: nat)
    ensures Reverse(Le(n, width)) == Be(n, width) && Reverse(Be(n, width)) == Le(n, width)
  {
    ReverseTwice(Le(n, width));
  }

  lemma {:induction false} ReverseAt(s: seq<Byte>, k: nat)
    requires k < |s|
    ensures Reverse(s)[k] == s[|s| - 1 - k]
  {
    if k < |s| - 1 { ReverseAt(s[1..], k); }
  }

  lemma LeNext(x: Byte, n: nat, width: nat)
    ensures Le(x + 256 * n, width + 1) == [x] + Le(n, width)
  {
    LowByte(x, n);
  }

  lemma LowByte(x: Byte, n: nat)
    ensures (x + 256 * n) % 256 == x && (x + 256 * n) / 256 == n
  {
  }

  lemma LeZero()
    ensures forall n :: Le(n, 0) == []
  {
  }

  /** Four bytes and their number, most significant first or last. */
  lemma FourBytes(a: Byte, b: Byte, c: Byte, d: Byte)
    ensures var n := d + 256 * (c + 256 * (b + 256 * a));
            Be(n, 4) == [a, b, c, d] && Le(n, 4) == [d, c, b, a]
  {
    hide Le;
    LeZero();
    LeNext(a, 0, 0);
    LeNext(b, a, 1);
    LeNext(c, b + 256 * a, 2);
    LeNext(d, c + 256 * (b + 256 * a), 3);
    var n := d + 256 * (c + 256 * (b + 256 * a));
    var s := [d, c, b, a];
    assert Le(n, 4) == s;
    forall j | 0 <= j < 4 ensures Reverse(s)[j] == s[3 - j] { ReverseAt(s, j); }
    hide Reverse;
    assert Reverse(s) == [a, b, c, d];
  }

  lemma {:induction false} ZeroBytes(width: nat)
    ensures Le(0, width) == seq(width, _ => 0) && Be(0, width) == seq(width, _ => 0)
  {
    if width > 0 {
      ZeroBytes(width - 1);
      assert Le(0, width) == [0] + Le(0, width - 1);
      assert Reverse([0] + Le(0, width - 1)) == Reverse(Le(0, width - 1)) + [0] by {
        assert ([0] + Le(0, width - 1))[1..] == Le(0, width - 1);
      }
    }
  }
}
