/**
  Difficulty targets: how `getDap` reads the target of a period out of a serialized header, and how
  `isWithinLimits` compares two targets through a four-byte window.
 */
module BtcTarget {
  import opened Bytes
  import opened BtcSerialize

  /** Hexadecimal text, digit by digit. */
  type Hex = seq<nibble>

  function ToHex(bs: seq<byte>): (r: Hex)
    ensures |r| == 2 * |bs|
  {
    if bs == [] then [] else [bs[0] / 16, bs[0] % 16] + ToHex(bs[1..])
  }

  function FromHex(ds: Hex): (r: seq<byte>)
    ensures |r| == |ds| / 2
  {
    if |ds| < 2 then [] else [ds[0] as int * 16 + ds[1]] + FromHex(ds[2..])
  }

  lemma {:induction false} FromToHex(bs: seq<byte>)
    ensures FromHex(ToHex(bs)) == bs
  {
    if bs != [] {
      FromToHex(bs[1..]);
      assert ToHex(bs)[2..] == ToHex(bs[1..]);
    }
  }

  lemma {:induction false} ToHexSplit(a: seq<byte>, b: seq<byte>)
    ensures ToHex(a + b) == ToHex(a) + ToHex(b)
  {
    if a == [] {
      assert a + b == b;
    } else {
      ToHexSplit(a[1..], b);
      var pair: Hex := [a[0] / 16, a[0] % 16];
      assert (a + b)[1..] == a[1..] + b;
      assert ToHex(a + b) == pair + (ToHex(a[1..]) + ToHex(b));
    }
  }

  lemma FromHexStep(ds: Hex, hi: nibble, lo: nibble, rest: Hex)
    requires |ds| >= 2 && ds[0] == hi && ds[1] == lo && ds[2..] == rest
    ensures FromHex(ds) == [hi as int * 16 + lo] + FromHex(rest)
  {
  }

  lemma {:induction false} FromHexSplit(a: Hex, b: Hex)
    requires |a| % 2 == 0
    ensures FromHex(a + b) == FromHex(a) + FromHex(b)
  {
    if a == [] {
      assert a + b == b;
    } else {
      hide FromHex;
      FromHexSplit(a[2..], b);
      FromHexStep(a, a[0], a[1], a[2..]);
      FromHexStep(a + b, a[0], a[1], a[2..] + b);
    }
  }

  // ---------------------------------------------------------------- getDap

  /** The digit pairs in reverse order. */
  function PairsReversed(val: Hex): (r: Hex)
    requires |val| % 2 == 0
    ensures |r| == |val|
  {
    if val == [] then [] else PairsReversed(val[2..]) + val[..2]
  }

  method ReverseCopy(val: Hex) returns (result: Hex)
    requires |val| % 2 == 0
    ensures result == PairsReversed(val)
  {
    var i := |val|;
    result := [];
    while i > 0
      invariant 0 <= i <= |val| && i % 2 == 0
      invariant result == PairsReversed(val[i..])
    {
      i := i - 2;
      result := result + val[i..i + 2];
      assert val[i..][2..] == val[i + 2..];
    }
    assert val[0..] == val;
  }

  lemma {:induction false} PairsReversedIsReversed(bs: seq<byte>)
    ensures PairsReversed(ToHex(bs)) == ToHex(Reversed(bs))
  {
    if bs == [] {
    } else {
      PairsReversedIsReversed(bs[1..]);
      assert ToHex(bs)[2..] == ToHex(bs[1..]);
      assert Reversed(bs) == Reversed(bs[1..]) + [bs[0]];
      ToHexSplit(Reversed(bs[1..]), [bs[0]]);
      assert ToHex([bs[0]]) == ToHex(bs)[..2];
    }
  }

  function Zeros(n: nat): (r: Hex)
    ensures |r| == n
  {
    seq(n, _ => 0)
  }

  function PadEnd(s: Hex, n: nat): Hex
  {
    if |s| < n then s + Zeros(n - |s|) else s
  }

  function PadStart(s: Hex, n: nat): Hex
  {
    if |s| < n then Zeros(n - |s|) + s else s
  }

  /** The target of the eight digits of the bits field: a length and a six-digit coefficient. */
  function TargetOfBits(bits: Hex): Hex
    requires |bits| == 8
  {
    PadStart(PadEnd(bits[2..], 2 * (bits[0] as int * 16 + bits[1])), 64)
  }

  method GetDapTarget(header: seq<byte>) returns (target: Hex)
    requires |header| == 80
    ensures target == TargetOfBits(ToHex(Reversed(header[72..76])))
  {
    var blockheader := ToHex(header);
    var bits := ReverseCopy(blockheader[144..152]);
    target := TargetOfBits(bits);
    HexSlice(header, 72, 76);
    PairsReversedIsReversed(header[72..76]);
  }

  lemma HexSlice(bs: seq<byte>, from: nat, to: nat)
    requires from <= to <= |bs|
    ensures ToHex(bs)[2 * from..2 * to] == ToHex(bs[from..to])
  {
    var a, b, c := bs[..from], bs[from..to], bs[to..];
    ToHexSplit(a, b + c);
    ToHexSplit(b, c);
    CutTwice(bs, from, to);
    Middle(ToHex(bs), ToHex(a), ToHex(b), ToHex(c), 2 * from, 2 * to);
  }

  lemma CutTwice(bs: seq<byte>, from: nat, to: nat)
    requires from <= to <= |bs|
    ensures bs == bs[..from] + (bs[from..to] + bs[to..])
  {
  }

  lemma Middle(s: Hex, a: Hex, b: Hex, c: Hex, from: nat, to: nat)
    requires s == a + (b + c) && |a| == from <= to && |b| == to - from
    ensures s[from..to] == b
  {
  }

  /** The number hexadecimal text of even length spells. */
  function Number(s: Hex): nat
    requires |s| % 2 == 0
  {
    Value(FromHex(s))
  }

  lemma {:induction false} ZerosFromHex(n: nat)
    ensures |FromHex(Zeros(2 * n))| == n && Value(FromHex(Zeros(2 * n))) == 0
  {
    if n > 0 {
      ZerosFromHex(n - 1);
      assert Zeros(2 * n) == Zeros(2 * (n - 1)) + [0, 0];
      FromHexSplit(Zeros(2 * (n - 1)), [0, 0]);
      var fewer := FromHex(Zeros(2 * (n - 1)));
      assert FromHex([0, 0]) == [0];
      assert (fewer + [0])[..n - 1] == fewer;
    }
  }

  lemma PadEndScales(s: Hex, n: nat)
    requires |s| == 6
    ensures |PadEnd(s, 2 * n)| == (if n >= 3 then 2 * n else 6) && |PadEnd(s, 2 * n)| % 2 == 0
    ensures Number(PadEnd(s, 2 * n)) == Number(s) * Pow256(if n >= 3 then n - 3 else 0)
  {
    hide FromHex, Value;
    if n > 3 {
      FromHexSplit(s, Zeros(2 * (n - 3)));
      ZerosFromHex(n - 3);
      ValueSplit(FromHex(s), FromHex(Zeros(2 * (n - 3))));
    } else {
      assert Pow256(0) == 1;
    }
  }

  lemma PadStartKeeps(s: Hex, n: nat)
    requires |s| % 2 == 0
    ensures |PadStart(s, 2 * n)| == (if |s| < 2 * n then 2 * n else |s|) && |PadStart(s, 2 * n)| % 2 == 0
    ensures Number(PadStart(s, 2 * n)) == Number(s)
  {
    if |s| < 2 * n {
      var k := n - |s| / 2;
      assert PadStart(s, 2 * n) == Zeros(2 * k) + s;
      FromHexSplit(Zeros(2 * k), s);
      ZerosFromHex(k);
      ValueSplit(FromHex(Zeros(2 * k)), FromHex(s));
    }
  }

  /**
    "Target nBits" of the Bitcoin Developer Reference: a base-256 floating-point number whose mantissa has a sign in its
    top bit. A negative target is taken for zero.
   */
  function NBits(exponent: nat, mantissa: nat): nat
    requires mantissa < 0x1000000
  {
    if mantissa >= 0x800000 then 0
    else if exponent >= 3 then mantissa * Pow256(exponent - 3)
    else DropBytes(mantissa, 3 - exponent)
  }

  /** `n` without its last `k` bytes. */
  function DropBytes(n: nat, k: nat): (r: nat)
    ensures r <= n && (r == n <==> k == 0 || n == 0)
  {
    if k == 0 then n else DropBytes(n / 256, k - 1)
  }

  /**
    The target read back from a serialized header spells mantissa * 256^(exponent - 3), in 64 digits for exponents
    up to 32. It is the target of the standard for no negative mantissa, and below exponent 3, where the digits that
    should drop off stay, for mantissa 0 alone.
   */
  lemma TargetIsNBits(block: Header)
    requires block.Sized() && block.previous.Some?
    ensures IsTargetOf(TargetOfBits(ToHex(Reversed(Layout(block)[72..76]))), block.bits)
  {
    assert Reversed(Layout(block)[72..76]) == block.bits;
    TargetOfBitsIsNBits(block.bits);
  }

  ghost predicate IsTargetOf(target: Hex, bits: seq<byte>)
    requires |bits| == 4
  {
    var exponent: nat, mantissa: nat := bits[0], Value(bits[1..]);
    && |target| == (if exponent <= 32 then 64 else 2 * exponent)
    && Number(target) == mantissa * Pow256(if exponent >= 3 then exponent - 3 else 0)
    && mantissa < 0x1000000
    && (Number(target) == NBits(exponent, mantissa) <==> mantissa == 0 || (exponent >= 3 && mantissa < 0x800000))
  }

  lemma TargetOfBitsIsNBits(bits: seq<byte>)
    requires |bits| == 4
    ensures IsTargetOf(TargetOfBits(ToHex(bits)), bits)
  {
    hide PadEnd, PadStart, Number, ToHex, FromHex, Value;
    var coefficient, exponent: nat, mantissa: nat := ToHex(bits)[2..], bits[0], Value(bits[1..]);
    DigitsOfBits(bits);
    PadEndScales(coefficient, exponent);
    PadStartKeeps(PadEnd(coefficient, 2 * exponent), 32);
    ThreeByteValue(bits[1..]);
    NotZero(mantissa, Pow256(if exponent >= 3 then exponent - 3 else 0));
    assert Pow256(0) == 1;
  }

  lemma ThreeByteValue(bs: seq<byte>)
    requires |bs| == 3
    ensures Value(bs) == (bs[0] as int * 0x100 + bs[1]) * 0x100 + bs[2] < 0x1000000
  {
    assert bs[..2][..1] == bs[..1] && bs[..1][..0] == [];
    assert Value(bs[..1]) == bs[0];
    assert Value(bs[..2]) == bs[0] as int * 0x100 + bs[1];
  }

  lemma NotZero(m: nat, p: nat)
    requires p >= 1
    ensures m * p == 0 <==> m == 0
  {
  }

  /** The standard's own example of a negative target, 0x04923456, is read back as a positive one. */
  lemma NegativeTargetIsRead(bits: seq<byte>)
    requires bits == [0x04, 0x92, 0x34, 0x56]
    ensures Value(bits[1..]) == 0x923456 && NBits(4, 0x923456) == 0
    ensures IsTargetOf(TargetOfBits(ToHex(bits)), bits) && Number(TargetOfBits(ToHex(bits))) == 0x92345600
  {
    hide TargetOfBits, ToHex, FromHex, Number, DropBytes;
    TargetOfBitsIsNBits(bits);
    ThreeByteValue(bits[1..]);
    assert Pow256(0) == 1 && Pow256(1) == 256;
  }

  lemma DigitsOfBits(bits: seq<byte>)
    requires |bits| == 4
    ensures var digits := ToHex(bits);
            digits[0] as int * 16 + digits[1] == bits[0] && Number(digits[2..]) == Value(bits[1..])
  {
    FromToHex(bits[1..]);
    assert ToHex(bits)[2..] == ToHex(bits[1..]);
  }

  /** String comparison of two targets of 64 digits is comparison of the targets. */
  lemma {:induction false} StringOrderIsNumeric(a: Hex, b: Hex)
    requires |a| == |b| && |a| % 2 == 0
    ensures LexLess(a, b) <==> Number(a) < Number(b)
  {
    StringOrderIsByteOrder(a, b);
    LexIsNumeric(FromHex(a), FromHex(b));
  }

  lemma {:induction false} StringOrderIsByteOrder(a: Hex, b: Hex)
    requires |a| == |b| && |a| % 2 == 0
    ensures LexLess(a, b) <==> LexLess(FromHex(a), FromHex(b))
  {
    if a != [] {
      StringOrderIsByteOrder(a[2..], b[2..]);
      assert a[1..][1..] == a[2..] && b[1..][1..] == b[2..];
      assert FromHex(a)[1..] == FromHex(a[2..]) && FromHex(b)[1..] == FromHex(b[2..]);
    }
  }
}
