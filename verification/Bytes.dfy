/** Bytes, optional values and big-endian numbers, shared by every component. */
module Bytes {

  type byte = b: int | 0 <= b < 256

  type nibble = d: int | 0 <= d < 16

  datatype Option<+T> = None | Some(value: T)

  function Pow256(n: nat): (p: nat)
    ensures p >= 1
  {
    if n == 0 then 1 else 256 * Pow256(n - 1)
  }

  /** The number a byte string spells when read big-endian. */
  function Value(bs: seq<byte>): nat
  {
    if bs == [] then 0 else Value(bs[..|bs| - 1]) * 256 + bs[|bs| - 1]
  }

  lemma {:induction false} ValueBound(bs: seq<byte>)
    ensures Value(bs) < Pow256(|bs|)
  {
    if bs != [] {
      ValueBound(bs[..|bs| - 1]);
    }
  }

  lemma Regroup(x: nat, p: nat)
    ensures x * p * 256 == x * (256 * p)
  {
  }

  lemma Spread(x: nat, y: nat)
    ensures (x + y) * 256 == x * 256 + y * 256
  {
  }

  lemma QuotientIs(a: nat, d: nat, q: nat, r: nat)
    requires a == q * d + r && r < d
    ensures a / d == q && a % d == r
  {
    var k := a / d - q;
    assert a == (a / d) * d + a % d;
    assert k * d == r - a % d;
    assert k >= 1 ==> k * d >= d;
    assert k <= -1 ==> k * d + d <= 0;
  }

  lemma {:induction false} ValueSplit(a: seq<byte>, b: seq<byte>)
    ensures Value(a + b) == Value(a) * Pow256(|b|) + Value(b)
  {
    if b == [] {
      assert a + b == a;
    } else {
      var m := |b| - 1;
      ValueSplit(a, b[..m]);
      assert (a + b)[..|a + b| - 1] == a + b[..m];
      calc {
        Value(a + b);
        (Value(a) * Pow256(m) + Value(b[..m])) * 256 + b[m];
        { Spread(Value(a) * Pow256(m), Value(b[..m])); }
        Value(a) * Pow256(m) * 256 + Value(b);
        { Regroup(Value(a), Pow256(m)); }
        Value(a) * Pow256(|b|) + Value(b);
      }
    }
  }

  lemma {:induction false} PowAdd(m: nat, n: nat)
    ensures Pow256(m + n) == Pow256(m) * Pow256(n)
  {
    if m != 0 {
      PowAdd(m - 1, n);
      calc {
        Pow256(m + n);
        256 * (Pow256(m - 1) * Pow256(n));
        (256 * Pow256(m - 1)) * Pow256(n);
      }
    }
  }

  /** The bytes of a number's even-padded hexadecimal text: its base-256 digits. */
  function MinBytes(n: nat): (r: seq<byte>)
    ensures Value(r) == n && |r| >= 1
    ensures n >= 0x1000000 ==> |r| >= 4
    ensures r[0] == 0 ==> n == 0
  {
    var r := if n < 0x100 then [n] else MinBytes(n / 0x100) + [n % 0x100];
    assert n >= 0x100 ==> r[..|r| - 1] == MinBytes(n / 0x100);
    assert n < 0x100 ==> r[..0] == [];
    assert Value(r) == n;
    ValueBound(r);
    assert |r| < 4 ==> Pow256(|r|) <= 0x1000000 by {
      assert Pow256(0) == 1 && Pow256(1) == 0x100 && Pow256(2) == 0x10000 && Pow256(3) == 0x1000000;
    }
    r
  }

  lemma {:induction false} MinBytesLength(n: nat, k: nat)
    ensures n < Pow256(k) && k > 0 ==> |MinBytes(n)| <= k
    decreases k
  {
    if k > 1 && n >= 0x100 {
      MinBytesLength(n / 0x100, k - 1);
    }
  }

  lemma CutAt(bs: seq<byte>, k: nat)
    requires k <= |bs|
    ensures bs == bs[..k] + bs[k..]
  {
  }

  /** The ordering of `Buffer.compare` and of `>` on strings: the first difference decides, then the length. */
  predicate LexLess(a: seq<int>, b: seq<int>)
  {
    if b == [] then false
    else if a == [] then true
    else if a[0] != b[0] then a[0] < b[0]
    else LexLess(a[1..], b[1..])
  }

  lemma {:induction false} LeadingDigitDecides(x: nat, y: nat, p: nat, u: nat, v: nat)
    requires x < y && u < p
    ensures x * p + u < y * p + v
    decreases y
  {
    assert y * p == (y - 1) * p + p;
    if x < y - 1 {
      LeadingDigitDecides(x, y - 1, p, u, 0);
    }
  }

  lemma ValueHead(a: seq<byte>)
    requires a != []
    ensures Value(a) == a[0] * Pow256(|a| - 1) + Value(a[1..])
  {
    assert [a[0]] + a[1..] == a;
    OneByteValue(a[0]);
    hide Value;
    ValueSplit([a[0]], a[1..]);
  }

  lemma OneByteValue(b: byte)
    ensures Value([b]) == b
  {
    assert [b][..0] == [];
  }

  /** On byte strings of one length the byte-wise order is the order of the numbers they spell. */
  lemma {:induction false} LexIsNumeric(a: seq<byte>, b: seq<byte>)
    requires |a| == |b|
    ensures LexLess(a, b) <==> Value(a) < Value(b)
  {
    if a != [] {
      var p := Pow256(|a| - 1);
      ValueHead(a);
      ValueHead(b);
      ValueBound(a[1..]);
      ValueBound(b[1..]);
      if a[0] < b[0] {
        LeadingDigitDecides(a[0], b[0], p, Value(a[1..]), Value(b[1..]));
      } else if a[0] > b[0] {
        LeadingDigitDecides(b[0], a[0], p, Value(b[1..]), Value(a[1..]));
      } else {
        LexIsNumeric(a[1..], b[1..]);
      }
    }
  }
}
