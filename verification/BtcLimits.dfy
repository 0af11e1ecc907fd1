/** How `isWithinLimits` compares two targets: a percentage added to a four-byte window of the first. */
module BtcLimits {
  import opened Bytes
  import opened BtcTarget

  /** The index of the last byte that is not zero; -1 if there is none. */
  function LastNonZero(bs: seq<byte>): (i: int)
    ensures -1 <= i < |bs|
  {
    if bs == [] then -1
    else if bs[|bs| - 1] != 0 then |bs| - 1
    else LastNonZero(bs[..|bs| - 1])
  }

  /** The window ends at the last byte that is not zero; it may start before the buffer. */
  function WindowStart(limit: seq<byte>): (s: int)
    requires |limit| == 32
    ensures -3 <= s <= 28
  {
    var i := LastNonZero(limit);
    if i < 0 then 28 else i - 3
  }

  /** The place value of the window's last byte. */
  function PlaceValue(limit: seq<byte>): nat
    requires |limit| == 32
  {
    Pow256(28 - WindowStart(limit))
  }

  function Raised(w: nat, maxDiff: int): int
  {
    w + maxDiff * w / 100
  }

  /** The number with upper part `q` and lower part `c`, cut at place `u`. */
  function Placed(q: nat, u: nat, c: nat): nat
  {
    q * u + c
  }

  /**
    In numbers: the window's value is raised by `maxDiff` percent, rounded down, and the resulting number is compared
    with the limit. `None` where reading or writing the window throws.
   */
  function WithinLimits(start: seq<byte>, limit: seq<byte>, maxDiff: int): Option<bool>
    requires |start| == |limit| == 32
  {
    var s := WindowStart(limit);
    if s < 0 then None
    else
      var w := Raised(Value(start[s..s + 4]), maxDiff);
      if w < 0 || w >= 0x100000000 then None
      else Some(Placed(Placed(Value(start[..s]), Pow256(4), w), PlaceValue(limit),
                       Value(start[s + 4..])) >= Value(limit))
  }

  method IsWithinLimits(start: Hex, dst: Hex, maxDiff: int) returns (r: Option<bool>)
    requires |start| == |dst| == 64
    ensures r == WithinLimits(FromHex(start), FromHex(dst), maxDiff)
  {
    hide FromHex, Value, LexLess;
    var limit := FromHex(dst);
    var value := ToArray(FromHex(start));
    var s := FindWindow(limit);
    if s < 0 {
      return None;
    }
    var fits := RaiseWindow(value, s, maxDiff);
    if !fits {
      return None;
    }
    var less := Compare(value[..], limit);
    LexIsNumeric(value[..], limit);
    return Some(!less);
  }

  method ToArray(bytes: seq<byte>) returns (a: array<byte>)
    ensures fresh(a) && a[..] == bytes
  {
    a := new byte[|bytes|](_ => 0);
    for i := 0 to |bytes|
      invariant a[..i] == bytes[..i]
    {
      a[i] := bytes[i];
    }
  }

  /** Not `fits` where the raised window is no 32-bit number. */
  method RaiseWindow(value: array<byte>, s: nat, maxDiff: int) returns (fits: bool)
    requires value.Length == 32 && s <= 28
    modifies value
    ensures var w := Raised(Value(old(value[s..s + 4])), maxDiff);
            && (fits <==> 0 <= w < 0x100000000)
            && (fits ==> Value(value[..]) == Placed(Placed(Value(old(value[..s])), Pow256(4), w),
                                                    Pow256(28 - s), Value(old(value[s + 4..]))))
  {
    var val := ReadUInt32BE(value, s);
    val := val + maxDiff * val / 100;
    if val < 0 || val >= 0x100000000 {
      return false;
    }
    ghost var before := value[..];
    WriteUInt32BE(value, val, s);
    WindowValue(before, value[..], s, val);
    return true;
  }

  method FindWindow(limit: seq<byte>) returns (s: int)
    requires |limit| == 32
    ensures s == WindowStart(limit)
  {
    s := 28;
    var i := 31;
    assert limit[..32] == limit;
    while i >= 0
      invariant -1 <= i < 32
      invariant LastNonZero(limit) == LastNonZero(limit[..i + 1])
    {
      if limit[i] != 0 {
        s := i - 3;
        return;
      }
      assert limit[..i + 1][..i] == limit[..i];
      i := i - 1;
    }
  }

  method ReadUInt32BE(buf: array<byte>, at: nat) returns (val: int)
    requires at + 4 <= buf.Length
    ensures val == Value(buf[at..at + 4])
  {
    val := 0;
    for i := 0 to 4
      invariant val == Value(buf[at..at + i])
    {
      val := val * 0x100 + buf[at + i];
      assert buf[at..at + i + 1][..i] == buf[at..at + i];
    }
  }

  method WriteUInt32BE(buf: array<byte>, val: nat, at: nat)
    requires at + 4 <= buf.Length && val < 0x100000000
    modifies buf
    ensures Value(buf[at..at + 4]) == val
    ensures buf[..at] == old(buf[..at]) && buf[at + 4..] == old(buf[at + 4..])
  {
    var q1 := val / 0x100;
    var q2 := q1 / 0x100;
    buf[at], buf[at + 1], buf[at + 2], buf[at + 3] := q2 / 0x100, q2 % 0x100, q1 % 0x100, val % 0x100;
    FourByteValue(buf[at..at + 4]);
  }

  lemma FourByteValue(bs: seq<byte>)
    requires |bs| == 4
    ensures Value(bs) == ((bs[0] as int * 0x100 + bs[1]) * 0x100 + bs[2]) * 0x100 + bs[3]
  {
    assert bs[..3][..2] == bs[..2] && bs[..2][..1] == bs[..1] && bs[..1][..0] == [];
    assert Value(bs[..1]) == bs[0];
    assert Value(bs[..2]) == Value(bs[..1]) * 0x100 + bs[1];
    assert Value(bs[..3]) == Value(bs[..2]) * 0x100 + bs[2];
  }

  /** The order of two buffers of one length: the first difference decides. */
  method Compare(a: seq<byte>, b: seq<byte>) returns (less: bool)
    requires |a| == |b|
    ensures less == LexLess(a, b)
  {
    var i := 0;
    while i < |a| && a[i] == b[i]
      invariant i <= |a| && LexLess(a, b) == LexLess(a[i..], b[i..])
    {
      i := i + 1;
    }
    less := i < |a| && a[i] < b[i];
  }

  lemma WindowValue(before: seq<byte>, after: seq<byte>, s: nat, w: nat)
    requires |before| == |after| == 32 && s <= 28
    requires after[..s] == before[..s] && after[s + 4..] == before[s + 4..] && Value(after[s..s + 4]) == w
    ensures Value(after) == Placed(Placed(Value(before[..s]), Pow256(4), w), Pow256(28 - s), Value(before[s + 4..]))
  {
    hide Value, Pow256;
    CutAt(after, s + 4);
    CutAt(after[..s + 4], s);
    assert after[..s + 4][..s] == after[..s];
    ValueSplit(after[..s + 4], after[s + 4..]);
    ValueSplit(after[..s], after[s..s + 4]);
  }

  // ---------------------------------------------------------------- targets in compact form

  lemma {:induction false} NothingAfterLast(bs: seq<byte>)
    ensures Value(bs) == Value(bs[..LastNonZero(bs) + 1]) * Pow256(|bs| - 1 - LastNonZero(bs))
  {
    if bs != [] && bs[|bs| - 1] == 0 {
      var front := bs[..|bs| - 1];
      var i := LastNonZero(bs);
      NothingAfterLast(front);
      assert front[..i + 1] == bs[..i + 1];
      assert Value(bs) == Value(front) * 256;
      assert Pow256(|bs| - 1 - i) == 256 * Pow256(|front| - 1 - i);
      hide Value, Pow256, LastNonZero;
      Regroup(Value(bs[..i + 1]), Pow256(|front| - 1 - i));
    } else {
      assert bs[..|bs|] == bs;
      assert Pow256(0) == 1;
    }
  }

  /** A non-zero number with at most three significant bytes, the last of them not among the first three. */
  ghost predicate Compact(bs: seq<byte>)
  {
    |bs| == 32 && LastNonZero(bs) >= 3 && Value(bs[..LastNonZero(bs) + 1]) < 0x1000000
  }

  lemma DivisionIsUnique(n: nat, u: nat, q: nat, c: nat)
    requires c < u && n == Placed(q, u, c)
    ensures n / u == q
  {
    var q', c' := n / u, n % u;
    assert n == q' * u + c';
    if q' < q {
      LeadingDigitDecides(q', q, u, c', c);
    } else if q < q' {
      LeadingDigitDecides(q, q', u, c, c');
    }
  }

  lemma PercentOfWindow(w: nat, d: nat, maxDiff: nat)
    requires w < 0x1000000 && maxDiff <= 25500
    ensures 0 <= Raised(w, maxDiff) < 0x100000000
    ensures Raised(w, maxDiff) >= d <==> (100 + maxDiff) * w >= 100 * d
  {
    var m := maxDiff * w;
    assert m <= 25500 * 0xFFFFFF by {
      assert maxDiff * w <= 25500 * w;
    }
    assert (100 + maxDiff) * w == 100 * w + m;
  }

  /**
    For compact targets, `start` no greater than `dst`, and up to 25500 percent: the window never overflows, and the
    answer is true exactly when `start`, cut off at the place of dst's last byte and raised by maxDiff percent,
    reaches `dst`. So it is never true when `dst` exceeds `start` by more than maxDiff percent.
   */
  lemma CompactTargets(start: seq<byte>, dst: seq<byte>, maxDiff: nat)
    requires |start| == 32 && Compact(dst) && Value(start) <= Value(dst) && maxDiff <= 25500
    ensures var u := PlaceValue(dst); var r := WithinLimits(start, dst, maxDiff);
            && r == Some((100 + maxDiff) * (Value(start) / u) >= 100 * (Value(dst) / u))
            && (r.value ==> 100 * Value(dst) <= (100 + maxDiff) * Value(start))
  {
    var s, u := WindowStart(dst), PlaceValue(dst);
    var d, w, c := Value(dst[..s + 4]), Value(start[s..s + 4]), Value(start[s + 4..]);
    AtPlace(start, dst);
    PercentOfWindow(w, d, maxDiff);
    assert Placed(0, Pow256(4), Raised(w, maxDiff)) == Raised(w, maxDiff);
    ComparedAtPlace(Raised(w, maxDiff), c, d, u);
    if Raised(w, maxDiff) >= d {
      ScaledUp(maxDiff, w, c, d, u);
    }
  }

  /** `start` and `dst` cut at the place of dst's last byte. */
  lemma AtPlace(start: seq<byte>, dst: seq<byte>)
    requires |start| == 32 && Compact(dst) && Value(start) <= Value(dst)
    ensures var s, u := WindowStart(dst), PlaceValue(dst);
            var d, w, c := Value(dst[..s + 4]), Value(start[s..s + 4]), Value(start[s + 4..]);
            && s >= 0 && c < u && w < 0x1000000 && Value(start[..s]) == 0
            && Value(dst) == d * u && Value(dst) / u == d
            && Value(start) == Placed(w, u, c) && Value(start) / u == w
  {
    var s, u := WindowStart(dst), PlaceValue(dst);
    var d, w, c := Value(dst[..s + 4]), Value(start[s..s + 4]), Value(start[s + 4..]);
    DstAtPlace(dst);
    StartAtPlace(start, s);
    SmallWindow(Value(start[..s]), w, c, d, u);
    DivisionIsUnique(Value(start), u, w, c);
  }

  lemma DstAtPlace(dst: seq<byte>)
    requires Compact(dst)
    ensures var s, u := WindowStart(dst), PlaceValue(dst);
            s >= 0 && Value(dst) == Value(dst[..s + 4]) * u && Value(dst) / u == Value(dst[..s + 4])
  {
    NothingAfterLast(dst);
    DivisionIsUnique(Value(dst), PlaceValue(dst), Value(dst[..WindowStart(dst) + 4]), 0);
  }

  lemma StartAtPlace(start: seq<byte>, s: nat)
    requires |start| == 32 && s <= 28
    ensures var u, c := Pow256(28 - s), Value(start[s + 4..]);
            c < u && Value(start) == Placed(Placed(Value(start[..s]), Pow256(4), Value(start[s..s + 4])), u, c)
  {
    WindowValue(start, start, s, Value(start[s..s + 4]));
    ValueBound(start[s + 4..]);
  }

  lemma SmallWindow(a: nat, w: nat, c: nat, d: nat, u: nat)
    requires c < u && Placed(Placed(a, Pow256(4), w), u, c) <= d * u && d < 0x1000000
    ensures a == 0 && w < 0x1000000 && Placed(a, Pow256(4), w) == w
  {
    var q := Placed(a, Pow256(4), w);
    if q > d {
      LeadingDigitDecides(d, q, u, 0, c);
    }
    assert Pow256(1) == 0x100 && Pow256(2) == 0x10000 && Pow256(3) == 0x1000000 && Pow256(4) == 0x100000000;
  }

  lemma ComparedAtPlace(w: nat, c: nat, d: nat, u: nat)
    requires c < u
    ensures Placed(w, u, c) >= d * u <==> w >= d
  {
    if w < d {
      LeadingDigitDecides(w, d, u, c, 0);
    } else if w > d {
      LeadingDigitDecides(d, w, u, 0, c);
    }
  }

  lemma ScaledUp(maxDiff: nat, w: nat, c: nat, d: nat, u: nat)
    requires (100 + maxDiff) * w >= 100 * d
    ensures 100 * (d * u) <= (100 + maxDiff) * Placed(w, u, c)
  {
    var p := 100 + maxDiff;
    calc {
      100 * (d * u);
      (100 * d) * u;
      <= { Monotone(100 * d, p * w, u); }
      (p * w) * u;
      p * (w * u);
      <= { Monotone(w * u, w * u + c, p); }
      p * (w * u + c);
    }
  }

  lemma {:induction false} Monotone(x: nat, y: nat, u: nat)
    requires x <= y
    ensures x * u <= y * u && u * x <= u * y
  {
    assert (y - x) * u >= 0;
    assert y * u == x * u + (y - x) * u;
  }

  /** Every target of a header whose bits have exponent 3 to 29 and a non-zero coefficient is compact. */
  lemma HeaderTargetsAreCompact(bs: seq<byte>, mantissa: nat, e: nat)
    requires |bs| == 32 && 0 < mantissa < 0x1000000 && e <= 26
    requires Value(bs) == mantissa * Pow256(e)
    ensures Compact(bs)
  {
    var head, tail := bs[..32 - e], bs[32 - e..];
    CutAt(bs, 32 - e);
    ValueSplit(head, tail);
    ValueBound(tail);
    DivisionIsUnique(Value(bs), Pow256(e), mantissa, 0);
    DivisionIsUnique(Value(bs), Pow256(e), Value(head), Value(tail));
    LastBeforeZeros(head, tail);
    SignificantBytes(head, mantissa);
    assert head[..LastNonZero(head) + 1] == bs[..LastNonZero(bs) + 1];
  }

  lemma SignificantBytes(head: seq<byte>, mantissa: nat)
    requires Value(head) == mantissa && 0 < mantissa < 0x1000000
    ensures var i := LastNonZero(head); |head| - 3 <= i && Value(head[..i + 1]) <= mantissa
  {
    var i := LastNonZero(head);
    NothingAfterLast(head);
    var d, p := Value(head[..i + 1]), Pow256(|head| - 1 - i);
    assert d > 0;
    Monotone(1, d, p);
    Monotone(1, p, d);
    assert Pow256(1) == 0x100 && Pow256(2) == 0x10000 && Pow256(3) == 0x1000000;
    if |head| - 1 - i >= 3 {
      PowAdd(3, |head| - 1 - i - 3);
    }
  }

  lemma {:induction false} LastBeforeZeros(head: seq<byte>, tail: seq<byte>)
    requires Value(tail) == 0
    ensures LastNonZero(head + tail) == LastNonZero(head)
  {
    if tail == [] {
      assert head + tail == head;
    } else {
      var front := tail[..|tail| - 1];
      LastBeforeZeros(head, front);
      assert (head + tail)[..|head + tail| - 1] == head + front;
    }
  }
}
