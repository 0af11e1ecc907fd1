/** What the strings of a tree mean: hexadecimal text as a number, script strings as Unicode characters. */
module BinJsonText {
  import opened Bytes
  import opened BinJson

  // ---------------------------------------------------------------- hexadecimal text

  /** The digits are those of the usual tables, in either case. */
  lemma HexDigitIs(u: unit, d: nibble)
    ensures HexDigit(u) == Some(d)
            <==> u == "0123456789abcdef"[d] as int || u == "0123456789ABCDEF"[d] as int
  {
    var lower, upper := "0123456789abcdef"[d] as int, "0123456789ABCDEF"[d] as int;
    assert lower == if d < 10 then 48 + d else 87 + d;
    assert upper == if d < 10 then 48 + d else 55 + d;
  }

  lemma {:induction false} BigEndianIsUnique(bs: seq<byte>)
    ensures BigEndian(Value(bs), |bs|) == bs
  {
    if bs != [] {
      BigEndianIsUnique(bs[..|bs| - 1]);
      assert Value(bs) / 256 == Value(bs[..|bs| - 1]) && Value(bs) % 256 == bs[|bs| - 1];
    }
  }

  lemma {:induction false} BigEndianSpells(n: nat, len: nat)
    requires n < Pow256(len)
    ensures |BigEndian(n, len)| == len && Value(BigEndian(n, len)) == n
  {
    if len > 0 {
      BigEndianSpells(n / 256, len - 1);
      var front := BigEndian(n / 256, len - 1);
      assert (front + [n % 256])[..len - 1] == front;
    }
  }

  function DigitOf(u: unit): nat
  {
    if HexDigit(u).Some? then HexDigit(u).value else 0
  }

  lemma {:induction false} HexNumberSplit(a: Text, b: Text)
    requires |b| % 2 == 0
    ensures HexNumber(a + b) == HexNumber(a) * Pow256(|b| / 2) + HexNumber(b)
    decreases |b|
  {
    if b == [] {
      assert a + b == a;
    } else {
      var c, m := a + b, |b| - 2;
      HexNumberSplit(a, b[..m]);
      assert c[..|c| - 2] == a + b[..m] && c[|c| - 2] == b[m] && c[|c| - 1] == b[m + 1];
      SplitStep(a, b, c, Pow256(m / 2));
    }
  }

  lemma SplitStep(a: Text, b: Text, c: Text, p: nat)
    requires |b| >= 2 && |c| >= 2 && c[|c| - 2] == b[|b| - 2] && c[|c| - 1] == b[|b| - 1]
    requires HexNumber(c[..|c| - 2]) == HexNumber(a) * p + HexNumber(b[..|b| - 2])
    ensures HexNumber(c) == HexNumber(a) * (256 * p) + HexNumber(b)
  {
    hide HexNumber, DigitOf;
    LastTwo(b);
    LastTwo(c);
    Spread(HexNumber(a) * p, HexNumber(b[..|b| - 2]));
    Regroup(HexNumber(a), p);
  }

  lemma LastTwo(b: Text)
    requires |b| >= 2
    ensures HexNumber(b) == HexNumber(b[..|b| - 2]) * 256 + DigitOf(b[|b| - 2]) * 16 + DigitOf(b[|b| - 1])
  {
    var c := b[..|b| - 1];
    assert c[..|c| - 1] == b[..|b| - 2];
  }

  lemma {:induction false} PairsAreEven(t: Text)
    ensures |Pairs(t)| % 2 == 0 && Pairs(t) <= t
  {
    if |t| >= 2 {
      PairsAreEven(t[2..]);
      assert t == t[..2] + t[2..];
    }
  }

  /** Pairs of digits become bytes one by one. */
  lemma {:induction false} FromHexSpells(t: Text)
    ensures |FromHex(t)| == |Pairs(t)| / 2 && Value(FromHex(t)) == HexNumber(Pairs(t))
  {
    if |t| >= 2 && HexDigit(t[0]).Some? && HexDigit(t[1]).Some? {
      var bs, rest := FromHex(t), Pairs(t[2..]);
      FromHexSpells(t[2..]);
      PairsAreEven(t[2..]);
      HexNumberSplit(t[..2], rest);
      LastTwo(t[..2]);
      assert t[..2][..0] == [];
      assert bs[1..] == FromHex(t[2..]);
      ValueHead(bs);
    }
  }

  lemma {:induction false} LeadingZero(t: Text)
    ensures HexNumber([48] + t) == HexNumber(t)
  {
    if t == [] {
      assert [48] + t == [48] && [48][..0] == [];
    } else {
      LeadingZero(t[..|t| - 1]);
      assert ([48] + t)[..|t|] == [48] + t[..|t| - 1];
    }
  }

  /** The zero in front of an odd number of characters only completes the first pair. */
  lemma EvenPairs(t: Text)
    ensures |Pairs(Even(t))| == (|Digits(t)| + 1) / 2 * 2 && HexNumber(Pairs(Even(t))) == HexNumber(Digits(t))
  {
    hide HexNumber, Pairs;
    PairsAreEven(t);
    if |t| % 2 == 1 {
      OddPairs(t);
      PairsAreEven(t[1..]);
      LeadingZero(Digits(t));
    }
  }

  lemma OddPairs(t: Text)
    requires |t| % 2 == 1
    ensures Pairs([48] + t) == if HexDigit(t[0]).Some? then [48] + (t[..1] + Pairs(t[1..])) else []
  {
    hide Pairs, HexDigit;
    var zero: unit := 48;
    var e := [zero] + t;
    assert e[0] == zero && e[1] == t[0] && e[2..] == t[1..];
    ZeroIsDigit();
    PairsStep(e);
    assert e[..2] + Pairs(t[1..]) == [zero] + (t[..1] + Pairs(t[1..]));
  }

  lemma ZeroIsDigit()
    ensures HexDigit(48) == Some(0)
  {
  }

  lemma PairsStep(t: Text)
    requires |t| >= 2
    ensures Pairs(t) == if HexDigit(t[0]).Some? && HexDigit(t[1]).Some? then t[..2] + Pairs(t[2..]) else []
  {
  }

  /**
    The bytes printed for hexadecimal text spell the number of its digits, which take half as many bytes, rounded up:
    an odd digit stands in the first byte alone.
   */
  lemma HexDataSpells(s: Text)
    requires IsHex(s)
    ensures HexData(s) == HexBytes(s[2..])
    ensures |HexData(s)| == (|Digits(s[2..])| + 1) / 2 && Value(HexData(s)) == HexNumber(Digits(s[2..]))
  {
    hide Even, Digits, Pairs, FromHex, HexNumber, Value;
    FromHexSpells(Even(s[2..]));
    EvenPairs(s[2..]);
    BigEndianIsUnique(HexData(s));
  }

  ghost predicate AllDigits(t: Text)
  {
    forall i :: 0 <= i < |t| ==> HexDigit(t[i]).Some?
  }

  /** Where all characters are digits, all of them count. */
  lemma {:induction false} AllPairs(t: Text)
    requires AllDigits(t) && |t| % 2 == 0
    ensures Pairs(t) == t
  {
    if t != [] {
      AllPairs(t[2..]);
      assert t == t[..2] + t[2..];
    }
  }

  lemma AllCount(t: Text)
    requires AllDigits(t)
    ensures Digits(t) == t
  {
    if |t| % 2 == 0 {
      AllPairs(t);
    } else {
      AllPairs(t[1..]);
      assert t == t[..1] + t[1..];
    }
  }

  // ---------------------------------------------------------------- characters

  lemma TwoBytes(c: nat, bs: seq<byte>)
    requires 0x80 <= c < 0x800 && |bs| >= 2 && bs[0] == 0xC0 + c / 0x40 && bs[1] == 0x80 + c % 0x40
    ensures FirstPoint(bs) == Point(c, 2)
  {
  }

  lemma ThreeBytes(c: nat, bs: seq<byte>)
    requires 0x800 <= c < 0x10000 && !(0xD800 <= c < 0xE000) && |bs| >= 3
    requires bs[0] == 0xE0 + c / 0x1000 && bs[1] == 0x80 + c / 0x40 % 0x40 && bs[2] == 0x80 + c % 0x40
    ensures FirstPoint(bs) == Point(c, 3)
  {
    assert Continued(c / 0x1000, bs[1]) == c / 0x40;
  }

  lemma FourBytes(c: nat, bs: seq<byte>)
    requires 0x10000 <= c < 0x110000 && |bs| >= 4
    requires bs[0] == 0xF0 + c / 0x40000 && bs[1] == 0x80 + c / 0x1000 % 0x40
    requires bs[2] == 0x80 + c / 0x40 % 0x40 && bs[3] == 0x80 + c % 0x40
    ensures FirstPoint(bs) == Point(c, 4)
  {
    assert Continued(c / 0x40000, bs[1]) == c / 0x1000;
    assert Continued(c / 0x1000, bs[2]) == c / 0x40;
  }

  lemma FirstPointOf(c: nat, rest: seq<byte>)
    requires c < 0x110000 && !(0xD800 <= c < 0xE000)
    ensures FirstPoint(Utf8Of(c) + rest) == Point(c, |Utf8Of(c)|)
  {
    var bs := Utf8Of(c) + rest;
    assert bs[0] == Utf8Of(c)[0];
    if 0x80 <= c {
      hide FirstPoint;
      assert bs[1] == Utf8Of(c)[1];
      if c < 0x800 {
        TwoBytes(c, bs);
      } else if c < 0x10000 {
        assert bs[2] == Utf8Of(c)[2];
        ThreeBytes(c, bs);
      } else {
        assert bs[2] == Utf8Of(c)[2] && bs[3] == Utf8Of(c)[3];
        FourBytes(c, bs);
      }
    }
  }

  lemma ReadUtf8Step(c: nat, rest: seq<byte>)
    requires c < 0x110000 && !(0xD800 <= c < 0xE000)
    ensures ReadUtf8(rest).Some? ==> ReadUtf8(Utf8Of(c) + rest) == Some([c] + ReadUtf8(rest).value)
  {
    hide FirstPoint;
    FirstPointOf(c, rest);
    assert (Utf8Of(c) + rest)[|Utf8Of(c)|..] == rest;
  }

  /** The UTF-8 of a string is well formed and holds its characters. */
  lemma {:induction false} Utf8RoundTrip(s: Text)
    ensures ReadUtf8(Utf8(s)) == Some(CodePoints(s))
  {
    hide Utf8Of, ReadUtf8;
    if s == [] {
      NoText();
    } else if IsHigh(s[0]) && |s| > 1 && IsLow(s[1]) {
      Utf8RoundTrip(s[2..]);
      ReadUtf8Step(Supplementary(s[0], s[1]), Utf8(s[2..]));
    } else {
      Utf8RoundTrip(s[1..]);
      ReadUtf8Step(if IsHigh(s[0]) || IsLow(s[0]) then 0xFFFD else s[0], Utf8(s[1..]));
    }
  }

  lemma NoText()
    ensures ReadUtf8([]) == Some([])
  {
  }

  /** The code units of a character. */
  function UnitsOf(c: nat): Text
    requires c < 0x110000
  {
    if c < 0x10000 then [c] else [0xD800 + (c - 0x10000) / 0x400, 0xDC00 + (c - 0x10000) % 0x400]
  }

  /** The script string that holds the characters. */
  function ToUnits(points: seq<nat>): Text
    requires forall i :: 0 <= i < |points| ==> points[i] < 0x110000
  {
    if points == [] then [] else UnitsOf(points[0]) + ToUnits(points[1..])
  }

  /** No surrogate lacks its partner. */
  predicate Paired(s: Text)
  {
    if s == [] then true
    else if IsHigh(s[0]) && |s| > 1 && IsLow(s[1]) then Paired(s[2..])
    else !IsHigh(s[0]) && !IsLow(s[0]) && Paired(s[1..])
  }

  /** How many code units the first character takes. */
  function FirstUnits(s: Text): (n: nat)
    requires s != []
    ensures n <= |s|
  {
    if IsHigh(s[0]) && |s| > 1 && IsLow(s[1]) then 2 else 1
  }

  lemma FirstCharacter(s: Text)
    requires s != []
    ensures var n, points := FirstUnits(s), CodePoints(s);
            && points != [] && points[0] < 0x110000 && points[1..] == CodePoints(s[n..]) && |UnitsOf(points[0])| == n
            && (UnitsOf(points[0]) == s[..n] <==> n == 2 || (!IsHigh(s[0]) && !IsLow(s[0])))
  {
    hide UnitsOf, Supplementary;
    var n, points := FirstUnits(s), CodePoints(s);
    assert points == [points[0]] + CodePoints(s[n..]);
    if n == 2 {
      SurrogatePair(s[0], s[1]);
      assert s[..2] == [s[0], s[1]];
    } else {
      OneUnit(points[0]);
      assert s[..1] == [s[0]];
    }
  }

  lemma SurrogatePair(high: unit, low: unit)
    requires IsHigh(high) && IsLow(low)
    ensures Supplementary(high, low) < 0x110000 && UnitsOf(Supplementary(high, low)) == [high, low]
  {
    var c := Supplementary(high, low) - 0x10000;
    assert c / 0x400 == high as int - 0xD800 && c % 0x400 == low as int - 0xDC00;
  }

  lemma OneUnit(c: nat)
    requires c < 0x10000
    ensures UnitsOf(c) == [c]
  {
  }

  lemma EqualParts(a: Text, b: Text, s: Text)
    requires |a| <= |s|
    ensures a + b == s <==> a == s[..|a|] && b == s[|a|..]
  {
    if a + b == s {
      assert a == (a + b)[..|a|] && b == (a + b)[|a|..];
    }
    assert s == s[..|a|] + s[|a|..];
  }

  /** A string can be recovered from its characters if and only if every surrogate has its partner. */
  lemma {:induction false} TextIsRecovered(s: Text)
    ensures forall i :: 0 <= i < |CodePoints(s)| ==> CodePoints(s)[i] < 0x110000
    ensures ToUnits(CodePoints(s)) == s <==> Paired(s)
  {
    if s != [] {
      hide CodePoints, UnitsOf;
      var n, points := FirstUnits(s), CodePoints(s);
      TextIsRecovered(s[n..]);
      FirstCharacter(s);
      assert forall i :: 1 <= i < |points| ==> points[i] == points[1..][i - 1];
      EqualParts(UnitsOf(points[0]), ToUnits(points[1..]), s);
    } else {
      assert CodePoints(s) == [];
    }
  }
}
