/**
  `btc_proofTarget` on the targets of a chain: the judgement of a hop, the nested loops, and what they mean for targets.
 */
module BtcDaps {
  import opened Bytes
  import opened BtcSerialize
  import opened BtcTarget
  import opened BtcLimits
  import opened BtcSearch
  import opened BtcAnswers

  type Target = t: Hex | |t| == 64 witness Zeros(64)

  /** The target of each dap; `None` where the node cannot deliver its header, as for the first one. */
  type Chain = seq<Option<Target>>

  function TargetAt(chain: Chain, d: int): Option<Target>
  {
    if 0 <= d < |chain| then chain[d] else None
  }

  /**
    In numbers: a hop to a lower target or to a neighbour is accepted, any other one if the second target is within the
    limits of the first.
   */
  function Verdict(chain: Chain, maxDiff: int, a: int, b: int): Option<bool>
  {
    var s, t := TargetAt(chain, a), TargetAt(chain, b);
    if s.None? || t.None? then None
    else if Number(t.value) < Number(s.value) || Distance(a, b) == 1 then Some(true)
    else WithinLimits(FromHex(s.value), FromHex(t.value), maxDiff)
  }

  function JudgeOf(chain: Chain, maxDiff: int): Judge
  {
    Judge((a, b) => Verdict(chain, maxDiff, a, b), |chain|)
  }

  lemma JudgeIsVerdict(chain: Chain, maxDiff: int, a: int, b: int)
    ensures JudgeOf(chain, maxDiff).Accepts(a, b) == Verdict(chain, maxDiff, a, b)
  {
  }

  lemma VerdictAcceptsNeighbours(chain: Chain, maxDiff: int)
    ensures JudgeOf(chain, maxDiff).AcceptsNeighbours()
  {
  }

  // ---------------------------------------------------------------- the search

  /** The targets are compared as text. */
  method Accept(chain: Chain, maxDiff: int, a: int, b: int) returns (r: Option<bool>)
    ensures r == JudgeOf(chain, maxDiff).Accepts(a, b)
  {
    JudgeIsVerdict(chain, maxDiff, a, b);
    var s, t := TargetAt(chain, a), TargetAt(chain, b);
    if s.None? || t.None? {
      return None;
    }
    StringOrderIsNumeric(t.value, s.value);
    if LexLess(t.value, s.value) || Distance(a, b) == 1 {
      return Some(true);
    }
    r := IsWithinLimits(s.value, t.value, maxDiff);
  }

  ghost function AnswerOn(chain: Chain, currentDap: int, targetDap: int, verifiedDap: int, maxDiff: int, maxDap: int,
                          finality: int, limit: int): Answer
  {
    VerdictAcceptsNeighbours(chain, maxDiff);
    ProofTarget(JudgeOf(chain, maxDiff), currentDap, targetDap, verifiedDap, maxDiff, maxDap, finality, limit)
  }

  method BtcProofTarget(chain: Chain, currentDap: int, targetDap: int, verifiedDap: int, maxDiff: int, maxDap: int,
                        finality: int, limit: int) returns (r: Answer)
    ensures r == AnswerOn(chain, currentDap, targetDap, verifiedDap, maxDiff, maxDap, finality, limit)
  {
    VerdictAcceptsNeighbours(chain, maxDiff);
    if maxDap == 0 {
      return Rejected(ZeroMaxDap);
    }
    var limit := if limit == 0 || limit > 40 then 40 else limit;
    if finality * limit > 1000 {
      return Rejected(TooManyHeaders);
    }
    if targetDap == 0 || verifiedDap == 0 {
      return Rejected(GenesisDap);
    }
    if targetDap > currentDap || verifiedDap > currentDap {
      return Rejected(NotExistingYet);
    }
    if targetDap == verifiedDap || Distance(verifiedDap, targetDap) == 1 {
      return Path([]);
    }
    var maxDap := if maxDiff == 0 then 1 else maxDap;
    var path := SearchPath(chain, targetDap, verifiedDap, maxDiff, maxDap, limit);
    r := if path.None? then Rejected(Broken) else Path(path.value);
  }

  method SearchPath(chain: Chain, targetDap: int, verifiedDap: int, maxDiff: int, maxDap: int, limit: int)
    returns (r: Option<seq<int>>)
    requires maxDap != 0 && limit != 0 && verifiedDap != targetDap
    ensures JudgeOf(chain, maxDiff).AcceptsNeighbours()
    ensures r == Search(JudgeOf(chain, maxDiff), verifiedDap, targetDap, maxDap, limit)
  {
    VerdictAcceptsNeighbours(chain, maxDiff);
    hide JudgeOf, FirstAccepted;
    ghost var j := JudgeOf(chain, maxDiff);
    var past := targetDap < verifiedDap;
    var path: seq<int> := [];
    var boolLimit, compare0 := false, verifiedDap;
    ghost var whole := Search(j, verifiedDap, targetDap, maxDap, limit);
    AfterAfter([], [], whole);
    while !boolLimit
      invariant boolLimit ==> whole == Some(path)
      invariant !boolLimit ==> compare0 != targetDap && past == (targetDap < compare0) && limit != |path|
      invariant !boolLimit ==> whole == After(path, Search(j, compare0, targetDap, maxDap, limit - |path|))
      decreases !boolLimit, Left(j, compare0, targetDap, maxDap)
    {
      var nextdap := if past then compare0 - maxDap else compare0 + maxDap;
      if (past && nextdap <= targetDap) || (!past && nextdap >= targetDap) {
        nextdap := targetDap;
        boolLimit := true;
      }
      var found := BackOff(chain, maxDiff, compare0, nextdap, past);
      if found.None? {
        return None;
      }
      nextdap := found.value;
      HopGoesOn(j, compare0, targetDap, maxDap);
      ghost var rest := if boolLimit || limit - |path| == 1 || nextdap == targetDap then Some([])
                        else Search(j, nextdap, targetDap, maxDap, limit - |path| - 1);
      AfterAfter(path, [nextdap], rest);
      if nextdap != targetDap {
        path := path + [nextdap];
      }
      compare0 := nextdap;
      if |path| == limit {
        boolLimit := true;
      }
      AfterAfter(path, [], Some([]));
    }
    r := Some(path);
  }

  /** The inner loop: on from `nextdap`, one dap at a time, until a hop is accepted or fails. */
  method BackOff(chain: Chain, maxDiff: int, compare0: int, nextdap: int, past: bool) returns (r: Option<int>)
    ensures r == FirstAccepted(JudgeOf(chain, maxDiff), compare0, nextdap, past)
  {
    ghost var j := JudgeOf(chain, maxDiff);
    var n := nextdap;
    var added := false;
    while !added
      invariant FirstAccepted(j, compare0, nextdap, past)
                == if added then Some(n) else FirstAccepted(j, compare0, n, past)
      decreases !added, if past then |chain| - n else n
    {
      var ok := Accept(chain, maxDiff, compare0, n);
      if ok.None? {
        return None;
      }
      if ok.value {
        added := true;
      } else {
        n := if past then n + 1 else n - 1;
      }
    }
    r := Some(n);
  }

  // ---------------------------------------------------------------- targets from headers

  /**
    Every target of the chain is mantissa * 256^(exponent - 3) for an exponent from 3 to 29 and a non-zero mantissa.
   */
  ghost predicate HeaderTargets(chain: Chain)
  {
    forall d :: 0 <= d < |chain| && chain[d].Some? ==> FromBits(chain[d].value)
  }

  ghost predicate FromBits(t: Target)
  {
    exists mantissa: nat, e: nat :: Scaled(t, mantissa, e)
  }

  ghost predicate Scaled(t: Target, mantissa: nat, e: nat)
  {
    0 < mantissa < 0x1000000 && e <= 26 && Number(t) == mantissa * Pow256(e)
  }

  /** So is what `getDap` reads from every header with such bits. */
  lemma HeadersGiveHeaderTargets(bits: seq<byte>)
    requires |bits| == 4 && 3 <= bits[0] <= 29 && Value(bits[1..]) > 0
    ensures |TargetOfBits(ToHex(bits))| == 64 && FromBits(TargetOfBits(ToHex(bits)))
  {
    hide TargetOfBits, ToHex, Number, Value;
    TargetOfBitsIsNBits(bits);
    assert Scaled(TargetOfBits(ToHex(bits)), Value(bits[1..]), bits[0] - 3);
  }

  /**
    On such a chain, for up to 25500 percent, judging never throws, and a hop that is neither downwards nor to a
    neighbour is accepted exactly when the first target, cut off at the place of the second one's last byte and raised
    by maxDiff percent, reaches the second. The second target is then at most maxDiff percent above the first.
   */
  lemma HopRaisesAtMostMaxDiff(chain: Chain, maxDiff: nat, a: int, b: int)
    requires HeaderTargets(chain) && maxDiff <= 25500 && TargetAt(chain, a).Some? && TargetAt(chain, b).Some?
    ensures var x, y := Number(TargetAt(chain, a).value), Number(TargetAt(chain, b).value);
            var u := PlaceValue(FromHex(TargetAt(chain, b).value));
            var v := JudgeOf(chain, maxDiff).Accepts(a, b);
            && v == Some(y < x || Distance(a, b) == 1 || (100 + maxDiff) * (x / u) >= 100 * (y / u))
            && (v.value && Distance(a, b) != 1 ==> 100 * y <= (100 + maxDiff) * x)
  {
    hide JudgeOf, FromHex, Value, WithinLimits, PlaceValue, Pow256;
    var s, t := TargetAt(chain, a).value, TargetAt(chain, b).value;
    JudgeIsVerdict(chain, maxDiff, a, b);
    assert FromBits(t);
    var mantissa: nat, e: nat :| Scaled(t, mantissa, e);
    HeaderTargetsAreCompact(FromHex(t), mantissa, e);
    if Number(s) <= Number(t) {
      CompactTargets(FromHex(s), FromHex(t), maxDiff);
    } else {
      Monotone(100, 100 + maxDiff, Number(s));
    }
  }

  lemma EqualTargetsHop(chain: Chain, maxDiff: nat, a: int, b: int)
    requires HeaderTargets(chain) && maxDiff <= 25500
    requires TargetAt(chain, a).Some? && TargetAt(chain, a) == TargetAt(chain, b)
    ensures JudgeOf(chain, maxDiff).Accepts(a, b) == Some(true)
  {
    hide HeaderTargets, TargetAt, JudgeOf, Number, FromHex, Pow256;
    var t := TargetAt(chain, b).value;
    var u := PlaceValue(FromHex(t));
    HopRaisesAtMostMaxDiff(chain, maxDiff, a, b);
    Monotone(100, 100 + maxDiff, Number(t) / u);
  }

  /** While the target stays the same, the answer is every maxDap-th dap before the target dap, up to the limit. */
  lemma ConstantTargetsStride(chain: Chain, t: Target, currentDap: int, targetDap: int, verifiedDap: int, maxDiff: nat,
                              maxDap: int, finality: int, limit: int)
    requires HeaderTargets(chain) && 0 < maxDiff <= 25500 && maxDap > 0 && Distance(targetDap, verifiedDap) > 1
    requires forall d :: OnTheWay(verifiedDap, d, targetDap) ==> TargetAt(chain, d) == Some(t)
    ensures var r := AnswerOn(chain, currentDap, targetDap, verifiedDap, maxDiff, maxDap, finality, limit);
            && r != Rejected(Broken)
            && (r.Path? ==> r.daps == Truncated(Strides(verifiedDap, targetDap, maxDap), EffectiveLimit(limit)))
  {
    hide HeaderTargets, TargetAt, JudgeOf, Search, Strides;
    var j := JudgeOf(chain, maxDiff);
    forall a, b | OnTheWay(verifiedDap, a, targetDap) && OnTheWay(verifiedDap, b, targetDap) && a != b
      ensures j.Accepts(a, b) == Some(true)
    {
      EqualTargetsHop(chain, maxDiff, a, b);
    }
    VerdictAcceptsNeighbours(chain, maxDiff);
    StridesAreAnswered(j, verifiedDap, targetDap, maxDap, EffectiveLimit(limit));
  }

  /**
    With every target on the way known, an answer without tolerance lists every dap strictly between, up to the limit.
   */
  lemma ChainListsEveryDap(chain: Chain, currentDap: int, targetDap: int, verifiedDap: int, maxDap: int, finality: int,
                           limit: int)
    requires forall d :: verifiedDap <= d <= targetDap || targetDap <= d <= verifiedDap ==> TargetAt(chain, d).Some?
    ensures var r := AnswerOn(chain, currentDap, targetDap, verifiedDap, 0, maxDap, finality, limit);
            && r != Rejected(Broken)
            && (r.Path? ==> r.daps == Truncated(Between(verifiedDap, targetDap), EffectiveLimit(limit)))
  {
    var j := JudgeOf(chain, 0);
    forall d | verifiedDap <= d < targetDap || targetDap < d <= verifiedDap
      ensures j.Accepts(d, Towards(d, targetDap, 1)).Some?
    {
      var n := Towards(d, targetDap, 1);
      JudgeIsVerdict(chain, 0, d, n);
      assert TargetAt(chain, d).Some? && TargetAt(chain, n).Some?;
    }
    EveryDapIsListed(j, currentDap, targetDap, verifiedDap, maxDap, finality, limit);
  }

  /**
    Asked for the way from dap 100 to dap 200 with a maxDap of -1, every chain gives the daps 99, 98 and so on down to
    60.
   */
  lemma ChainStrays(chain: Chain)
    requires forall d :: 60 <= d <= 100 ==> TargetAt(chain, d).Some?
    ensures AnswerOn(chain, 250, 200, 100, 15, -1, 0, 0) == Path(seq(40, i => 99 - i))
  {
    var j := JudgeOf(chain, 15);
    forall d | 60 < d <= 100 ensures j.Accepts(d, Below(d)).Some? {
      JudgeIsVerdict(chain, 15, d, Below(d));
      assert TargetAt(chain, d).Some? && TargetAt(chain, Below(d)).Some?;
    }
    VerdictAcceptsNeighbours(chain, 15);
    NegativeMaxDapStrays(j);
  }

  // ---------------------------------------------------------------- an answer that falls short

  /** The target that is a number of one digit. */
  function Small(n: nibble): Target
  {
    PadStartKeeps([0, n], 32);
    PadStart([0, n], 64)
  }

  lemma SmallIsItsDigit(n: nibble)
    ensures Number(Small(n)) == n
  {
    hide PadStart;
    PadStartKeeps([0, n], 32);
    OneByte([0, n], n);
  }

  lemma OneByte(ds: Hex, n: nibble)
    requires ds == [0, n]
    ensures Number(ds) == n
  {
    assert FromHex(ds[2..]) == [];
    assert FromHex(ds) == [n];
    assert FromHex(ds)[..0] == [];
    assert Value(FromHex(ds)[..0]) == 0;
  }

  /** Four targets, each twice the one before. */
  function Doubling(): Chain
  {
    [None, Some(Small(1)), Some(Small(2)), Some(Small(4)), Some(Small(8))]
  }

  lemma DoublingTargets(d: int)
    requires 1 <= d <= 4
    ensures TargetAt(Doubling(), d).Some?
    ensures Number(TargetAt(Doubling(), d).value) == if d == 1 then 1 else if d == 2 then 2 else if d == 3 then 4 else 8
  {
    hide Small, Number;
    SmallIsItsDigit(1);
    SmallIsItsDigit(2);
    SmallIsItsDigit(4);
    SmallIsItsDigit(8);
  }

  lemma DoublingIsHeaderTargets()
    ensures HeaderTargets(Doubling())
  {
    hide Number, Small;
    forall d | 0 <= d < |Doubling()| && Doubling()[d].Some? ensures FromBits(Doubling()[d].value) {
      DoublingTargets(d);
      var t := Doubling()[d].value;
      assert Pow256(0) == 1;
      assert Scaled(t, Number(t), 0);
    }
  }

  lemma DoublingIsNoHop(a: int, b: int)
    requires 1 <= a < b <= 4
    ensures JudgeOf(Doubling(), 15).Accepts(a, b) == Some(b == a + 1)
  {
    hide Doubling, Number, WithinLimits, PlaceValue;
    DoublingIsHeaderTargets();
    DoublingTargets(a);
    DoublingTargets(b);
    HopRaisesAtMostMaxDiff(Doubling(), 15, a, b);
  }

  /**
    A single answer need not arrive: with 15 percent allowed, the way from dap 1 to dap 4 of this chain is answered with
    dap 2 alone, well below the limit, although 2 to 4 is no hop.
   */
  lemma SingleAnswerFallsShort()
    ensures AnswerOn(Doubling(), 4, 4, 1, 15, 5, 0, 0) == Path([2]) && !Hop(JudgeOf(Doubling(), 15), 2, 4, 5)
  {
    hide JudgeOf, Doubling;
    var j := JudgeOf(Doubling(), 15);
    VerdictAcceptsNeighbours(Doubling(), 15);
    DoublingIsNoHop(1, 4);
    DoublingIsNoHop(1, 3);
    DoublingIsNoHop(1, 2);
    DoublingIsNoHop(2, 4);
    assert FirstAccepted(j, 1, 2, false) == Some(2);
    assert FirstAccepted(j, 1, 3, false) == FirstAccepted(j, 1, 2, false);
    assert FirstAccepted(j, 1, 4, false) == FirstAccepted(j, 1, 3, false);
    assert Search(j, 1, 4, 5, 40) == Some([2]);
  }

  // ---------------------------------------------------------------- when every answer arrives

  ghost predicate ChainArrives(chain: Chain, maxDiff: int, c: int, target: int, span: int, room: int)
    requires c != target && span != 0 && room != 0
  {
    VerdictAcceptsNeighbours(chain, maxDiff);
    AnswerArrives(JudgeOf(chain, maxDiff), c, target, span, room)
  }

  /** Backing off over a distance of two ends at a neighbour of the target. */
  lemma ShortSpansArrive(chain: Chain, maxDiff: int, target: int, span: int)
    requires span != 0 && span <= 2
    ensures BackOffArrives(JudgeOf(chain, maxDiff), target, span)
  {
    var j := JudgeOf(chain, maxDiff);
    forall d | d != target && Distance(d, target) <= span ensures ArrivesFrom(j, d, target, span) {
      var past := target < d;
      var next := if past then target + 1 else target - 1;
      VerdictAcceptsNeighbours(chain, maxDiff);
      JudgeIsVerdict(chain, maxDiff, d, target);
      if j.Accepts(d, target) == Some(false) {
        assert Distance(d, target) == 2;
        JudgeIsVerdict(chain, maxDiff, d, next);
        JudgeIsVerdict(chain, maxDiff, next, target);
        assert FirstAccepted(j, d, target, past) == FirstAccepted(j, d, next, past);
      }
    }
  }

  /** A one at byte `q` and zeros elsewhere. */
  function Lone(q: nat): (bs: seq<byte>)
    ensures |bs| == 32
  {
    seq(32, i => if i == q then 1 else 0)
  }

  function LoneTarget(q: nat): Target
  {
    ToHex(Lone(q))
  }

  lemma {:induction false} LastOne(bs: seq<byte>, q: nat)
    requires q < |bs| && bs[q] != 0 && forall i :: q < i < |bs| ==> bs[i] == 0
    ensures LastNonZero(bs) == q
    decreases |bs|
  {
    if q < |bs| - 1 {
      LastOne(bs[..|bs| - 1], q);
    }
  }

  /** The byte of `start` stands after the window, which the byte of `limit` ends: no percentage makes up for it. */
  lemma FarBelow(q: nat, p: nat, maxDiff: int)
    requires 3 <= q < p < 32
    ensures Value(Lone(p)) < Value(Lone(q)) && WithinLimits(Lone(p), Lone(q), maxDiff) == Some(false)
  {
    hide Value;
    var start, limit, s := Lone(p), Lone(q), q - 3;
    LastOne(limit, q);
    NothingAfterLast(limit);
    NonZeroEnd(limit[..q + 1]);
    ZerosSpellNothing(start[..s]);
    ZerosSpellNothing(start[s..s + 4]);
    StartAtPlace(start, s);
    AtLeast(Value(limit[..q + 1]), Pow256(31 - q));
    assert Raised(0, maxDiff) == 0;
  }

  lemma NonZeroEnd(bs: seq<byte>)
    requires bs != [] && bs[|bs| - 1] != 0
    ensures Value(bs) >= 1
  {
  }

  lemma AtLeast(m: nat, p: nat)
    requires m >= 1
    ensures m * p >= p
  {
    Monotone(1, m, p);
  }

  /** Four targets that lie too far apart for every maxDiff. */
  function Steep(): Chain
  {
    [None, Some(LoneTarget(31)), Some(LoneTarget(23)), Some(LoneTarget(15)), Some(LoneTarget(7))]
  }

  lemma SteepTargets(d: int)
    requires 1 <= d <= 4
    ensures TargetAt(Steep(), d) == Some(LoneTarget(39 - 8 * d))
  {
    hide LoneTarget;
  }

  lemma LoneIsItsBytes(q: nat)
    ensures FromHex(LoneTarget(q)) == Lone(q) && Number(LoneTarget(q)) == Value(Lone(q))
  {
    hide FromHex, ToHex, Value, Lone;
    FromToHex(Lone(q));
  }

  lemma SteepIsNoHop(maxDiff: int, a: int, b: int)
    requires 1 <= a < b <= 4
    ensures JudgeOf(Steep(), maxDiff).Accepts(a, b) == Some(b == a + 1)
  {
    hide Lone, LoneTarget, WithinLimits, Steep, Number, FromHex, JudgeOf;
    SteepTargets(a);
    SteepTargets(b);
    LoneIsItsBytes(39 - 8 * a);
    LoneIsItsBytes(39 - 8 * b);
    FarBelow(39 - 8 * b, 39 - 8 * a, maxDiff);
    JudgeIsVerdict(Steep(), maxDiff, a, b);
  }

  lemma LongSpansFallShort(maxDiff: int, span: int, room: int)
    requires span > 2 && room != 0 && room != 1
    ensures !ChainArrives(Steep(), maxDiff, 1, 4, span, room)
  {
    hide JudgeOf, Steep;
    var j := JudgeOf(Steep(), maxDiff);
    VerdictAcceptsNeighbours(Steep(), maxDiff);
    SteepIsNoHop(maxDiff, 1, 4);
    SteepIsNoHop(maxDiff, 1, 3);
    SteepIsNoHop(maxDiff, 1, 2);
    SteepIsNoHop(maxDiff, 2, 4);
    assert FirstAccepted(j, 1, 2, false) == Some(2);
    assert FirstAccepted(j, 1, 3, false) == FirstAccepted(j, 1, 2, false);
    assert FirstAccepted(j, 1, 4, false) == FirstAccepted(j, 1, 3, false);
    assert Search(j, 1, 4, span, room) == Some([2]);
  }

  /**
    For each maxDiff: on every chain, every answer that leaves room ends at a dap that reaches the target, if and only
    if no hop may span more than two daps, or there is room for one dap alone.
   */
  lemma EveryAnswerArrivesExactly(maxDiff: int, span: int, room: int)
    requires span != 0 && room != 0
    ensures (forall chain: Chain, c, target :: c != target ==> ChainArrives(chain, maxDiff, c, target, span, room))
            <==> span <= 2 || room == 1
  {
    if span <= 2 || room == 1 {
      forall chain: Chain, c, target | c != target ensures ChainArrives(chain, maxDiff, c, target, span, room) {
        VerdictAcceptsNeighbours(chain, maxDiff);
        if span <= 2 {
          ShortSpansArrive(chain, maxDiff, target, span);
        }
        ArrivesWithRoom(JudgeOf(chain, maxDiff), c, target, span, room);
      }
    } else {
      LongSpansFallShort(maxDiff, span, room);
    }
  }
}
