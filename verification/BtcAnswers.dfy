/**
  Which path the target search answers, told by the path and the judge alone: no hop could have been longer, and nothing
  but the limit or the target ends it.
 */
module BtcAnswers {
  import opened Bytes
  import opened BtcSearch

  // ---------------------------------------------------------------- the longest hop

  /** The dap `d` lies on the far side of `b` on the way from `a` to the target, and not past the target. */
  predicate Beyond(b: int, d: int, target: int)
  {
    b < d <= target || target <= d < b
  }

  /** The hop from `a` to `b` is accepted, and no longer one within the span is: every dap beyond `b` is rejected. */
  ghost predicate LongestHop(j: Judge, a: int, b: int, target: int, span: int)
  {
    && (a < b <= target || target <= b < a)
    && Hop(j, a, b, span)
    && forall d :: Beyond(b, d, target) && Distance(a, d) <= span ==> j.Accepts(a, d) == Some(false)
  }

  /** The way back from the target, or down to dap 0, from `a` to `b`. */
  predicate Farther(a: int, b: int, target: int)
  {
    if target < a then a < b else b < a
  }

  /** With a negative span: the nearest accepted dap that is no nearer than the span's size, away from the target. */
  ghost predicate ShortestLeap(j: Judge, a: int, b: int, target: int, span: int)
  {
    && Farther(a, b, target) && Distance(a, b) >= -span && j.Accepts(a, b) == Some(true)
    && forall d :: Farther(a, d, target) && Farther(d, b, target) && Distance(a, d) >= -span ==>
         j.Accepts(a, d) == Some(false)
  }

  ghost predicate Best(j: Judge, a: int, b: int, target: int, span: int)
  {
    if span > 0 then LongestHop(j, a, b, target, span) else ShortestLeap(j, a, b, target, span)
  }

  /**
    The path from `c`: every step is the best one. It ends where the target itself is the best step, where there is no
    more room, and after a step from a dap whose span reached the target.
   */
  ghost predicate Answers(j: Judge, c: int, path: seq<int>, target: int, span: int, room: int)
    decreases |path|
  {
    if path == [] then Best(j, c, target, target, span)
    else
      && path[0] != target && Best(j, c, path[0], target, span)
      && if room == 1 || Distance(c, target) <= span then |path| == 1
         else Answers(j, path[0], path[1..], target, span, room - 1)
  }

  lemma {:induction false} FirstIsBest(j: Judge, c: int, n: int, past: bool, b: int)
    requires if past then n <= b else b <= n
    ensures FirstAccepted(j, c, n, past) == Some(b)
            <==> j.Accepts(c, b) == Some(true)
                 && forall d :: (if past then n <= d < b else b < d <= n) ==> j.Accepts(c, d) == Some(false)
    decreases Distance(n, b)
  {
    if n != b {
      FirstIsBest(j, c, if past then n + 1 else n - 1, past, b);
    }
  }

  /** The inner loop finds the best step. */
  lemma NextIsBest(j: Judge, c: int, target: int, span: int, b: int)
    requires j.AcceptsNeighbours() && c != target && span != 0
    ensures Next(j, c, target, span) == Some(b) <==> Best(j, c, b, target, span)
  {
    var past, reach := target < c, Reach(c, target, span);
    if Next(j, c, target, span) == Some(b) {
      HopGoesOn(j, c, target, span);
      FirstIsBest(j, c, reach, past, b);
    } else if Best(j, c, b, target, span) {
      FirstIsBest(j, c, reach, past, b);
    }
  }

  /** The search answers a path if and only if it is described so; otherwise it fails. */
  lemma {:induction false} SearchExactly(j: Judge, c: int, target: int, span: int, room: int, path: seq<int>)
    requires j.AcceptsNeighbours() && c != target && span != 0 && room != 0
    ensures Search(j, c, target, span, room) == Some(path) <==> Answers(j, c, path, target, span, room)
    decreases |path|
  {
    hide Best, FirstAccepted;
    var n := Next(j, c, target, span);
    NextIsBest(j, c, target, span, if path == [] then target else path[0]);
    if path != [] && n == Some(path[0]) && n.value != target {
      ReachesTarget(c, target, span);
      HopGoesOn(j, c, target, span);
      if room != 1 && Distance(c, target) > span {
        SearchExactly(j, path[0], target, span, room - 1, path[1..]);
        assert path == [path[0]] + path[1..];
      } else {
        assert |path| == 1 ==> path == [path[0]];
      }
    }
  }

  lemma ReachesTarget(c: int, target: int, span: int)
    requires c != target && span != 0
    ensures Reach(c, target, span) == target <==> Distance(c, target) <= span
  {
  }

  /** Step by step along a path: each one starts where the one before has led. */
  function Before(c: int, path: seq<int>, i: nat): int
    requires i < |path|
  {
    if i == 0 then c else path[i - 1]
  }

  lemma {:induction false} AnswersAt(j: Judge, c: int, path: seq<int>, target: int, span: int, room: int, i: nat)
    requires Answers(j, c, path, target, span, room) && i < |path|
    ensures Best(j, Before(c, path, i), path[i], target, span)
    decreases |path|
  {
    hide Best;
    if i > 0 {
      AnswersAt(j, path[0], path[1..], target, span, room - 1, i - 1);
    }
  }

  /**
    In the answer to a request with a positive maxDap no acceptable longer hop is skipped: whatever lies beyond the dap
    that a hop leads to, up to the target and within the span, is rejected.
   */
  lemma NoLongerHop(j: Judge, currentDap: int, targetDap: int, verifiedDap: int, maxDiff: int, maxDap: int,
                    finality: int, limit: int, i: nat, d: int)
    requires j.AcceptsNeighbours() && maxDap > 0
    ensures var r := ProofTarget(j, currentDap, targetDap, verifiedDap, maxDiff, maxDap, finality, limit);
            r.Path? && i < |r.daps| ==>
              var a := Before(verifiedDap, r.daps, i);
              && Distance(a, r.daps[i]) <= maxDap
              && (Beyond(r.daps[i], d, targetDap) && Distance(a, d) <= (if maxDiff == 0 then 1 else maxDap) ==>
                    j.Accepts(a, d) == Some(false))
  {
    hide Search;
    var r := ProofTarget(j, currentDap, targetDap, verifiedDap, maxDiff, maxDap, finality, limit);
    if r.Path? && i < |r.daps| {
      var span := Span(maxDiff, maxDap);
      SearchExactly(j, verifiedDap, targetDap, span, EffectiveLimit(limit), r.daps);
      AnswersAt(j, verifiedDap, r.daps, targetDap, span, EffectiveLimit(limit), i);
    }
  }

  // ---------------------------------------------------------------- a judge without objections

  /** Every hop on the way from `c` to the target is accepted. */
  ghost predicate Willing(j: Judge, c: int, target: int)
  {
    forall a, b :: OnTheWay(c, a, target) && OnTheWay(c, b, target) && a != b ==> j.Accepts(a, b) == Some(true)
  }

  predicate OnTheWay(c: int, d: int, target: int)
  {
    c <= d <= target || target <= d <= c
  }

  /** Every `span`-th dap from `c` on that is before the target. */
  function Strides(c: int, target: int, span: int): (r: seq<int>)
    requires span > 0 && c != target
    ensures |r| == (Distance(c, target) - 1) / span
    ensures forall i :: 0 <= i < |r| ==> r[i] == Towards(c, target, (i + 1) * span)
  {
    seq((Distance(c, target) - 1) / span, i => Towards(c, target, (i + 1) * span))
  }

  lemma StridesOn(c: int, target: int, span: int)
    requires span > 0 && Distance(c, target) > span
    ensures var n := Towards(c, target, span);
            n != target && Strides(c, target, span) == [n] + Strides(n, target, span)
  {
    var n := Towards(c, target, span);
    var r, rest := Strides(c, target, span), Strides(n, target, span);
    OneMore(Distance(n, target) - 1, span);
    assert |r| == |rest| + 1;
    forall i | 0 <= i < |r| ensures r[i] == ([n] + rest)[i] {
      NextMultiple(i, span);
    }
  }

  lemma NoStrides(c: int, target: int, span: int)
    requires c != target && Distance(c, target) <= span
    ensures Strides(c, target, span) == []
  {
  }

  lemma OneMore(y: nat, span: nat)
    requires span > 0
    ensures (y + span) / span == y / span + 1
  {
    NextMultiple(y / span, span);
    QuotientIs(y + span, span, y / span + 1, y % span);
  }

  lemma NextMultiple(i: nat, span: nat)
    ensures (i + 1) * span == i * span + span
  {
  }

  lemma TruncatedStep(n: int, more: seq<int>, room: int)
    requires room != 0
    ensures Truncated([n] + more, room) == if room == 1 then [n] else [n] + Truncated(more, room - 1)
  {
  }

  /** A hop to a dap on the way is the next one where the span, or the target, is accepted. */
  lemma WillingNext(j: Judge, c: int, target: int, span: int)
    requires j.AcceptsNeighbours() && c != target && span > 0 && Willing(j, c, target)
    ensures var n := Reach(c, target, span); Next(j, c, target, span) == Some(n) && Willing(j, n, target)
  {
    var n := Reach(c, target, span);
    assert OnTheWay(c, c, target) && OnTheWay(c, n, target);
    forall a, b | OnTheWay(n, a, target) && OnTheWay(n, b, target) && a != b ensures j.Accepts(a, b) == Some(true) {
      assert OnTheWay(c, a, target) && OnTheWay(c, b, target);
    }
  }

  /** Where everything is accepted, the answer steps by the span. */
  lemma {:induction false} StridesAreAnswered(j: Judge, c: int, target: int, span: int, room: int)
    requires j.AcceptsNeighbours() && c != target && span > 0 && room != 0 && Willing(j, c, target)
    ensures Search(j, c, target, span, room) == Some(Truncated(Strides(c, target, span), room))
    decreases Distance(c, target)
  {
    hide Next, Willing, Strides, FirstAccepted;
    WillingNext(j, c, target, span);
    if Distance(c, target) <= span {
      NoStrides(c, target, span);
    } else {
      var n := Towards(c, target, span);
      StridesOn(c, target, span);
      TruncatedStep(n, Strides(n, target, span), room);
      if room != 1 {
        StridesAreAnswered(j, n, target, span, room - 1);
      }
    }
  }

  /** From dap 100 to dap 200 with a maxDap of 20 the answer is then 120, 140, 160 and 180. */
  lemma TwentyByTwenty(j: Judge)
    requires j.AcceptsNeighbours() && Willing(j, 100, 200)
    ensures ProofTarget(j, 250, 200, 100, 15, 20, 0, 0) == Path([120, 140, 160, 180])
  {
    StridesAreAnswered(j, 100, 200, 20, 40);
    assert Strides(100, 200, 20) == [120, 140, 160, 180];
  }

  // ---------------------------------------------------------------- the limit, and what is rejected

  /** A limit cuts the answer; a negative one does not. */
  lemma {:induction false} RoomCuts(j: Judge, c: int, target: int, span: int, room: int, any: int)
    requires j.AcceptsNeighbours() && c != target && span != 0 && room != 0 && any < 0
    requires Search(j, c, target, span, any).Some?
    ensures Search(j, c, target, span, room)
            == Some(Truncated(Search(j, c, target, span, any).value, room))
    decreases Left(j, c, target, span)
  {
    hide FirstAccepted;
    var n := Next(j, c, target, span);
    HopGoesOn(j, c, target, span);
    if n.value != target && Reach(c, target, span) != target && room != 1 {
      RoomCuts(j, n.value, target, span, room - 1, any - 1);
    }
    if n.value != target && Reach(c, target, span) != target {
      TruncatedStep(n.value, Search(j, n.value, target, span, any - 1).value, room);
    }
  }

  /** The path without any limit. */
  ghost function Unlimited(j: Judge, verifiedDap: int, targetDap: int, maxDiff: int, maxDap: int): Option<seq<int>>
    requires j.AcceptsNeighbours() && maxDap != 0 && verifiedDap != targetDap
  {
    Search(j, verifiedDap, targetDap, if maxDiff == 0 then 1 else maxDap, -1)
  }

  /**
    Where the path without a limit exists, a limit from 1 to 40 cuts it there, 0 and a higher one cut it at 40, and a
    negative one leaves it whole.
   */
  lemma LimitCuts(j: Judge, currentDap: int, targetDap: int, verifiedDap: int, maxDiff: int, maxDap: int,
                  finality: int, limit: int)
    requires j.AcceptsNeighbours() && maxDap != 0 && Distance(targetDap, verifiedDap) > 1
    requires Unlimited(j, verifiedDap, targetDap, maxDiff, maxDap).Some?
    ensures var r := ProofTarget(j, currentDap, targetDap, verifiedDap, maxDiff, maxDap, finality, limit);
            var all := Unlimited(j, verifiedDap, targetDap, maxDiff, maxDap).value;
            && r != Rejected(Broken)
            && (r.Path? && 1 <= limit <= 40 ==> r.daps == if limit < |all| then all[..limit] else all)
            && (r.Path? && (limit == 0 || limit > 40) ==> r.daps == if 40 < |all| then all[..40] else all)
            && (r.Path? && limit < 0 ==> r.daps == all)
  {
    hide Search;
    RoomCuts(j, verifiedDap, targetDap, Span(maxDiff, maxDap), EffectiveLimit(limit), -1);
  }

  /** Which requests are searched for, and what the others are told; nothing lies between equal or neighbouring daps. */
  lemma RejectsExactly(j: Judge, currentDap: int, targetDap: int, verifiedDap: int, maxDiff: int, maxDap: int,
                       finality: int, limit: int)
    requires j.AcceptsNeighbours()
    ensures var r := ProofTarget(j, currentDap, targetDap, verifiedDap, maxDiff, maxDap, finality, limit);
            var headers := finality * (if 1 <= limit <= 40 || limit < 0 then limit else 40);
            && (r == Rejected(ZeroMaxDap) <==> maxDap == 0)
            && (r == Rejected(TooManyHeaders) <==> maxDap != 0 && headers > 1000)
            && (r.Path? || r == Rejected(Broken) <==>
                maxDap != 0 && headers <= 1000 && targetDap != 0 && verifiedDap != 0
                && targetDap <= currentDap && verifiedDap <= currentDap)
            && (r == Rejected(NotExistingYet) ==> targetDap > currentDap || verifiedDap > currentDap)
            && (r == Rejected(GenesisDap) ==> targetDap == 0 || verifiedDap == 0)
            && (r.Path? && Distance(targetDap, verifiedDap) <= 1 ==> r.daps == [])
  {
  }
}
