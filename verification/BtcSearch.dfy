/** The search of `btc_proofTarget`: a path of difficulty adjustment periods (daps) from a verified one to a target. */
module BtcSearch {
  import opened Bytes

  function Distance(a: int, b: int): nat
  {
    if a < b then b - a else a - b
  }

  /** May the path go from one dap to another? The node has `size` daps; asking for another one throws. */
  datatype Judge = Judge(verdict: (int, int) -> Option<bool>, size: nat)
  {
    predicate Has(d: int)
    {
      0 <= d < size
    }

    /** `None` where fetching or comparing the daps throws. */
    function Accepts(a: int, b: int): Option<bool>
    {
      if Has(a) && Has(b) then verdict(a, b) else None
    }

    /** Neighbouring daps need no comparison. */
    ghost predicate AcceptsNeighbours()
    {
      forall a, b :: Distance(a, b) == 1 ==> Accepts(a, b) != Some(false)
    }
  }

  datatype Answer = Path(daps: seq<int>) | Rejected(error: Failure)

  datatype Failure = ZeroMaxDap | TooManyHeaders | GenesisDap | NotExistingYet | Broken

  /** `step` from `a` towards `b`. */
  function Towards(a: int, b: int, step: int): int
  {
    if b < a then a - step else a + step
  }

  ghost predicate Hop(j: Judge, a: int, b: int, span: int)
  {
    Distance(a, b) <= span && j.Accepts(a, b) == Some(true)
  }

  // ---------------------------------------------------------------- the search as a function

  /** The first acceptable dap from `n` on: upwards if the path leads into the past, else downwards. */
  ghost function FirstAccepted(j: Judge, c: int, n: int, past: bool): (r: Option<int>)
    ensures r.Some? ==> j.Accepts(c, r.value) == Some(true) && (if past then n <= r.value else r.value <= n)
    ensures r.Some? && j.AcceptsNeighbours() ==>
              (past && n < c ==> r.value < c) && (!past && c < n ==> c < r.value)
    decreases if past then j.size - n else n
  {
    var ok := j.Accepts(c, n);
    if ok.None? then None
    else if ok.value then Some(n)
    else FirstAccepted(j, c, if past then n + 1 else n - 1, past)
  }

  /** The dap to try first from `c`: the target once `span` would pass it. A negative span leads away and never does. */
  function Reach(c: int, target: int, span: int): int
  {
    var n := Towards(c, target, span);
    if (target < c && n <= target) || (c < target && target <= n) then target else n
  }

  ghost function Next(j: Judge, c: int, target: int, span: int): Option<int>
  {
    FirstAccepted(j, c, Reach(c, target, span), target < c)
  }

  /** What gets smaller with every hop. */
  function Left(j: Judge, c: int, target: int, span: int): int
  {
    if span > 0 then Distance(c, target) else if target < c then j.size - c else c
  }

  lemma HopGoesOn(j: Judge, c: int, target: int, span: int)
    requires j.AcceptsNeighbours() && c != target && span != 0 && Next(j, c, target, span).Some?
    ensures var n := Next(j, c, target, span).value;
            && j.Accepts(c, n) == Some(true) && j.Has(c)
            && (span > 0 ==> (c < n <= target || target <= n < c) && Distance(c, n) <= span)
            && (span < 0 ==> if target < c then n >= c - span else n <= c + span)
            && (n != target ==>
                0 <= Left(j, n, target, span) < Left(j, c, target, span) && (target < n <==> target < c))
  {
  }

  /** The daps to add to the path from `c` on while there is `room`; a negative room is never used up. */
  ghost function Search(j: Judge, c: int, target: int, span: int, room: int): Option<seq<int>>
    requires j.AcceptsNeighbours() && c != target && span != 0 && room != 0
    decreases Left(j, c, target, span)
  {
    var n := Next(j, c, target, span);
    if n.None? then None
    else if n.value == target then Some([])
    else if Reach(c, target, span) == target || room == 1 then Some([n.value])
    else
      HopGoesOn(j, c, target, span);
      After([n.value], Search(j, n.value, target, span, room - 1))
  }

  function After(path: seq<int>, rest: Option<seq<int>>): Option<seq<int>>
  {
    if rest.None? then None else Some(path + rest.value)
  }

  lemma AfterAfter(path: seq<int>, more: seq<int>, rest: Option<seq<int>>)
    ensures After(path, After(more, rest)) == After(path + more, rest)
    ensures After([], rest) == rest && After(path, Some([])) == Some(path)
  {
    if rest.Some? {
      assert path + (more + rest.value) == path + more + rest.value;
      assert [] + rest.value == rest.value;
    }
    assert path + [] == path;
  }

  function EffectiveLimit(limit: int): int
  {
    if limit == 0 || limit > 40 then 40 else limit
  }

  /** Without tolerance every dap is on the path, so no hop need be tried but to the next one. */
  function Span(maxDiff: int, maxDap: int): int
  {
    if maxDiff == 0 then 1 else maxDap
  }

  ghost function ProofTarget(j: Judge, currentDap: int, targetDap: int, verifiedDap: int, maxDiff: int, maxDap: int,
                             finality: int, limit: int): Answer
    requires j.AcceptsNeighbours()
  {
    if maxDap == 0 then Rejected(ZeroMaxDap)
    else if finality * EffectiveLimit(limit) > 1000 then Rejected(TooManyHeaders)
    else if targetDap == 0 || verifiedDap == 0 then Rejected(GenesisDap)
    else if targetDap > currentDap || verifiedDap > currentDap then Rejected(NotExistingYet)
    else if Distance(targetDap, verifiedDap) <= 1 then Path([])
    else
      var r := Search(j, verifiedDap, targetDap, Span(maxDiff, maxDap), EffectiveLimit(limit));
      if r.None? then Rejected(Broken) else Path(r.value)
  }

  // ---------------------------------------------------------------- what a path is worth

  /** The daps go strictly from `c` towards `target`, which stays ahead, and every step from `c` on is a hop. */
  ghost predicate Leads(j: Judge, c: int, path: seq<int>, target: int, span: int)
    decreases |path|
  {
    path != [] ==>
      && (c < path[0] < target || target < path[0] < c)
      && Hop(j, c, path[0], span)
      && Leads(j, path[0], path[1..], target, span)
  }

  /** Every step is accepted and goes away from the target, by no less than the span's size. */
  ghost predicate Strays(j: Judge, c: int, path: seq<int>, target: int, span: int)
    decreases |path|
  {
    path != [] ==>
      && (if target < c then path[0] >= c - span else path[0] <= c + span)
      && j.Accepts(c, path[0]) == Some(true)
      && Strays(j, path[0], path[1..], target, span)
  }

  function LastOf(c: int, path: seq<int>): int
  {
    if path == [] then c else path[|path| - 1]
  }

  /**
    The path of a search is a chain of hops towards the target, no longer than the room; with room left over, the
    target is within one hop's span of the last dap. An empty path says that the target itself is a hop away. With a
    negative span it is a chain of steps away from the target that uses up the room.
   */
  lemma {:induction false} SearchLeads(j: Judge, c: int, target: int, span: int, room: int)
    requires j.AcceptsNeighbours() && c != target && span != 0 && room != 0
    ensures var r := Search(j, c, target, span, room);
            && (r.Some? && span > 0 ==>
                  && Leads(j, c, r.value, target, span)
                  && (room > 0 ==> |r.value| <= room)
                  && (room < 0 || |r.value| < room ==> Distance(LastOf(c, r.value), target) <= span)
                  && (r.value == [] ==> Hop(j, c, target, span)))
            && (r.Some? && span < 0 ==> Strays(j, c, r.value, target, span) && |r.value| == room)
    decreases Left(j, c, target, span)
  {
    hide FirstAccepted;
    var n := Next(j, c, target, span);
    if n.Some? {
      HopGoesOn(j, c, target, span);
      var r := Search(j, c, target, span, room);
      if r.Some? && n.value != target {
        if Reach(c, target, span) == target || room == 1 {
          assert r.value[1..] == [];
        } else {
          SearchLeads(j, n.value, target, span, room - 1);
          assert r.value[1..] == Search(j, n.value, target, span, room - 1).value;
        }
      }
    }
  }

  ghost predicate StaysBetween(path: seq<int>, a: int, b: int)
  {
    forall i :: 0 <= i < |path| ==> a < path[i] < b || b < path[i] < a
  }

  lemma {:induction false} LeadsBetween(j: Judge, c: int, path: seq<int>, target: int, span: int)
    requires Leads(j, c, path, target, span)
    ensures StaysBetween(path, c, target)
    decreases |path|
  {
    if path != [] {
      LeadsBetween(j, path[0], path[1..], target, span);
      forall i | 0 <= i < |path| ensures c < path[i] < target || target < path[i] < c {
        assert i > 0 ==> path[i] == path[1..][i - 1];
      }
    }
  }

  /** The answer to a request: a chain of hops, of at most 40 daps unless the caller asks for a negative limit. */
  lemma AnswerLeads(j: Judge, currentDap: int, targetDap: int, verifiedDap: int, maxDiff: int, maxDap: int,
                    finality: int, limit: int)
    requires j.AcceptsNeighbours()
    ensures var r := ProofTarget(j, currentDap, targetDap, verifiedDap, maxDiff, maxDap, finality, limit);
            var span := Span(maxDiff, maxDap);
            r.Path? ==>
              && (limit >= 0 ==> |r.daps| <= EffectiveLimit(limit) <= 40)
              && (span > 0 ==>
                    && Leads(j, verifiedDap, r.daps, targetDap, span)
                    && (limit < 0 || |r.daps| < EffectiveLimit(limit) ==>
                          Distance(LastOf(verifiedDap, r.daps), targetDap) <= span))
              && (span < 0 && Distance(targetDap, verifiedDap) > 1 ==>
                    Strays(j, verifiedDap, r.daps, targetDap, span) && |r.daps| == EffectiveLimit(limit))
  {
    if maxDap != 0 && Distance(targetDap, verifiedDap) > 1 {
      SearchLeads(j, verifiedDap, targetDap, Span(maxDiff, maxDap), EffectiveLimit(limit));
    }
  }

  /** An answer over more than one dap stays strictly between the two daps if and only if the span is not negative. */
  lemma RangeExactly(j: Judge, currentDap: int, targetDap: int, verifiedDap: int, maxDiff: int, maxDap: int,
                     finality: int, limit: int)
    requires j.AcceptsNeighbours() && Distance(targetDap, verifiedDap) > 1
    ensures var r := ProofTarget(j, currentDap, targetDap, verifiedDap, maxDiff, maxDap, finality, limit);
            r.Path? ==> (StaysBetween(r.daps, verifiedDap, targetDap) <==> Span(maxDiff, maxDap) >= 1)
  {
    var r := ProofTarget(j, currentDap, targetDap, verifiedDap, maxDiff, maxDap, finality, limit);
    AnswerLeads(j, currentDap, targetDap, verifiedDap, maxDiff, maxDap, finality, limit);
    if r.Path? && Span(maxDiff, maxDap) >= 1 {
      LeadsBetween(j, verifiedDap, r.daps, targetDap, Span(maxDiff, maxDap));
    } else if r.Path? {
      assert !(verifiedDap < r.daps[0] < targetDap || targetDap < r.daps[0] < verifiedDap);
    }
  }

  // ---------------------------------------------------------------- when a single answer arrives

  /** Backing off from a target in reach of `d` does not end at a dap that does not reach it. */
  ghost predicate ArrivesFrom(j: Judge, d: int, target: int, span: int)
  {
    var n := FirstAccepted(j, d, target, target < d);
    n.Some? && n.value != target ==> Hop(j, n.value, target, span)
  }

  ghost predicate BackOffArrives(j: Judge, target: int, span: int)
  {
    forall d :: d != target && Distance(d, target) <= span ==> ArrivesFrom(j, d, target, span)
  }

  /** An answer with room left ends at a dap that reaches the target. */
  ghost predicate AnswerArrives(j: Judge, c: int, target: int, span: int, room: int)
    requires j.AcceptsNeighbours() && c != target && span != 0 && room != 0
  {
    var r := Search(j, c, target, span, room);
    r.Some? && (room < 0 || |r.value| < room) ==> Hop(j, LastOf(c, r.value), target, span)
  }

  lemma {:induction false} ArrivesWithRoom(j: Judge, c: int, target: int, span: int, room: int)
    requires j.AcceptsNeighbours() && c != target && span != 0 && room != 0
    requires room == 1 || BackOffArrives(j, target, span)
    ensures AnswerArrives(j, c, target, span, room)
    decreases Left(j, c, target, span)
  {
    hide FirstAccepted;
    var reach := Reach(c, target, span);
    var n := Next(j, c, target, span);
    if n.Some? {
      HopGoesOn(j, c, target, span);
      if reach == target {
        assert Distance(c, target) <= span;
        assert room != 1 ==> ArrivesFrom(j, c, target, span);
      } else if n.value != target && room != 1 {
        ArrivesWithRoom(j, n.value, target, span, room - 1);
        LastAfter(c, n.value, Search(j, n.value, target, span, room - 1));
      }
    }
  }

  lemma LastAfter(c: int, n: int, rest: Option<seq<int>>)
    ensures rest.Some? ==> LastOf(c, [n] + rest.value) == LastOf(n, rest.value)
  {
  }

  lemma ShortAnswer(j: Judge, d: int, target: int, span: int, room: int)
    requires j.AcceptsNeighbours() && d != target && span != 0 && Distance(d, target) <= span
    requires room != 0 && room != 1
    requires !ArrivesFrom(j, d, target, span)
    ensures !AnswerArrives(j, d, target, span, room)
  {
    var n := FirstAccepted(j, d, target, target < d);
    assert Reach(d, target, span) == target;
    assert Search(j, d, target, span, room) == Some([n.value]);
  }

  /**
    Every answer for a target that leaves room arrives, whatever the verified dap, if and only if the flag set on
    reaching for the target does no harm: from no dap in reach of it does backing off end at a dap that does not reach
    it.
   */
  lemma ArrivesExactly(j: Judge, target: int, span: int, room: int)
    requires j.AcceptsNeighbours() && span != 0 && room != 0 && room != 1
    ensures (forall c :: c != target ==> AnswerArrives(j, c, target, span, room)) <==> BackOffArrives(j, target, span)
  {
    if BackOffArrives(j, target, span) {
      forall c | c != target ensures AnswerArrives(j, c, target, span, room) {
        ArrivesWithRoom(j, c, target, span, room);
      }
    } else {
      var d :| d != target && Distance(d, target) <= span && !ArrivesFrom(j, d, target, span);
      ShortAnswer(j, d, target, span, room);
    }
  }

  // ---------------------------------------------------------------- no tolerance

  /** The daps strictly between `c` and `target`, in order. */
  function Between(c: int, target: int): (r: seq<int>)
    ensures |r| == if c == target then 0 else Distance(c, target) - 1
    ensures forall i :: 0 <= i < |r| ==> r[i] == Towards(c, target, i + 1)
    decreases Distance(c, target)
  {
    if Distance(c, target) <= 1 then [] else [Towards(c, target, 1)] + Between(Towards(c, target, 1), target)
  }

  function Truncated(s: seq<int>, limit: int): seq<int>
  {
    if 0 <= limit < |s| then s[..limit] else s
  }

  /** No hop to a neighbour fails on the way from `c` to `target`. */
  ghost predicate Open(j: Judge, c: int, target: int)
  {
    forall d :: c <= d < target || target < d <= c ==> j.Accepts(d, Towards(d, target, 1)).Some?
  }

  lemma {:induction false} SingleSteps(j: Judge, c: int, target: int, room: int)
    requires j.AcceptsNeighbours() && c != target && room != 0 && Open(j, c, target)
    ensures Search(j, c, target, 1, room) == Some(Truncated(Between(c, target), room))
    decreases Distance(c, target)
  {
    var n := Towards(c, target, 1);
    assert j.Accepts(c, n).Some? && j.Accepts(c, n) != Some(false);
    assert Next(j, c, target, 1) == Some(n);
    if n != target {
      var more := Between(n, target);
      if room == 1 {
        assert Truncated([n] + more, 1) == [n];
      } else {
        SingleSteps(j, n, target, room - 1);
        assert Truncated([n] + more, room) == [n] + Truncated(more, room - 1);
      }
    }
  }

  /** Without tolerance an answer lists exactly the daps strictly between, cut at the limit, whatever maxDap is. */
  lemma EveryDapIsListed(j: Judge, currentDap: int, targetDap: int, verifiedDap: int, maxDap: int, finality: int,
                         limit: int)
    requires j.AcceptsNeighbours() && Open(j, verifiedDap, targetDap)
    ensures var r := ProofTarget(j, currentDap, targetDap, verifiedDap, 0, maxDap, finality, limit);
            && r != Rejected(Broken)
            && (r.Path? ==> r.daps == Truncated(Between(verifiedDap, targetDap), EffectiveLimit(limit)))
  {
    if Distance(targetDap, verifiedDap) > 1 {
      SingleSteps(j, verifiedDap, targetDap, EffectiveLimit(limit));
    }
  }

  /** A negative limit is neither replaced nor ever reached: here 98 daps are returned instead of 40. */
  lemma NegativeLimitIsNone(j: Judge, limit: int)
    requires j.AcceptsNeighbours() && Open(j, 1, 100) && limit < 0
    ensures var r := ProofTarget(j, 200, 100, 1, 0, 1, 1, limit); r.Path? && |r.daps| == 98
  {
    SingleSteps(j, 1, 100, limit);
  }

  ghost predicate AtMostForty(j: Judge, currentDap: int, targetDap: int, verifiedDap: int, maxDiff: int, maxDap: int,
                              finality: int, limit: int)
    requires j.AcceptsNeighbours()
  {
    var r := ProofTarget(j, currentDap, targetDap, verifiedDap, maxDiff, maxDap, finality, limit);
    r.Path? ==> |r.daps| <= 40
  }

  /** Every request with this limit is answered with at most 40 daps if and only if the limit is not negative. */
  lemma FortyExactly(limit: int)
    ensures (forall j: Judge, currentDap, targetDap, verifiedDap, maxDiff, maxDap, finality :: j.AcceptsNeighbours() ==>
               AtMostForty(j, currentDap, targetDap, verifiedDap, maxDiff, maxDap, finality, limit))
            <==> limit >= 0
  {
    if limit >= 0 {
      forall j: Judge, currentDap, targetDap, verifiedDap, maxDiff, maxDap, finality | j.AcceptsNeighbours()
        ensures AtMostForty(j, currentDap, targetDap, verifiedDap, maxDiff, maxDap, finality, limit)
      {
        AnswerLeads(j, currentDap, targetDap, verifiedDap, maxDiff, maxDap, finality, limit);
      }
    } else {
      var j := Judge((a, b) => Some(true), 101);
      NegativeLimitIsNone(j, limit);
      assert !AtMostForty(j, 200, 100, 1, 0, 1, 1, limit);
    }
  }

  // ---------------------------------------------------------------- a negative maxDap

  /** No hop down to a neighbour fails from `c` on, `room` times. */
  ghost predicate OpenBelow(j: Judge, c: int, room: nat)
  {
    forall d :: c - room < d <= c ==> j.Accepts(d, Below(d)).Some?
  }

  function Below(d: int): int { d - 1 }

  lemma {:induction false} StraysDown(j: Judge, c: int, target: int, room: nat)
    requires j.AcceptsNeighbours() && c < target && room > 0 && OpenBelow(j, c, room)
    ensures Search(j, c, target, -1, room) == Some(seq(room, i => c - 1 - i))
    decreases room
  {
    assert Distance(c, Below(c)) == 1 && j.Accepts(c, Below(c)).Some? && j.Accepts(c, Below(c)) != Some(false);
    assert Next(j, c, target, -1) == Some(c - 1);
    if room > 1 {
      StraysDown(j, c - 1, target, room - 1);
      assert [c - 1] + seq(room - 1, i => c - 1 - 1 - i) == seq(room, i => c - 1 - i);
    } else {
      assert [c - 1] == seq(room, i => c - 1 - i);
    }
  }

  /** Asked for a path from dap 100 to dap 200 with a maxDap of -1, the answer is 99, 98 and so on down to 60. */
  lemma NegativeMaxDapStrays(j: Judge)
    requires j.AcceptsNeighbours() && OpenBelow(j, 100, 40)
    ensures ProofTarget(j, 250, 200, 100, 15, -1, 0, 0) == Path(seq(40, i => 99 - i))
  {
    StraysDown(j, 100, 200, 40);
    assert seq(40, i => 100 - 1 - i) == seq(40, i => 99 - i);
  }

  // ---------------------------------------------------------------- a client that asks again

  lemma {:induction false} LeadsInside(j: Judge, c: int, path: seq<int>, target: int, span: int)
    requires path != [] && Leads(j, c, path, target, span)
    ensures c < LastOf(c, path) < target || target < LastOf(c, path) < c
    decreases |path|
  {
    if |path| > 1 {
      LeadsInside(j, path[0], path[1..], target, span);
    }
  }

  lemma {:induction false} StraysFurther(j: Judge, c: int, path: seq<int>, target: int, span: int)
    requires path != [] && Strays(j, c, path, target, span) && c != target && span < 0
    ensures var last := LastOf(c, path); if target < c then last >= c - span else last <= c + span
    ensures j.Has(c)
    decreases |path|
  {
    if |path| > 1 {
      StraysFurther(j, path[0], path[1..], target, span);
    }
  }

  lemma AnswerGoesOn(j: Judge, c: int, target: int, span: int, limit: int)
    requires j.AcceptsNeighbours() && c != target && span != 0 && limit != 0
    requires var r := Search(j, c, target, span, limit); r.Some? && r.value != []
    ensures var last := LastOf(c, Search(j, c, target, span, limit).value);
            && Left(j, last, target, span) < Left(j, c, target, span) && Left(j, c, target, span) >= 0
            && (span < 0 ==> Distance(last, target) > Distance(c, target))
  {
    var path := Search(j, c, target, span, limit).value;
    SearchLeads(j, c, target, span, limit);
    if span > 0 {
      LeadsInside(j, c, path, target, span);
    } else {
      StraysFurther(j, c, path, target, span);
      LastIsThere(j, c, path, target, span);
    }
  }

  lemma {:induction false} LastIsThere(j: Judge, c: int, path: seq<int>, target: int, span: int)
    requires path != [] && Strays(j, c, path, target, span)
    ensures j.Has(LastOf(c, path))
    decreases |path|
  {
    if |path| > 1 {
      LastIsThere(j, path[0], path[1..], target, span);
    }
  }

  /** A client that takes the last dap of each answer as verified and asks again until the answer is empty. */
  ghost function Client(j: Judge, c: int, target: int, span: int, limit: int): Option<seq<int>>
    requires j.AcceptsNeighbours() && span != 0 && limit != 0
    decreases Left(j, c, target, span)
  {
    if Distance(c, target) <= 1 then Some([])
    else
      var path := Search(j, c, target, span, limit);
      if path.None? || path.value == [] then path
      else
        AnswerGoesOn(j, c, target, span, limit);
        After(path.value, Client(j, LastOf(c, path.value), target, span, limit))
  }

  lemma {:induction false} LeadsConcat(j: Judge, c: int, p: seq<int>, q: seq<int>, target: int, span: int)
    requires Leads(j, c, p, target, span) && Leads(j, LastOf(c, p), q, target, span)
    ensures Leads(j, c, p + q, target, span) && LastOf(c, p + q) == LastOf(LastOf(c, p), q)
    decreases |p|
  {
    if p == [] {
      assert p + q == q;
    } else {
      LeadsConcat(j, p[0], p[1..], q, target, span);
      assert (p + q)[1..] == p[1..] + q;
    }
  }

  /**
    Asking again always helps: if no request fails, the answers together lead from `c` to the target with an accepted
    hop at every step, the last one included. With a negative span it never does: sooner or later a request fails.
   */
  lemma {:induction false} ClientArrives(j: Judge, c: int, target: int, span: int, limit: int)
    requires j.AcceptsNeighbours() && span != 0 && limit != 0 && c != target
    ensures var r := Client(j, c, target, span, limit);
            && (r.Some? && span > 0 ==>
                  && Leads(j, c, r.value, target, span)
                  && var last := LastOf(c, r.value); Distance(last, target) == 1 || Hop(j, last, target, span))
            && (span < 0 && Distance(c, target) > 1 ==> r.None?)
    decreases Left(j, c, target, span)
  {
    if Distance(c, target) > 1 {
      SearchLeads(j, c, target, span, limit);
      var path := Search(j, c, target, span, limit);
      if path.Some? && path.value != [] {
        AnswerGoesOn(j, c, target, span, limit);
        var last := LastOf(c, path.value);
        if span > 0 {
          LeadsInside(j, c, path.value, target, span);
        }
        ClientArrives(j, last, target, span, limit);
        var rest := Client(j, last, target, span, limit);
        if rest.Some? && span > 0 {
          LeadsConcat(j, c, path.value, rest.value, target, span);
        }
      }
    }
  }
}
