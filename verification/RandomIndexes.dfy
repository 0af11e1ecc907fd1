/** The seeded choice of node indexes: a walk over the list that takes a new step when it meets a chosen index. */
module RandomIndexes {
  import opened Bytes

  type Seed = s: seq<byte> | |s| == 32 witness seq(32, _ => 0)

  /** The remainder of a division by zero is not a number. */
  datatype Index = At(i: nat) | NotANumber

  function Reduced(x: nat, len: nat): Index
  {
    if len == 0 then NotANumber else At(x % len)
  }

  function Moved(pos: Index, step: nat, len: nat): Index
  {
    if pos.NotANumber? then NotANumber else Reduced(pos.i + step, len)
  }

  /** What is not a number is not even found where it is. */
  predicate Found(result: seq<Index>, pos: Index)
  {
    pos.At? && pos in result
  }

  /** The walk: the indexes chosen so far, the index to try next, the step, and the seed of the step. */
  datatype Walk = Walk(result: seq<Index>, pos: Index, step: nat, seed: Seed)

  function Begin(len: nat, seed: Seed, result: seq<Index>): Walk
  {
    Walk(result, Reduced(Value(seed[6..12]), len), Value(seed[..6]), seed)
  }

  /** One round of the loop. The hash is a parameter. */
  function Next(hash: Seed -> Seed, len: nat, w: Walk): Walk
  {
    if Found(w.result, w.pos) then
      var seed := hash(w.seed);
      var step := Value(seed[..6]);
      Walk(w.result, Moved(w.pos, step, len), step, seed)
    else
      Walk(w.result + [w.pos], Moved(w.pos, w.step, len), w.step, w.seed)
  }

  /** The choice after at most `rounds` rounds; `None` while the loop still runs. */
  function Choose(hash: Seed -> Seed, len: nat, limit: nat, w: Walk, rounds: nat): Option<seq<Index>>
    decreases rounds
  {
    if |w.result| >= limit then Some(w.result)
    else if rounds == 0 then None
    else Choose(hash, len, limit, Next(hash, len, w), rounds - 1)
  }

  method CreateRandomIndexes(hash: Seed -> Seed, len: nat, limit: nat, seed: Seed, result: seq<Index>, rounds: nat)
    returns (r: Option<seq<Index>>)
    ensures r == Choose(hash, len, limit, Begin(len, seed, result), rounds)
  {
    var step, pos, current, chosen := Value(seed[..6]), Reduced(Value(seed[6..12]), len), seed, result;
    var left := rounds;
    while |chosen| < limit
      invariant 0 <= left
      invariant Choose(hash, len, limit, Begin(len, seed, result), rounds)
                == Choose(hash, len, limit, Walk(chosen, pos, step, current), left)
      decreases left
    {
      if left == 0 {
        return None;
      }
      if Found(chosen, pos) {
        current := hash(current);
        step := Value(current[..6]);
      } else {
        chosen := chosen + [pos];
      }
      pos := Moved(pos, step, len);
      left := left - 1;
    }
    return Some(chosen);
  }

  // ---------------------------------------------------------------- what is chosen

  /** Pairwise different indexes of a list of length `len`. */
  ghost predicate Indexes(s: seq<Index>, len: nat)
  {
    && (forall i :: 0 <= i < |s| ==> s[i].At? && s[i].i < len)
    && (forall i, j :: 0 <= i < j < |s| ==> s[i] != s[j])
  }

  /** The walk has come to an index of the list, if there is one. */
  predicate OnList(w: Walk, len: nat)
  {
    if len == 0 then w.pos.NotANumber? else w.pos.At? && w.pos.i < len
  }

  /**
    The choice keeps what was given and ends at exactly the limit. It adds pairwise different indexes if and only if the
    list is not empty, or nothing is to be added.
   */
  lemma {:induction false} ChoiceIsValid(hash: Seed -> Seed, len: nat, limit: nat, w: Walk, rounds: nat)
    requires OnList(w, len) && Indexes(w.result, len)
    ensures var r := Choose(hash, len, limit, w, rounds);
            r.Some? ==> (Indexes(r.value, len) <==> len > 0 || limit <= |w.result|) && w.result <= r.value
                        && |r.value| == if limit > |w.result| then limit else |w.result|
    decreases rounds
  {
    if |w.result| < limit && rounds > 0 {
      var n := Next(hash, len, w);
      if len > 0 {
        assert Indexes(n.result, len);
        ChoiceIsValid(hash, len, limit, n, rounds - 1);
      } else {
        assert n.result[|w.result|] == NotANumber;
        NothingIsFound(hash, limit, n, rounds - 1);
      }
    }
  }

  /** On an empty list the loop adds what is not a number until the limit. */
  lemma {:induction false} NothingIsFound(hash: Seed -> Seed, limit: nat, w: Walk, rounds: nat)
    requires w.pos.NotANumber?
    ensures var r := Choose(hash, 0, limit, w, rounds);
            && (r.Some? <==> |w.result| + rounds >= limit)
            && (r.Some? ==> w.result <= r.value && (|w.result| < limit ==> |r.value| == limit)
                            && (|w.result| >= limit ==> r.value == w.result)
                            && forall i :: |w.result| <= i < |r.value| ==> r.value[i] == NotANumber)
    decreases rounds
  {
    if |w.result| < limit && rounds > 0 {
      NothingIsFound(hash, limit, Next(hash, 0, w), rounds - 1);
    }
  }

  lemma {:induction false} OnlyAdds(hash: Seed -> Seed, len: nat, limit: nat, w: Walk, rounds: nat)
    ensures var r := Choose(hash, len, limit, w, rounds); r.Some? ==> w.result <= r.value
    decreases rounds
  {
    if |w.result| < limit && rounds > 0 {
      OnlyAdds(hash, len, limit, Next(hash, len, w), rounds - 1);
    }
  }

  /** A higher limit only goes on: its choice starts with the choice for the lower one. */
  lemma {:induction false} ChoicesNest(hash: Seed -> Seed, len: nat, limit: nat, w: Walk, rounds: nat)
    requires Choose(hash, len, limit + 1, w, rounds).Some?
    ensures var fewer := Choose(hash, len, limit, w, rounds);
            fewer.Some? && fewer.value <= Choose(hash, len, limit + 1, w, rounds).value
    decreases rounds
  {
    if |w.result| < limit {
      ChoicesNest(hash, len, limit, Next(hash, len, w), rounds - 1);
    } else {
      OnlyAdds(hash, len, limit + 1, w, rounds);
    }
  }

  function Elements(s: seq<Index>): (r: set<Index>)
    ensures forall x :: x in r <==> x in s
  {
    if s == [] then {}
    else
      assert s == s[..|s| - 1] + [s[|s| - 1]];
      Elements(s[..|s| - 1]) + {s[|s| - 1]}
  }

  lemma NotMoreThanLength(s: seq<Index>, len: nat)
    requires Indexes(s, len)
    ensures |s| <= len
  {
    SizeOfElements(s);
    SizeOfRange(Elements(s), len);
  }

  lemma {:induction false} SizeOfElements(s: seq<Index>)
    requires forall i, j :: 0 <= i < j < |s| ==> s[i] != s[j]
    ensures |Elements(s)| == |s|
  {
    if s != [] {
      SizeOfElements(s[..|s| - 1]);
    }
  }

  /** There are no more than `len` numbers below `len`. */
  lemma {:induction false} SizeOfRange(a: set<Index>, len: nat)
    requires forall x :: x in a ==> x.At? && x.i < len
    ensures |a| <= len
  {
    if len == 0 {
      assert a == {};
    } else {
      SizeOfRange(a - {At(len - 1)}, len - 1);
    }
  }

  /** Asked for more indexes than there are, the loop never ends. */
  lemma MoreThanAllNeverEnds(hash: Seed -> Seed, len: nat, limit: nat, w: Walk, rounds: nat)
    requires len > 0 && OnList(w, len) && Indexes(w.result, len) && limit > len
    ensures Choose(hash, len, limit, w, rounds).None?
  {
    ChoiceIsValid(hash, len, limit, w, rounds);
    var r := Choose(hash, len, limit, w, rounds);
    NotMoreThanLength(w.result, len);
    if r.Some? {
      NotMoreThanLength(r.value, len);
    }
  }

  // ---------------------------------------------------------------- where the walk goes

  function Rounds(hash: Seed -> Seed, len: nat, w: Walk, n: nat): Walk
  {
    if n == 0 then w else Next(hash, len, Rounds(hash, len, w, n - 1))
  }

  function Hashed(hash: Seed -> Seed, seed: Seed, n: nat): Seed
  {
    if n == 0 then seed else hash(Hashed(hash, seed, n - 1))
  }

  /** The sum of the steps taken in the first `n` rounds, each read off the seed of its round. */
  function Walked(hash: Seed -> Seed, len: nat, seed: Seed, result: seq<Index>, n: nat): nat
  {
    if n == 0 then 0
    else
      var before := Walked(hash, len, seed, result, n - 1);
      before + Value(Rounds(hash, len, Begin(len, seed, result), n).seed[..6])
  }

  /** A round takes a hash if the index is chosen already and adds the index otherwise; then it goes on by the step. */
  lemma NextWalk(hash: Seed -> Seed, len: nat, w: Walk)
    requires len > 0 && w.pos.At? && w.step == Value(w.seed[..6])
    ensures var next := Next(hash, len, w);
            && next.result == (if w.pos in w.result then w.result else w.result + [w.pos])
            && next.seed == (if w.pos in w.result then hash(w.seed) else w.seed)
            && next.step == Value(next.seed[..6]) && next.pos == At((w.pos.i + next.step) % len)
  {
  }

  lemma HashedStep(hash: Seed -> Seed, seed: Seed, n: nat)
    ensures Hashed(hash, seed, n + 1) == hash(Hashed(hash, seed, n))
  {
  }

  /**
    A walk from the index `start`, after `n` rounds whose steps add up to `sum`: as many hashes were taken as rounds
    found their index chosen already, and the step is the first six bytes of the seed so hashed.
   */
  predicate Walks(hash: Seed -> Seed, len: nat, seed: Seed, result: seq<Index>, w: Walk, start: nat, n: nat, sum: nat)
    requires len > 0
  {
    && result <= w.result && |w.result| <= |result| + n
    && w.seed == Hashed(hash, seed, n - (|w.result| - |result|)) && w.step == Value(w.seed[..6])
    && w.pos == At((start + sum) % len)
  }

  lemma WalksOn(hash: Seed -> Seed, len: nat, seed: Seed, result: seq<Index>, w: Walk, start: nat, n: nat, sum: nat)
    requires len > 0 && Walks(hash, len, seed, result, w, start, n, sum)
    ensures var next := Next(hash, len, w);
            Walks(hash, len, seed, result, next, start, n + 1, sum + Value(next.seed[..6]))
  {
    hide Value, Next, Hashed;
    NextWalk(hash, len, w);
    HashedStep(hash, seed, n - (|w.result| - |result|));
    SumReduced(start + sum, Value(Next(hash, len, w).seed[..6]), len);
  }

  lemma WalkBegins(hash: Seed -> Seed, len: nat, seed: Seed, result: seq<Index>)
    requires len > 0
    ensures Walks(hash, len, seed, result, Begin(len, seed, result), Value(seed[6..12]), 0, 0)
  {
    hide Value;
  }

  /** The walk starts from the second six bytes of the seed. */
  lemma {:induction false} WalkExactly(hash: Seed -> Seed, len: nat, seed: Seed, result: seq<Index>, n: nat)
    requires len > 0
    ensures Walks(hash, len, seed, result, Rounds(hash, len, Begin(len, seed, result), n), Value(seed[6..12]), n,
                  Walked(hash, len, seed, result, n))
  {
    hide Value, Walks, Begin, Next;
    if n == 0 {
      WalkBegins(hash, len, seed, result);
    } else {
      WalkExactly(hash, len, seed, result, n - 1);
      WalksOn(hash, len, seed, result, Rounds(hash, len, Begin(len, seed, result), n - 1), Value(seed[6..12]), n - 1,
              Walked(hash, len, seed, result, n - 1));
    }
  }

  lemma {:induction false} RoundsShift(hash: Seed -> Seed, len: nat, w: Walk, n: nat)
    ensures Rounds(hash, len, Next(hash, len, w), n) == Rounds(hash, len, w, n + 1)
  {
    if n > 0 {
      RoundsShift(hash, len, w, n - 1);
    }
  }

  /** The choice is what the walk has chosen after the least number of rounds that chooses enough. */
  lemma {:induction false} ChoiceIsWalk(hash: Seed -> Seed, len: nat, limit: nat, w: Walk, rounds: nat)
    returns (n: nat)
    requires Choose(hash, len, limit, w, rounds).Some?
    ensures n <= rounds && Choose(hash, len, limit, w, rounds).value == Rounds(hash, len, w, n).result
    ensures |Rounds(hash, len, w, n).result| >= limit
    ensures forall m: nat :: m < n ==> |Rounds(hash, len, w, m).result| < limit
    decreases rounds
  {
    hide Next;
    if |w.result| >= limit {
      n := 0;
    } else {
      var fewer := ChoiceIsWalk(hash, len, limit, Next(hash, len, w), rounds - 1);
      n := fewer + 1;
      RoundsShift(hash, len, w, fewer);
      forall m: nat | m < n ensures |Rounds(hash, len, w, m).result| < limit {
        if m > 0 {
          RoundsShift(hash, len, w, m - 1);
        }
      }
    }
  }

  lemma SumReduced(a: nat, b: nat, len: nat)
    requires len > 0
    ensures (a % len + b) % len == (a + b) % len
  {
    var q, rest := a / len, a % len + b;
    assert a + b == (q + rest / len) * len + rest % len;
    QuotientIs(a + b, len, q + rest / len, rest % len);
  }
}
