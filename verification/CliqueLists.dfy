/** When a clique validator list stays free of duplicates, and what a duplicate does to the majority. */
module CliqueLists {
  import opened Bytes
  import opened CliqueVotes
  import opened CliqueStrict

  ghost predicate Distinct(vals: seq<Address>)
  {
    forall i, j :: 0 <= i < j < |vals| ==> vals[i] != vals[j]
  }

  /** The header brings about a majority for adding an address that is on the list already. */
  predicate Doubles(p: Poll, b: Header)
  {
    Decides(p, b) && b.nonce.AddSigner? && Target(b) in p.validators
  }

  lemma {:induction false} RemoveKeepsDistinct(vals: seq<Address>, a: Address)
    requires Distinct(vals)
    ensures Distinct(RemoveFirst(vals, a))
    ensures forall x :: x in RemoveFirst(vals, a) ==> x in vals
  {
    if vals != [] && vals[0] != a {
      var rest := vals[1..];
      RemoveKeepsDistinct(rest, a);
      assert vals == [vals[0]] + rest;
      forall k | 0 <= k < |RemoveFirst(rest, a)| ensures RemoveFirst(rest, a)[k] != vals[0] {
        assert RemoveFirst(rest, a)[k] in rest;
      }
    }
  }

  lemma AddKeepsDistinct(vals: seq<Address>, a: Address)
    requires Distinct(vals)
    ensures Distinct(vals + [a]) <==> a !in vals
  {
    if a in vals {
      var i :| 0 <= i < |vals| && vals[i] == a;
      assert (vals + [a])[i] == (vals + [a])[|vals|];
    }
  }

  /** A list without duplicates gets one if and only if a header doubles an entry. */
  lemma StepKeepsDistinct(p: Poll, b: Header)
    requires Distinct(p.validators)
    ensures Distinct(PollStep(p, b).validators) <==> !Doubles(p, b)
  {
    AddKeepsDistinct(p.validators, Target(b));
    RemoveKeepsDistinct(p.validators, Target(b));
  }

  /** The list is free of duplicates after every header of the run. */
  ghost predicate DistinctThroughout(h: Hist, blocks: seq<Header>)
  {
    Distinct(Run(h, blocks).validators) && (blocks != [] ==> DistinctThroughout(h, blocks[..|blocks| - 1]))
  }

  /** No header of the run doubles an entry when it comes. */
  predicate NeverDoubles(p: Poll, blocks: seq<Header>)
  {
    blocks != [] ==>
      var rest := blocks[..|blocks| - 1];
      NeverDoubles(p, rest) && !Doubles(PollRun(p, rest), blocks[|blocks| - 1])
  }

  /**
    From an epoch list without duplicates on, there are none throughout if and only if no header ever doubles an entry.
   */
  lemma {:induction false} DistinctExactly(h: Hist, blocks: seq<Header>)
    requires h.pending == map[] && Distinct(h.validators)
    ensures DistinctThroughout(h, blocks) <==> NeverDoubles(Poll(h.validators, map[]), blocks)
  {
    hide Run, PollRun, PollStep;
    var p := Poll(h.validators, map[]);
    SameValidators(h, blocks);
    RunStarts(h, p);
    if blocks != [] {
      var rest, b := blocks[..|blocks| - 1], blocks[|blocks| - 1];
      DistinctExactly(h, rest);
      SameValidators(h, rest);
      PollRunStep(p, blocks);
      if Distinct(PollRun(p, rest).validators) {
        StepKeepsDistinct(PollRun(p, rest), b);
      } else {
        assert !DistinctThroughout(h, rest);
      }
    }
  }

  lemma RunStarts(h: Hist, p: Poll)
    ensures Run(h, []) == h && PollRun(p, []) == p
  {
  }

  lemma PollRunStep(p: Poll, blocks: seq<Header>)
    requires blocks != []
    ensures PollRun(p, blocks) == PollStep(PollRun(p, blocks[..|blocks| - 1]), blocks[|blocks| - 1])
  {
  }

  /** The first vote on a target decides alone on a list of at most one. */
  lemma FirstVoteDecides(p: Poll, b: Header)
    requires Votes(b) && Target(b) !in p.log
    ensures Decides(p, b) <==> |p.validators| <= 1
  {
    FirstVote(b);
    assert PendingFor(p.log, Target(b)) + [b] == [b];
  }

  lemma FirstTwo(p: Poll, b: Header, c: Header)
    ensures PollRun(p, [b]) == PollStep(p, b) && PollRun(p, [b, c]) == PollStep(PollStep(p, b), c)
  {
    assert [b][..0] == [] && [b, c][..1] == [b];
  }

  /**
    A single validator, added once more, stands for two: the vote that would enter another one now falls short, and no
    validator on the list can make up for it.
   */
  lemma DoublingRaisesMajority(h: Hist, b: Header, c: Header)
    requires h.pending == map[] && |h.validators| == 1
    requires Votes(b) && b.nonce.AddSigner? && Target(b) == h.validators[0]
    requires Votes(c) && c.nonce.AddSigner? && Target(c) != Target(b)
    ensures var v := h.validators[0];
            && Run(h, [b]).validators == [v, v] && Run(h, [b, c]).validators == [v, v]
            && Run(h, [c]).validators == [v, Target(c)]
            && |set x | x in [v, v]| < Majority(|[v, v]|)
  {
    hide Run, PollRun, Decides, Target, Votes, Refines;
    var v, p := h.validators[0], Poll(h.validators, map[]);
    SameValidators(h, [b]);
    SameValidators(h, [c]);
    SameValidators(h, [b, c]);
    FirstVoteDecides(p, b);
    FirstVoteDecides(p, c);
    FirstTwo(p, b, c);
    FirstTwo(p, c, b);
    var q := PollStep(p, b);
    assert p.validators == [v] && q.validators == [v] + [v] && q.log == map[];
    FirstVoteDecides(q, c);
    assert (set x | x in [v, v]) == {v};
  }

  lemma SameValidators(h: Hist, blocks: seq<Header>)
    requires h.pending == map[]
    ensures Run(h, blocks).validators == PollRun(Poll(h.validators, map[]), blocks).validators
  {
    RunRefines(h, blocks);
  }
}
