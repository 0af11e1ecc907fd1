/**
  A strict count of clique votes beside what `updateVotes` does: only validators vote, and the votes of a validator who
  is dropped count no longer. The code checks neither; this is where the two agree and how they part.
 */
module CliqueStrict {
  import opened Bytes
  import opened CliqueVotes

  predicate Authorized(p: Poll, s: Address)
  {
    s in p.validators
  }

  /** The validators whose last vote has this direction. */
  function Voters(p: Poll, log: seq<Header>, add: bool): set<Address>
  {
    set s | s in Supporters(log, add) && Authorized(p, s)
  }

  predicate StrictDecides(p: Poll, b: Header)
  {
    && Authorized(p, b.signer) && Votes(b)
    && |Voters(p, PendingFor(p.log, Target(b)) + [b], b.nonce.AddSigner?)| >= Majority(|p.validators|)
  }

  /** The log without the headers signed by `s`. */
  function Without(log: seq<Header>, s: Address): (r: seq<Header>)
    ensures forall b :: b in r ==> b in log && b.signer != s
  {
    if log == [] then []
    else
      var n := |log| - 1;
      assert log == log[..n] + [log[n]];
      Without(log[..n], s) + (if log[n].signer == s then [] else [log[n]])
  }

  /** The logs of the other targets without the votes of `t`. */
  function Discarded(log: map<Address, seq<Header>>, t: Address): map<Address, seq<Header>>
  {
    map u | u in log && u != t :: Without(log[u], t)
  }

  function StrictStep(p: Poll, b: Header): Poll
  {
    var t := Target(b);
    if !Authorized(p, b.signer) || !Votes(b) then p
    else if !StrictDecides(p, b) then p.(log := p.log[t := PendingFor(p.log, t) + [b]])
    else if b.nonce.AddSigner? then Poll(Apply(p.validators, t, true), p.log - {t})
    else Poll(Apply(p.validators, t, false), Discarded(p.log, t))
  }

  function StrictRun(p: Poll, blocks: seq<Header>): Poll
  {
    if blocks == [] then p else StrictStep(StrictRun(p, blocks[..|blocks| - 1]), blocks[|blocks| - 1])
  }

  /** Every vote on the logs was cast by one of the validators. */
  ghost predicate CastByValidators(p: Poll)
  {
    forall t, b :: b in PendingFor(p.log, t) ==> Authorized(p, b.signer)
  }

  /**
    A vote is cast by a validator and drops no validator who has voted on somebody else; or it drops nobody, as a
    stranger's vote on a list of one can: the list is then recorded once more, but neither it nor a log changes.
   */
  ghost predicate Regular(p: Poll, b: Header)
  {
    Votes(b) ==>
      || (Authorized(p, b.signer) && (Decides(p, b) && b.nonce.DropSigner? ==> VotesNowhereElse(p, Target(b))))
      || DropsNobody(p, b)
  }

  predicate DropsNobody(p: Poll, b: Header)
  {
    && !Authorized(p, b.signer) && b.nonce.DropSigner? && |p.validators| <= 1
    && Target(b) !in p.validators && Target(b) !in p.log
  }

  ghost predicate VotesNowhereElse(p: Poll, t: Address)
  {
    forall u, c :: u != t && c in PendingFor(p.log, u) ==> c.signer != t
  }

  lemma AllVotersCount(p: Poll, log: seq<Header>, add: bool)
    requires forall b :: b in log ==> Authorized(p, b.signer)
    ensures Voters(p, log, add) == Supporters(log, add)
  {
  }

  lemma {:induction false} WithoutNothing(log: seq<Header>, s: Address)
    requires forall b :: b in log ==> b.signer != s
    ensures Without(log, s) == log
  {
    if log != [] {
      var n := |log| - 1;
      assert log == log[..n] + [log[n]];
      WithoutNothing(log[..n], s);
    }
  }

  lemma {:induction false} StillIn(vals: seq<Address>, a: Address, s: Address)
    requires s in vals && s != a
    ensures s in RemoveFirst(vals, a)
  {
    if vals[0] != a && vals[0] != s {
      assert vals == [vals[0]] + vals[1..];
      StillIn(vals[1..], a, s);
    } else if vals[0] == a {
      assert vals == [vals[0]] + vals[1..];
    }
  }

  lemma DecidesAlike(p: Poll, b: Header)
    requires CastByValidators(p) && Authorized(p, b.signer)
    ensures StrictDecides(p, b) == Decides(p, b)
  {
    var log := PendingFor(p.log, Target(b)) + [b];
    forall c | c in log ensures Authorized(p, c.signer) {
      assert c in PendingFor(p.log, Target(b)) || c == b;
    }
    AllVotersCount(p, log, b.nonce.AddSigner?);
  }

  lemma NothingDiscarded(log: map<Address, seq<Header>>, t: Address)
    requires forall u, c :: u != t && c in PendingFor(log, u) ==> c.signer != t
    ensures Discarded(log, t) == log - {t}
  {
    forall u | u in log && u != t ensures Without(log[u], t) == log[u] {
      assert PendingFor(log, u) == log[u];
      WithoutNothing(log[u], t);
    }
  }

  lemma RegularAgrees(p: Poll, b: Header)
    requires CastByValidators(p) && Regular(p, b)
    ensures StrictStep(p, b) == PollStep(p, b)
  {
    var t := Target(b);
    if Votes(b) && !Authorized(p, b.signer) {
      StrangerParts(p, b);
    } else if Votes(b) {
      DecidesAlike(p, b);
      if Decides(p, b) && b.nonce.DropSigner? {
        NothingDiscarded(p.log, t);
      }
    }
  }

  lemma RegularKeepsCast(p: Poll, b: Header)
    requires CastByValidators(p) && Regular(p, b)
    ensures CastByValidators(PollStep(p, b))
  {
    if Votes(b) && !Authorized(p, b.signer) {
      StrangerParts(p, b);
      return;
    }
    var p' := PollStep(p, b);
    forall u, c | c in PendingFor(p'.log, u) ensures Authorized(p', c.signer) {
      LogAfterStep(p, b, u, c);
      if Decides(p, b) && b.nonce.DropSigner? {
        StillIn(p.validators, Target(b), c.signer);
      }
    }
  }

  lemma {:induction false} RemovesNothing(vals: seq<Address>, a: Address)
    ensures |RemoveFirst(vals, a)| == if a in vals then |vals| - 1 else |vals|
    ensures a !in vals ==> RemoveFirst(vals, a) == vals
  {
    if vals != [] && vals[0] != a {
      assert vals == [vals[0]] + vals[1..];
      RemovesNothing(vals[1..], a);
    }
  }

  /** The supporters of a first vote on a target: its signer. */
  lemma FirstVote(b: Header)
    ensures Supporters([b], b.nonce.AddSigner?) == {b.signer}
  {
    assert [b][..0] == [] && Latest([b], b.signer) == Some(b);
    assert b in [b];
  }

  /** A vote by a stranger is ignored there and changes the poll here, unless it drops nobody. */
  lemma StrangerParts(p: Poll, b: Header)
    requires Votes(b) && !Authorized(p, b.signer)
    ensures StrictStep(p, b) == p && (PollStep(p, b) == p <==> DropsNobody(p, b))
  {
    var t := Target(b);
    RemovesNothing(p.validators, t);
    FirstVote(b);
    if t !in p.log {
      assert PendingFor(p.log, t) + [b] == [b];
      assert Decides(p, b) <==> |p.validators| <= 1;
      assert p.log - {t} == p.log;
    }
    if !Decides(p, b) {
      assert |PendingFor(PollStep(p, b).log, t)| == |PendingFor(p.log, t)| + 1;
    } else if t in p.log {
      assert t !in PollStep(p, b).log;
    }
  }

  /** The votes of a dropped validator are gone there and still count here. */
  lemma LeftoverParts(p: Poll, b: Header)
    requires CastByValidators(p) && Authorized(p, b.signer)
    requires Decides(p, b) && b.nonce.DropSigner? && !VotesNowhereElse(p, Target(b))
    ensures StrictStep(p, b) != PollStep(p, b)
  {
    var t := Target(b);
    DecidesAlike(p, b);
    var u, c :| u != t && c in PendingFor(p.log, u) && c.signer == t;
    assert c in PendingFor(PollStep(p, b).log, u);
    assert c !in PendingFor(StrictStep(p, b).log, u);
  }

  /**
    While votes come from validators only, the next header is counted as in the strict poll if and only if it is
    regular.
   */
  lemma StepAgreesExactly(p: Poll, b: Header)
    requires CastByValidators(p)
    ensures StrictStep(p, b) == PollStep(p, b) <==> Regular(p, b)
    ensures Regular(p, b) ==> CastByValidators(PollStep(p, b))
  {
    if Regular(p, b) {
      RegularAgrees(p, b);
      RegularKeepsCast(p, b);
    } else if !Authorized(p, b.signer) {
      StrangerParts(p, b);
    } else {
      LeftoverParts(p, b);
    }
  }

  // ---------------------------------------------------------------- whole runs

  /** Every header of the run is regular when it comes. */
  ghost predicate AllRegular(p: Poll, blocks: seq<Header>)
  {
    blocks != [] ==>
      var rest := blocks[..|blocks| - 1];
      AllRegular(p, rest) && Regular(PollRun(p, rest), blocks[|blocks| - 1])
  }

  /** The strict poll makes the same of every header of the run. */
  ghost predicate Agrees(p: Poll, blocks: seq<Header>)
  {
    StrictRun(p, blocks) == PollRun(p, blocks) && (blocks != [] ==> Agrees(p, blocks[..|blocks| - 1]))
  }

  /**
    From the start of an epoch on the code counts as the strict poll does, header by header, if and only if every header
    is regular when it comes; its validators are then those of the strict poll.
   */
  lemma {:induction false} AgreesExactly(h: Hist, blocks: seq<Header>)
    requires h.pending == map[]
    ensures var p := Poll(h.validators, map[]);
            && (Agrees(p, blocks) <==> AllRegular(p, blocks))
            && (AllRegular(p, blocks) ==> CastByValidators(PollRun(p, blocks)))
            && (Agrees(p, blocks) ==> Run(h, blocks).validators == StrictRun(p, blocks).validators)
  {
    var p := Poll(h.validators, map[]);
    RunRefines(h, blocks);
    if blocks != [] {
      var rest, b := blocks[..|blocks| - 1], blocks[|blocks| - 1];
      AgreesExactly(h, rest);
      if AllRegular(p, rest) {
        StepAgreesExactly(PollRun(p, rest), b);
      }
    }
  }

  /** Two strangers are a majority of two validators: their votes enter a new one into the list. */
  lemma StrangersDecide()
    ensures var h := Hist([], 0, 0, 0, ["a", "b"], map[]);
            var blocks := [Header(1, "z", AddSigner, "x", "1"), Header(2, "z", AddSigner, "y", "2")];
            var p := Poll(h.validators, map[]);
            && Run(h, blocks).states == [State(2, ["a", "b", "z"], ["1", "2"])]
            && StrictRun(p, blocks) == p && !AllRegular(p, blocks)
  {
    var h := Hist([], 0, 0, 0, ["a", "b"], map[]);
    var b, c := Header(1, "z", AddSigner, "x", "1"), Header(2, "z", AddSigner, "y", "2");
    var p := Poll(h.validators, map[]);
    assert Lower("z") == "z";
    assert [b, c][..1] == [b] && [b][..0] == [];
    assert Run(h, [b]) == Step(h, b);
    assert Cast([], Vote("x", true, "1")) == [Vote("x", true, "1")];
    assert Run(h, [b]).pending == map["z" := [Vote("x", true, "1")]];
    assert "y" != "x";
    var votes := [Vote("x", true, "1"), Vote("y", true, "2")];
    assert Cast([Vote("x", true, "1")], Vote("y", true, "2")) == votes;
    assert Agreeing(votes[1..], true) == ["2"];
    assert Agreeing(votes, true) == ["1", "2"];
    assert Apply(h.validators, "z", true) == ["a", "b", "z"];
    assert Run(h, [b, c]) == Step(Run(h, [b]), c);
    assert Step(Run(h, [b]), c).states == [] + [State(2, ["a", "b", "z"], ["1", "2"])];
    assert StrictRun(p, [b]) == p;
    assert !Regular(PollRun(p, []), b);
    assert !AllRegular(p, [b]);
  }
}
