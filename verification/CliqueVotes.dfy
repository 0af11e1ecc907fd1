/**
  Validator history of clique chains: the vote counting of `updateVotes`, against a poll that remembers every vote
  cast (the "Voting on signers" section of EIP-225), and what the recorded proofs are worth.
 */
module CliqueVotes {
  import opened Bytes

  type Address = string

  /** A serialized header. */
  type Rlp = string

  /** The header nonce: all ones vote for adding the miner field's address, all zeros for dropping it. */
  datatype Nonce = AddSigner | DropSigner | OtherNonce

  /** A header with its signer, which is recovered from the seal. */
  datatype Header = Header(number: nat, miner: Address, nonce: Nonce, signer: Address, rlp: Rlp)

  const ZERO_ADDRESS: Address := "0x0000000000000000000000000000000000000000"

  function LowerChar(c: char): char
  {
    if 'A' <= c <= 'Z' then c + 32 as char else c
  }

  function Lower(s: string): (r: string)
    ensures |r| == |s|
  {
    seq(|s|, i requires 0 <= i < |s| => LowerChar(s[i]))
  }

  predicate NoTarget(t: Address)
  {
    t == "0x" || t == ZERO_ADDRESS
  }

  /** The address a header votes on. */
  function Target(b: Header): Address { Lower(b.miner) }

  predicate Votes(b: Header)
  {
    !NoTarget(Target(b)) && !b.nonce.OtherNonce?
  }

  // ---------------------------------------------------------------- the history as a value

  datatype Vote = Vote(voter: Address, add: bool, block: Rlp)

  /** A validator list, the block it holds from, and the headers whose votes brought it about. */
  datatype State = State(block: nat, validators: seq<Address>, proof: seq<Rlp>)

  /** `pending` holds for every target the votes in the order in which their voters first voted. */
  datatype Hist = Hist(states: seq<State>, lastCheckedBlock: int, lastValidatorChange: int, epochBlock: nat,
                       validators: seq<Address>, pending: map<Address, seq<Vote>>)

  /** Setting a property: a voter who has voted keeps the place, with the new vote. */
  function Cast(votes: seq<Vote>, v: Vote): seq<Vote>
  {
    if votes == [] then [v]
    else if votes[0].voter == v.voter then [v] + votes[1..]
    else [votes[0]] + Cast(votes[1..], v)
  }

  /** The headers of the votes in one direction. */
  function Agreeing(votes: seq<Vote>, add: bool): seq<Rlp>
  {
    if votes == [] then []
    else (if votes[0].add == add then [votes[0].block] else []) + Agreeing(votes[1..], add)
  }

  function RemoveFirst(vals: seq<Address>, a: Address): seq<Address>
  {
    if vals == [] then []
    else if vals[0] == a then vals[1..]
    else [vals[0]] + RemoveFirst(vals[1..], a)
  }

  function Apply(vals: seq<Address>, target: Address, add: bool): seq<Address>
  {
    if add then vals + [target] else RemoveFirst(vals, target)
  }

  function Majority(n: nat): nat { n / 2 + 1 }

  function PendingFor<T>(pending: map<Address, seq<T>>, t: Address): seq<T>
  {
    if t in pending then pending[t] else []
  }

  function Step(h: Hist, b: Header): Hist
  {
    var t := Target(b);
    if NoTarget(t) then h
    else if b.nonce.OtherNonce? then h.(pending := h.pending[t := PendingFor(h.pending, t)])
    else
      var add := b.nonce.AddSigner?;
      var votes := Cast(PendingFor(h.pending, t), Vote(b.signer, add, b.rlp));
      var proof := Agreeing(votes, add);
      if |proof| >= Majority(|h.validators|) then
        var vals := Apply(h.validators, t, add);
        h.(states := h.states + [State(b.number, vals, proof)], lastValidatorChange := b.number,
           pending := h.pending - {t}, validators := vals)
      else
        h.(pending := h.pending[t := votes])
  }

  function Run(h: Hist, blocks: seq<Header>): Hist
  {
    if blocks == [] then h else Step(Run(h, blocks[..|blocks| - 1]), blocks[|blocks| - 1])
  }

  lemma NothingRuns(h: Hist)
    ensures Run(h, []) == h
  {
  }

  /** What `updateVotes` makes of a non-empty list of headers. */
  function Updated(h: Hist, blocks: seq<Header>): Hist
    requires blocks != []
  {
    Run(h.(lastCheckedBlock := blocks[|blocks| - 1].number), blocks)
  }

  // ---------------------------------------------------------------- chunks do not matter

  lemma {:induction false} RunSplit(h: Hist, a: seq<Header>, b: seq<Header>)
    ensures Run(h, a + b) == Run(Run(h, a), b)
  {
    if b == [] {
      assert a + b == a;
    } else {
      var n := |b| - 1;
      RunSplit(h, a, b[..n]);
      assert (a + b)[..|a + b| - 1] == a + b[..n];
    }
  }

  lemma {:induction false} RunIgnoresChecked(h: Hist, blocks: seq<Header>, n: int)
    ensures Run(h.(lastCheckedBlock := n), blocks) == Run(h, blocks).(lastCheckedBlock := n)
  {
    if blocks != [] {
      RunIgnoresChecked(h, blocks[..|blocks| - 1], n);
    }
  }

  /** Two updates in a row are one update with all the headers. */
  lemma UpdatesCompose(h: Hist, a: seq<Header>, b: seq<Header>)
    requires a != [] && b != []
    ensures Updated(Updated(h, a), b) == Updated(h, a + b)
  {
    var n, m := a[|a| - 1].number, b[|b| - 1].number;
    assert (a + b)[|a + b| - 1] == b[|b| - 1];
    RunSplit(h.(lastCheckedBlock := m), a, b);
    RunIgnoresChecked(h, a, n);
    RunIgnoresChecked(h, a, m);
    assert Run(h, a).(lastCheckedBlock := n).(lastCheckedBlock := m) == Run(h, a).(lastCheckedBlock := m);
  }

  // ---------------------------------------------------------------- the poll: every vote is remembered

  datatype Poll = Poll(validators: seq<Address>, log: map<Address, seq<Header>>)

  /** The last header of the log signed by `s`. */
  function Latest(log: seq<Header>, s: Address): Option<Header>
  {
    if log == [] then None
    else if log[|log| - 1].signer == s then Some(log[|log| - 1])
    else Latest(log[..|log| - 1], s)
  }

  /** The signers whose last vote has this direction. */
  function Supporters(log: seq<Header>, add: bool): set<Address>
  {
    set b | b in log && Latest(log, b.signer).Some? && Latest(log, b.signer).value.nonce.AddSigner? == add :: b.signer
  }

  /** A majority is more than half. */
  lemma MajorityIsMoreThanHalf(n: nat, k: nat)
    ensures k >= Majority(n) <==> 2 * k > n
  {
  }

  /** `rest` is the list without the first entry `t`. */
  ghost predicate WithoutFirst(vals: seq<Address>, t: Address, rest: seq<Address>)
  {
    exists i :: 0 <= i < |vals| && vals[i] == t && t !in vals[..i] && rest == vals[..i] + vals[i + 1..]
  }

  lemma {:induction false} RemovesFirst(vals: seq<Address>, t: Address)
    ensures if t in vals then WithoutFirst(vals, t, RemoveFirst(vals, t)) else RemoveFirst(vals, t) == vals
  {
    if vals != [] {
      var rest := vals[1..];
      assert vals == [vals[0]] + rest;
      if vals[0] == t {
        assert vals[..0] + vals[0 + 1..] == rest;
      } else {
        RemovesFirst(rest, t);
        if t in rest {
          FirstOfRest(vals[0], rest, t, RemoveFirst(rest, t));
        }
      }
    }
  }

  lemma FirstOfRest(v: Address, rest: seq<Address>, t: Address, removed: seq<Address>)
    requires v != t && WithoutFirst(rest, t, removed)
    ensures WithoutFirst([v] + rest, t, [v] + removed)
  {
    var vals := [v] + rest;
    var i :| 0 <= i < |rest| && rest[i] == t && t !in rest[..i] && removed == rest[..i] + rest[i + 1..];
    assert vals[..i + 1] == [v] + rest[..i] && vals[i + 1 + 1..] == rest[i + 1..] && vals[i + 1] == t;
    assert [v] + removed == vals[..i + 1] + vals[i + 1 + 1..];
  }

  /** A vote enters its target at the end of the list, or takes its first entry out and leaves the others in place. */
  lemma ApplyChangesOne(vals: seq<Address>, t: Address, add: bool)
    ensures add ==> Apply(vals, t, add) == vals + [t]
    ensures !add && t !in vals ==> Apply(vals, t, add) == vals
    ensures !add && t in vals ==> WithoutFirst(vals, t, Apply(vals, t, add))
  {
    RemovesFirst(vals, t);
  }

  /** Is there a majority for the direction of the header `b` once its vote is on the log? */
  predicate Decides(p: Poll, b: Header)
  {
    Votes(b) && |Supporters(PendingFor(p.log, Target(b)) + [b], b.nonce.AddSigner?)| >= Majority(|p.validators|)
  }

  function PollStep(p: Poll, b: Header): Poll
  {
    if !Votes(b) then p
    else if Decides(p, b) then
      Poll(Apply(p.validators, Target(b), b.nonce.AddSigner?), p.log - {Target(b)})
    else
      p.(log := p.log[Target(b) := PendingFor(p.log, Target(b)) + [b]])
  }

  function PollRun(p: Poll, blocks: seq<Header>): Poll
  {
    if blocks == [] then p else PollStep(PollRun(p, blocks[..|blocks| - 1]), blocks[|blocks| - 1])
  }

  // ---------------------------------------------------------------- the votes represent the log

  ghost predicate DistinctVoters(votes: seq<Vote>)
  {
    forall i, j :: 0 <= i < j < |votes| ==> votes[i].voter != votes[j].voter
  }

  function VoteOf(b: Header): Vote
  {
    Vote(b.signer, b.nonce.AddSigner?, b.rlp)
  }

  /** One entry per signer of the log: the last vote. */
  ghost predicate Represents(votes: seq<Vote>, log: seq<Header>)
  {
    && DistinctVoters(votes)
    && (forall i :: 0 <= i < |votes| ==> var b := Latest(log, votes[i].voter); b.Some? && votes[i] == VoteOf(b.value))
    && (forall b :: b in log ==> exists i :: 0 <= i < |votes| && votes[i].voter == b.signer)
  }

  ghost predicate Refines(h: Hist, p: Poll)
  {
    && h.validators == p.validators
    && forall t :: Represents(PendingFor(h.pending, t), PendingFor(p.log, t))
  }

  lemma {:induction false} LatestIsLast(log: seq<Header>, s: Address)
    ensures var b := Latest(log, s);
            if b.Some? then b.value in log && b.value.signer == s else forall b :: b in log ==> b.signer != s
  {
    if log != [] {
      LatestIsLast(log[..|log| - 1], s);
      assert log == log[..|log| - 1] + [log[|log| - 1]];
    }
  }

  lemma {:induction false} CastElements(votes: seq<Vote>, v: Vote, w: Vote)
    requires DistinctVoters(votes)
    ensures w in Cast(votes, v) <==> w == v || (w in votes && w.voter != v.voter)
  {
    if votes != [] {
      var rest := votes[1..];
      assert votes == [votes[0]] + rest;
      if votes[0].voter == v.voter {
        assert w in rest ==> w.voter != v.voter;
      } else {
        CastElements(rest, v, w);
        assert Cast(votes, v) == [votes[0]] + Cast(rest, v);
      }
    }
  }

  lemma {:induction false} CastKeepsDistinct(votes: seq<Vote>, v: Vote)
    requires DistinctVoters(votes)
    ensures DistinctVoters(Cast(votes, v))
  {
    if votes != [] && votes[0].voter != v.voter {
      var more := Cast(votes[1..], v);
      CastKeepsDistinct(votes[1..], v);
      forall j | 0 <= j < |more| ensures more[j].voter != votes[0].voter {
        CastElements(votes[1..], v, more[j]);
      }
    }
  }

  lemma CastSets(votes: seq<Vote>, v: Vote)
    requires DistinctVoters(votes)
    ensures DistinctVoters(Cast(votes, v)) && v in Cast(votes, v)
    ensures forall w :: w in Cast(votes, v) <==> w == v || (w in votes && w.voter != v.voter)
  {
    CastKeepsDistinct(votes, v);
    forall w ensures w in Cast(votes, v) <==> w == v || (w in votes && w.voter != v.voter) {
      CastElements(votes, v, w);
    }
  }

  lemma CastRepresents(votes: seq<Vote>, log: seq<Header>, b: Header)
    requires Represents(votes, log)
    ensures Represents(Cast(votes, VoteOf(b)), log + [b])
  {
    var more, longer := Cast(votes, VoteOf(b)), log + [b];
    CastSets(votes, VoteOf(b));
    assert longer[..|longer| - 1] == log;
    forall i | 0 <= i < |more|
      ensures var l := Latest(longer, more[i].voter); l.Some? && more[i] == VoteOf(l.value)
    {
      assert more[i] in more;
      if more[i] != VoteOf(b) {
        var k :| 0 <= k < |votes| && votes[k] == more[i];
      }
    }
    forall c | c in longer ensures exists i :: 0 <= i < |more| && more[i].voter == c.signer {
      if c.signer == b.signer {
        var i :| 0 <= i < |more| && more[i] == VoteOf(b);
      } else {
        var k :| 0 <= k < |votes| && votes[k].voter == c.signer;
        assert votes[k] in more;
      }
    }
  }

  function VotersFor(votes: seq<Vote>, add: bool): set<Address>
  {
    set v | v in votes && v.add == add :: v.voter
  }

  lemma {:induction false} AgreeingCountsVoters(votes: seq<Vote>, add: bool)
    requires DistinctVoters(votes)
    ensures |Agreeing(votes, add)| == |VotersFor(votes, add)|
  {
    if votes != [] {
      var v, rest := votes[0], votes[1..];
      AgreeingCountsVoters(rest, add);
      assert votes == [v] + rest;
      VotersOfRest(v, rest, add);
    }
  }

  lemma VotersOfRest(v: Vote, rest: seq<Vote>, add: bool)
    requires DistinctVoters([v] + rest)
    ensures VotersFor([v] + rest, add) == (if v.add == add then {v.voter} else {}) + VotersFor(rest, add)
    ensures v.voter !in VotersFor(rest, add)
  {
    var all := [v] + rest;
    forall w | w in rest ensures w in all && w.voter != v.voter {
      var i :| 0 <= i < |rest| && rest[i] == w;
      assert all[i + 1] == w && all[0] == v;
    }
    assert v in all;
  }

  lemma AgreeingCountsSupporters(votes: seq<Vote>, log: seq<Header>, add: bool)
    requires Represents(votes, log)
    ensures |Agreeing(votes, add)| == |Supporters(log, add)|
  {
    AgreeingCountsVoters(votes, add);
    var a, b := VotersFor(votes, add), Supporters(log, add);
    forall s | s in a ensures s in b {
      var v :| v in votes && v.add == add && v.voter == s;
      var i :| 0 <= i < |votes| && votes[i] == v;
      LatestIsLast(log, s);
    }
    forall s | s in b ensures s in a {
      var c :| c in log && c.signer == s;
      var i :| 0 <= i < |votes| && votes[i].voter == s;
      assert votes[i] in votes;
    }
    assert a == b;
  }

  /** The code decides on a header exactly when the poll does. */
  lemma StepRefines(h: Hist, p: Poll, b: Header)
    requires Refines(h, p)
    ensures Refines(Step(h, b), PollStep(p, b))
    ensures |Step(h, b).states| == |h.states| + (if Decides(p, b) then 1 else 0)
  {
    var t := Target(b);
    if Votes(b) {
      var votes, log := PendingFor(h.pending, t), PendingFor(p.log, t);
      CastRepresents(votes, log, b);
      AgreeingCountsSupporters(Cast(votes, VoteOf(b)), log + [b], b.nonce.AddSigner?);
    }
    var h', p' := Step(h, b), PollStep(p, b);
    forall u ensures Represents(PendingFor(h'.pending, u), PendingFor(p'.log, u)) {
      assert Represents(PendingFor(h.pending, u), PendingFor(p.log, u));
    }
  }

  /**
    From the start of an epoch on, the validators are those of the poll that remembers every vote, and a header
    appends a state exactly when it gives its target a majority of signers whose last votes agree.
   */
  lemma {:induction false} RunRefines(h: Hist, blocks: seq<Header>)
    requires h.pending == map[]
    ensures Refines(Run(h, blocks), PollRun(Poll(h.validators, map[]), blocks))
  {
    if blocks != [] {
      RunRefines(h, blocks[..|blocks| - 1]);
      StepRefines(Run(h, blocks[..|blocks| - 1]), PollRun(Poll(h.validators, map[]), blocks[..|blocks| - 1]),
                  blocks[|blocks| - 1]);
    }
  }

  lemma DecidesExactly(h: Hist, blocks: seq<Header>, b: Header)
    requires h.pending == map[]
    ensures |Run(h, blocks + [b]).states| ==
            |Run(h, blocks).states| + (if Decides(PollRun(Poll(h.validators, map[]), blocks), b) then 1 else 0)
  {
    RunRefines(h, blocks);
    StepRefines(Run(h, blocks), PollRun(Poll(h.validators, map[]), blocks), b);
    assert (blocks + [b])[..|blocks + [b]| - 1] == blocks;
  }

  // ---------------------------------------------------------------- what the proofs are worth

  /** The header behind every vote that `Agreeing` selects. */
  function Backers(votes: seq<Vote>, log: seq<Header>, add: bool): seq<Header>
    requires forall i :: 0 <= i < |votes| ==> Latest(log, votes[i].voter).Some?
  {
    if votes == [] then []
    else
      (if votes[0].add == add then [Latest(log, votes[0].voter).value] else []) + Backers(votes[1..], log, add)
  }

  /** `headers` are votes for one direction on `t`, by pairwise different signers. */
  ghost predicate SignedBy(headers: seq<Header>, log: seq<Header>, add: bool)
  {
    && (forall i :: 0 <= i < |headers| ==> headers[i] in log && headers[i].nonce.AddSigner? == add)
    && (forall i, j :: 0 <= i < j < |headers| ==> headers[i].signer != headers[j].signer)
  }

  /** The headers stand for the selected votes one by one. */
  lemma {:induction false} BackersMatch(votes: seq<Vote>, log: seq<Header>, add: bool)
    requires forall i :: 0 <= i < |votes| ==>
             var b := Latest(log, votes[i].voter); b.Some? && votes[i] == VoteOf(b.value)
    ensures var headers := Backers(votes, log, add);
            |headers| == |Agreeing(votes, add)| && forall i :: 0 <= i < |headers| ==>
                headers[i].rlp == Agreeing(votes, add)[i]
  {
    if votes != [] {
      hide Latest;
      var rest := votes[1..];
      assert forall i :: 0 <= i < |rest| ==> rest[i] == votes[i + 1];
      BackersMatch(rest, log, add);
      assert votes[0].add == add ==> Agreeing(votes, add) == [votes[0].block] + Agreeing(rest, add);
    }
  }

  lemma {:induction false} BackersSign(votes: seq<Vote>, log: seq<Header>, add: bool)
    requires DistinctVoters(votes)
    requires forall i :: 0 <= i < |votes| ==>
             var b := Latest(log, votes[i].voter); b.Some? && votes[i] == VoteOf(b.value)
    ensures var headers := Backers(votes, log, add);
            && SignedBy(headers, log, add)
            && (forall i :: 0 <= i < |headers| ==> exists j :: 0 <= j < |votes| && votes[j].voter == headers[i].signer)
  {
    if votes != [] {
      hide Latest;
      var rest := votes[1..];
      BackersSign(rest, log, add);
      LatestIsLast(log, votes[0].voter);
      var headers, fewer := Backers(votes, log, add), Backers(rest, log, add);
      forall i | 0 <= i < |fewer| ensures exists j :: 1 <= j < |votes| && votes[j].voter == fewer[i].signer {
        var j :| 0 <= j < |rest| && rest[j].voter == fewer[i].signer;
        assert votes[j + 1].voter == fewer[i].signer;
      }
      if votes[0].add == add {
        assert headers == [Latest(log, votes[0].voter).value] + fewer;
        assert headers[0].signer == votes[0].voter;
      }
    }
  }

  /**
    The state follows from the list `before` by one change: its proof holds the headers, all among `blocks`, of a
    majority of pairwise different signers voting in one direction on one target.
   */
  ghost predicate Justified(s: State, before: seq<Address>, blocks: seq<Header>)
  {
    exists headers: seq<Header>, t: Address, add: bool :: JustifiedBy(s, before, blocks, headers, t, add)
  }

  ghost predicate JustifiedBy(s: State, before: seq<Address>, blocks: seq<Header>, headers: seq<Header>, t: Address,
                              add: bool)
  {
    && s.validators == Apply(before, t, add)
    && |headers| == |s.proof| >= Majority(|before|)
    && SignedBy(headers, blocks, add)
    && (forall i :: 0 <= i < |headers| ==> headers[i].rlp == s.proof[i] && Votes(headers[i]) && Target(headers[i]) == t)
  }

  /** The states lead from the list `before` to the list `after`, each justified by the one before it. */
  ghost predicate Chained(before: seq<Address>, states: seq<State>, after: seq<Address>, blocks: seq<Header>)
    decreases |states|
  {
    if states == [] then before == after
    else
      var rest, s := states[..|states| - 1], states[|states| - 1];
      var middle := if rest == [] then before else rest[|rest| - 1].validators;
      s.validators == after && Justified(s, middle, blocks) && Chained(before, rest, middle, blocks)
  }

  ghost predicate LogsFrom(p: Poll, blocks: seq<Header>)
  {
    forall t, b :: b in PendingFor(p.log, t) ==> b in blocks && Votes(b) && Target(b) == t
  }

  ghost predicate AllJustified(base: Hist, h: Hist, blocks: seq<Header>)
  {
    base.states <= h.states && Chained(base.validators, h.states[|base.states|..], h.validators, blocks)
  }

  lemma {:induction false} ChainGrows(before: seq<Address>, states: seq<State>, after: seq<Address>,
                                      blocks: seq<Header>, b: Header)
    requires Chained(before, states, after, blocks)
    ensures Chained(before, states, after, blocks + [b])
    decreases |states|
  {
    if states != [] {
      var rest, s := states[..|states| - 1], states[|states| - 1];
      var middle := if rest == [] then before else rest[|rest| - 1].validators;
      JustifiedGrows(s, middle, blocks, b);
      ChainGrows(before, rest, middle, blocks, b);
    }
  }

  lemma ChainAppend(before: seq<Address>, states: seq<State>, after: seq<Address>, s: State, blocks: seq<Header>)
    requires Chained(before, states, after, blocks) && Justified(s, after, blocks)
    ensures Chained(before, states + [s], s.validators, blocks)
  {
    assert (states + [s])[..|states|] == states;
  }

  lemma JustifiedGrows(s: State, before: seq<Address>, blocks: seq<Header>, b: Header)
    requires Justified(s, before, blocks)
    ensures Justified(s, before, blocks + [b])
  {
    var headers: seq<Header>, t: Address, add: bool :| JustifiedBy(s, before, blocks, headers, t, add);
    assert JustifiedBy(s, before, blocks + [b], headers, t, add);
  }

  function NewState(h: Hist, b: Header): State
  {
    var add := b.nonce.AddSigner?;
    State(b.number, Apply(h.validators, Target(b), add),
          Agreeing(Cast(PendingFor(h.pending, Target(b)), VoteOf(b)), add))
  }

  lemma StepShape(h: Hist, p: Poll, b: Header)
    requires Refines(h, p)
    ensures Decides(p, b) ==> Step(h, b).states == h.states + [NewState(h, b)]
                              && Step(h, b).validators == NewState(h, b).validators
                              && |NewState(h, b).proof| >= Majority(|h.validators|)
    ensures !Decides(p, b) ==> Step(h, b).states == h.states && Step(h, b).validators == h.validators
  {
    StepRefines(h, p, b);
  }

  lemma LogsGrow(p: Poll, blocks: seq<Header>, b: Header)
    requires LogsFrom(p, blocks)
    ensures LogsFrom(PollStep(p, b), blocks + [b])
  {
    var p' := PollStep(p, b);
    forall t, c | c in PendingFor(p'.log, t) ensures c in blocks + [b] && Votes(c) && Target(c) == t {
      assert c in PendingFor(p.log, t) || c == b;
    }
  }

  lemma AllGrows(base: Hist, h: Hist, blocks: seq<Header>, b: Header)
    requires AllJustified(base, h, blocks)
    ensures AllJustified(base, h, blocks + [b])
  {
    ChainGrows(base.validators, h.states[|base.states|..], h.validators, blocks, b);
  }

  lemma AllAppend(base: Hist, h: Hist, h': Hist, s: State, blocks: seq<Header>)
    requires AllJustified(base, h, blocks) && Justified(s, h.validators, blocks)
    requires h'.states == h.states + [s] && h'.validators == s.validators
    ensures AllJustified(base, h', blocks)
  {
    hide Justified, Chained;
    var n := |base.states|;
    ChainAppend(base.validators, h.states[n..], h.validators, s, blocks);
    assert h'.states[n..] == h.states[n..] + [s];
  }

  lemma AllStay(base: Hist, h: Hist, h': Hist, blocks: seq<Header>)
    requires AllJustified(base, h, blocks) && h'.states == h.states && h'.validators == h.validators
    ensures AllJustified(base, h', blocks)
  {
  }

  lemma StepJustifies(base: Hist, h: Hist, p: Poll, blocks: seq<Header>, b: Header)
    requires Refines(h, p) && LogsFrom(p, blocks) && AllJustified(base, h, blocks)
    ensures AllJustified(base, Step(h, b), blocks + [b])
  {
    hide Step, Refines, Decides, Justified, LogsFrom, AllJustified, NewState;
    StepShape(h, p, b);
    AllGrows(base, h, blocks, b);
    if Decides(p, b) {
      NewStateIsJustified(h, p, blocks, b);
      AllAppend(base, h, Step(h, b), NewState(h, b), blocks + [b]);
    } else {
      AllStay(base, h, Step(h, b), blocks + [b]);
    }
  }

  lemma NewStateIsJustified(h: Hist, p: Poll, blocks: seq<Header>, b: Header)
    requires Refines(h, p) && LogsFrom(p, blocks) && Decides(p, b)
    ensures Justified(NewState(h, b), h.validators, blocks + [b])
    ensures forall x :: x in NewState(h, b).proof ==> exists c :: c in PendingFor(p.log, Target(b)) + [b] && c.rlp == x
  {
    hide Latest, Agreeing, Cast, Apply, Step;
    var t, add := Target(b), b.nonce.AddSigner?;
    var earlier, log := PendingFor(p.log, t), PendingFor(p.log, t) + [b];
    assert Represents(PendingFor(h.pending, t), earlier);
    CastRepresents(PendingFor(h.pending, t), earlier, b);
    StepShape(h, p, b);
    SupportersJustify(Cast(PendingFor(h.pending, t), VoteOf(b)), log, NewState(h, b), h.validators,
                      blocks + [b], t, add);
  }

  lemma SupportersJustify(votes: seq<Vote>, log: seq<Header>, s: State, before: seq<Address>, blocks: seq<Header>,
                          t: Address, add: bool)
    requires Represents(votes, log) && s.proof == Agreeing(votes, add) && s.validators == Apply(before, t, add)
    requires |s.proof| >= Majority(|before|)
    requires forall c :: c in log ==> c in blocks && Votes(c) && Target(c) == t
    ensures Justified(s, before, blocks)
    ensures forall x :: x in s.proof ==> exists c :: c in log && c.rlp == x
  {
    BackersSign(votes, log, add);
    BackersMatch(votes, log, add);
    var headers := Backers(votes, log, add);
    forall i | 0 <= i < |headers| ensures headers[i] in blocks && Votes(headers[i]) && Target(headers[i]) == t {
      assert headers[i] in log;
    }
    assert JustifiedBy(s, before, blocks, headers, t, add);
    forall x | x in s.proof ensures exists c :: c in log && c.rlp == x {
      var i :| 0 <= i < |s.proof| && s.proof[i] == x;
      assert headers[i] in log && headers[i].rlp == x;
    }
  }

  /** Every state appended since the start of an epoch is justified by the headers seen since then. */
  lemma {:induction false} StatesAreJustified(h: Hist, blocks: seq<Header>)
    requires h.pending == map[]
    ensures AllJustified(h, Run(h, blocks), blocks)
    ensures LogsFrom(PollRun(Poll(h.validators, map[]), blocks), blocks)
  {
    if blocks != [] {
      var n := |blocks| - 1;
      assert blocks == blocks[..n] + [blocks[n]];
      StatesAreJustified(h, blocks[..n]);
      RunRefines(h, blocks[..n]);
      var poll := PollRun(Poll(h.validators, map[]), blocks[..n]);
      StepJustifies(h, Run(h, blocks[..n]), poll, blocks[..n], blocks[n]);
      LogsGrow(poll, blocks[..n], blocks[n]);
    }
  }

  // ---------------------------------------------------------------- no header is used twice

  ghost predicate DistinctRlps(blocks: seq<Header>)
  {
    forall i, j :: 0 <= i < j < |blocks| ==> blocks[i].rlp != blocks[j].rlp
  }

  /** `x` is in the proof of one of the states from `n` on. */
  ghost predicate Used(states: seq<State>, n: nat, x: Rlp)
  {
    exists k :: n <= k < |states| && x in states[k].proof
  }

  ghost predicate RlpIn(blocks: seq<Header>, x: Rlp)
  {
    exists b :: b in blocks && b.rlp == x
  }

  ghost predicate RlpOnLog(p: Poll, x: Rlp)
  {
    exists t, b :: b in PendingFor(p.log, t) && b.rlp == x
  }

  /** No two of the states from `n` on share a header, and no header of theirs is still on a log. */
  ghost predicate UsedOnce(n: nat, h: Hist, p: Poll, blocks: seq<Header>)
  {
    && (forall x :: Used(h.states, n, x) ==> RlpIn(blocks, x) && !RlpOnLog(p, x))
    && (forall j, k, x :: n <= j < k < |h.states| && x in h.states[j].proof ==> x !in h.states[k].proof)
  }

  lemma LogAfterStep(p: Poll, b: Header, t: Address, c: Header)
    requires c in PendingFor(PollStep(p, b).log, t)
    ensures (c in PendingFor(p.log, t) || c == b) && (Decides(p, b) ==> c in PendingFor(p.log, t) && t != Target(b))
  {
  }

  lemma RlpGrows(p: Poll, blocks: seq<Header>, b: Header, x: Rlp)
    requires DistinctRlps(blocks + [b])
    ensures RlpIn(blocks, x) ==> RlpIn(blocks + [b], x) && x != b.rlp
    ensures RlpIn(blocks, x) && !RlpOnLog(p, x) ==> !RlpOnLog(PollStep(p, b), x)
  {
    NewRlp(blocks, b);
    if RlpOnLog(PollStep(p, b), x) {
      var t, c :| c in PendingFor(PollStep(p, b).log, t) && c.rlp == x;
      LogAfterStep(p, b, t, c);
    }
  }

  /** A header of the log that decides is on no other log afterwards. */
  lemma SpentHeader(p: Poll, blocks: seq<Header>, b: Header, c: Header)
    requires LogsFrom(p, blocks) && Decides(p, b) && DistinctRlps(blocks + [b])
    requires c in PendingFor(p.log, Target(b)) + [b]
    ensures c in blocks + [b] && !RlpOnLog(PollStep(p, b), c.rlp)
  {
    NewRlp(blocks, b);
    assert c == b || c in PendingFor(p.log, Target(b));
    if RlpOnLog(PollStep(p, b), c.rlp) {
      var t, d :| d in PendingFor(PollStep(p, b).log, t) && d.rlp == c.rlp;
      LogAfterStep(p, b, t, d);
      SameRlpSameHeader(blocks + [b], c, d);
    }
  }

  lemma ProofIsNew(n: nat, h: Hist, p: Poll, blocks: seq<Header>, b: Header, x: Rlp)
    requires Refines(h, p) && LogsFrom(p, blocks) && UsedOnce(n, h, p, blocks) && Decides(p, b)
    requires DistinctRlps(blocks + [b]) && x in NewState(h, b).proof
    ensures RlpIn(blocks + [b], x) && !Used(h.states, n, x) && !RlpOnLog(PollStep(p, b), x)
  {
    NewStateIsJustified(h, p, blocks, b);
    NewRlp(blocks, b);
    var c :| c in PendingFor(p.log, Target(b)) + [b] && c.rlp == x;
    SpentHeader(p, blocks, b, c);
    assert c != b ==> c in PendingFor(p.log, Target(b));
    assert c != b ==> RlpOnLog(p, x);
  }

  lemma StepUsesOnce(n: nat, h: Hist, p: Poll, blocks: seq<Header>, b: Header)
    requires n <= |h.states| && Refines(h, p) && LogsFrom(p, blocks) && UsedOnce(n, h, p, blocks)
    requires DistinctRlps(blocks + [b])
    ensures UsedOnce(n, Step(h, b), PollStep(p, b), blocks + [b])
  {
    var h', p', more := Step(h, b), PollStep(p, b), blocks + [b];
    StepShape(h, p, b);
    forall x | Used(h'.states, n, x)
      ensures RlpIn(more, x) && !RlpOnLog(p', x)
    {
      if Used(h.states, n, x) {
        RlpGrows(p, blocks, b, x);
      } else {
        ProofIsNew(n, h, p, blocks, b, x);
      }
    }
    forall j, k, x | n <= j < k < |h'.states| && x in h'.states[j].proof
      ensures x !in h'.states[k].proof
    {
      if k == |h.states| && x in NewState(h, b).proof {
        ProofIsNew(n, h, p, blocks, b, x);
        assert Used(h.states, n, x);
      }
    }
  }

  lemma NewRlp(blocks: seq<Header>, b: Header)
    requires DistinctRlps(blocks + [b])
    ensures b in blocks + [b] && forall c :: c in blocks ==> c in blocks + [b] && c.rlp != b.rlp
  {
    var more := blocks + [b];
    forall c | c in blocks ensures c in more && c.rlp != b.rlp {
      var i :| 0 <= i < |blocks| && blocks[i] == c;
      assert more[i] == c && more[|blocks|] == b;
    }
    assert more[|blocks|] == b;
  }

  lemma SameRlpSameHeader(blocks: seq<Header>, c: Header, d: Header)
    requires DistinctRlps(blocks) && c in blocks && d in blocks && c.rlp == d.rlp
    ensures c == d
  {
  }

  /** Over headers with different serializations, no header serves in the proofs of two states. */
  lemma {:induction false} NoHeaderTwice(h: Hist, blocks: seq<Header>)
    requires h.pending == map[] && DistinctRlps(blocks)
    ensures |h.states| <= |Run(h, blocks).states|
    ensures UsedOnce(|h.states|, Run(h, blocks), PollRun(Poll(h.validators, map[]), blocks), blocks)
  {
    if blocks != [] {
      var n := |blocks| - 1;
      assert blocks == blocks[..n] + [blocks[n]];
      NoHeaderTwice(h, blocks[..n]);
      RunRefines(h, blocks[..n]);
      StatesAreJustified(h, blocks[..n]);
      var before, poll := Run(h, blocks[..n]), PollRun(Poll(h.validators, map[]), blocks[..n]);
      StepRefines(before, poll, blocks[n]);
      StepUsesOnce(|h.states|, before, poll, blocks[..n], blocks[n]);
    }
  }
}
