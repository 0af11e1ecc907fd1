/**
  What an update adds to the history, across epochs: the states that a poll over the headers decides on, all of them,
  and no others.
 */
module CliqueUpdates {
  import opened Bytes
  import opened CliqueVotes
  import opened CliqueHistory

  // ---------------------------------------------------------------- the search for votes before an epoch block

  /** The headers from `from` up to `to`. */
  function Blocks(node: Node, from: nat, to: int): (r: seq<Header>)
    ensures |r| == if to < from then 0 else to + 1 - from
  {
    if to < from then [] else HeadersOf(Range(node, from, to + 1 - from))
  }

  /** Where the chunks read after the last checked block end. */
  predicate ChunkEnd(h: Hist, m: int)
  {
    h.lastCheckedBlock < m && (m - h.lastCheckedBlock) % CHUNK == 0
  }

  /**
    The search before the epoch block `bn` ends at block `e`: the first end of a chunk with the validators of the list,
    or else the epoch block.
   */
  ghost predicate SearchEnds(h: Hist, node: Node, bn: nat, list: seq<Address>, e: nat)
    requires h.lastCheckedBlock >= -1
  {
    && h.lastCheckedBlock < e <= bn
    && (e == bn || (ChunkEnd(h, e) && SameList(list, CaughtUp(h, node, e).validators)))
    && forall m: nat :: m < e && ChunkEnd(h, m) ==> !SameList(list, CaughtUp(h, node, m).validators)
  }

  lemma {:induction false} SearchFrom(start: Hist, node: Node, j: nat, bn: nat, list: seq<Address>, e: nat)
    requires start.lastCheckedBlock >= -1 && SearchEnds(start, node, bn, list, e) && Numbered(node)
    requires start.lastCheckedBlock < j <= e && (j - 1 - start.lastCheckedBlock) % CHUNK == 0
    ensures var r := SearchVotes(CaughtUp(start, node, j - 1), node, j, bn, list);
            (r.ok <==> NoStop(node, j, e)) && (r.ok ==> r.h == CaughtUp(start, node, e))
    decreases e - j
  {
    hide CaughtUp, UpdatedBy, Updated, SameList, Stops, Range, HeadersOf, SkippedFrom;
    var len := Min(CHUNK, bn - j + 1);
    var m := j + len - 1;
    if !NoStop(node, j, m) {
      var b := FirstStop(node, j, m);
      BadChunk(start, node, j, len, b);
    } else {
      GoodChunk(CaughtUp(start, node, j - 1), node, j, len);
      ChunkExtends(start, CaughtUp(start, node, j - 1), node, j, len);
      if m < e {
        assert ChunkEnd(start, m);
        SearchFrom(start, node, j + CHUNK, bn, list, e);
        assert NoStop(node, j, e) <==> NoStop(node, m + 1, e);
      }
    }
  }

  /**
    Passing an epoch block. An unchanged list adds nothing. For a changed one the headers from the last checked block to
    the end of the search are counted in a single run, and only a reply among them stops the update.
   */
  lemma PassesExactly(h: Hist, node: Node, bn: nat, list: seq<Address>, e: nat)
    requires -1 <= h.lastCheckedBlock < bn && Numbered(node)
    ensures SameList(h.validators, list) ==> PassEpoch(h, node, bn, list) == Outcome(true, EpochReset(h, bn, list))
    ensures !SameList(h.validators, list) && SearchEnds(h, node, bn, list, e) ==>
              var r := PassEpoch(h, node, bn, list);
              && (r.ok <==> NoStop(node, h.lastCheckedBlock + 1, e))
              && (r.ok ==> r.h == EpochReset(Run(h, Blocks(node, h.lastCheckedBlock + 1, e)), bn, list))
  {
    hide CaughtUp, SearchVotes, SameList, SearchEnds, Run;
    if !SameList(h.validators, list) && SearchEnds(h, node, bn, list, e) {
      EndIsAhead(h, node, bn, list, e);
      CaughtUpThere(h, node);
      SearchFrom(h, node, h.lastCheckedBlock + 1, bn, list, e);
      CaughtUpRuns(h, node, e);
    }
  }

  lemma EndIsAhead(h: Hist, node: Node, bn: nat, list: seq<Address>, e: nat)
    requires h.lastCheckedBlock >= -1 && SearchEnds(h, node, bn, list, e)
    ensures h.lastCheckedBlock < e <= bn
  {
  }

  lemma CaughtUpThere(h: Hist, node: Node)
    requires h.lastCheckedBlock >= -1
    ensures CaughtUp(h, node, h.lastCheckedBlock) == h
  {
  }

  lemma CaughtUpRuns(h: Hist, node: Node, to: int)
    requires -1 <= h.lastCheckedBlock <= to && Numbered(node)
    ensures CaughtUp(h, node, to) == Run(h, Blocks(node, h.lastCheckedBlock + 1, to)).(lastCheckedBlock := to)
  {
    if h.lastCheckedBlock < to {
      hide Run, Updated, CaughtUp, Blocks, Numbered;
      CaughtUpIsUpdated(h, node, to);
      LastBlock(node, h.lastCheckedBlock + 1, to);
      UpdatedRuns(h, Blocks(node, h.lastCheckedBlock + 1, to), to);
    } else {
      NothingRuns(h);
    }
  }

  lemma CaughtUpIsUpdated(h: Hist, node: Node, to: nat)
    requires -1 <= h.lastCheckedBlock < to
    ensures Blocks(node, h.lastCheckedBlock + 1, to) != []
    ensures CaughtUp(h, node, to) == Updated(h, Blocks(node, h.lastCheckedBlock + 1, to))
  {
    hide Updated;
  }

  lemma LastBlock(node: Node, from: nat, to: nat)
    requires from <= to && Numbered(node)
    ensures var blocks := Blocks(node, from, to); blocks[|blocks| - 1].number == to
  {
    var blocks := Blocks(node, from, to);
    assert blocks[|blocks| - 1] == node(to).header;
  }

  lemma UpdatedRuns(h: Hist, blocks: seq<Header>, last: int)
    requires blocks != [] && blocks[|blocks| - 1].number == last
    ensures Updated(h, blocks) == Run(h, blocks).(lastCheckedBlock := last)
  {
    hide Run;
    RunIgnoresChecked(h, blocks, last);
  }

  // ---------------------------------------------------------------- the decisions of a poll

  /** A list that a poll decides on, and the block whose vote did it. */
  datatype Decision = Decision(block: nat, validators: seq<Address>)

  /** The decisions of the poll over the headers, one by one. */
  function Decisions(p: Poll, blocks: seq<Header>): seq<Decision>
  {
    if blocks == [] then []
    else
      var n := |blocks| - 1;
      Decisions(p, blocks[..n]) + DecisionOf(PollRun(p, blocks[..n]), blocks[n])
  }

  function DecisionOf(p: Poll, b: Header): seq<Decision>
  {
    if Decides(p, b) then [Decision(b.number, PollStep(p, b).validators)] else []
  }

  /** Exactly the headers that decide when they come have a decision. */
  lemma {:induction false} EveryDecision(p: Poll, blocks: seq<Header>, d: Decision)
    ensures d in Decisions(p, blocks) <==>
            exists k :: 0 <= k < |blocks| && DecidedAt(p, blocks, k, d)
  {
    if blocks != [] {
      hide DecidedAt;
      var n := |blocks| - 1;
      EveryDecision(p, blocks[..n], d);
      forall k | 0 <= k < n ensures DecidedAt(p, blocks, k, d) <==> DecidedAt(p, blocks[..n], k, d) {
        SameDecision(p, blocks, k, d);
      }
      LastDecision(p, blocks, d);
      hide Decisions;
    }
  }

  /** The header at `k` decides when it comes, and `d` is what it decides. */
  predicate DecidedAt(p: Poll, blocks: seq<Header>, k: nat, d: Decision)
    requires k < |blocks|
  {
    d in DecisionOf(PollRun(p, blocks[..k]), blocks[k])
  }

  lemma SameDecision(p: Poll, blocks: seq<Header>, k: nat, d: Decision)
    requires k < |blocks| - 1
    ensures DecidedAt(p, blocks, k, d) <==> DecidedAt(p, blocks[..|blocks| - 1], k, d)
  {
    assert blocks[..|blocks| - 1][..k] == blocks[..k];
  }

  lemma LastDecision(p: Poll, blocks: seq<Header>, d: Decision)
    requires blocks != []
    ensures d in Decisions(p, blocks)
            <==> d in Decisions(p, blocks[..|blocks| - 1]) || DecidedAt(p, blocks, |blocks| - 1, d)
  {
    hide DecisionOf, PollRun;
  }

  /** What the states say, without their proofs. */
  function Told(states: seq<State>): (r: seq<Decision>)
    ensures |r| == |states|
  {
    seq(|states|, i requires 0 <= i < |states| => Decision(states[i].block, states[i].validators))
  }

  lemma ToldConcat(a: seq<State>, b: seq<State>)
    ensures Told(a + b) == Told(a) + Told(b)
  {
  }

  /** A run adds exactly the decisions of the poll. */
  lemma {:induction false} RunDecides(h: Hist, p: Poll, blocks: seq<Header>)
    requires Refines(h, p)
    ensures Refines(Run(h, blocks), PollRun(p, blocks))
    ensures Told(Run(h, blocks).states) == Told(h.states) + Decisions(p, blocks)
  {
    if blocks != [] {
      hide Refines, Decides, Step, PollStep, Told;
      var n := |blocks| - 1;
      var before, q := Run(h, blocks[..n]), PollRun(p, blocks[..n]);
      RunDecides(h, p, blocks[..n]);
      StepRefines(before, q, blocks[n]);
      StepTells(before, q, blocks[n]);
    } else {
      assert Told(h.states) + [] == Told(h.states);
    }
  }

  lemma StepTells(h: Hist, p: Poll, b: Header)
    requires Refines(h, p)
    ensures Told(Step(h, b).states) == Told(h.states) + DecisionOf(p, b)
  {
    hide Refines, Decides, Step, PollStep;
    StepShape(h, p, b);
    StepValidators(h, p, b);
    if Decides(p, b) {
      ToldConcat(h.states, [NewState(h, b)]);
    }
  }

  lemma StepValidators(h: Hist, p: Poll, b: Header)
    requires Refines(h, p)
    ensures Step(h, b).validators == PollStep(p, b).validators
  {
    StepRefines(h, p, b);
  }

  // ---------------------------------------------------------------- an update, through the poll

  /** The first of the blocks `m`, `m` + 100 and so on at which the poll has come to the list, or else `bn`. */
  function EndOfSearch(p: Poll, node: Node, from: nat, m: nat, bn: nat, list: seq<Address>): (e: nat)
    requires from <= m && from <= bn
    ensures from <= e <= bn
    decreases bn - m
  {
    if m >= bn then bn
    else if SameList(list, PollRun(p, Blocks(node, from, m)).validators) then m
    else EndOfSearch(p, node, from, m + CHUNK, bn, list)
  }

  /** The decisions before an epoch block: none if its list is the one known already. */
  function EpochDecisions(p: Poll, node: Node, from: nat, bn: nat, list: seq<Address>): seq<Decision>
    requires from <= bn
  {
    if SameList(p.validators, list) then []
    else Decisions(p, Blocks(node, from, EndOfSearch(p, node, from, from - 1 + CHUNK, bn, list)))
  }

  /** The decisions of an update: before each epoch block, where a new poll starts from its list, and after the last. */
  function UpdateDecisions(p: Poll, node: Node, lists: EpochLists, epoch: nat, from: nat, i: nat, currentBlock: nat)
    : seq<Decision>
    requires epoch > 0 && from <= i
    decreases currentBlock + epoch - i
  {
    if i > currentBlock then Decisions(p, Blocks(node, from, currentBlock))
    else if lists(i).None? then []
    else
      EpochDecisions(p, node, from, i, lists(i).value)
      + UpdateDecisions(Poll(lists(i).value, map[]), node, lists, epoch, i + 1, i + epoch, currentBlock)
  }

  /** Every list is there, and no reply that is counted stops the update. */
  ghost predicate Undisturbed(p: Poll, node: Node, lists: EpochLists, epoch: nat, from: nat, i: nat, currentBlock: nat)
    requires epoch > 0 && from <= i
    decreases currentBlock + epoch - i
  {
    if i > currentBlock then NoStop(node, from, currentBlock)
    else
      && lists(i).Some?
      && (SameList(p.validators, lists(i).value)
          || NoStop(node, from, EndOfSearch(p, node, from, from - 1 + CHUNK, i, lists(i).value)))
      && Undisturbed(Poll(lists(i).value, map[]), node, lists, epoch, i + 1, i + epoch, currentBlock)
  }

  /** At no chunk end before `m` the history has come to the list. */
  ghost predicate NoneBefore(h: Hist, node: Node, bn: nat, list: seq<Address>, m: nat)
    requires h.lastCheckedBlock >= -1
  {
    forall k: nat :: k < m && k < bn && ChunkEnd(h, k) ==> !SameList(list, CaughtUp(h, node, k).validators)
  }

  lemma EndFound(h: Hist, node: Node, bn: nat, list: seq<Address>, m: nat)
    requires -1 <= h.lastCheckedBlock < bn && NoneBefore(h, node, bn, list, m) && ChunkEnd(h, m)
    ensures m >= bn ==> SearchEnds(h, node, bn, list, bn)
    ensures m < bn && SameList(list, CaughtUp(h, node, m).validators) ==> SearchEnds(h, node, bn, list, m)
    ensures m < bn && !SameList(list, CaughtUp(h, node, m).validators) ==>
              NoneBefore(h, node, bn, list, m + CHUNK) && ChunkEnd(h, m + CHUNK)
  {
    hide CaughtUp, SameList;
    if m < bn && !SameList(list, CaughtUp(h, node, m).validators) {
      forall k: nat | k < m + CHUNK && k < bn && ChunkEnd(h, k)
        ensures !SameList(list, CaughtUp(h, node, k).validators)
      {
        NoneBetween(k - h.lastCheckedBlock, m - h.lastCheckedBlock);
      }
    }
  }

  /** The poll comes to the list where the history does. */
  lemma {:induction false} EndsThere(h: Hist, p: Poll, node: Node, m: nat, bn: nat, list: seq<Address>)
    requires -1 <= h.lastCheckedBlock < bn && Refines(h, p) && Numbered(node) && ChunkEnd(h, m)
    requires NoneBefore(h, node, bn, list, m)
    ensures SearchEnds(h, node, bn, list, EndOfSearch(p, node, h.lastCheckedBlock + 1, m, bn, list))
    decreases bn - m
  {
    hide CaughtUp, SameList, Refines, Run, PollRun, SearchEnds, NoneBefore;
    EndFound(h, node, bn, list, m);
    if m < bn {
      CaughtUpRuns(h, node, m);
      RunDecides(h, p, Blocks(node, h.lastCheckedBlock + 1, m));
      SameValidators(Run(h, Blocks(node, h.lastCheckedBlock + 1, m)),
                     PollRun(p, Blocks(node, h.lastCheckedBlock + 1, m)));
      if !SameList(list, CaughtUp(h, node, m).validators) {
        EndsThere(h, p, node, m + CHUNK, bn, list);
      }
    }
  }

  lemma NoneBetween(a: nat, b: nat)
    requires a % CHUNK == 0 && b % CHUNK == 0 && a < b + CHUNK
    ensures a <= b
  {
  }

  lemma SameValidators(h: Hist, p: Poll)
    requires Refines(h, p)
    ensures h.validators == p.validators
  {
  }

  lemma ResetRefines(h: Hist, bn: nat, list: seq<Address>)
    ensures Refines(EpochReset(h, bn, list), Poll(list, map[]))
  {
  }

  lemma PassDecides(h: Hist, p: Poll, node: Node, bn: nat, list: seq<Address>)
    requires -1 <= h.lastCheckedBlock < bn && Refines(h, p) && Numbered(node)
    ensures var r := PassEpoch(h, node, bn, list); var from := h.lastCheckedBlock + 1;
            && (r.ok <==> SameList(p.validators, list)
                          || NoStop(node, from, EndOfSearch(p, node, from, from - 1 + CHUNK, bn, list)))
            && (r.ok ==> Refines(r.h, Poll(list, map[])) && r.h.lastCheckedBlock == bn
                         && Told(r.h.states) == Told(h.states) + EpochDecisions(p, node, from, bn, list))
  {
    hide SameList, Refines, Run, PassEpoch, SearchEnds, CaughtUp, Told, NoStop;
    var from := h.lastCheckedBlock + 1;
    var e := EndOfSearch(p, node, from, from - 1 + CHUNK, bn, list);
    SameValidators(h, p);
    FirstChunkEnd(h, from - 1 + CHUNK);
    EndsThere(h, p, node, from - 1 + CHUNK, bn, list);
    PassesExactly(h, node, bn, list, e);
    RunDecides(h, p, Blocks(node, from, e));
    ResetRefines(h, bn, list);
    ResetRefines(Run(h, Blocks(node, from, e)), bn, list);
    assert Told(h.states) + [] == Told(h.states);
  }

  lemma FirstChunkEnd(h: Hist, m: int)
    requires m == h.lastCheckedBlock + CHUNK
    ensures ChunkEnd(h, m) && forall k: nat :: k < m ==> !ChunkEnd(h, k)
  {
  }

  lemma NothingToRead(h: Hist, node: Node, to: nat)
    requires h.lastCheckedBlock >= to
    ensures ReadChunks(h, node, h.lastCheckedBlock + 1, to) == Outcome(true, h) && Run(h, []) == h
    ensures NoStop(node, h.lastCheckedBlock + 1, to) && Blocks(node, h.lastCheckedBlock + 1, to) == []
  {
  }

  lemma {:induction false} PassesDecide(h: Hist, p: Poll, node: Node, lists: EpochLists, epoch: nat, i: nat,
                                        currentBlock: nat)
    requires epoch > 0 && -1 <= h.lastCheckedBlock < i
    requires Refines(h, p) && Numbered(node)
    ensures var r := PassEpochs(h, node, lists, epoch, i, currentBlock);
            var all := if r.ok then ReadChunks(r.h, node, r.h.lastCheckedBlock + 1, currentBlock) else r;
            && (all.ok <==> Undisturbed(p, node, lists, epoch, h.lastCheckedBlock + 1, i, currentBlock))
            && (all.ok ==> Told(all.h.states) == Told(h.states)
                           + UpdateDecisions(p, node, lists, epoch, h.lastCheckedBlock + 1, i, currentBlock))
    decreases currentBlock + epoch - i
  {
    hide Refines, PassEpoch, ReadChunks, Told, EpochDecisions, NoStop, SameList, Run, Decisions;
    var from := h.lastCheckedBlock + 1;
    if i > currentBlock {
      if h.lastCheckedBlock <= currentBlock {
        ReadsExactly(h, node, currentBlock);
        CaughtUpRuns(h, node, currentBlock);
      } else {
        NothingToRead(h, node, currentBlock);
      }
      RunDecides(h, p, Blocks(node, from, currentBlock));
    } else if lists(i).Some? {
      var list := lists(i).value;
      PassDecides(h, p, node, i, list);
      var r := PassEpoch(h, node, i, list);
      if r.ok {
        var rest := UpdateDecisions(Poll(list, map[]), node, lists, epoch, i + 1, i + epoch, currentBlock);
        PassesDecide(r.h, Poll(list, map[]), node, lists, epoch, i + epoch, currentBlock);
        assert Told(h.states) + EpochDecisions(p, node, from, i, list) + rest
            == Told(h.states) + (EpochDecisions(p, node, from, i, list) + rest);
      }
    }
  }

  /**
    An update comes to its end if and only if every epoch list is there and no reply that is counted stops it. It then
    adds exactly the states that the poll decides on, in order: none before an epoch block with an unchanged list;
    before one with a changed list those of the headers up to the end of the search; and those after the last epoch
    block.
   */
  lemma UpdateIsComplete(h: Hist, p: Poll, node: Node, lists: EpochLists, epoch: nat, currentBlock: nat)
    requires epoch > 0 && 0 <= h.lastCheckedBlock && Refines(h, p) && Numbered(node)
    ensures var r := CliqueUpdate(h, node, lists, epoch, currentBlock);
            var from, i := h.lastCheckedBlock + 1, NextEpoch(h.lastCheckedBlock, epoch);
            && (r.ok <==> Undisturbed(p, node, lists, epoch, from, i, currentBlock))
            && (r.ok ==> Told(r.h.states)
                         == Told(h.states) + UpdateDecisions(p, node, lists, epoch, from, i, currentBlock))
  {
    hide Refines, PassEpochs, ReadChunks, Told, Undisturbed, UpdateDecisions;
    PassesDecide(h, p, node, lists, epoch, NextEpoch(h.lastCheckedBlock, epoch), currentBlock);
  }

  /**
    In particular, with a changed list every header up to the end of the search that decides when it comes has its state
    after the update.
   */
  lemma DecidedBeforeEpoch(h: Hist, p: Poll, node: Node, lists: EpochLists, epoch: nat, currentBlock: nat, k: nat)
    requires epoch > 0 && 0 <= h.lastCheckedBlock && Refines(h, p) && Numbered(node)
    requires CliqueUpdate(h, node, lists, epoch, currentBlock).ok
    requires NextEpoch(h.lastCheckedBlock, epoch) <= currentBlock
    requires var bn := NextEpoch(h.lastCheckedBlock, epoch);
             lists(bn).Some? && !SameList(p.validators, lists(bn).value)
    requires var bn, from := NextEpoch(h.lastCheckedBlock, epoch), h.lastCheckedBlock + 1;
             var blocks := Blocks(node, from, EndOfSearch(p, node, from, from - 1 + CHUNK, bn, lists(bn).value));
             k < |blocks| && Decides(PollRun(p, blocks[..k]), blocks[k])
    ensures var bn, from := NextEpoch(h.lastCheckedBlock, epoch), h.lastCheckedBlock + 1;
            var blocks := Blocks(node, from, EndOfSearch(p, node, from, from - 1 + CHUNK, bn, lists(bn).value));
            Decision(blocks[k].number, PollRun(p, blocks[..k + 1]).validators)
            in Told(CliqueUpdate(h, node, lists, epoch, currentBlock).h.states)
  {
    hide Refines, CliqueUpdate, Told, Undisturbed, SameList, Decides, Decisions, EndOfSearch, Blocks;
    var bn, from := NextEpoch(h.lastCheckedBlock, epoch), h.lastCheckedBlock + 1;
    var blocks := Blocks(node, from, EndOfSearch(p, node, from, from - 1 + CHUNK, bn, lists(bn).value));
    var d := Decision(blocks[k].number, PollRun(p, blocks[..k + 1]).validators);
    UpdateIsComplete(h, p, node, lists, epoch, currentBlock);
    assert blocks[..k + 1][..k] == blocks[..k];
    assert DecidedAt(p, blocks, k, d);
    EveryDecision(p, blocks, d);
    assert d in EpochDecisions(p, node, from, bn, lists(bn).value);
  }

  // ---------------------------------------------------------------- the last change

  /** States were only appended, and the last change is the block of the last one appended, if any was. */
  predicate ChangeFollows(h: Hist, h': Hist)
  {
    && h.states <= h'.states
    && h'.lastValidatorChange
       == if |h'.states| > |h.states| then h'.states[|h'.states| - 1].block else h.lastValidatorChange
  }

  lemma CountFollows(h: Hist, r: Reply)
    ensures ChangeFollows(h, Count(h, r).h)
  {
  }

  lemma {:induction false} CountAllFollows(h: Hist, rs: seq<Reply>)
    ensures ChangeFollows(h, CountAll(h, rs).h)
  {
    if rs != [] {
      hide Count;
      var n := |rs| - 1;
      CountAllFollows(h, rs[..n]);
      CountFollows(CountAll(h, rs[..n]).h, rs[n]);
    }
  }

  lemma UpdatedFollows(h: Hist, rs: seq<Reply>)
    requires rs != []
    ensures ChangeFollows(h, UpdatedBy(h, rs).h)
  {
    hide CountAll;
    CountAllFollows(h.(lastCheckedBlock := rs[|rs| - 1].header.number), rs);
  }

  lemma {:induction false} ReadFollows(h: Hist, node: Node, j: nat, to: nat)
    ensures ChangeFollows(h, ReadChunks(h, node, j, to).h)
    decreases 1 + to - j
  {
    if j <= to {
      hide UpdatedBy;
      var rs := Range(node, j, Min(CHUNK, to + 1 - j));
      UpdatedFollows(h, rs);
      if UpdatedBy(h, rs).ok {
        ReadFollows(UpdatedBy(h, rs).h, node, j + CHUNK, to);
      }
    }
  }

  lemma {:induction false} SearchFollows(h: Hist, node: Node, j: nat, bn: nat, list: seq<Address>)
    ensures ChangeFollows(h, SearchVotes(h, node, j, bn, list).h)
    decreases bn + 1 - j
  {
    if j <= bn {
      hide UpdatedBy, SameList;
      var rs := Range(node, j, Min(CHUNK, bn - j + 1));
      var r := UpdatedBy(h, rs);
      UpdatedFollows(h, rs);
      if r.ok && !SameList(list, r.h.validators) {
        SearchFollows(r.h, node, j + CHUNK, bn, list);
      }
    }
  }

  lemma {:induction false} PassesFollow(h: Hist, node: Node, lists: EpochLists, epoch: nat, i: nat, currentBlock: nat)
    requires epoch > 0 && h.lastCheckedBlock >= -1
    ensures ChangeFollows(h, PassEpochs(h, node, lists, epoch, i, currentBlock).h)
    decreases currentBlock + epoch - i
  {
    if i <= currentBlock && lists(i).Some? {
      hide SearchVotes, SameList;
      var r := PassEpoch(h, node, i, lists(i).value);
      SearchFollows(h, node, h.lastCheckedBlock + 1, i, lists(i).value);
      if r.ok {
        PassesFollow(r.h, node, lists, epoch, i + epoch, currentBlock);
      }
    }
  }

  /** Over a whole update, finished or not. */
  lemma LastChangeIsLastState(h: Hist, node: Node, lists: EpochLists, epoch: nat, currentBlock: nat)
    requires epoch > 0 && h.lastCheckedBlock >= 0
    ensures ChangeFollows(h, CliqueUpdate(h, node, lists, epoch, currentBlock).h)
  {
    hide PassEpochs, ReadChunks;
    var i := NextEpoch(h.lastCheckedBlock, epoch);
    var r := PassEpochs(h, node, lists, epoch, i, currentBlock);
    PassesFollow(h, node, lists, epoch, i, currentBlock);
    if r.ok {
      ReadFollows(r.h, node, r.h.lastCheckedBlock + 1, currentBlock);
    }
  }
}
