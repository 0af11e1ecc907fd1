/** The validator history object of a clique chain: `updateVotes` and `updateCliqueHistory`, which mutate it. */
module CliqueHistory {
  import opened Bytes
  import opened CliqueVotes

  /** How the node answers for a block: with its header, with one whose signer cannot be recovered, or not at all. */
  datatype Answer = Readable | Unreadable | Missing

  datatype Reply = Reply(header: Header, answer: Answer)

  type Node = nat -> Reply

  /** The validator list in each epoch header; `None` where the header is missing or too short to hold one. */
  type EpochLists = nat -> Option<seq<Address>>

  /** What a call leaves behind, and whether it came to its end. */
  datatype Outcome = Outcome(ok: bool, h: Hist)

  const CHUNK: nat := 100

  // ---------------------------------------------------------------- the update as a function

  function Range(node: Node, from: nat, len: nat): (r: seq<Reply>)
    ensures |r| == len
  {
    seq(len, i requires 0 <= i < len => node(from + i))
  }

  function HeadersOf(rs: seq<Reply>): (r: seq<Header>)
    ensures |r| == |rs|
  {
    seq(|rs|, i requires 0 <= i < |rs| => rs[i].header)
  }

  /** The signer of a header without a target is never asked for. */
  predicate Stops(r: Reply)
  {
    r.answer.Missing? || (r.answer.Unreadable? && !NoTarget(Target(r.header)))
  }

  /** The votes on the target get a place, but no vote, before the recovery fails. */
  function Stopped(h: Hist, r: Reply): Hist
  {
    if r.answer.Missing? then h
    else h.(pending := h.pending[Target(r.header) := PendingFor(h.pending, Target(r.header))])
  }

  function Count(h: Hist, r: Reply): Outcome
  {
    if Stops(r) then Outcome(false, Stopped(h, r)) else Outcome(true, Step(h, r.header))
  }

  function CountAll(h: Hist, rs: seq<Reply>): Outcome
  {
    if rs == [] then Outcome(true, h)
    else
      var before := CountAll(h, rs[..|rs| - 1]);
      if before.ok then Count(before.h, rs[|rs| - 1]) else before
  }

  /** `updateVotes`: the last checked block is set before the headers are counted. */
  function UpdatedBy(h: Hist, rs: seq<Reply>): Outcome
    requires rs != []
  {
    var last := rs[|rs| - 1];
    if last.answer.Missing? then Outcome(false, h)
    else CountAll(h.(lastCheckedBlock := last.header.number), rs)
  }

  predicate SameList(a: seq<Address>, b: seq<Address>)
  {
    |a| == |b| && forall i :: 0 <= i < |a| ==> Lower(a[i]) == Lower(b[i])
  }

  function Min(a: int, b: int): int
  {
    if a < b then a else b
  }

  /** One pass over the blocks after the last checked one, up to `to`. */
  function CaughtUp(h: Hist, node: Node, to: int): Hist
    requires h.lastCheckedBlock >= -1
  {
    if h.lastCheckedBlock >= to then h
    else Updated(h, HeadersOf(Range(node, h.lastCheckedBlock + 1, to - h.lastCheckedBlock)))
  }

  /** The blocks from `j` to `to`, a hundred at a time. */
  function ReadChunks(h: Hist, node: Node, j: nat, to: nat): Outcome
    decreases 1 + to - j
  {
    if j > to then Outcome(true, h)
    else
      var r := UpdatedBy(h, Range(node, j, Min(CHUNK, to + 1 - j)));
      if r.ok then ReadChunks(r.h, node, j + CHUNK, to) else r
  }

  /** The chunks from `j` to the epoch block `bn`, until the list of the epoch is reached. */
  function SearchVotes(h: Hist, node: Node, j: nat, bn: nat, list: seq<Address>): Outcome
    decreases bn + 1 - j
  {
    if j > bn then Outcome(true, h)
    else
      var r := UpdatedBy(h, Range(node, j, Min(CHUNK, bn - j + 1)));
      if !r.ok || SameList(list, r.h.validators) then r else SearchVotes(r.h, node, j + CHUNK, bn, list)
  }

  /** At the epoch block the list is taken from the header and pending votes are dropped. */
  function EpochReset(h: Hist, bn: nat, list: seq<Address>): Hist
  {
    h.(epochBlock := bn, pending := map[], validators := list, lastCheckedBlock := bn)
  }

  function PassEpoch(h: Hist, node: Node, bn: nat, list: seq<Address>): Outcome
    requires h.lastCheckedBlock >= -1
  {
    var r := if SameList(h.validators, list) then Outcome(true, h)
        else SearchVotes(h, node, h.lastCheckedBlock + 1, bn, list);
    if r.ok then Outcome(true, EpochReset(r.h, bn, list)) else r
  }

  /** The epoch blocks from `i` on. */
  function PassEpochs(h: Hist, node: Node, lists: EpochLists, epoch: nat, i: nat, currentBlock: nat): (r: Outcome)
    requires epoch > 0 && h.lastCheckedBlock >= -1
    ensures r.ok ==> r.h.lastCheckedBlock >= -1
    decreases currentBlock + epoch - i
  {
    if i > currentBlock then Outcome(true, h)
    else if lists(i).None? then Outcome(false, h)
    else
      var r := PassEpoch(h, node, i, lists(i).value);
      if r.ok then PassEpochs(r.h, node, lists, epoch, i + epoch, currentBlock) else r
  }

  function NextEpoch(checked: nat, epoch: nat): nat
    requires epoch > 0
  {
    checked + epoch - checked % epoch
  }

  /** The whole update. */
  function CliqueUpdate(h: Hist, node: Node, lists: EpochLists, epoch: nat, currentBlock: nat): Outcome
    requires epoch > 0 && h.lastCheckedBlock >= 0
  {
    var r := PassEpochs(h, node, lists, epoch, NextEpoch(h.lastCheckedBlock, epoch), currentBlock);
    if r.ok then ReadChunks(r.h, node, r.h.lastCheckedBlock + 1, currentBlock) else r
  }

  // ---------------------------------------------------------------- the history itself

  /** Headers come with the number they were asked for. */
  ghost predicate Numbered(node: Node)
  {
    forall n: nat :: node(n).header.number == n
  }

  class History {
    var states: seq<State>
    var lastCheckedBlock: int
    var lastValidatorChange: int
    var epochBlock: nat
    var validators: seq<Address>
    var pendingVotes: map<Address, seq<Vote>>

    ghost function Value(): Hist
      reads this
    {
      Hist(states, lastCheckedBlock, lastValidatorChange, epochBlock, validators, pendingVotes)
    }

    constructor (block: nat, list: seq<Address>)
      ensures Value() == Hist([State(block, list, [])], block, 0, block, list, map[])
    {
      states, lastCheckedBlock, lastValidatorChange := [State(block, list, [])], block, 0;
      epochBlock, validators, pendingVotes := block, list, map[];
    }

    method UpdateVotes(rs: seq<Reply>) returns (ok: bool)
      requires rs != []
      modifies this
      ensures Outcome(ok, Value()) == UpdatedBy(old(Value()), rs)
    {
      if rs[|rs| - 1].answer.Missing? {
        return false;
      }
      lastCheckedBlock := rs[|rs| - 1].header.number;
      ghost var start := Value();
      for i := 0 to |rs|
        invariant CountAll(start, rs[..i]) == Outcome(true, Value())
      {
        assert rs[..i + 1][..i] == rs[..i];
        ok := CountVote(rs[i]);
        if !ok {
          StopIsFinal(start, rs, i);
          return;
        }
      }
      assert rs[..|rs|] == rs;
      ok := true;
    }

    /** The body of the loop over the headers. */
    method CountVote(r: Reply) returns (ok: bool)
      modifies this
      ensures Outcome(ok, Value()) == Count(old(Value()), r)
    {
      if r.answer.Missing? {
        return false;
      }
      var b := r.header;
      var newValidator := Lower(b.miner);
      if NoTarget(newValidator) {
        return true;
      }
      if newValidator !in pendingVotes {
        pendingVotes := pendingVotes[newValidator := []];
      }
      assert pendingVotes == old(pendingVotes)[newValidator := PendingFor(old(pendingVotes), newValidator)];
      if r.answer.Unreadable? {
        return false;
      }
      ok := true;
      if b.nonce.OtherNonce? {
        return;
      }
      CastVote(b, newValidator);
      assert old(pendingVotes)[newValidator := PendingFor(old(pendingVotes), newValidator)] - {newValidator}
          == old(pendingVotes) - {newValidator};
    }

    /** The vote of a header, and the decision if it brings about a majority. */
    method CastVote(b: Header, newValidator: Address)
      requires newValidator == Target(b) && newValidator in pendingVotes && Votes(b)
      modifies this
      ensures Value() == Step(old(Value()), b)
    {
      var add := b.nonce.AddSigner?;
      var votes := Cast(pendingVotes[newValidator], Vote(b.signer, add, b.rlp));
      pendingVotes := pendingVotes[newValidator := votes];
      var proof := CollectProof(votes, add);
      if |proof| >= |validators| / 2 + 1 {
        var vals := if add then validators + [newValidator] else RemoveFirst(validators, newValidator);
        DropAfterPut(old(pendingVotes), newValidator, votes);
        states := states + [State(b.number, vals, proof)];
        lastValidatorChange := states[|states| - 1].block;
        pendingVotes := pendingVotes - {newValidator};
        validators := vals;
      }
    }

    method CollectProof(votes: seq<Vote>, add: bool) returns (proof: seq<Rlp>)
      ensures proof == Agreeing(votes, add)
    {
      hide Agreeing;
      proof := [];
      AgreeingEnds(votes, add);
      for i := 0 to |votes|
        invariant proof + Agreeing(votes[i..], add) == Agreeing(votes, add)
      {
        AgreeingFrom(votes, i, add);
        if votes[i].add == add {
          proof := proof + [votes[i].block];
        }
      }
    }

    method UpdateCliqueHistory(node: Node, lists: EpochLists, epoch: nat, currentBlock: nat) returns (ok: bool)
      requires epoch > 0 && lastCheckedBlock >= 0
      modifies this
      ensures Outcome(ok, Value()) == CliqueUpdate(old(Value()), node, lists, epoch, currentBlock)
    {
      var i := lastCheckedBlock + epoch - lastCheckedBlock % epoch;
      while i <= currentBlock
        invariant i >= 0 && lastCheckedBlock >= 0
        invariant PassEpochs(Value(), node, lists, epoch, i, currentBlock)
                  == PassEpochs(old(Value()), node, lists, epoch, NextEpoch(old(lastCheckedBlock), epoch), currentBlock)
        decreases currentBlock + epoch - i
      {
        if lists(i).None? {
          return false;
        }
        ok := FinishEpoch(node, i, lists(i).value);
        if !ok {
          return;
        }
        i := i + epoch;
      }
      ok := ReadLastBlocks(node, currentBlock);
    }

    method FinishEpoch(node: Node, bn: nat, list: seq<Address>) returns (ok: bool)
      requires lastCheckedBlock >= 0
      modifies this
      ensures Outcome(ok, Value()) == PassEpoch(old(Value()), node, bn, list)
    {
      if !SameList(validators, list) {
        var j := lastCheckedBlock + 1;
        while j <= bn
          invariant j >= 0
          invariant SearchVotes(Value(), node, j, bn, list)
                    == SearchVotes(old(Value()), node, old(lastCheckedBlock) + 1, bn, list)
          decreases bn + 1 - j
        {
          ok := UpdateVotes(Range(node, j, Min(CHUNK, bn - j + 1)));
          if !ok {
            return;
          }
          if SameList(list, validators) {
            break;
          }
          j := j + CHUNK;
        }
      }
      epochBlock, pendingVotes, validators := bn, map[], list;
      lastCheckedBlock := bn;
      ok := true;
    }

    /** The blocks since the last epoch, a hundred at a time. */
    method ReadLastBlocks(node: Node, currentBlock: nat) returns (ok: bool)
      requires lastCheckedBlock >= 0
      modifies this
      ensures Outcome(ok, Value()) == ReadChunks(old(Value()), node, old(lastCheckedBlock) + 1, currentBlock)
    {
      var j := lastCheckedBlock + 1;
      while j <= currentBlock
        invariant j >= 0
        invariant ReadChunks(Value(), node, j, currentBlock)
                  == ReadChunks(old(Value()), node, old(lastCheckedBlock) + 1, currentBlock)
        decreases currentBlock + 1 - j
      {
        ok := UpdateVotes(Range(node, j, Min(CHUNK, currentBlock + 1 - j)));
        if !ok {
          return;
        }
        j := j + CHUNK;
      }
      ok := true;
    }
  }

  lemma AgreeingFrom(votes: seq<Vote>, i: nat, add: bool)
    requires i < |votes|
    ensures Agreeing(votes[i..], add)
            == (if votes[i].add == add then [votes[i].block] else []) + Agreeing(votes[i + 1..], add)
  {
    assert votes[i..][1..] == votes[i + 1..];
  }

  lemma AgreeingEnds(votes: seq<Vote>, add: bool)
    ensures votes[0..] == votes && Agreeing(votes[|votes|..], add) == []
  {
  }

  lemma DropAfterPut<T>(m: map<Address, T>, t: Address, x: T)
    ensures m[t := x] - {t} == m - {t}
  {
  }

  // ---------------------------------------------------------------- a single pass

  ghost predicate NoStop(node: Node, from: nat, to: int)
  {
    forall n: nat :: from <= n <= to ==> !Stops(node(n))
  }

  /** A reply that is asked for no signer counts as its header does. */
  lemma {:induction false} CountsAll(h: Hist, rs: seq<Reply>)
    requires forall i :: 0 <= i < |rs| ==> !Stops(rs[i])
    ensures CountAll(h, rs) == Outcome(true, Run(h, HeadersOf(rs)))
  {
    if rs != [] {
      var n := |rs| - 1;
      CountsAll(h, rs[..n]);
      assert HeadersOf(rs)[..n] == HeadersOf(rs[..n]);
    }
  }

  /** Nothing after the first reply that stops is counted. */
  lemma {:induction false} StopIsFinal(h: Hist, rs: seq<Reply>, k: nat)
    requires k < |rs| && CountAll(h, rs[..k]).ok && Stops(rs[k])
    ensures CountAll(h, rs) == Outcome(false, Stopped(CountAll(h, rs[..k]).h, rs[k]))
    decreases |rs|
  {
    var n := |rs| - 1;
    if k < n {
      assert rs[..n][..k] == rs[..k];
      StopIsFinal(h, rs[..n], k);
    }
  }

  /** What was read up to block `j`-1 and a chunk from `j` on are one pass up to the end of the chunk. */
  lemma ChunkExtends(start: Hist, h: Hist, node: Node, j: nat, len: nat)
    requires -1 <= start.lastCheckedBlock < j && len > 0
    requires h == CaughtUp(start, node, j - 1)
    ensures Updated(h, HeadersOf(Range(node, j, len))) == CaughtUp(start, node, j + len - 1)
  {
    var first := start.lastCheckedBlock + 1;
    var a, b, c := Range(node, first, j - first), Range(node, j, len), Range(node, first, j + len - first);
    assert HeadersOf(a) + HeadersOf(b) == HeadersOf(c);
    if first < j {
      UpdatesCompose(start, HeadersOf(a), HeadersOf(b));
    } else {
      assert HeadersOf(a) == [];
    }
  }

  lemma GoodChunk(h: Hist, node: Node, j: nat, len: nat)
    requires len > 0 && NoStop(node, j, j + len - 1)
    ensures UpdatedBy(h, Range(node, j, len)) == Outcome(true, Updated(h, HeadersOf(Range(node, j, len))))
  {
    var rs := Range(node, j, len);
    forall i | 0 <= i < len ensures !Stops(rs[i]) {
      assert !Stops(node(j + i));
    }
    CountsAll(h.(lastCheckedBlock := rs[len - 1].header.number), rs);
  }

  /** Without a stop, chunks from `j` on complete the single pass from the start. */
  lemma {:induction false} ChunksAreOnePass(start: Hist, node: Node, j: nat, to: nat)
    requires -1 <= start.lastCheckedBlock < j && NoStop(node, j, to)
    ensures var h := CaughtUp(start, node, Min(j - 1, to));
            start.lastCheckedBlock <= to ==> ReadChunks(h, node, j, to) == Outcome(true, CaughtUp(start, node, to))
    decreases 1 + to - j
  {
    hide UpdatedBy, Updated, Stops, HeadersOf, Range;
    if j <= to {
      var len := Min(CHUNK, to + 1 - j);
      var h := CaughtUp(start, node, j - 1);
      assert NoStop(node, j, j + len - 1);
      GoodChunk(h, node, j, len);
      ChunkExtends(start, h, node, j, len);
      ChunksAreOnePass(start, node, j + CHUNK, to);
    }
  }

  /** The chunk from `j` on that holds `b`. */
  function ChunkStart(from: nat, b: nat): (j: nat)
    requires from <= b
    ensures from <= j <= b < j + CHUNK
    decreases b - from
  {
    if b < from + CHUNK then from else ChunkStart(from + CHUNK, b)
  }

  /** What a first stop at block `b` leaves behind, within the chunk from `j` to `e`. */
  function SkippedFrom(start: Hist, node: Node, j: nat, e: nat, b: nat): Hist
    requires -1 <= start.lastCheckedBlock < j <= b
  {
    if node(e).answer.Missing? then CaughtUp(start, node, j - 1)
    else Stopped(CaughtUp(start, node, b - 1), node(b)).(lastCheckedBlock := e)
  }

  /** The first `k` replies from block `j` on, counted with the last checked block already set to `e`. */
  lemma CountedSoFar(start: Hist, node: Node, j: nat, k: nat, e: int)
    requires -1 <= start.lastCheckedBlock < j && NoStop(node, j, j + k - 1)
    ensures CountAll(CaughtUp(start, node, j - 1).(lastCheckedBlock := e), Range(node, j, k))
            == Outcome(true, CaughtUp(start, node, j + k - 1).(lastCheckedBlock := e))
  {
    var rs, h := Range(node, j, k), CaughtUp(start, node, j - 1);
    forall i | 0 <= i < k ensures !Stops(rs[i]) {
      assert !Stops(node(j + i));
    }
    CountsAll(h.(lastCheckedBlock := e), rs);
    RunIgnoresChecked(h, HeadersOf(rs), e);
    if k > 0 {
      ChunkExtends(start, h, node, j, k);
      RunIgnoresChecked(h, HeadersOf(rs), HeadersOf(rs)[k - 1].number);
    } else {
      assert HeadersOf(rs) == [];
    }
  }

  lemma BadChunk(start: Hist, node: Node, j: nat, len: nat, b: nat)
    requires -1 <= start.lastCheckedBlock < j <= b < j + len && Numbered(node)
    requires NoStop(node, j, b - 1) && Stops(node(b))
    ensures UpdatedBy(CaughtUp(start, node, j - 1), Range(node, j, len))
            == Outcome(false, SkippedFrom(start, node, j, j + len - 1, b))
  {
    hide CaughtUp, Stops, CountAll, Stopped;
    var rs, h, e := Range(node, j, len), CaughtUp(start, node, j - 1), j + len - 1;
    assert rs[len - 1] == node(e);
    if !node(e).answer.Missing? {
      CountedSoFar(start, node, j, b - j, e);
      assert rs[b - j] == node(b) && rs[..b - j] == Range(node, j, b - j);
      StopIsFinal(h.(lastCheckedBlock := e), rs, b - j);
      StoppedKeepsChecked(CaughtUp(start, node, b - 1), node(b), e);
    }
  }

  lemma StoppedKeepsChecked(h: Hist, r: Reply, e: int)
    ensures Stopped(h.(lastCheckedBlock := e), r) == Stopped(h, r).(lastCheckedBlock := e)
  {
  }

  /**
    The first stop, at block `b`, ends the update and skips the rest of its chunk for good: what is left behind is a
    pass up to the block before, with the end of the chunk for the last checked block, after which the next update
    starts. Only if that end itself is missing will the whole chunk be read again.
   */
  lemma {:induction false} StopSkipsChunk(start: Hist, node: Node, j: nat, to: nat, b: nat)
    requires -1 <= start.lastCheckedBlock < j <= b <= to && Numbered(node)
    requires NoStop(node, j, b - 1) && Stops(node(b))
    ensures var s := ChunkStart(j, b);
            ReadChunks(CaughtUp(start, node, j - 1), node, j, to)
            == Outcome(false, SkippedFrom(start, node, s, Min(s + CHUNK - 1, to), b))
    decreases 1 + to - j
  {
    hide UpdatedBy, CaughtUp, Updated, SkippedFrom, Stops, HeadersOf, Range;
    var len := Min(CHUNK, to + 1 - j);
    if b < j + CHUNK {
      BadChunk(start, node, j, len, b);
    } else {
      var h := CaughtUp(start, node, j - 1);
      assert NoStop(node, j, j + len - 1);
      GoodChunk(h, node, j, len);
      ChunkExtends(start, h, node, j, len);
      StopSkipsChunk(start, node, j + CHUNK, to, b);
    }
  }

  lemma {:induction false} FirstStop(node: Node, from: nat, to: int) returns (b: nat)
    requires !NoStop(node, from, to)
    ensures from <= b <= to && NoStop(node, from, b - 1) && Stops(node(b))
    decreases 1 + to - from
  {
    b := from;
    if !Stops(node(from)) {
      b := FirstStop(node, from + 1, to);
    }
  }

  /** Reading in chunks comes to its end, and is then one pass over all the blocks, if and only if no reply stops it. */
  lemma ReadsExactly(h: Hist, node: Node, to: nat)
    requires -1 <= h.lastCheckedBlock <= to && Numbered(node)
    ensures var r := ReadChunks(h, node, h.lastCheckedBlock + 1, to);
            && (r.ok <==> NoStop(node, h.lastCheckedBlock + 1, to))
            && (r.ok ==> r.h == CaughtUp(h, node, to) && r.h.lastCheckedBlock == to)
  {
    if NoStop(node, h.lastCheckedBlock + 1, to) {
      ChunksAreOnePass(h, node, h.lastCheckedBlock + 1, to);
      CaughtUpEndsThere(h, node, to);
    } else {
      var b := FirstStop(node, h.lastCheckedBlock + 1, to);
      StopSkipsChunk(h, node, h.lastCheckedBlock + 1, to, b);
    }
  }

  // ---------------------------------------------------------------- what an update leaves behind

  lemma {:induction false} RunKeepsChecked(h: Hist, blocks: seq<Header>)
    ensures Run(h, blocks).lastCheckedBlock == h.lastCheckedBlock
  {
    if blocks != [] {
      RunKeepsChecked(h, blocks[..|blocks| - 1]);
    }
  }

  /** A single pass visits the blocks after the last checked one in order, each once, and ends at `to`. */
  lemma CaughtUpEndsThere(h: Hist, node: Node, to: nat)
    requires -1 <= h.lastCheckedBlock <= to && Numbered(node)
    ensures CaughtUp(h, node, to).lastCheckedBlock == to
    ensures var n := to - h.lastCheckedBlock;
            var blocks := HeadersOf(Range(node, h.lastCheckedBlock + 1, n));
            forall i :: 0 <= i < n ==> blocks[i].number == h.lastCheckedBlock + 1 + i
  {
    if h.lastCheckedBlock < to {
      var blocks := HeadersOf(Range(node, h.lastCheckedBlock + 1, to - h.lastCheckedBlock));
      RunKeepsChecked(h.(lastCheckedBlock := blocks[|blocks| - 1].number), blocks);
    }
  }

  /** Passes in a row are one pass. */
  lemma CaughtUpTwice(h: Hist, node: Node, a: nat, b: nat)
    requires -1 <= h.lastCheckedBlock <= a <= b && Numbered(node)
    ensures CaughtUp(h, node, a).lastCheckedBlock == a
    ensures CaughtUp(CaughtUp(h, node, a), node, b) == CaughtUp(h, node, b)
  {
    hide Updated;
    CaughtUpEndsThere(h, node, a);
    if a < b {
      ChunkExtends(h, CaughtUp(h, node, a), node, a + 1, b - a);
    }
  }

  lemma SameEpoch(checked: nat, epoch: nat, a: nat)
    requires epoch > 0 && checked <= a < NextEpoch(checked, epoch)
    ensures NextEpoch(a, epoch) == NextEpoch(checked, epoch)
  {
    var q, r := checked / epoch, a - (checked - checked % epoch);
    assert a == q * epoch + r && 0 <= r < epoch;
    QuotientIs(a, epoch, q, r);
  }

  /**
    Within an epoch and without a stop, updates as the chain grows leave the history that one update at the end leaves,
    a single pass.
   */
  lemma UpdatesWithinEpoch(h: Hist, node: Node, lists: EpochLists, epoch: nat, a: nat, b: nat)
    requires epoch > 0 && 0 <= h.lastCheckedBlock <= a <= b < NextEpoch(h.lastCheckedBlock, epoch) && Numbered(node)
    requires NoStop(node, h.lastCheckedBlock + 1, b)
    ensures var first := CliqueUpdate(h, node, lists, epoch, a);
            && first.ok && first.h.lastCheckedBlock == a
            && CliqueUpdate(first.h, node, lists, epoch, b) == CliqueUpdate(h, node, lists, epoch, b)
                                                            == Outcome(true, CaughtUp(h, node, b))
  {
    hide ReadChunks, CaughtUp, Stops;
    assert NoStop(node, h.lastCheckedBlock + 1, a) && NoStop(node, a + 1, b);
    ReadsExactly(h, node, a);
    ReadsExactly(h, node, b);
    SameEpoch(h.lastCheckedBlock, epoch, a);
    CaughtUpTwice(h, node, a, b);
    ReadsExactly(CaughtUp(h, node, a), node, b);
  }

  /** The epoch blocks are the multiples of the epoch; the next one is the least that has not been checked. */
  lemma NextEpochIsNext(checked: nat, epoch: nat)
    requires epoch > 0
    ensures NextEpoch(checked, epoch) % epoch == 0
    ensures checked < NextEpoch(checked, epoch) <= checked + epoch
  {
    QuotientIs(NextEpoch(checked, epoch), epoch, checked / epoch + 1, 0);
  }

  function LowerAll(list: seq<Address>): seq<string>
  {
    seq(|list|, i requires 0 <= i < |list| => Lower(list[i]))
  }

  /** Lists are compared entry by entry, in order and whatever the case. */
  lemma SameListExactly(a: seq<Address>, b: seq<Address>)
    ensures SameList(a, b) <==> LowerAll(a) == LowerAll(b)
  {
    if LowerAll(a) == LowerAll(b) {
      forall i | 0 <= i < |a| ensures Lower(a[i]) == Lower(b[i]) {
        assert LowerAll(a)[i] == LowerAll(b)[i];
      }
    }
  }

  /** The last epoch block up to `currentBlock`, seen from epoch block `i`. */
  function LastEpochBlock(epoch: nat, i: nat, currentBlock: nat): (bn: nat)
    requires epoch > 0 && i <= currentBlock
    ensures i <= bn <= currentBlock < bn + epoch
    decreases currentBlock - i
  {
    if i + epoch > currentBlock then i else LastEpochBlock(epoch, i + epoch, currentBlock)
  }

  /**
    Once the epoch blocks are passed, the validators, the pending votes and the last checked block depend on nothing but
    the list in the last epoch header.
   */
  lemma {:induction false} EpochsForget(h: Hist, node: Node, lists: EpochLists, epoch: nat, i: nat, currentBlock: nat)
    requires epoch > 0 && h.lastCheckedBlock >= -1 && i <= currentBlock
    ensures var r := PassEpochs(h, node, lists, epoch, i, currentBlock);
            var bn := LastEpochBlock(epoch, i, currentBlock);
            r.ok ==> lists(bn).Some? && r.h.validators == lists(bn).value && r.h.pending == map[]
                     && r.h.lastCheckedBlock == r.h.epochBlock == bn
    decreases currentBlock - i
  {
    if lists(i).Some? && i + epoch <= currentBlock {
      var r := PassEpoch(h, node, i, lists(i).value);
      if r.ok {
        EpochsForget(r.h, node, lists, epoch, i + epoch, currentBlock);
      }
    }
  }

  /**
    After an update that crosses an epoch, every state appended for the blocks since the last epoch block is justified
    by headers of those blocks alone, starting from the epoch's own list; and the last checked block is the current one.
   */
  lemma UpdateIsJustified(h: Hist, node: Node, lists: EpochLists, epoch: nat, currentBlock: nat)
    requires epoch > 0 && h.lastCheckedBlock >= 0 && Numbered(node)
    requires NextEpoch(h.lastCheckedBlock, epoch) <= currentBlock
    requires CliqueUpdate(h, node, lists, epoch, currentBlock).ok
    ensures var i := NextEpoch(h.lastCheckedBlock, epoch);
            var bn := LastEpochBlock(epoch, i, currentBlock);
            var base := PassEpochs(h, node, lists, epoch, i, currentBlock).h;
            var r := CliqueUpdate(h, node, lists, epoch, currentBlock).h;
            && lists(bn) == Some(base.validators)
            && AllJustified(base, r, HeadersOf(Range(node, bn + 1, currentBlock - bn)))
            && r.lastCheckedBlock == currentBlock
  {
    var i := NextEpoch(h.lastCheckedBlock, epoch);
    EpochsForget(h, node, lists, epoch, i, currentBlock);
    var base := PassEpochs(h, node, lists, epoch, i, currentBlock).h;
    ReadsExactly(base, node, currentBlock);
    CaughtUpIsJustified(base, node, currentBlock);
  }

  lemma CaughtUpIsJustified(base: Hist, node: Node, to: nat)
    requires base.pending == map[] && -1 <= base.lastCheckedBlock <= to
    ensures AllJustified(base, CaughtUp(base, node, to),
                         HeadersOf(Range(node, base.lastCheckedBlock + 1, to - base.lastCheckedBlock)))
  {
    var blocks := HeadersOf(Range(node, base.lastCheckedBlock + 1, to - base.lastCheckedBlock));
    StatesAreJustified(base, blocks);
    if blocks == [] {
      assert Run(base, blocks) == base;
    } else {
      var n := blocks[|blocks| - 1].number;
      RunIgnoresChecked(base, blocks, n);
      AllStay(base, Run(base, blocks), Updated(base, blocks), blocks);
    }
  }
}
