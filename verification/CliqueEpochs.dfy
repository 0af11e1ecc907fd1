/**
  The whole life of a clique history: any number of updates, finished or not, over the epochs of one chain, and what
  every recorded state is worth.
 */
module CliqueEpochs {
  import opened Bytes
  import opened CliqueVotes
  import opened CliqueHistory

  // ---------------------------------------------------------------- what was counted

  /** A reply that stops after its target is entered counts as a header that does not vote. */
  function CountedOne(r: Reply): seq<Header>
  {
    if r.answer.Missing? then []
    else if Stops(r) then [r.header.(nonce := OtherNonce)]
    else [r.header]
  }

  /** The headers that are counted, up to the first stop. */
  function Counted(rs: seq<Reply>): (hs: seq<Header>)
    ensures |hs| <= |rs|
  {
    if rs == [] then []
    else
      var n := |rs| - 1;
      Counted(rs[..n]) + (if NoneStops(rs[..n]) then CountedOne(rs[n]) else [])
  }

  predicate NoneStops(rs: seq<Reply>)
  {
    forall i :: 0 <= i < |rs| ==> !Stops(rs[i])
  }

  lemma {:induction false} CountedIsRun(h: Hist, rs: seq<Reply>)
    ensures CountAll(h, rs) == Outcome(NoneStops(rs), Run(h, Counted(rs)))
  {
    if rs == [] {
      NothingRuns(h);
    } else {
      hide Run, Step, NoneStops, Count, CountedOne, Stops;
      var n := |rs| - 1;
      CountedIsRun(h, rs[..n]);
      NoneStopsStep(rs);
      var more := if NoneStops(rs[..n]) then CountedOne(rs[n]) else [];
      RunSplit(h, Counted(rs[..n]), more);
      CountIsRun(Run(h, Counted(rs[..n])), rs[n]);
      NothingRuns(Run(h, Counted(rs[..n])));
    }
  }

  lemma NoneStopsStep(rs: seq<Reply>)
    requires rs != []
    ensures NoneStops(rs) <==> NoneStops(rs[..|rs| - 1]) && !Stops(rs[|rs| - 1])
  {
  }

  lemma CountIsRun(h: Hist, r: Reply)
    ensures Count(h, r) == Outcome(!Stops(r), Run(h, CountedOne(r)))
  {
    var hs := CountedOne(r);
    assert hs != [] ==> hs[..0] == [];
  }

  /** The counted headers are those of the replies one by one, as far as they vote. */
  lemma {:induction false} CountedAt(rs: seq<Reply>)
    ensures NoneStops(rs) ==> |Counted(rs)| == |rs|
    ensures forall i :: 0 <= i < |Counted(rs)| ==>
              && Counted(rs)[i].number == rs[i].header.number
              && (Votes(Counted(rs)[i]) ==> Counted(rs)[i] == rs[i].header)
  {
    if rs != [] {
      var n := |rs| - 1;
      CountedAt(rs[..n]);
      NoneStopsStep(rs);
      hide NoneStops;
    }
  }

  // ---------------------------------------------------------------- an epoch

  /** The history at the start of an epoch, and the headers counted since. */
  datatype Epoch = Epoch(base: Hist, headers: seq<Header>)

  type Chain = nat -> Header

  ghost predicate Of(node: Node, chain: Chain)
  {
    forall n: nat :: node(n).header == chain(n) && chain(n).number == n
  }

  /**
    Headers of different blocks in the order of the chain, all after `from` and up to `to`; those that vote are the
    chain's.
   */
  ghost predicate Rising(chain: Chain, headers: seq<Header>, from: int, to: int)
  {
    && (forall i :: 0 <= i < |headers| ==> from < headers[i].number <= to)
    && (forall i, j :: 0 <= i < j < |headers| ==> headers[i].number < headers[j].number)
    && (forall i :: 0 <= i < |headers| ==> (Votes(headers[i]) ==> headers[i] == chain(headers[i].number)))
  }

  /** The epoch starts without pending votes, and has come to `h`. */
  ghost predicate Reaches(chain: Chain, e: Epoch, h: Hist)
  {
    && e.base.pending == map[] && 0 <= e.base.lastCheckedBlock <= h.lastCheckedBlock
    && h == Run(e.base, e.headers).(lastCheckedBlock := h.lastCheckedBlock)
    && Rising(chain, e.headers, e.base.lastCheckedBlock, h.lastCheckedBlock)
  }

  lemma RisingMore(chain: Chain, a: seq<Header>, b: seq<Header>, from: int, mid: int, to: int)
    requires Rising(chain, a, from, mid) && Rising(chain, b, mid, to) && from <= mid <= to
    ensures Rising(chain, a + b, from, to)
  {
  }

  lemma ChunkRises(chain: Chain, node: Node, j: nat, len: nat)
    requires Of(node, chain) && len > 0
    ensures Rising(chain, Counted(Range(node, j, len)), j - 1, j + len - 1)
  {
    hide Counted;
    CountedAt(Range(node, j, len));
  }

  /** What a chunk leaves behind is the run over its counted headers, unless its last block is missing. */
  lemma ChunkIsRun(h: Hist, rs: seq<Reply>, last: int)
    requires rs != [] && rs[|rs| - 1].header.number == last
    ensures UpdatedBy(h, rs) ==
            if rs[|rs| - 1].answer.Missing? then Outcome(false, h)
            else Outcome(NoneStops(rs), Run(h, Counted(rs)).(lastCheckedBlock := last))
  {
    hide Counted, Run, CountAll, NoneStops;
    CountedIsRun(h.(lastCheckedBlock := last), rs);
    RunIgnoresChecked(h, Counted(rs), last);
  }

  /** Further headers carry the epoch on. */
  lemma MoreReaches(chain: Chain, e: Epoch, h: Hist, more: seq<Header>, last: int)
    requires Reaches(chain, e, h) && Rising(chain, more, h.lastCheckedBlock, last) && h.lastCheckedBlock <= last
    ensures Reaches(chain, Epoch(e.base, e.headers + more), Run(h, more).(lastCheckedBlock := last))
  {
    hide Rising, Run;
    RunIgnoresChecked(Run(e.base, e.headers), more, h.lastCheckedBlock);
    RunSplit(e.base, e.headers, more);
    RisingMore(chain, e.headers, more, e.base.lastCheckedBlock, h.lastCheckedBlock, last);
  }

  /** One chunk, stopped or not, carries the epoch on. */
  lemma ChunkReaches(chain: Chain, e: Epoch, h: Hist, node: Node, j: nat, len: nat) returns (e': Epoch)
    requires Reaches(chain, e, h) && Of(node, chain) && len > 0 && j > h.lastCheckedBlock
    ensures e'.base == e.base && Reaches(chain, e', UpdatedBy(h, Range(node, j, len)).h)
    ensures UpdatedBy(h, Range(node, j, len)).ok ==>
              UpdatedBy(h, Range(node, j, len)).h.lastCheckedBlock == j + len - 1
  {
    hide Counted, Rising, Reaches, UpdatedBy, NoneStops;
    var rs := Range(node, j, len);
    var last := j + len - 1;
    assert rs[len - 1] == node(last);
    ChunkIsRun(h, rs, last);
    e' := e;
    if !rs[len - 1].answer.Missing? {
      ChunkRises(chain, node, j, len);
      RisingLater(chain, Counted(rs), j - 1, h.lastCheckedBlock, last);
      MoreReaches(chain, e, h, Counted(rs), last);
      e' := Epoch(e.base, e.headers + Counted(rs));
    }
  }

  lemma RisingLater(chain: Chain, headers: seq<Header>, from: int, earlier: int, to: int)
    requires Rising(chain, headers, from, to) && earlier <= from
    ensures Rising(chain, headers, earlier, to)
  {
  }

  lemma {:induction false} ReadReaches(chain: Chain, e: Epoch, h: Hist, node: Node, j: nat, to: nat) returns (e': Epoch)
    requires Reaches(chain, e, h) && Of(node, chain) && j > h.lastCheckedBlock
    ensures e'.base == e.base && Reaches(chain, e', ReadChunks(h, node, j, to).h)
    decreases 1 + to - j
  {
    hide Reaches, UpdatedBy, Of;
    e' := e;
    if j <= to {
      var len := Min(CHUNK, to + 1 - j);
      var r := UpdatedBy(h, Range(node, j, len));
      e' := ChunkReaches(chain, e, h, node, j, len);
      if r.ok {
        e' := ReadReaches(chain, e', r.h, node, j + CHUNK, to);
      }
    }
  }

  lemma {:induction false} SearchReaches(chain: Chain, e: Epoch, h: Hist, node: Node, j: nat, bn: nat,
                                         list: seq<Address>)
    returns (e': Epoch)
    requires Reaches(chain, e, h) && Of(node, chain) && j > h.lastCheckedBlock
    ensures e'.base == e.base && Reaches(chain, e', SearchVotes(h, node, j, bn, list).h)
    decreases bn + 1 - j
  {
    hide Reaches, UpdatedBy, Of, SameList;
    e' := e;
    if j <= bn {
      var len := Min(CHUNK, bn - j + 1);
      var r := UpdatedBy(h, Range(node, j, len));
      e' := ChunkReaches(chain, e, h, node, j, len);
      if r.ok && !SameList(list, r.h.validators) {
        e' := SearchReaches(chain, e', r.h, node, j + CHUNK, bn, list);
      }
    }
  }

  // ---------------------------------------------------------------- the epochs of a life

  /** The last epoch has come to `h`, and every other one to the history that the next one starts from. */
  ghost predicate Life(chain: Chain, es: seq<Epoch>, h: Hist)
    decreases |es|, 0
  {
    && es != [] && Reaches(chain, es[|es| - 1], h)
    && (|es| > 1 ==> Precedes(chain, es[..|es| - 1], es[|es| - 1].base))
  }

  /** `base` takes the list of an epoch block for the validators of what the epochs before have come to. */
  ghost predicate Precedes(chain: Chain, es: seq<Epoch>, base: Hist)
    decreases |es|, 1
  {
    exists p: Hist, bn: nat, list: seq<Address> :: Life(chain, es, p) && base == EpochReset(p, bn, list)
  }

  /** The same epochs, the last one gone on, and perhaps further ones. */
  predicate Continues(es: seq<Epoch>, es': seq<Epoch>)
    requires es != []
  {
    var n := |es| - 1;
    |es'| > n && es'[..n] == es[..n] && es'[n].base == es[n].base
  }

  lemma GoesOn(chain: Chain, es: seq<Epoch>, h: Hist, e: Epoch, h': Hist)
    requires Life(chain, es, h) && e.base == es[|es| - 1].base && Reaches(chain, e, h')
    ensures Life(chain, es[..|es| - 1] + [e], h') && Continues(es, es[..|es| - 1] + [e])
  {
    hide Reaches;
    var n := |es| - 1;
    assert (es[..n] + [e])[..n] == es[..n];
  }

  lemma Starts(chain: Chain, es: seq<Epoch>, h: Hist, bn: nat, list: seq<Address>)
    requires Life(chain, es, h)
    ensures var base := EpochReset(h, bn, list);
            Life(chain, es + [Epoch(base, [])], base) && Continues(es, es + [Epoch(base, [])])
  {
    var base := EpochReset(h, bn, list);
    var more := es + [Epoch(base, [])];
    assert more[..|more| - 1] == es;
    assert Precedes(chain, es, base);
    assert Reaches(chain, Epoch(base, []), base);
  }

  lemma EpochLives(chain: Chain, es: seq<Epoch>, h: Hist, node: Node, bn: nat, list: seq<Address>)
    returns (es': seq<Epoch>)
    requires Life(chain, es, h) && Of(node, chain) && h.lastCheckedBlock >= 0
    ensures Life(chain, es', PassEpoch(h, node, bn, list).h) && Continues(es, es')
  {
    hide Reaches, Of, SearchVotes, EpochReset;
    var n := |es| - 1;
    es' := es;
    var r := Outcome(true, h);
    if !SameList(h.validators, list) {
      r := SearchVotes(h, node, h.lastCheckedBlock + 1, bn, list);
      var e := SearchReaches(chain, es[n], h, node, h.lastCheckedBlock + 1, bn, list);
      GoesOn(chain, es, h, e, r.h);
      es' := es[..n] + [e];
    }
    if r.ok {
      Starts(chain, es', r.h, bn, list);
      es' := es' + [Epoch(EpochReset(r.h, bn, list), [])];
    }
  }

  lemma ContinuesTwice(a: seq<Epoch>, b: seq<Epoch>, c: seq<Epoch>)
    requires a != [] && Continues(a, b) && Continues(b, c)
    ensures Continues(a, c)
  {
    var n, m := |a| - 1, |b| - 1;
    assert c[..m][..n] == c[..n] && b[..m][..n] == b[..n];
    assert n < m ==> c[n] == c[..m][n] == b[..m][n] == b[n];
  }

  lemma LifeIsChecked(chain: Chain, es: seq<Epoch>, h: Hist)
    requires Life(chain, es, h)
    ensures es != [] && h.lastCheckedBlock >= 0
  {
  }

  lemma {:induction false} EpochsLive(chain: Chain, es: seq<Epoch>, h: Hist, node: Node, lists: EpochLists, epoch: nat,
                                      i: nat, currentBlock: nat) returns (es': seq<Epoch>)
    requires Life(chain, es, h) && Of(node, chain) && epoch > 0 && h.lastCheckedBlock >= 0
    ensures Life(chain, es', PassEpochs(h, node, lists, epoch, i, currentBlock).h) && Continues(es, es')
    decreases currentBlock + epoch - i
  {
    hide Life, Of, PassEpoch, Continues;
    LifeIsChecked(chain, es, h);
    if i <= currentBlock && lists(i).Some? {
      var r := PassEpoch(h, node, i, lists(i).value);
      es' := EpochLives(chain, es, h, node, i, lists(i).value);
      LifeIsChecked(chain, es', r.h);
      if r.ok {
        var es'' := EpochsLive(chain, es', r.h, node, lists, epoch, i + epoch, currentBlock);
        ContinuesTwice(es, es', es'');
        es' := es'';
      }
    } else {
      es' := es;
      ContinuesItself(es);
    }
  }

  lemma ContinuesItself(es: seq<Epoch>)
    requires es != []
    ensures Continues(es, es)
  {
  }

  /** An update, finished or not, carries the life of a history on. */
  lemma UpdateLives(chain: Chain, es: seq<Epoch>, h: Hist, node: Node, lists: EpochLists, epoch: nat, currentBlock: nat)
    returns (es': seq<Epoch>)
    requires Life(chain, es, h) && Of(node, chain) && epoch > 0 && h.lastCheckedBlock >= 0
    ensures Life(chain, es', CliqueUpdate(h, node, lists, epoch, currentBlock).h) && Continues(es, es')
  {
    hide Of, PassEpochs, ReadChunks, Reaches, Continues;
    var i := NextEpoch(h.lastCheckedBlock, epoch);
    var r := PassEpochs(h, node, lists, epoch, i, currentBlock);
    es' := EpochsLive(chain, es, h, node, lists, epoch, i, currentBlock);
    LifeIsChecked(chain, es', r.h);
    if r.ok {
      var e := ReadReaches(chain, es'[|es'| - 1], r.h, node, r.h.lastCheckedBlock + 1, currentBlock);
      var h' := ReadChunks(r.h, node, r.h.lastCheckedBlock + 1, currentBlock).h;
      GoesOn(chain, es', r.h, e, h');
      var es'' := es'[..|es'| - 1] + [e];
      ContinuesTwice(es, es', es'');
      es' := es'';
    }
  }

  // ---------------------------------------------------------------- runs of updates

  /** An update: how the node answers this time, and up to which block. */
  datatype Update = Update(node: Node, lists: EpochLists, epoch: nat, currentBlock: nat)

  ghost predicate AllOf(updates: seq<Update>, chain: Chain)
  {
    forall i :: 0 <= i < |updates| ==> Of(updates[i].node, chain) && updates[i].epoch > 0
  }

  /** The histories that the updates leave behind one after the other, from `h` on. */
  ghost predicate Leave(h: Hist, updates: seq<Update>, h': Hist)
    decreases |updates|
  {
    if updates == [] then h' == h
    else
      var n := |updates| - 1;
      exists p: Hist :: Leave(h, updates[..n], p) && Updates(updates[n], p, h')
  }

  predicate Updates(u: Update, p: Hist, h': Hist)
  {
    u.epoch > 0 && p.lastCheckedBlock >= 0 && h' == CliqueUpdate(p, u.node, u.lists, u.epoch, u.currentBlock).h
  }

  /** The state was appended in the epoch, by one change to what was before, justified by headers of the epoch alone. */
  ghost predicate JustifiedIn(e: Epoch, states: seq<State>, k: nat)
    requires k < |states|
  {
    && |e.base.states| <= k
    && Justified(states[k], if k == |e.base.states| then e.base.validators else states[k - 1].validators, e.headers)
  }

  lemma {:induction false} ChainedAt(before: seq<Address>, states: seq<State>, after: seq<Address>, blocks: seq<Header>,
                                     k: nat)
    requires Chained(before, states, after, blocks) && k < |states|
    ensures Justified(states[k], if k == 0 then before else states[k - 1].validators, blocks)
    decreases |states|
  {
    hide Justified;
    var n := |states| - 1;
    if k < n {
      ChainedAt(before, states[..n], if n == 0 then before else states[n - 1].validators, blocks, k);
    }
  }

  lemma EpochJustifies(chain: Chain, e: Epoch, h: Hist, k: nat)
    requires Reaches(chain, e, h) && |e.base.states| <= k < |h.states|
    ensures JustifiedIn(e, h.states, k)
  {
    hide Justified, Chained, Run, Rising;
    var n := |e.base.states|;
    StatesAreJustified(e.base, e.headers);
    ChainedAt(e.base.validators, h.states[n..], h.validators, e.headers, k - n);
    assert h.states[n..][k - n] == h.states[k];
    assert k > n ==> h.states[n..][k - n - 1] == h.states[k - 1];
  }

  lemma EpochKeepsStates(chain: Chain, e: Epoch, h: Hist)
    requires Reaches(chain, e, h)
    ensures e.base.states <= h.states
  {
    hide Chained, Run;
    StatesAreJustified(e.base, e.headers);
  }

  ghost predicate JustifiedSomewhere(es: seq<Epoch>, states: seq<State>, k: nat)
    requires k < |states|
  {
    exists i :: 0 <= i < |es| && JustifiedIn(es[i], states, k)
  }

  /** Every state appended in a life is justified within its epoch. */
  lemma {:induction false} LifeJustifies(chain: Chain, es: seq<Epoch>, h: Hist, k: nat)
    requires Life(chain, es, h) && |es[0].base.states| <= k < |h.states|
    ensures JustifiedSomewhere(es, h.states, k)
    decreases |es|
  {
    hide Reaches, JustifiedIn;
    var n := |es| - 1;
    EpochKeepsStates(chain, es[n], h);
    if k >= |es[n].base.states| {
      EpochJustifies(chain, es[n], h, k);
      assert JustifiedIn(es[n], h.states, k);
    } else {
      var p: Hist, bn: nat, list: seq<Address> :| Life(chain, es[..n], p) && es[n].base == EpochReset(p, bn, list);
      LifeJustifies(chain, es[..n], p, k);
      var i :| 0 <= i < n && JustifiedIn(es[..n][i], p.states, k);
      SameBelow(es[i], p.states, h.states, k);
      assert JustifiedIn(es[i], h.states, k);
    }
  }

  lemma SameBelow(e: Epoch, states: seq<State>, more: seq<State>, k: nat)
    requires k < |states| && states <= more && JustifiedIn(e, states, k)
    ensures JustifiedIn(e, more, k)
  {
    hide Justified;
    assert more[k] == states[k];
    assert k > 0 ==> more[k - 1] == states[k - 1];
  }

  lemma SameBeginning(es: seq<Epoch>, es': seq<Epoch>)
    requires es != [] && Continues(es, es')
    ensures es'[0].base == es[0].base
  {
    assert |es| > 1 ==> es'[0] == es'[..|es| - 1][0] == es[..|es| - 1][0];
  }

  lemma {:induction false} UpdatesLive(chain: Chain, h: Hist, updates: seq<Update>, h': Hist) returns (es: seq<Epoch>)
    requires h.pending == map[] && h.lastCheckedBlock >= 0 && AllOf(updates, chain) && Leave(h, updates, h')
    ensures Life(chain, es, h') && es[0].base == h
    decreases |updates|
  {
    if updates == [] {
      es := [Epoch(h, [])];
    } else {
      var n := |updates| - 1;
      var u := updates[n];
      var p: Hist :| Leave(h, updates[..n], p) && Updates(u, p, h');
      hide Life, Of, Continues, Leave, CliqueUpdate;
      var before := UpdatesLive(chain, h, updates[..n], p);
      LifeIsChecked(chain, before, p);
      es := UpdateLives(chain, before, p, u.node, u.lists, u.epoch, u.currentBlock);
      SameBeginning(before, es);
    }
  }

  /** The epochs lead from `h` to `h'`, and every state appended on the way is justified in one of them. */
  ghost predicate Explains(chain: Chain, es: seq<Epoch>, h: Hist, h': Hist)
  {
    && Life(chain, es, h') && es[0].base == h
    && forall k :: |h.states| <= k < |h'.states| ==> JustifiedSomewhere(es, h'.states, k)
  }

  /**
    Whatever the updates, over any number of epochs, finished or stopped: every state appended since the first epoch's
    start follows from what was before by one change, which a majority of different signers has voted for in headers
    counted since the start of the state's own epoch, each of them once.
   */
  lemma EveryStateIsJustified(chain: Chain, h: Hist, updates: seq<Update>, h': Hist)
    requires h.pending == map[] && h.lastCheckedBlock >= 0 && AllOf(updates, chain) && Leave(h, updates, h')
    ensures exists es :: Explains(chain, es, h, h')
  {
    var es := UpdatesLive(chain, h, updates, h');
    forall k | |h.states| <= k < |h'.states| ensures JustifiedSomewhere(es, h'.states, k) {
      LifeJustifies(chain, es, h', k);
    }
    assert Explains(chain, es, h, h');
  }
}
