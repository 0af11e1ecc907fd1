/** The registry watcher: which log range each update asks for, over whole runs of updates. */
module Watcher {
  /**
    An update that sees the head `head`; it saves the head only if no request `fails` on the way. Without a registry
    `contract` it asks for no logs.
   */
  datatype Update = Update(head: nat, contract: bool, fails: bool)

  /** The block numbers from `from` to `to`. */
  function Range(from: int, to: int): (r: seq<int>)
    ensures |r| == if to < from then 0 else to - from + 1
    ensures forall i :: 0 <= i < |r| ==> r[i] == from + i
  {
    seq(if to < from then 0 else to - from + 1, i => from + i)
  }

  function From(last: int, minBlockHeight: nat): int
  {
    if minBlockHeight == 0 then last + 1 else if last < 0 then 0 else last + 1 - minBlockHeight
  }

  class Watcher {
    const minBlockHeight: nat
    var lastBlock: int

    constructor (minBlockHeight: nat, startBlock: int)
      ensures this.minBlockHeight == minBlockHeight && lastBlock == startBlock
    {
      this.minBlockHeight := minBlockHeight;
      lastBlock := startBlock;
    }

    method SetBlock(number: int)
      modifies this
      ensures lastBlock == number
    {
      if lastBlock == number {
        return;
      }
      lastBlock := number;
    }

    /** The log range that was read and worked off; nothing if the update failed, saw no new head or had no contract. */
    method UpdateOnce(u: Update) returns (logs: seq<int>)
      modifies this
      ensures lastBlock == NextLast(old(lastBlock), u) && logs == Logs(minBlockHeight, old(lastBlock), u)
    {
      if lastBlock == u.head {
        return [];
      }
      if u.head == 0 {
        return [];  // throws: an empty head
      }
      var fromBlock := if minBlockHeight != 0 then (if lastBlock < 0 then 0 else lastBlock + 1 - minBlockHeight)
          else lastBlock + 1;
      var toBlock := if minBlockHeight != 0 then u.head - minBlockHeight else u.head;
      if u.fails {
        return [];
      }
      logs := if u.contract then Range(fromBlock, toBlock) else [];
      SetBlock(u.head);
    }
  }

  function NextLast(last: int, u: Update): int
  {
    if u.head == 0 || u.fails then last else u.head
  }

  function Logs(minBlockHeight: nat, last: int, u: Update): seq<int>
  {
    if last == u.head || u.head == 0 || u.fails || !u.contract then []
    else Range(From(last, minBlockHeight), u.head - minBlockHeight)
  }

  function Last(start: int, us: seq<Update>): int
  {
    if us == [] then start else NextLast(Last(start, us[..|us| - 1]), us[|us| - 1])
  }

  /** All block numbers whose logs a run of updates works off, in order. */
  function AllLogs(minBlockHeight: nat, start: int, us: seq<Update>): seq<int>
  {
    if us == [] then []
    else
      var rest := us[..|us| - 1];
      AllLogs(minBlockHeight, start, rest) + Logs(minBlockHeight, Last(start, rest), us[|us| - 1])
  }

  /** No successful update sees a head below the last saved one, nor a new one without a registry contract. */
  ghost predicate Orderly(start: int, us: seq<Update>)
  {
    us != [] ==>
      var rest, u := us[..|us| - 1], us[|us| - 1];
      && Orderly(start, rest)
      && (!u.fails && u.head != 0 && u.head != Last(start, rest) ==> Last(start, rest) < u.head && u.contract)
  }

  lemma RangesJoin(a: int, b: int, c: int)
    requires a - 1 <= b <= c
    ensures Range(a, b) + Range(b + 1, c) == Range(a, c)
  {
  }

  /** The ranges tile the chain: every block number from the start on, once and in order, failures or not. */
  lemma {:induction false} LogsTile(minBlockHeight: nat, start: nat, us: seq<Update>)
    requires Orderly(start, us) && start >= minBlockHeight - 1
    ensures Last(start, us) >= start
    ensures AllLogs(minBlockHeight, start, us) == Range(start + 1 - minBlockHeight, Last(start, us) - minBlockHeight)
  {
    if us != [] {
      var rest, u := us[..|us| - 1], us[|us| - 1];
      LogsTile(minBlockHeight, start, rest);
      var last := Last(start, rest);
      if u.head > last && !u.fails {
        RangesJoin(start + 1 - minBlockHeight, last - minBlockHeight, u.head - minBlockHeight);
      }
    }
  }

  /** Every head that a successful update sees is old enough for a first log range. */
  predicate HighEnough(minBlockHeight: nat, us: seq<Update>)
  {
    forall i :: 0 <= i < |us| && !us[i].fails && us[i].head != 0 ==> us[i].head >= minBlockHeight - 1
  }

  /** A watcher that starts without a block reads from block 0 on, and from then on as any other. */
  lemma {:induction false} FreshWatcherTiles(minBlockHeight: nat, us: seq<Update>)
    requires Orderly(-1, us) && HighEnough(minBlockHeight, us)
    ensures var last := Last(-1, us);
            && last >= -1
            && (last == -1 ==> AllLogs(minBlockHeight, -1, us) == [])
            && (last >= 0 ==> last >= minBlockHeight - 1
                              && AllLogs(minBlockHeight, -1, us) == Range(0, last - minBlockHeight))
  {
    if us != [] {
      var rest, u := us[..|us| - 1], us[|us| - 1];
      FreshWatcherTiles(minBlockHeight, rest);
      assert us[|us| - 1] == u;
      var last := Last(-1, rest);
      if last >= 0 && u.head > last && !u.fails {
        RangesJoin(0, last - minBlockHeight, u.head - minBlockHeight);
      }
    }
  }

  /**
    The logs so far are those of every block number from the start up to the saved head, which is not before the start.
   */
  ghost predicate Tiled(minBlockHeight: nat, start: nat, us: seq<Update>)
  {
    && Last(start, us) >= start
    && AllLogs(minBlockHeight, start, us) == Range(start + 1 - minBlockHeight, Last(start, us) - minBlockHeight)
  }

  lemma DisorderParts(minBlockHeight: nat, start: nat, us: seq<Update>)
    requires us != [] && Orderly(start, us[..|us| - 1]) && !Orderly(start, us) && start >= minBlockHeight - 1
    ensures !Tiled(minBlockHeight, start, us)
  {
    var rest, u := us[..|us| - 1], us[|us| - 1];
    LogsTile(minBlockHeight, start, rest);
    assert Logs(minBlockHeight, Last(start, rest), u) == [];
    assert |AllLogs(minBlockHeight, start, us)| == Last(start, rest) - start != u.head - start;
  }

  /** So it is after every update of the run. */
  ghost predicate TiledThroughout(minBlockHeight: nat, start: nat, us: seq<Update>)
  {
    Tiled(minBlockHeight, start, us) && (us != [] ==> TiledThroughout(minBlockHeight, start, us[..|us| - 1]))
  }

  /**
    The ranges tile the chain after every update of a run if and only if no successful update sees a lower head,
    or a new one without a registry contract.
   */
  lemma {:induction false} LogsTileExactly(minBlockHeight: nat, start: nat, us: seq<Update>)
    requires start >= minBlockHeight - 1
    ensures TiledThroughout(minBlockHeight, start, us) <==> Orderly(start, us)
  {
    if us == [] {
      LogsTile(minBlockHeight, start, us);
    } else {
      LogsTileExactly(minBlockHeight, start, us[..|us| - 1]);
      if Orderly(start, us) {
        LogsTile(minBlockHeight, start, us);
      } else if Orderly(start, us[..|us| - 1]) {
        DisorderParts(minBlockHeight, start, us);
      }
    }
  }

  /** A head that falls back makes the next updates read blocks a second time. */
  lemma FallingHeadRepeats()
    ensures var us := [Update(5, true, false), Update(4, true, false), Update(5, true, false)];
            !Orderly(3, us) && AllLogs(0, 3, us) == [4, 5, 5]
  {
    var a, b, c := Update(5, true, false), Update(4, true, false), Update(5, true, false);
    assert [a, b, c][..2] == [a, b] && [a, b][..1] == [a] && [a][..0] == [];
    assert AllLogs(0, 3, [a]) == [4, 5] && Last(3, [a]) == 5;
    assert AllLogs(0, 3, [a, b]) == [4, 5] && Last(3, [a, b]) == 4;
  }
}
