/** Signing block hashes: depth below the head and agreement of all upstream nodes before anything is signed. */
module Signing {
  import opened Bytes

  datatype BlockData = BlockData(number: nat, hash: string)

  /** One node's answers: its head, if it gave one, and a block, if found, for each block asked for. */
  datatype Upstream = Upstream(head: Option<nat>, blocks: seq<Option<BlockData>>)

  datatype Outcome = Signed(blocks: seq<BlockData>) | Refused(error: Failure)

  datatype Failure = NoKey | NoHead | NotFound | TooYoung | Mismatch | NoUpstream

  /** The node has a head, and every block at least `minHeight` below it. */
  predicate Deep(u: Upstream, minHeight: int)
  {
    u.head.Some? && forall i :: 0 <= i < |u.blocks| ==>
        u.blocks[i].Some? && u.head.value - u.blocks[i].value.number >= minHeight
  }

  /** Among the first `n` blocks of `u`, the last one with this hash has this number. */
  predicate Maps(u: Upstream, n: nat, hash: string, number: nat)
    requires n <= |u.blocks| && forall i :: 0 <= i < n ==> u.blocks[i].Some?
  {
    n > 0 && if u.blocks[n - 1].value.hash == hash then u.blocks[n - 1].value.number == number
        else Maps(u, n - 1, hash, number)
  }

  /** Every block of `u` has the number that `first` has for its hash. */
  predicate Confirms(u: Upstream, first: Upstream)
    requires forall i :: 0 <= i < |u.blocks| ==> u.blocks[i].Some?
    requires forall i :: 0 <= i < |first.blocks| ==> first.blocks[i].Some?
  {
    && |u.blocks| == |first.blocks|
    && forall i :: 0 <= i < |u.blocks| ==> Maps(first, |first.blocks|, u.blocks[i].value.hash, u.blocks[i].value.number)
  }

  method CheckUpstream(u: Upstream, minHeight: int) returns (error: Option<Failure>)
    ensures error.None? <==> Deep(u, minHeight)
  {
    if u.head.None? {
      return Some(NoHead);
    }
    for i := 0 to |u.blocks|
      invariant forall j :: 0 <= j < i ==> u.blocks[j].Some?
    {
      if u.blocks[i].None? {
        return Some(NotFound);
      }
    }
    for i := 0 to |u.blocks|
      invariant forall j :: 0 <= j < i ==> u.head.value - u.blocks[j].value.number >= minHeight
    {
      if u.head.value - u.blocks[i].value.number < minHeight {
        return Some(TooYoung);
      }
    }
    return None;
  }

  /** Signs the first node's blocks once all nodes are deep enough and confirm them. */
  method HandleSign(hasKey: bool, minHeight: int, upstreams: seq<Upstream>) returns (r: Outcome)
    ensures r.Signed? <==>
            hasKey && upstreams != [] && (forall k :: 0 <= k < |upstreams| ==> Deep(upstreams[k], minHeight))
                           && forall k :: 1 <= k < |upstreams| ==> Confirms(upstreams[k], upstreams[0])
    ensures r.Signed? ==> |r.blocks| == |upstreams[0].blocks|
    ensures r.Signed? ==> forall i :: 0 <= i < |r.blocks| ==> Some(r.blocks[i]) == upstreams[0].blocks[i]
  {
    if !hasKey {
      return Refused(NoKey);
    }
    for k := 0 to |upstreams|
      invariant forall j :: 0 <= j < k ==> Deep(upstreams[j], minHeight)
    {
      var error := CheckUpstream(upstreams[k], minHeight);
      if error.Some? {
        return Refused(error.value);
      }
    }
    if upstreams == [] {
      return Refused(NoUpstream);
    }
    var first := upstreams[0];
    if |upstreams| > 1 {
      var numbers: map<string, nat> := map[];
      for i := 0 to |first.blocks|
        invariant forall h, n :: h in numbers && numbers[h] == n <==> Maps(first, i, h, n)
      {
        numbers := numbers[first.blocks[i].value.hash := first.blocks[i].value.number];
      }
      for k := 1 to |upstreams|
        invariant forall j :: 1 <= j < k ==> Confirms(upstreams[j], first)
      {
        var u := upstreams[k];
        assert Deep(u, minHeight);
        if |u.blocks| != |first.blocks| {
          return Refused(Mismatch);
        }
        for i := 0 to |u.blocks|
          invariant forall j :: 0 <= j < i ==>
                    Maps(first, |first.blocks|, u.blocks[j].value.hash, u.blocks[j].value.number)
        {
          var b := u.blocks[i].value;
          if b.hash !in numbers || numbers[b.hash] != b.number {
            assert !Maps(first, |first.blocks|, b.hash, b.number);
            return Refused(Mismatch);
          }
        }
      }
    }
    var blocks: seq<BlockData> := [];
    for i := 0 to |first.blocks|
      invariant |blocks| == i && forall j :: 0 <= j < i ==> Some(blocks[j]) == first.blocks[j]
    {
      blocks := blocks + [first.blocks[i].value];
    }
    return Signed(blocks);
  }

  // ---------------------------------------------------------------- agreement

  /** A block is deep enough exactly from `minHeight` blocks below the head on. */
  lemma DepthExactly(head: nat, b: BlockData, minHeight: int)
    ensures Deep(Upstream(Some(head), [Some(b)]), minHeight) <==> b.number + minHeight <= head
  {
    var u := Upstream(Some(head), [Some(b)]);
    assert u.blocks[0] == Some(b);
  }

  /** The node answers with the blocks that were asked for. */
  ghost predicate Echoes(u: Upstream, numbers: seq<nat>)
  {
    |u.blocks| == |numbers| && forall i :: 0 <= i < |numbers| ==>
        u.blocks[i].Some? && u.blocks[i].value.number == numbers[i]
  }

  lemma {:induction false} MappedBySomeBlock(u: Upstream, n: nat, hash: string, number: nat)
    requires n <= |u.blocks| && (forall i :: 0 <= i < n ==> u.blocks[i].Some?) && Maps(u, n, hash, number)
    ensures exists i :: 0 <= i < n && u.blocks[i].value == BlockData(number, hash)
  {
    if u.blocks[n - 1].value.hash == hash {
      assert u.blocks[n - 1].value == BlockData(number, hash);
    } else {
      MappedBySomeBlock(u, n - 1, hash, number);
    }
  }

  /** Nodes that echo distinct block numbers and confirm each other have the same hash for every one of them. */
  lemma ConfirmedHashesAgree(u: Upstream, first: Upstream, numbers: seq<nat>)
    requires Echoes(u, numbers) && Echoes(first, numbers) && Confirms(u, first)
    requires forall i, j :: 0 <= i < j < |numbers| ==> numbers[i] != numbers[j]
    ensures u.blocks == first.blocks
  {
    forall i | 0 <= i < |numbers| ensures u.blocks[i] == first.blocks[i] {
      var b := u.blocks[i].value;
      MappedBySomeBlock(first, |first.blocks|, b.hash, b.number);
      var j :| 0 <= j < |first.blocks| && first.blocks[j].value == BlockData(b.number, b.hash);
      assert numbers[j] == numbers[i];
    }
  }

  lemma {:induction false} LastOfItsHash(u: Upstream, n: nat, i: nat)
    requires i < n <= |u.blocks| && forall k :: 0 <= k < n ==> u.blocks[k].Some?
    requires forall k :: i < k < n ==> u.blocks[k].value.hash != u.blocks[i].value.hash
    ensures Maps(u, n, u.blocks[i].value.hash, u.blocks[i].value.number)
  {
    if i < n - 1 {
      LastOfItsHash(u, n - 1, i);
    }
  }

  /** A block that is mapped is not the earlier one of two with its hash, unless they have one number. */
  lemma {:induction false} MappedIsLast(u: Upstream, n: nat, i: nat, j: nat)
    requires i < j < n <= |u.blocks| && forall k :: 0 <= k < n ==> u.blocks[k].Some?
    requires Maps(u, n, u.blocks[i].value.hash, u.blocks[i].value.number)
    requires Maps(u, n, u.blocks[j].value.hash, u.blocks[j].value.number)
    requires u.blocks[i].value.number != u.blocks[j].value.number
    ensures u.blocks[i].value.hash != u.blocks[j].value.hash
  {
    if j < n - 1 && u.blocks[n - 1].value.hash != u.blocks[i].value.hash
        && u.blocks[n - 1].value.hash != u.blocks[j].value.hash {
      MappedIsLast(u, n - 1, i, j);
    }
  }

  ghost predicate DistinctHashes(u: Upstream)
  {
    forall i, j :: 0 <= i < j < |u.blocks| && u.blocks[i].Some? && u.blocks[j].Some? ==>
      u.blocks[i].value.hash != u.blocks[j].value.hash
  }

  /**
    Between nodes that echo distinct block numbers the confirmation is exact: it is given if and only if the blocks
    are the same and no hash occurs twice.
   */
  lemma ConfirmsExactly(u: Upstream, first: Upstream, numbers: seq<nat>)
    requires Echoes(u, numbers) && Echoes(first, numbers)
    requires forall i, j :: 0 <= i < j < |numbers| ==> numbers[i] != numbers[j]
    ensures Confirms(u, first) <==> u.blocks == first.blocks && DistinctHashes(first)
  {
    var n := |first.blocks|;
    if Confirms(u, first) {
      ConfirmedHashesAgree(u, first, numbers);
      forall i, j | 0 <= i < j < n ensures first.blocks[i].value.hash != first.blocks[j].value.hash {
        assert numbers[i] != numbers[j];
        MappedIsLast(first, n, i, j);
      }
    } else if u.blocks == first.blocks && DistinctHashes(first) {
      forall i | 0 <= i < n ensures Maps(first, n, u.blocks[i].value.hash, u.blocks[i].value.number) {
        LastOfItsHash(first, n, i);
      }
    }
  }

  /** As many hashes as needed, all different. */
  function Hash(k: nat): (h: string)
    ensures |h| == k
  {
    seq(k, _ => 'f')
  }

  function Answers(numbers: seq<nat>, hashes: seq<string>): (u: Upstream)
    requires |hashes| == |numbers|
    ensures Echoes(u, numbers)
  {
    Upstream(Some(0), seq(|numbers|, k requires 0 <= k < |numbers| => Some(BlockData(numbers[k], hashes[k]))))
  }

  ghost predicate AgreeOn(u: Upstream, first: Upstream, numbers: seq<nat>)
  {
    Echoes(u, numbers) && Echoes(first, numbers) && Confirms(u, first) ==> u.blocks == first.blocks
  }

  /** Two nodes asked twice for one block number can confirm each other with the two hashes swapped. */
  lemma SwappedHashesConfirm(numbers: seq<nat>, i: nat, j: nat)
    requires i < j < |numbers| && numbers[i] == numbers[j]
    ensures exists u, first :: !AgreeOn(u, first, numbers)
  {
    var hashes := seq(|numbers|, (k: nat) => Hash(k));
    var first, u := Answers(numbers, hashes), Answers(numbers, hashes[i := hashes[j]][j := hashes[i]]);
    forall k | 0 <= k < |numbers|
      ensures Maps(first, |first.blocks|, u.blocks[k].value.hash, u.blocks[k].value.number)
    {
      LastOfItsHash(first, |numbers|, if k == i then j else if k == j then i else k);
    }
    assert |u.blocks[i].value.hash| != |first.blocks[i].value.hash|;
    assert !AgreeOn(u, first, numbers);
  }

  /** Confirmation between echoing nodes means agreement on every hash if and only if the block numbers are distinct. */
  lemma AgreementExactly(numbers: seq<nat>)
    ensures (forall u, first :: AgreeOn(u, first, numbers))
            <==> forall i, j :: 0 <= i < j < |numbers| ==> numbers[i] != numbers[j]
  {
    if i, j :| 0 <= i < j < |numbers| && numbers[i] == numbers[j] {
      SwappedHashesConfirm(numbers, i, j);
    } else {
      forall u, first | Echoes(u, numbers) && Echoes(first, numbers) && Confirms(u, first)
        ensures u.blocks == first.blocks
      {
        ConfirmedHashesAgree(u, first, numbers);
      }
    }
  }

  /** Without the echo nothing follows: a node that answers twice with block 2 confirms another's block 1. */
  lemma ConfirmationNeedsTheEcho()
    ensures var first := Upstream(Some(9), [Some(BlockData(1, "a")), Some(BlockData(2, "b"))]);
            var u := Upstream(Some(9), [Some(BlockData(2, "b")), Some(BlockData(2, "b"))]);
            Deep(u, 5) && Deep(first, 5) && Confirms(u, first) && u.blocks[0] != first.blocks[0]
  {
    var first := Upstream(Some(9), [Some(BlockData(1, "a")), Some(BlockData(2, "b"))]);
    assert Maps(first, 2, "b", 2);
  }
}
