/** Finality headers for a validator transition: consecutive blocks until enough different signers are seen. */
module AuraFinality {
  datatype Block = Block(signer: string, header: string)

  /** The blocks the node has, by number. */
  type Blocks = map<nat, Block>

  function Signers(chain: Blocks, signer: string, from: nat, n: nat): set<string>
  {
    if n == 0 then {signer}
    else Signers(chain, signer, from, n - 1) + (if from + n in chain then {chain[from + n].signer} else {})
  }

  /** The headers of the `n` blocks after `from`, all of which exist while the search goes on. */
  function Headers(chain: Blocks, from: nat, n: nat): seq<string>
  {
    if n == 0 then []
    else Headers(chain, from, n - 1) + (if from + n in chain then [chain[from + n].header] else [])
  }

  function MinSigners(numValidators: nat): nat
  {
    (numValidators + 2) / 2
  }

  /** No further than two rounds, nor than `maxBlock` unless that is 0. */
  function MaxNumber(blockNumber: nat, numValidators: nat, maxBlock: nat): nat
  {
    var twoRounds := blockNumber + 2 * numValidators;
    if maxBlock > twoRounds || maxBlock == 0 then twoRounds else maxBlock
  }

  /** The search goes on after `n` further blocks. */
  predicate GoesOn(chain: Blocks, blockNumber: nat, signer: string, numValidators: nat, maxBlock: nat, n: nat)
  {
    && |Signers(chain, signer, blockNumber, n)| < MinSigners(numValidators)
    && blockNumber + n < MaxNumber(blockNumber, numValidators, maxBlock)
    && blockNumber + n + 1 in chain
  }

  /** The list holds the elements of the set, each once. */
  ghost predicate Lists(s: seq<string>, elements: set<string>)
  {
    |s| == |elements| && forall x :: x in s <==> x in elements
  }

  method AddSigner(signers: seq<string>, signer: string, ghost elements: set<string>) returns (r: seq<string>)
    requires Lists(signers, elements)
    ensures Lists(r, elements + {signer})
  {
    r := signers;
    if signer !in signers {
      r := signers + [signer];
    } else {
      assert elements + {signer} == elements;
    }
  }

  /** The search went on `n` times. */
  ghost predicate WentOn(chain: Blocks, blockNumber: nat, signer: string, numValidators: nat, maxBlock: nat, n: nat)
  {
    n > 0 ==> GoesOn(chain, blockNumber, signer, numValidators, maxBlock, n - 1)
              && WentOn(chain, blockNumber, signer, numValidators, maxBlock, n - 1)
  }

  /** The condition of the loop and of its break, read off the list of signers. */
  lemma Condition(chain: Blocks, blockNumber: nat, signer: string, numValidators: nat, maxBlock: nat, n: nat,
                  signers: seq<string>, elements: set<string>)
    requires Lists(signers, elements) && elements == Signers(chain, signer, blockNumber, n)
    ensures GoesOn(chain, blockNumber, signer, numValidators, maxBlock, n)
            <==> && |signers| < MinSigners(numValidators)
                 && blockNumber + n < MaxNumber(blockNumber, numValidators, maxBlock)
                 && blockNumber + n + 1 in chain
  {
  }

  lemma SearchStarts(chain: Blocks, blockNumber: nat, signer: string, numValidators: nat, maxBlock: nat)
    ensures WentOn(chain, blockNumber, signer, numValidators, maxBlock, 0) && Lists([signer], {signer})
    ensures Signers(chain, signer, blockNumber, 0) == {signer} && Headers(chain, blockNumber, 0) == []
  {
  }

  lemma SearchStep(chain: Blocks, blockNumber: nat, signer: string, numValidators: nat, maxBlock: nat, n: nat)
    requires WentOn(chain, blockNumber, signer, numValidators, maxBlock, n)
    requires GoesOn(chain, blockNumber, signer, numValidators, maxBlock, n)
    ensures WentOn(chain, blockNumber, signer, numValidators, maxBlock, n + 1)
    ensures var b := chain[blockNumber + n + 1];
            && Signers(chain, signer, blockNumber, n + 1) == Signers(chain, signer, blockNumber, n) + {b.signer}
            && Headers(chain, blockNumber, n + 1) == Headers(chain, blockNumber, n) + [b.header]
  {
  }

  /**
    The headers of the blocks right after `blockNumber`: exactly as many as it takes until more than half of the
    validators have signed, or until the bound or the end of the chain.
   */
  method AddFinalityForTransition(chain: Blocks, blockNumber: nat, blockSigner: string, numValidators: nat,
                                  maxBlock: nat)
    returns (finalityBlocks: seq<string>)
    ensures !GoesOn(chain, blockNumber, blockSigner, numValidators, maxBlock, |finalityBlocks|)
    ensures WentOn(chain, blockNumber, blockSigner, numValidators, maxBlock, |finalityBlocks|)
    ensures finalityBlocks == Headers(chain, blockNumber, |finalityBlocks|)
  {
    var bn := blockNumber;
    var twoRoundsNumber := bn + 2 * numValidators;
    var maxNumber := if maxBlock > twoRoundsNumber || maxBlock == 0 then twoRoundsNumber else maxBlock;
    var signers := [blockSigner];
    var minSigners := (numValidators + 2) / 2;
    finalityBlocks := [];
    ghost var elements, n := {blockSigner}, 0;
    hide Signers, Headers, WentOn, GoesOn, Lists;
    SearchStarts(chain, blockNumber, blockSigner, numValidators, maxBlock);
    while |signers| < minSigners && bn < maxNumber
      invariant |finalityBlocks| == n && bn == blockNumber + n
      invariant Lists(signers, elements) && elements == Signers(chain, blockSigner, blockNumber, n)
      invariant WentOn(chain, blockNumber, blockSigner, numValidators, maxBlock, n)
      invariant finalityBlocks == Headers(chain, blockNumber, n)
      decreases maxNumber - bn
    {
      Condition(chain, blockNumber, blockSigner, numValidators, maxBlock, n, signers, elements);
      if bn + 1 !in chain {
        break;
      }
      SearchStep(chain, blockNumber, blockSigner, numValidators, maxBlock, n);
      var b := chain[bn + 1];
      bn := bn + 1;
      signers := AddSigner(signers, b.signer, elements);
      elements := elements + {b.signer};
      finalityBlocks := finalityBlocks + [b.header];
      n := n + 1;
    }
    Condition(chain, blockNumber, blockSigner, numValidators, maxBlock, n, signers, elements);
  }

  // ---------------------------------------------------------------- how many headers

  /** The signers of the transition block and of the blocks after it, up to the `n`-th. */
  lemma {:induction false} SignersExactly(chain: Blocks, signer: string, from: nat, n: nat, x: string)
    ensures x in Signers(chain, signer, from, n)
            <==> x == signer || exists b :: from < b <= from + n && b in chain && chain[b].signer == x
  {
    if n > 0 {
      SignersExactly(chain, signer, from, n - 1, x);
    }
  }

  lemma {:induction false} HeadersExactly(chain: Blocks, from: nat, n: nat)
    requires forall b :: from < b <= from + n ==> b in chain
    ensures |Headers(chain, from, n)| == n
    ensures forall i :: 0 <= i < n ==> Headers(chain, from, n)[i] == chain[from + i + 1].header
  {
    if n > 0 {
      HeadersExactly(chain, from, n - 1);
    }
  }

  /** At most half of the validators have signed, two rounds and the last block are ahead, and there is a next block. */
  ghost predicate NotFinal(chain: Blocks, blockNumber: nat, signer: string, numValidators: nat, maxBlock: nat, n: nat)
  {
    && 2 * |Signers(chain, signer, blockNumber, n)| <= numValidators
    && n < 2 * numValidators && (maxBlock == 0 || blockNumber + n < maxBlock)
    && blockNumber + n + 1 in chain
  }

  lemma GoesOnExactly(chain: Blocks, blockNumber: nat, signer: string, numValidators: nat, maxBlock: nat, n: nat)
    ensures GoesOn(chain, blockNumber, signer, numValidators, maxBlock, n)
            <==> NotFinal(chain, blockNumber, signer, numValidators, maxBlock, n)
  {
    hide Signers;
  }

  lemma {:induction false} WentOnExactly(chain: Blocks, blockNumber: nat, signer: string, numValidators: nat,
                                         maxBlock: nat, n: nat)
    ensures WentOn(chain, blockNumber, signer, numValidators, maxBlock, n)
            <==> forall k :: 0 <= k < n ==> NotFinal(chain, blockNumber, signer, numValidators, maxBlock, k)
  {
    hide GoesOn, NotFinal;
    if n > 0 {
      WentOnExactly(chain, blockNumber, signer, numValidators, maxBlock, n - 1);
      GoesOnExactly(chain, blockNumber, signer, numValidators, maxBlock, n - 1);
    }
  }

  /** The least number of headers at which the search is final, and the headers of just so many blocks, in order. */
  lemma LeastFinal(chain: Blocks, blockNumber: nat, signer: string, numValidators: nat, maxBlock: nat, n: nat)
    requires !GoesOn(chain, blockNumber, signer, numValidators, maxBlock, n)
    requires WentOn(chain, blockNumber, signer, numValidators, maxBlock, n)
    ensures !NotFinal(chain, blockNumber, signer, numValidators, maxBlock, n)
    ensures forall k :: 0 <= k < n ==> NotFinal(chain, blockNumber, signer, numValidators, maxBlock, k)
    ensures |Headers(chain, blockNumber, n)| == n
    ensures forall b :: blockNumber < b <= blockNumber + n ==> b in chain
    ensures forall i :: 0 <= i < n ==> Headers(chain, blockNumber, n)[i] == chain[blockNumber + i + 1].header
  {
    hide Headers, Signers, GoesOn, WentOn;
    WentOnExactly(chain, blockNumber, signer, numValidators, maxBlock, n);
    GoesOnExactly(chain, blockNumber, signer, numValidators, maxBlock, n);
    forall b | blockNumber < b <= blockNumber + n ensures b in chain {
      assert NotFinal(chain, blockNumber, signer, numValidators, maxBlock, b - blockNumber - 1);
    }
    HeadersExactly(chain, blockNumber, n);
  }
}
