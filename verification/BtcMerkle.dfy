/**
  Merkle branches of Bitcoin blocks: the tree as the Bitcoin Developer Reference ("Merkle Trees") defines it,
  the in-place reduction that extracts a branch, and what the branch proves.
  Double SHA-256 is a parameter `h`; no theorem depends on which function it is.
 */
module BtcMerkle {
  import opened Bytes
  import opened BtcSerialize

  type Hash256 = s: seq<byte> | |s| == 32 witness seq(32, _ => 0)

  type Hasher = seq<byte> -> Hash256

  // ---------------------------------------------------------------- the tree

  /** The concatenation that is hashed for node `i` of the next level; the last node of an odd level is its own pair. */
  function Pair(level: seq<Hash256>, i: nat): seq<byte>
    requires 2 * i < |level|
  {
    var left: seq<byte> := level[2 * i];
    left + (if 2 * i + 1 == |level| then level[2 * i] else level[2 * i + 1])
  }

  function Next(h: Hasher, level: seq<Hash256>): (r: seq<Hash256>)
  {
    seq<Hash256>((|level| + 1) / 2, i requires 0 <= i < (|level| + 1) / 2 => h(Pair(level, i)))
  }

  function Root(h: Hasher, level: seq<Hash256>): Hash256
    requires level != []
    decreases |level|
  {
    if |level| == 1 then level[0] else Root(h, Next(h, level))
  }

  // ---------------------------------------------------------------- the branch and its verifier

  function Sibling(level: seq<Hash256>, index: nat): Hash256
    requires index < |level|
  {
    if index % 2 == 1 then level[index - 1]
    else if index + 1 == |level| then level[index]
    else level[index + 1]
  }

  function Branch(h: Hasher, level: seq<Hash256>, index: nat): seq<Hash256>
    requires index < |level|
    decreases |level|
  {
    if |level| <= 2 then [Sibling(level, index)]
    else [Sibling(level, index)] + Branch(h, Next(h, level), index / 2)
  }

  /** The verifier's computation: the lowest bit of the index says on which side the sibling goes. */
  function Fold(h: Hasher, leaf: Hash256, branch: seq<Hash256>, index: nat): Hash256
    decreases |branch|
  {
    if branch == [] then leaf
    else Fold(h, h(Joined(leaf, branch[0], index)), branch[1..], index / 2)
  }

  function Joined(leaf: Hash256, sibling: Hash256, index: nat): seq<byte>
  {
    if index % 2 == 0 then leaf + sibling else sibling + leaf
  }

  lemma JoinedIsPair(level: seq<Hash256>, index: nat)
    requires index < |level|
    ensures Joined(level[index], Sibling(level, index), index) == Pair(level, index / 2)
  {
  }

  /** For two or more transactions the branch of any member leads from that member to the root. */
  lemma {:induction false} BranchLeadsToRoot(h: Hasher, level: seq<Hash256>, index: nat)
    requires index < |level| && |level| >= 2
    ensures Fold(h, level[index], Branch(h, level, index), index) == Root(h, level)
    decreases |level|
  {
    var branch := Branch(h, level, index);
    var next := Next(h, level);
    JoinedIsPair(level, index);
    assert Fold(h, level[index], branch, index) == Fold(h, next[index / 2], branch[1..], index / 2);
    if |level| > 2 {
      assert branch[1..] == Branch(h, next, index / 2);
      BranchLeadsToRoot(h, next, index / 2);
    }
  }

  /** A block with a single transaction gets that transaction as its own sibling, which hashes once too often. */
  lemma SingleTransactionBranch(h: Hasher, leaf: Hash256)
    ensures Branch(h, [leaf], 0) == [leaf]
    ensures Fold(h, leaf, Branch(h, [leaf], 0), 0) == Root(h, [leaf]) <==> h(leaf + leaf) == leaf
  {
    assert Branch(h, [leaf], 0)[1..] == [];
  }

  function Pow2(n: nat): nat
  {
    if n == 0 then 1 else 2 * Pow2(n - 1)
  }

  /** The number of siblings is the least d with 2^d no less than the number of transactions. */
  lemma {:induction false} BranchLength(h: Hasher, level: seq<Hash256>, index: nat)
    requires index < |level| && |level| >= 2
    ensures var d := |Branch(h, level, index)|; d >= 1 && Pow2(d - 1) < |level| <= Pow2(d)
    decreases |level|
  {
    if |level| > 2 {
      BranchLength(h, Next(h, level), index / 2);
    } else {
      assert Pow2(1) == 2;
    }
  }

  /**
    Two different strings with one hash, read off a branch that verifies for a leaf that is not in the tree:
    the first level where the verifier's hash meets the tree's.
   */
  function Collision(h: Hasher, level: seq<Hash256>, index: nat, leaf: Hash256, branch: seq<Hash256>)
    : (r: (seq<byte>, seq<byte>))
    requires index < |level|
    decreases |branch|
  {
    if branch == [] then ([], [])
    else
      var mine, theirs := Joined(leaf, branch[0], index), Pair(level, index / 2);
      if h(mine) == h(theirs) then (mine, theirs)
      else Collision(h, Next(h, level), index / 2, h(mine), branch[1..])
  }

  /**
    A branch of the right length that verifies for another leaf at this index exhibits a collision of the hash:
    short of one, only the leaf at `index` has a proof.
   */
  lemma {:induction false} BranchBinds(h: Hasher, level: seq<Hash256>, index: nat, leaf: Hash256, branch: seq<Hash256>)
    requires index < |level| && |level| >= 2
    requires |branch| == |Branch(h, level, index)|
    requires Fold(h, leaf, branch, index) == Root(h, level) && leaf != level[index]
    ensures var (a, b) := Collision(h, level, index, leaf, branch);
            a != b && h(a) == h(b) && |a| == |b| == 64
    decreases |level|
  {
    var mine, theirs := Joined(leaf, branch[0], index), Pair(level, index / 2);
    var next := Next(h, level);
    DifferentLeafDifferentPair(level, index, leaf, branch[0]);
    if h(mine) != h(theirs) {
      assert next[index / 2] == h(theirs);
      if |level| > 2 {
        BranchBinds(h, next, index / 2, h(mine), branch[1..]);
      } else {
        assert false;
      }
    }
  }

  lemma DifferentLeafDifferentPair(level: seq<Hash256>, index: nat, leaf: Hash256, sibling: Hash256)
    requires index < |level| && leaf != level[index]
    ensures Joined(leaf, sibling, index) != Pair(level, index / 2)
  {
    var mine, theirs := Joined(leaf, sibling, index), Pair(level, index / 2);
    if index % 2 == 0 {
      assert mine[..32] == leaf && theirs[..32] == level[index];
    } else {
      assert mine[32..] == leaf && theirs[32..] == level[index];
    }
  }

  // ---------------------------------------------------------------- the reduction in place

  /** Word `k` of a buffer of 32-byte words. */
  function Word(buf: seq<byte>, k: nat): Hash256
    requires 32 * k + 32 <= |buf|
  {
    buf[32 * k..32 * k + 32]
  }

  function Words(buf: seq<byte>, n: nat): (r: seq<Hash256>)
    requires 32 * n <= |buf|
    ensures |r| == n && forall k :: 0 <= k < n ==> r[k] == Word(buf, k)
  {
    seq(n, k requires 0 <= k < n => Word(buf, k))
  }

  /** `src[from..to]` over `dst`, starting at `at`. */
  method Copy(src: array<byte>, dst: array<byte>, at: nat, from: nat, to: nat)
    requires from <= to <= src.Length && at + (to - from) <= dst.Length && src != dst
    modifies dst
    ensures dst[..] == old(dst[..at]) + src[from..to] + old(dst[at + (to - from)..])
  {
    for i := 0 to to - from
      invariant dst[..] == old(dst[..at]) + src[from..from + i] + old(dst[at + i..])
    {
      dst[at + i] := src[from + i];
    }
  }

  /** The hash of the pair that starts at byte `j`, read from what is left of the level. */
  method HashPair(h: Hasher, hashes: array<byte>, hashesLen: nat, i: nat, j: nat, ghost level: seq<Hash256>)
    returns (digest: Hash256)
    requires hashesLen == |level| && 2 * i < hashesLen && 32 * hashesLen <= hashes.Length && j == 64 * i
    requires Word(hashes[..], 2 * i) == level[2 * i]
    requires 2 * i + 1 < |level| ==> Word(hashes[..], 2 * i + 1) == level[2 * i + 1]
    ensures digest == h(Pair(level, i))
  {
    var data := new byte[64];
    Copy(hashes, data, 0, j, j + 32);
    assert hashes[j..j + 32] == Word(hashes[..], 2 * i);
    if 2 * i + 1 == hashesLen {
      Copy(hashes, data, 32, j, j + 32);
    } else {
      Copy(hashes, data, 32, j + 32, j + 64);
      assert hashes[j + 32..j + 64] == Word(hashes[..], 2 * i + 1);
    }
    assert data[..] == Pair(level, i);
    digest := h(data[..]);
  }

  /** The other word of the pair that `index` is in; the last word of an odd level is read again. */
  method ReadSibling(hashes: array<byte>, hashesLen: nat, i: nat, j: nat, index: nat, ghost level: seq<Hash256>)
    returns (sibling: Hash256)
    requires hashesLen == |level| && index < hashesLen && index / 2 == i
    requires 32 * hashesLen <= hashes.Length && j == 64 * i
    requires Word(hashes[..], 2 * i) == level[2 * i]
    requires 2 * i + 1 < |level| ==> Word(hashes[..], 2 * i + 1) == level[2 * i + 1]
    ensures sibling == Sibling(level, index)
  {
    var pos := if 2 * i == index then (if hashesLen == index + 1 then j else j + 32) else j;
    if pos == j {
      assert hashes[j..j + 32] == Word(hashes[..], 2 * i);
    } else {
      assert hashes[j + 32..j + 64] == Word(hashes[..], 2 * i + 1);
    }
    sibling := hashes[pos..pos + 32];
  }

  /** One round of the reduction: the level's words are replaced from the left while the right ones are still read. */
  method ReduceLevel(h: Hasher, hashes: array<byte>, hashesLen: nat, bb: seq<Hash256>, index: nat)
    returns (r: seq<Hash256>)
    requires index < hashesLen && 32 * hashesLen <= hashes.Length
    modifies hashes
    ensures r == bb + [Sibling(old(Words(hashes[..], hashesLen)), index)]
    ensures Words(hashes[..], (hashesLen + 1) / 2) == Next(h, old(Words(hashes[..], hashesLen)))
  {
    ghost var level := Words(hashes[..], hashesLen);
    var resCount := (hashesLen + 1) / 2;
    r := bb;
    var i, j := 0, 0;
    while i < resCount
      invariant i <= resCount && j == 64 * i
      invariant forall k :: 0 <= k < i ==> Word(hashes[..], k) == h(Pair(level, k))
      invariant forall k :: 2 * i <= k < hashesLen ==> Word(hashes[..], k) == level[k]
      invariant r == if index / 2 < i then bb + [Sibling(level, index)] else bb
    {
      if index / 2 == i {
        var sibling := ReadSibling(hashes, hashesLen, i, j, index, level);
        r := r + [sibling];
      }
      var digest := HashPair(h, hashes, hashesLen, i, j, level);
      Overwrite(hashes, i, digest);
      i, j := i + 1, j + 64;
    }
  }

  method Overwrite(hashes: array<byte>, i: nat, digest: Hash256)
    requires 32 * i + 32 <= hashes.Length
    modifies hashes
    ensures Word(hashes[..], i) == digest
    ensures forall k :: 0 <= k && 32 * k + 32 <= hashes.Length && k != i ==>
            Word(hashes[..], k) == old(Word(hashes[..], k))
  {
    for b := 0 to 32
      invariant hashes[32 * i..32 * i + b] == digest[..b]
      invariant forall k :: 0 <= k < hashes.Length && !(32 * i <= k < 32 * i + 32) ==> hashes[k] == old(hashes[k])
    {
      hashes[32 * i + b] := digest[b];
    }
  }

  method CreateProofs(h: Hasher, hashes: array<byte>, hashesLen: nat, bb: seq<Hash256>, index: nat)
    returns (r: seq<Hash256>)
    requires index < hashesLen && 32 * hashesLen <= hashes.Length
    modifies hashes
    ensures r == bb + Branch(h, old(Words(hashes[..], hashesLen)), index)
    decreases hashesLen
  {
    ghost var level := Words(hashes[..], hashesLen);
    var resCount := (hashesLen + 1) / 2;
    r := ReduceLevel(h, hashes, hashesLen, bb, index);
    if resCount > 1 {
      assert Words(hashes[..], resCount) == Next(h, level);
      r := CreateProofs(h, hashes, resCount, r, index / 2);
    }
  }

  // ---------------------------------------------------------------- the proof of a transaction

  /** Transaction ids are hashes printed in reverse. */
  function Leaves(txs: seq<Hash256>): (r: seq<Hash256>)
    ensures |r| == |txs|
  {
    seq(|txs|, i requires 0 <= i < |txs| => Reversed(txs[i]))
  }

  function Concat(parts: seq<Hash256>): seq<byte>
  {
    if parts == [] then [] else Concat(parts[..|parts| - 1]) + parts[|parts| - 1]
  }

  /** A proof cut into its 32-byte words, as the verifier reads it. */
  function Chunks(proof: seq<byte>): seq<Hash256>
    requires |proof| % 32 == 0
  {
    if proof == [] then [] else Chunks(proof[..|proof| - 32]) + [proof[|proof| - 32..]]
  }

  lemma {:induction false} ChunksOfConcat(parts: seq<Hash256>)
    ensures |Concat(parts)| == 32 * |parts| && Chunks(Concat(parts)) == parts
  {
    if parts != [] {
      var n := |parts| - 1;
      ChunksOfConcat(parts[..n]);
      var all := Concat(parts);
      assert all[..|all| - 32] == Concat(parts[..n]) && all[|all| - 32..] == parts[n];
    }
  }

  /** From the bytes of a proof a verifier recomputes the Merkle root of the block's transaction ids. */
  lemma ProofVerifies(h: Hasher, txs: seq<Hash256>, index: nat)
    requires index < |txs| && |txs| >= 2
    ensures var proof := Concat(Branch(h, Leaves(txs), index));
            |proof| % 32 == 0
            && Fold(h, Reversed(txs[index]), Chunks(proof), index) == Root(h, Leaves(txs))
  {
    hide Concat, Chunks, Branch, Fold, Root;
    ChunksOfConcat(Branch(h, Leaves(txs), index));
    BranchLeadsToRoot(h, Leaves(txs), index);
  }

  /** `None` where the source throws "Transaction not found"; the first occurrence is proved. */
  method CreateMerkleProof(h: Hasher, txs: seq<Hash256>, tx: Hash256) returns (r: Option<seq<byte>>)
    ensures r.None? <==> tx !in txs
    ensures r.Some? ==> exists index :: 0 <= index < |txs| && txs[index] == tx && tx !in txs[..index]
                                    && r.value == Concat(Branch(h, Leaves(txs), index))
  {
    var index := 0;
    while index < |txs| && txs[index] != tx
      invariant index <= |txs| && tx !in txs[..index]
    {
      index := index + 1;
    }
    if index == |txs| {
      return None;
    }
    hide Branch, Concat, Leaves;
    var tmp := CopyLeaves(txs);
    var parts := CreateProofs(h, tmp, |txs|, [], index);
    assert parts == Branch(h, Leaves(txs), index);
    var all := ConcatAll(parts);
    r := Some(all);
  }

  /** The ids in reverse, one after the other. */
  method CopyLeaves(txs: seq<Hash256>) returns (tmp: array<byte>)
    ensures fresh(tmp) && tmp.Length == 32 * |txs| && Words(tmp[..], |txs|) == Leaves(txs)
  {
    tmp := new byte[32 * |txs|];
    for i := 0 to |txs|
      invariant forall k :: 0 <= k < i ==> Word(tmp[..], k) == Reversed(txs[k])
    {
      ghost var before := tmp[..];
      CopyReverse(tmp, txs[i], 32 * i);
      forall k | 0 <= k <= i ensures Word(tmp[..], k) == Reversed(txs[k]) {
        if k < i {
          assert Word(before, k) == Reversed(txs[k]);
          assert Word(tmp[..], k) == Word(before, k);
        }
      }
    }
    assert Words(tmp[..], |txs|) == Leaves(txs);
  }

  method ConcatAll(parts: seq<Hash256>) returns (all: seq<byte>)
    ensures all == Concat(parts)
  {
    all := [];
    for i := 0 to |parts|
      invariant all == Concat(parts[..i])
    {
      all := all + parts[i];
      assert parts[..i + 1][..i] == parts[..i];
    }
    assert parts[..|parts|] == parts;
  }
}
