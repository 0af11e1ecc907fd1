/** Byte order and the 80-byte layout of Bitcoin block headers. */
module BtcSerialize {
  import opened Bytes

  function Reversed(s: seq<byte>): (r: seq<byte>)
    ensures |r| == |s|
    ensures forall k :: 0 <= k < |s| ==> r[k] == s[|s| - 1 - k]
  {
    seq(|s|, k requires 0 <= k < |s| => s[|s| - 1 - k])
  }

  /** Writes `src` backwards over `dst[dstOffset..]`; what does not fit is dropped. */
  method CopyReverse(dst: array<byte>, src: seq<byte>, dstOffset: nat)
    modifies dst
    ensures forall k :: 0 <= k < dst.Length ==>
              dst[k] == if dstOffset <= k < dstOffset + |src| then Reversed(src)[k - dstOffset] else old(dst[k])
    ensures dstOffset + |src| <= dst.Length ==>
              dst[..] == old(dst[..dstOffset]) + Reversed(src) + old(dst[dstOffset + |src|..])
  {
    for i := 0 to |src|
      invariant forall k :: 0 <= k < dst.Length ==>
                  dst[k] == if dstOffset + |src| - i <= k < dstOffset + |src| then Reversed(src)[k - dstOffset]
                      else old(dst[k])
    {
      if |src| - i - 1 + dstOffset < dst.Length {
        dst[|src| - i - 1 + dstOffset] := src[i];
      }
    }
  }

  // ---------------------------------------------------------------- block headers

  /**
    The fields as the node reports them: identifiers most significant byte first, time and nonce as numbers. The first
    block of a chain has no previous one.
   */
  datatype Header = Header(version: seq<byte>, previous: Option<seq<byte>>, merkleRoot: seq<byte>, time: nat,
                           bits: seq<byte>, nonce: nat)
  {
    /** The fields have the lengths they have in Bitcoin. */
    predicate Sized()
    {
      && |version| == 4 && |merkleRoot| == 32 && |bits| == 4
      && (previous.Some? ==> |previous.value| == 32)
    }
  }

  /** The last four bytes of a number, filled up with zeros from the left. */
  function ToBuffer4(n: nat): (r: seq<byte>)
    ensures |r| == 4
    ensures Value(r) == n % 0x100000000
  {
    var val := MinBytes(n);
    if |val| < 4 then
      var zeros := seq(4 - |val|, _ => 0);
      ZerosSpellNothing(zeros);
      ValueSplit(zeros, val);
      ValueBound(val);
      FourBytes(val);
      zeros + val
    else
      var head, tail := val[..|val| - 4], val[|val| - 4..];
      assert head + tail == val;
      ValueSplit(head, tail);
      ValueBound(tail);
      FourBytes(tail);
      LowPart(Value(head), Value(tail));
      tail
  }

  lemma LowPart(a: nat, b: nat)
    requires b < 0x100000000
    ensures (a * 0x100000000 + b) % 0x100000000 == b
  {
  }

  lemma FourBytes(bs: seq<byte>)
    requires |bs| <= 4
    ensures Pow256(4) == 0x100000000 && Pow256(|bs|) <= 0x100000000
  {
    assert Pow256(0) == 1 && Pow256(1) == 0x100 && Pow256(2) == 0x10000 && Pow256(3) == 0x1000000;
  }

  lemma {:induction false} ZerosSpellNothing(zeros: seq<byte>)
    requires forall k :: 0 <= k < |zeros| ==> zeros[k] == 0
    ensures Value(zeros) == 0
  {
    if zeros != [] {
      ZerosSpellNothing(zeros[..|zeros| - 1]);
    }
  }

  /** The 80 bytes that are hashed: every field in reverse. */
  function Layout(block: Header): (r: seq<byte>)
    requires block.Sized() && block.previous.Some?
    ensures |r| == 80
    ensures r[72..76] == Reversed(block.bits)
  {
    Reversed(block.version) + Reversed(block.previous.value) + Reversed(block.merkleRoot)
    + Reversed(ToBuffer4(block.time)) + Reversed(block.bits) + Reversed(ToBuffer4(block.nonce))
  }

  /** A header without a previous block cannot be serialized. */
  function Serialized(block: Header): Option<seq<byte>>
    requires block.Sized()
  {
    if block.previous.None? then None else Some(Layout(block))
  }

  lemma SixFields(res: seq<byte>, block: Header)
    requires block.Sized() && block.previous.Some? && |res| == 80
    requires res[..4] == Reversed(block.version) && res[4..36] == Reversed(block.previous.value)
    requires res[36..68] == Reversed(block.merkleRoot) && res[68..72] == Reversed(ToBuffer4(block.time))
    requires res[72..76] == Reversed(block.bits) && res[76..] == Reversed(ToBuffer4(block.nonce))
    ensures res == Layout(block)
  {
    hide ToBuffer4;
  }

  /** `None` where the source throws: exactly where there is no previous block. */
  method SerializeBlockHeader(block: Header) returns (r: Option<seq<byte>>)
    ensures r.None? <==> block.previous.None?
    ensures r.Some? ==> |r.value| == 80
    ensures block.Sized() ==> r == Serialized(block)
  {
    hide ToBuffer4, Layout;
    var res := new byte[80];
    CopyReverse(res, block.version, 0);
    if block.previous.None? {
      return None;
    }
    CopyReverse(res, block.previous.value, 4);
    CopyReverse(res, block.merkleRoot, 36);
    CopyReverse(res, ToBuffer4(block.time), 68);
    CopyReverse(res, block.bits, 72);
    CopyReverse(res, ToBuffer4(block.nonce), 76);
    if block.Sized() {
      SixFields(res[..], block);
    }
    r := Some(res[..]);
  }

  /** Nothing is lost: the layout gives back every field, time and nonce modulo 2^32. */
  lemma LayoutIsReadable(block: Header)
    requires block.Sized() && block.previous.Some?
    ensures var r := Layout(block);
            && block.version == Reversed(r[..4]) && block.previous.value == Reversed(r[4..36])
            && block.merkleRoot == Reversed(r[36..68]) && block.bits == Reversed(r[72..76])
            && Value(Reversed(r[68..72])) == block.time % 0x100000000
            && Value(Reversed(r[76..80])) == block.nonce % 0x100000000
  {
    hide ToBuffer4, Value;
    SixParts(Layout(block), Reversed(block.version), Reversed(block.previous.value), Reversed(block.merkleRoot),
             Reversed(ToBuffer4(block.time)), Reversed(block.bits), Reversed(ToBuffer4(block.nonce)));
    ReversedTwice(block.version);
    ReversedTwice(block.previous.value);
    ReversedTwice(block.merkleRoot);
    ReversedTwice(ToBuffer4(block.time));
    ReversedTwice(block.bits);
    ReversedTwice(ToBuffer4(block.nonce));
  }

  lemma ReversedTwice(s: seq<byte>)
    ensures Reversed(Reversed(s)) == s
  {
  }

  lemma SixParts(r: seq<byte>, a: seq<byte>, b: seq<byte>, c: seq<byte>, d: seq<byte>, e: seq<byte>, f: seq<byte>)
    requires r == a + b + c + d + e + f && |a| == |d| == |e| == |f| == 4 && |b| == |c| == 32
    ensures r[..4] == a && r[4..36] == b && r[36..68] == c && r[68..72] == d && r[72..76] == e && r[76..80] == f
  {
  }
}
