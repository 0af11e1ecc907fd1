/**
  The cache of Bitcoin block data: records filled in place and shared between the key of a block's hash and the key of
  its height. Against a fixed chain, answers are those of a lookup without a cache.
 */
module BtcCache {
  import opened Bytes
  import opened BtcSerialize

  type Hex = string

  type Fields = h: Header | h.Sized() witness Header([0, 0, 0, 0], None, seq(32, _ => 0), 0, [0, 0, 0, 0], 0)

  datatype Block = Block(height: nat, hash: Hex, fields: Fields, txids: seq<Hex>, cbtx: Hex)

  /** The serialized header; the first block of the chain, which has no previous one, has none. */
  function HeaderOf(b: Block): Option<seq<byte>>
  {
    Serialized(b.fields)
  }

  /** A key is a 64-digit hash or a decimal height. */
  datatype Key = ByHash(hash: Hex) | ByNumber(number: nat)

  /** What the upstream node knows. */
  datatype Chain = Chain(byHash: Hex -> Option<Block>, byNumber: nat -> Option<Block>)
  {
    /** Hashes and heights of the chain's blocks belong to each other. */
    ghost predicate Bijective()
    {
      && (forall h :: byHash(h).Some? ==> byHash(h).value.hash == h && byNumber(byHash(h).value.height) == byHash(h))
      && (forall n :: byNumber(n).Some? ==>
          byNumber(n).value.height == n && byHash(byNumber(n).value.hash) == byNumber(n))
    }

    function Lookup(k: Key): Option<Block>
    {
      match k
      case ByHash(h) => byHash(h)
      case ByNumber(n) => byNumber(n)
    }
  }

  class Record {
    var height: Option<nat>
    var hash: Option<Hex>
    var header: Option<seq<byte>>
    var txids: Option<seq<Hex>>
    var cbtx: Option<Hex>

    /** A record for a key: only the key itself is known. */
    constructor (k: Key)
      ensures hash == if k.ByHash? then Some(k.hash) else None
      ensures height == if k.ByNumber? then Some(k.number) else None
      ensures header == None && txids == None && cbtx == None
    {
      hash := if k.ByHash? then Some(k.hash) else None;
      height := if k.ByNumber? then Some(k.number) else None;
      header, txids, cbtx := None, None, None;
    }

    /** The fields that are present are those of the block, or of the key if there is no such block. */
    ghost predicate Agrees(chain: Chain, k: Key)
      reads this
    {
      match chain.Lookup(k)
      case Some(b) => OfBlock(b)
      case None => OfKey(k)
    }

    ghost predicate OfBlock(b: Block)
      reads this
    {
      && (height.Some? ==> height.value == b.height) && (hash.Some? ==> hash.value == b.hash)
      && (header.Some? ==> header == HeaderOf(b)) && (txids.Some? ==> txids.value == b.txids)
      && (cbtx.Some? ==> cbtx.value == b.cbtx)
    }

    ghost predicate OfKey(k: Key)
      reads this
    {
      && header.None? && txids.None? && cbtx.None?
      && hash == (if k.ByHash? then Some(k.hash) else None)
      && height == (if k.ByNumber? then Some(k.number) else None)
    }
  }

  /** The first `n` blocks have headers. */
  predicate Serializable(blocks: seq<Block>, n: nat)
    requires n <= |blocks|
  {
    n > 0 ==> Serializable(blocks, n - 1) && HeaderOf(blocks[n - 1]).Some?
  }

  lemma {:induction false} SerializableAt(blocks: seq<Block>, n: nat, j: nat)
    requires j < n <= |blocks| && Serializable(blocks, n)
    ensures HeaderOf(blocks[j]).Some?
  {
    if j < n - 1 {
      SerializableAt(blocks, n - 1, j);
    }
  }

  datatype HeaderReply = HeadersFailed | Headers(headers: seq<seq<byte>>) | Json(blocks: seq<Block>)

  datatype CoinbaseReply = CoinbasesFailed | Coinbases(coinbases: seq<Coinbase>)

  datatype Coinbase = Coinbase(cbtx: Hex, txids: seq<Hex>)

  method MakeHeader(b: Block) returns (r: Option<seq<byte>>)
    ensures r == HeaderOf(b)
  {
    r := SerializeBlockHeader(b.fields);
  }

  class BTCCache {
    const chain: Chain
    var data: map<Key, Record>

    constructor (chain: Chain)
      requires chain.Bijective()
      ensures this.chain == chain && data == map[] && Coherent()
    {
      this.chain := chain;
      data := map[];
    }

    /** Every record agrees with the chain under every key it has, and keys share a record only for one block. */
    ghost predicate Coherent()
      reads this, data.Values
    {
      && chain.Bijective()
      && (forall k :: k in data ==> data[k].Agrees(chain, k))
      && (forall k, l :: k in data && l in data && data[k] == data[l] ==>
            k == l || (chain.Lookup(k).Some? && chain.Lookup(k) == chain.Lookup(l)))
    }

    /** No key is given another record. */
    twostate predicate Grown()
      reads this
    {
      forall k :: k in old(data) ==> k in data && data[k] == old(data[k])
    }

    twostate predicate OnlyNew()
      reads this
    {
      forall k :: k in data ==> data[k] in old(data.Values) || fresh(data[k])
    }

    /** Records for new keys know nothing but the key. */
    twostate predicate NewAreBlank()
      reads this, data.Values
    {
      forall k :: k in data && k !in old(data) ==> data[k].header.None? && data[k].cbtx.None? && data[k].txids.None?
    }

    method GetOrCreate(k: Key) returns (r: Record)
      requires Coherent()
      modifies this`data
      ensures Coherent() && Grown() && OnlyNew() && k in data && data[k] == r
      ensures data.Keys == old(data.Keys) + {k} && NewAreBlank()
    {
      if k in data {
        return data[k];
      }
      r := new Record(k);
      data := data[k := r];
    }

    method GetOrCreateAll(keys: seq<Key>) returns (results: seq<Record>)
      requires Coherent()
      modifies this`data
      ensures Coherent() && Grown() && OnlyNew() && NewAreBlank() && Hold(keys, results)
    {
      hide Coherent;
      results := [];
      for i := 0 to |keys|
        invariant Coherent() && Grown() && OnlyNew() && NewAreBlank() && HoldUpTo(keys, results, i)
      {
        var r := GetOrCreate(keys[i]);
        HoldStep(keys, results, i, r);
        results := results + [r];
      }
    }

    lemma HoldStep(keys: seq<Key>, results: seq<Record>, n: nat, r: Record)
      requires HoldUpTo(keys, results, n) && n < |keys| && keys[n] in data && data[keys[n]] == r
      ensures HoldUpTo(keys, results + [r], n + 1)
    {
    }

    /** The records stand under their keys. */
    ghost predicate Hold(keys: seq<Key>, results: seq<Record>)
      reads this
    {
      HoldUpTo(keys, results, |keys|)
    }

    ghost predicate HoldUpTo(keys: seq<Key>, results: seq<Record>, n: nat)
      reads this
    {
      n <= |keys| && |results| == n && forall i :: 0 <= i < n ==> keys[i] in data && data[keys[i]] == results[i]
    }

    /** Fills the fields a header brings, or none of them; a height of 0 counts as missing. */
    method FillHeader(r: Record, k: Key, b: Block) returns (ok: bool)
      requires Coherent() && k in data && data[k] == r && chain.Lookup(k) == Some(b)
      modifies r
      ensures Coherent() && (r.txids == old(r.txids) && r.cbtx == old(r.cbtx))
      ensures ok <==> HeaderOf(b).Some?
      ensures if ok then r.header.Some? else unchanged(r)
    {
      hide HeaderOf;
      assert r.Agrees(chain, k);
      if r.header.None? {
        var header := MakeHeader(b);
        if header.None? {
          return false;
        }
        r.header := header;
      }
      r.hash := if r.hash.None? then Some(b.hash) else r.hash;
      r.height := if r.height.None? || r.height.value == 0 then Some(b.height) else r.height;
      assert r.OfBlock(b);
      assert forall l :: l in data && data[l] == r ==> chain.Lookup(l) == Some(b);
      ok := true;
    }

    /** Makes the record known under the block's other key, unless that has a record of its own. */
    method Register(r: Record, k: Key, other: Key)
      requires Coherent() && k in data && data[k] == r
      requires chain.Lookup(k).Some? && chain.Lookup(other) == chain.Lookup(k)
      modifies this`data
      ensures Coherent() && Grown()
      ensures data == if other in old(data) then old(data) else old(data)[other := r]
    {
      hide HeaderOf;
      if other !in data {
        data := data[other := r];
      }
    }

    method FillAndRegister(r: Record, k: Key, b: Block) returns (ok: bool)
      requires Coherent() && k in data && data[k] == r && chain.Lookup(k) == Some(b)
      modifies this`data, r
      ensures Coherent() && Grown()
      ensures ok <==> HeaderOf(b).Some?
      ensures if ok then r.header.Some? else unchanged(this) && unchanged(r)
      ensures forall l :: l in data && l !in old(data) ==> data[l] == r
    {
      hide HeaderOf;
      ok := FillHeader(r, k, b);
      if ok {
        Register(r, k, OtherKey(k, b));
      }
    }

    /** Every record has its header, except those still to be filled. */
    ghost predicate HeadersBut(results: seq<Record>, toFetch: seq<nat>)
      reads results
    {
      forall k :: 0 <= k < |results| && k !in toFetch ==> results[k].header.Some?
    }

    /** The block behind a key as the node delivers it: a height is first turned into a hash. */
    function Fetch(k: Key): Option<Block>
    {
      match k
      case ByHash(h) => chain.byHash(h)
      case ByNumber(n) => if chain.byNumber(n).None? then None else chain.byHash(chain.byNumber(n).value.hash)
    }

    function OtherKey(k: Key, b: Block): Key
    {
      if k.ByHash? then ByNumber(b.height) else ByHash(b.hash)
    }

    ghost predicate Known(keys: seq<Key>)
    {
      forall i :: 0 <= i < |keys| ==> chain.Lookup(keys[i]).Some?
    }

    /** All the blocks at `toFetch`, or nothing: one failing answer fails the request. */
    method FetchAll(keys: seq<Key>, toFetch: seq<nat>, available: bool) returns (r: Option<seq<Block>>)
      requires chain.Bijective() && forall j :: 0 <= j < |toFetch| ==> toFetch[j] < |keys|
      ensures r.Some? ==> available && |r.value| == |toFetch|
      ensures r.Some? ==> forall j :: 0 <= j < |toFetch| ==> chain.Lookup(keys[toFetch[j]]) == Some(r.value[j])
      ensures r.None? ==> !available || exists j :: 0 <= j < |toFetch| && chain.Lookup(keys[toFetch[j]]).None?
    {
      if !available {
        return None;
      }
      var blocks := [];
      for j := 0 to |toFetch|
        invariant |blocks| == j
        invariant forall i :: 0 <= i < j ==> chain.Lookup(keys[toFetch[i]]) == Some(blocks[i])
      {
        var b := Fetch(keys[toFetch[j]]);
        if b.None? {
          return None;
        }
        blocks := blocks + [b.value];
      }
      return Some(blocks);
    }

    /** The records at the first `n` positions to fetch. */
    ghost function Taken(results: seq<Record>, toFetch: seq<nat>, n: nat): set<Record>
      requires n <= |toFetch| && forall j :: 0 <= j < |toFetch| ==> toFetch[j] < |results|
    {
      if n == 0 then {} else Taken(results, toFetch, n - 1) + {results[toFetch[n - 1]]}
    }

    method FillHeaderAt(keys: seq<Key>, results: seq<Record>, toFetch: seq<nat>, j: nat, b: Block) returns (ok: bool)
      requires Coherent() && Hold(keys, results) && j < |toFetch| && HeadersBut(results, toFetch[j..])
      requires toFetch[j] < |keys| && chain.Lookup(keys[toFetch[j]]) == Some(b)
      modifies this`data, results[toFetch[j]]
      ensures Coherent() && Grown() && Hold(keys, results)
      ensures ok <==> HeaderOf(b).Some?
      ensures HeadersBut(results, if ok then toFetch[j + 1..] else toFetch[j..])
      ensures !ok ==> unchanged(results[toFetch[j]])
    {
      TailSplits(toFetch, j);
      ok := FillAndRegister(results[toFetch[j]], keys[toFetch[j]], b);
    }

    /**
      The source throws at the first block without a header; the records before it are filled, those after it are not.
     */
    method FillHeaders(keys: seq<Key>, results: seq<Record>, toFetch: seq<nat>, blocks: seq<Block>) returns (n: nat)
      requires Coherent() && Hold(keys, results) && |blocks| == |toFetch| && HeadersBut(results, toFetch)
      requires forall j :: 0 <= j < |toFetch| ==>
               toFetch[j] < |keys| && chain.Lookup(keys[toFetch[j]]) == Some(blocks[j])
      modifies this`data, results
      ensures Coherent() && Grown() && Hold(keys, results)
      ensures n <= |toFetch| && HeadersBut(results, toFetch[n..])
      ensures Serializable(blocks, n)
      ensures n < |toFetch| ==> HeaderOf(blocks[n]).None?
      ensures forall r :: r in results && r !in Taken(results, toFetch, n) ==> unchanged(r)
    {
      hide HeaderOf;
      for j := 0 to |toFetch|
        invariant Coherent() && Grown() && Hold(keys, results) && HeadersBut(results, toFetch[j..])
        invariant Serializable(blocks, j)
        invariant forall r :: r in results && r !in Taken(results, toFetch, j) ==> unchanged(r)
      {
        var ok := FillHeaderAt(keys, results, toFetch, j, blocks[j]);
        if !ok {
          return j;
        }
      }
      n := |toFetch|;
    }

    /** The positions to ask the node for: those without a header, or all of them for the full answer. */
    method MissingHeaders(results: seq<Record>, json: bool) returns (toFetch: seq<nat>)
      ensures forall j :: 0 <= j < |toFetch| ==> toFetch[j] < |results|
      ensures HeadersBut(results, toFetch)
      ensures json ==> |toFetch| == |results| && forall k :: 0 <= k < |results| ==> toFetch[k] == k
      ensures !json ==> forall j :: 0 <= j < |toFetch| ==> results[toFetch[j]].header.None?
    {
      toFetch := [];
      for i := 0 to |results|
        invariant forall j :: 0 <= j < |toFetch| ==> toFetch[j] < i
        invariant !json ==> forall j :: 0 <= j < |toFetch| ==> results[toFetch[j]].header.None?
        invariant forall k :: 0 <= k < i && k !in toFetch ==> results[k].header.Some?
        invariant json ==> |toFetch| == i && forall k :: 0 <= k < i ==> toFetch[k] == k
      {
        if results[i].header.None? || json {
          toFetch := toFetch + [i];
        }
      }
    }

    method ReadHeaders(keys: seq<Key>, results: seq<Record>) returns (headers: seq<seq<byte>>)
      requires Coherent() && Hold(keys, results) && HeadersBut(results, [])
      ensures Servable(keys) && |headers| == |keys|
      ensures forall i :: 0 <= i < |keys| ==> Some(headers[i]) == HeaderAt(keys[i])
    {
      hide HeaderOf;
      headers := [];
      for i := 0 to |keys|
        invariant |headers| == i
        invariant forall k :: 0 <= k < i ==> Some(headers[k]) == HeaderAt(keys[k])
      {
        assert data[keys[i]].Agrees(chain, keys[i]);
        headers := headers + [results[i].header.value];
      }
    }

    /** The header of the block behind a key, if there is one. */
    ghost function HeaderAt(k: Key): Option<seq<byte>>
    {
      if chain.Lookup(k).None? then None else HeaderOf(chain.Lookup(k).value)
    }

    /** Every key has a block, and none of them is the first of the chain. */
    ghost predicate Servable(keys: seq<Key>)
    {
      forall i :: 0 <= i < |keys| ==> HeaderAt(keys[i]).Some?
    }

    ghost predicate Cached(k: Key)
      reads this, data.Values
    {
      k in data && data[k].header.Some?
    }

    ghost predicate AllCached(keys: seq<Key>)
      reads this, data.Values
    {
      forall i :: 0 <= i < |keys| ==> Cached(keys[i])
    }

    /** Asks the node and fills the cache: everything that is missing, or a failure for one of the two reasons. */
    method FetchHeaders(keys: seq<Key>, results: seq<Record>, toFetch: seq<nat>, available: bool)
      returns (r: Option<seq<Block>>)
      requires Coherent() && Hold(keys, results) && HeadersBut(results, toFetch)
      requires forall j :: 0 <= j < |toFetch| ==> toFetch[j] < |keys|
      modifies this`data, results
      ensures Coherent() && Grown() && Hold(keys, results)
      ensures r.None? <==> !available || exists j :: 0 <= j < |toFetch| && HeaderAt(keys[toFetch[j]]).None?
      ensures r.Some? ==> HeadersBut(results, []) && |r.value| == |toFetch|
      ensures r.Some? ==> forall j :: 0 <= j < |toFetch| ==> chain.Lookup(keys[toFetch[j]]) == Some(r.value[j])
    {
      hide HeaderOf;
      r := FetchAll(keys, toFetch, available);
      if r.None? {
        assert available ==> exists j :: 0 <= j < |toFetch| && HeaderAt(keys[toFetch[j]]).None?;
        return;
      }
      var n := FillHeaders(keys, results, toFetch, r.value);
      if n < |toFetch| {
        assert HeaderAt(keys[toFetch[n]]).None?;
        return None;
      }
      forall j | 0 <= j < |toFetch| ensures HeaderAt(keys[toFetch[j]]).Some? {
        SerializableAt(r.value, n, j);
      }
    }

    /**
      `getBlockHeaderByHash` and `getBlockHeaderByNumber`: position by position what the node would answer, or a failure
      that leaves the cache coherent. It fails exactly if one of the blocks is unknown or has no header to serialize, or
      if the node is needed and fails.
     */
    method GetBlockHeaders(keys: seq<Key>, json: bool, available: bool) returns (r: HeaderReply)
      requires Coherent()
      modifies this`data, data.Values
      ensures Coherent() && Grown()
      ensures r.HeadersFailed? <==>
                !Servable(keys) || (!available && if json then keys != [] else !old(AllCached(keys)))
      ensures r.Json? ==> json && |r.blocks| == |keys|
      ensures r.Json? ==> forall i :: 0 <= i < |keys| ==> chain.Lookup(keys[i]) == Some(r.blocks[i])
      ensures r.Headers? ==> (!json || keys == []) && |r.headers| == |keys|
      ensures r.Headers? ==> forall i :: 0 <= i < |keys| ==> Some(r.headers[i]) == HeaderAt(keys[i])
    {
      hide HeaderOf, Coherent, HeadersBut;
      var results := GetOrCreateAll(keys);
      var toFetch := MissingHeaders(results, json);
      if |toFetch| > 0 {
        assert !json ==> !old(Cached(keys[toFetch[0]]));
        var blocks := FetchHeaders(keys, results, toFetch, available);
        if blocks.None? {
          return HeadersFailed;
        }
        if json {
          AllServable(keys, results);
          return Json(blocks.value);
        }
      }
      var headers := ReadHeaders(keys, results);
      return Headers(headers);
    }

    lemma AllServable(keys: seq<Key>, results: seq<Record>)
      requires Coherent() && Hold(keys, results) && HeadersBut(results, [])
      ensures Servable(keys)
    {
      forall i | 0 <= i < |keys| ensures HeaderAt(keys[i]).Some? {
        assert data[keys[i]].Agrees(chain, keys[i]);
      }
    }

    /** The first block of a chain is never served, in whatever state the cache is. */
    lemma GenesisIsNotServed()
      requires chain.byNumber(0).Some? && chain.byNumber(0).value.fields.previous.None?
      ensures !Servable([ByNumber(0)])
    {
      assert HeaderAt([ByNumber(0)][0]).None?;
    }

    // ---------------------------------------------------------------- coinbase transactions

    ghost predicate Complete(r: Record)
      reads r
    {
      r.cbtx.Some? && r.txids.Some?
    }

    ghost predicate CompleteBut(results: seq<Record>, toFetch: seq<nat>)
      reads results
    {
      forall k :: 0 <= k < |results| && k !in toFetch ==> Complete(results[k])
    }

    /** The header comes last: without one the coinbase, the ids and the height are filled in nevertheless. */
    method FillBlock(r: Record, k: Key, b: Block) returns (ok: bool)
      requires Coherent() && k in data && data[k] == r && chain.Lookup(k) == Some(b)
      modifies r
      ensures Coherent() && Complete(r) && r.header == HeaderOf(b)
      ensures ok <==> HeaderOf(b).Some?
    {
      hide HeaderOf;
      assert r.Agrees(chain, k);
      if r.cbtx.None? {
        FillCoinbase(r, k, b);
      }
      FillTxids(r, k, b);
      ok := FillFromBlock(r, k, b);
    }

    method FillAndRegisterBlock(r: Record, k: Key, b: Block) returns (ok: bool)
      requires Coherent() && k in data && data[k] == r && chain.Lookup(k) == Some(b)
      modifies this`data, r
      ensures Coherent() && Grown() && Complete(r)
      ensures ok <==> HeaderOf(b).Some?
      ensures !ok ==> data == old(data)
      ensures forall l :: l in data && l !in old(data) ==> data[l] == r
    {
      hide HeaderOf;
      ok := FillBlock(r, k, b);
      if ok {
        Register(r, k, OtherKey(k, b));
      }
    }

    method FillBlockAt(keys: seq<Key>, results: seq<Record>, toFetch: seq<nat>, j: nat, b: Block) returns (ok: bool)
      requires Coherent() && Hold(keys, results) && j < |toFetch| && CompleteBut(results, toFetch[j..])
      requires toFetch[j] < |keys| && chain.Lookup(keys[toFetch[j]]) == Some(b)
      modifies this`data, results[toFetch[j]]
      ensures Coherent() && Grown() && Hold(keys, results)
      ensures ok <==> HeaderOf(b).Some?
      ensures CompleteBut(results, toFetch[j + 1..])
    {
      TailSplits(toFetch, j);
      ok := FillAndRegisterBlock(results[toFetch[j]], keys[toFetch[j]], b);
    }

    /**
      The source throws at the first block without a header; the records up to it are complete, those after it
      untouched.
     */
    method FillBlocks(keys: seq<Key>, results: seq<Record>, toFetch: seq<nat>, blocks: seq<Block>) returns (n: nat)
      requires Coherent() && Hold(keys, results) && |blocks| == |toFetch| && CompleteBut(results, toFetch)
      requires forall j :: 0 <= j < |toFetch| ==>
               toFetch[j] < |keys| && chain.Lookup(keys[toFetch[j]]) == Some(blocks[j])
      modifies this`data, results
      ensures Coherent() && Grown() && Hold(keys, results)
      ensures n <= |toFetch| && CompleteBut(results, if n < |toFetch| then toFetch[n + 1..] else [])
      ensures Serializable(blocks, n)
      ensures n < |toFetch| ==> HeaderOf(blocks[n]).None?
      ensures var done := if n < |toFetch| then n + 1 else n;
              forall r :: r in results && r !in Taken(results, toFetch, done) ==> unchanged(r)
    {
      hide HeaderOf;
      for j := 0 to |toFetch|
        invariant Coherent() && Grown() && Hold(keys, results) && CompleteBut(results, toFetch[j..])
        invariant Serializable(blocks, j)
        invariant forall r :: r in results && r !in Taken(results, toFetch, j) ==> unchanged(r)
      {
        var ok := FillBlockAt(keys, results, toFetch, j, blocks[j]);
        if !ok {
          return j;
        }
      }
      n := |toFetch|;
    }

    method MissingBlocks(results: seq<Record>) returns (toFetch: seq<nat>)
      ensures forall j :: 0 <= j < |toFetch| ==> toFetch[j] < |results|
      ensures CompleteBut(results, toFetch)
      ensures forall j :: 0 <= j < |toFetch| ==> !Complete(results[toFetch[j]])
    {
      toFetch := [];
      for i := 0 to |results|
        invariant forall j :: 0 <= j < |toFetch| ==> toFetch[j] < i && !Complete(results[toFetch[j]])
        invariant forall k :: 0 <= k < i && k !in toFetch ==> Complete(results[k])
      {
        if results[i].cbtx.None? || results[i].txids.None? {
          toFetch := toFetch + [i];
        }
      }
    }

    method ReadCoinbases(keys: seq<Key>, results: seq<Record>) returns (r: seq<Coinbase>)
      requires Coherent() && Hold(keys, results) && CompleteBut(results, [])
      ensures Known(keys) && |r| == |keys|
      ensures forall i :: 0 <= i < |keys| ==> r[i] == CoinbaseOf(chain.Lookup(keys[i]).value)
    {
      hide HeaderOf;
      r := [];
      for i := 0 to |keys|
        invariant |r| == i
        invariant forall k :: 0 <= k < i ==>
                  chain.Lookup(keys[k]).Some? && r[k] == CoinbaseOf(chain.Lookup(keys[k]).value)
      {
        assert data[keys[i]].Agrees(chain, keys[i]) && Complete(results[i]);
        r := r + [Coinbase(results[i].cbtx.value, results[i].txids.value)];
      }
    }

    /** The record of the key lacks the coinbase or the transaction ids. */
    ghost predicate Incomplete(k: Key)
      reads this, data.Values
    {
      k in data ==> !Complete(data[k])
    }

    /** As `FetchHeaders`, for blocks. */
    method FetchBlocks(keys: seq<Key>, results: seq<Record>, toFetch: seq<nat>, available: bool) returns (ok: bool)
      requires Coherent() && Hold(keys, results) && CompleteBut(results, toFetch)
      requires forall j :: 0 <= j < |toFetch| ==> toFetch[j] < |keys|
      modifies this`data, results
      ensures Coherent() && Grown() && Hold(keys, results)
      ensures !ok <==> !available || exists j :: 0 <= j < |toFetch| && HeaderAt(keys[toFetch[j]]).None?
      ensures ok ==> CompleteBut(results, [])
    {
      hide HeaderOf;
      var blocks := FetchAll(keys, toFetch, available);
      if blocks.None? {
        assert available ==> exists j :: 0 <= j < |toFetch| && HeaderAt(keys[toFetch[j]]).None?;
        return false;
      }
      var n := FillBlocks(keys, results, toFetch, blocks.value);
      if n < |toFetch| {
        assert HeaderAt(keys[toFetch[n]]).None?;
        return false;
      }
      forall j | 0 <= j < |toFetch| ensures HeaderAt(keys[toFetch[j]]).Some? {
        SerializableAt(blocks.value, n, j);
      }
      ok := true;
    }

    /** The records of the keys, and the positions at which they are incomplete. */
    method FindIncomplete(keys: seq<Key>) returns (results: seq<Record>, toFetch: seq<nat>)
      requires Coherent()
      modifies this`data
      ensures Coherent() && Grown() && OnlyNew() && Hold(keys, results) && CompleteBut(results, toFetch)
      ensures forall j :: 0 <= j < |toFetch| ==> toFetch[j] < |keys| && old(Incomplete(keys[toFetch[j]]))
      ensures forall i :: 0 <= i < |keys| && old(Incomplete(keys[i])) ==> i in toFetch
    {
      hide HeaderOf, Coherent;
      results := GetOrCreateAll(keys);
      toFetch := MissingBlocks(results);
    }

    /**
      `getCoinbaseByHash`: as for headers, but the first block of the chain fails only while its record is incomplete:
      the failing request completes it, and the next one is answered.
     */
    method GetCoinbases(keys: seq<Key>, available: bool) returns (r: CoinbaseReply)
      requires Coherent()
      modifies this`data, data.Values
      ensures Coherent() && Grown()
      ensures r.CoinbasesFailed? <==>
                exists i :: 0 <= i < |keys| && old(Incomplete(keys[i])) && (!available || HeaderAt(keys[i]).None?)
      ensures r.Coinbases? ==> Known(keys) && |r.coinbases| == |keys|
      ensures r.Coinbases? ==> forall i :: 0 <= i < |keys| ==> r.coinbases[i] == CoinbaseOf(chain.Lookup(keys[i]).value)
    {
      hide HeaderOf, Coherent;
      hide Incomplete, CoinbaseOf, HeaderAt;
      var results, toFetch := FindIncomplete(keys);
      if |toFetch| > 0 {
        assert old(Incomplete(keys[toFetch[0]]));
        var ok := FetchBlocks(keys, results, toFetch, available);
        if !ok {
          return CoinbasesFailed;
        }
      }
      var coinbases := ReadCoinbases(keys, results);
      return Coinbases(coinbases);
    }

    lemma HeightFinds(b: Block)
      requires Coherent() && chain.byHash(b.hash) == Some(b)
      ensures chain.byNumber(b.height) == Some(b)
    {
    }

    ghost predicate HasCoinbase(k: Key)
      reads this, data.Values
    {
      k in data && data[k].cbtx.Some?
    }

    /**
      `setBlock`: enters a block the node delivered. It throws for the first block of the chain, and where the coinbase
      is needed and cannot be fetched; the height, and the header if there is one, stay.
     */
    method SetBlock(b: Block, available: bool) returns (ok: bool)
      requires Coherent() && chain.byHash(b.hash) == Some(b)
      modifies this`data, data.Values
      ensures Coherent() && Grown()
      ensures ok <==> HeaderOf(b).Some? && (available || b.height <= 227835 || old(HasCoinbase(ByHash(b.hash))))
      ensures ByHash(b.hash) in data && data[ByHash(b.hash)].header == HeaderOf(b)
      ensures ok ==> ByNumber(b.height) in data && data[ByHash(b.hash)].txids == Some(b.txids)
      ensures ok && b.height > 227835 ==> data[ByHash(b.hash)].cbtx == Some(b.cbtx)
    {
      HeightFinds(b);
      hide HeaderOf, Coherent;
      var k := ByHash(b.hash);
      var r := GetOrCreate(k);
      ok := FillFields(r, k, b, available);
      if !ok {
        return;
      }
      Register(r, k, ByNumber(b.height));
    }

    /** Fills the fields of the block; a coinbase that has to be asked for needs the node. */
    method FillFields(r: Record, k: Key, b: Block, available: bool) returns (ok: bool)
      requires Coherent() && k in data && data[k] == r && chain.Lookup(k) == Some(b)
      modifies r
      ensures Coherent() && r.header == HeaderOf(b)
      ensures ok <==> HeaderOf(b).Some? && (available || b.height <= 227835 || old(r.cbtx.Some?))
      ensures ok ==> r.txids == Some(b.txids) && (b.height > 227835 ==> r.cbtx == Some(b.cbtx))
    {
      hide HeaderOf, Coherent;
      ok := FillFromBlock(r, k, b);
      if !ok {
        return;
      }
      if r.cbtx.None? && b.height > 227835 {
        if !available {
          return false;
        }
        FillCoinbase(r, k, b);
      }
      FillTxids(r, k, b);
    }

    method FillFromBlock(r: Record, k: Key, b: Block) returns (ok: bool)
      requires Coherent() && k in data && data[k] == r && chain.Lookup(k) == Some(b)
      modifies r`height, r`header
      ensures Coherent() && r.header == HeaderOf(b)
      ensures ok <==> HeaderOf(b).Some?
    {
      hide HeaderOf;
      assert r.Agrees(chain, k);
      r.height := if r.height.None? || r.height.value == 0 then Some(b.height) else r.height;
      if r.header.None? {
        r.header := MakeHeader(b);
      }
      ok := r.header.Some?;
      assert r.OfBlock(b);
      assert forall l :: l in data && data[l] == r ==> chain.Lookup(l) == Some(b);
    }

    method FillCoinbase(r: Record, k: Key, b: Block)
      requires Coherent() && k in data && data[k] == r && chain.Lookup(k) == Some(b)
      modifies r`cbtx
      ensures Coherent() && r.cbtx == Some(b.cbtx)
    {
      hide HeaderOf;
      assert r.Agrees(chain, k);
      r.cbtx := Some(b.cbtx);
      assert r.OfBlock(b);
      assert forall l :: l in data && data[l] == r ==> chain.Lookup(l) == Some(b);
    }

    method FillTxids(r: Record, k: Key, b: Block)
      requires Coherent() && k in data && data[k] == r && chain.Lookup(k) == Some(b)
      modifies r`txids
      ensures Coherent() && r.txids == Some(b.txids) && (r.cbtx.Some? ==> r.cbtx.value == b.cbtx)
    {
      hide HeaderOf;
      assert r.Agrees(chain, k);
      r.txids := if r.txids.None? then Some(b.txids) else r.txids;
      assert r.OfBlock(b);
      assert forall l :: l in data && data[l] == r ==> chain.Lookup(l) == Some(b);
    }
  }

  function CoinbaseOf(b: Block): Coinbase
  {
    Coinbase(b.cbtx, b.txids)
  }

  lemma TailSplits(s: seq<nat>, j: nat)
    requires j < |s|
    ensures s[j..] == [s[j]] + s[j + 1..]
  {
  }
}
