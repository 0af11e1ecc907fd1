/** The LRU cache: a list of keys beside a map, against a single list of entries in order of use. */
module LruCache {
  import opened Bytes

  datatype Entry<V> = Entry(key: string, value: V)

  /** Where `key` stands in the list; its length if it does not. */
  function Position<V>(list: seq<Entry<V>>, key: string): (i: nat)
    ensures i <= |list|
    ensures i < |list| ==> list[i].key == key
    ensures forall j :: 0 <= j < i ==> list[j].key != key
  {
    if list == [] || list[0].key == key then 0 else 1 + Position(list[1..], key)
  }

  predicate Contains<V>(list: seq<Entry<V>>, key: string)
  {
    Position(list, key) < |list|
  }

  function Lookup<V>(list: seq<Entry<V>>, key: string): Option<V>
  {
    if Contains(list, key) then Some(list[Position(list, key)].value) else None
  }

  function ToFront<T>(s: seq<T>, i: nat): (r: seq<T>)
    requires i < |s|
    ensures |r| == |s| && r[0] == s[i]
    ensures forall j :: 1 <= j < |s| ==> r[j] == if j <= i then s[j - 1] else s[j]
  {
    [s[i]] + s[..i] + s[i + 1..]
  }

  /** A hit moves the entry to the front. */
  function Touch<V>(list: seq<Entry<V>>, key: string): seq<Entry<V>>
  {
    if Contains(list, key) then ToFront(list, Position(list, key)) else list
  }

  function DropLast<T>(s: seq<T>): seq<T>
  {
    if s == [] then [] else s[..|s| - 1]
  }

  /**
    A new key goes to the front and, with the list as long as the limit, the last entry goes; a known key stays as it
    is.
   */
  function Put<V>(list: seq<Entry<V>>, limit: int, key: string, value: V): seq<Entry<V>>
  {
    if Contains(list, key) then list
    else [Entry(key, value)] + (if |list| == limit then DropLast(list) else list)
  }

  // ---------------------------------------------------------------- the cache

  function Zip<V>(keys: seq<string>, container: map<string, V>): (r: seq<Entry<V>>)
    requires forall i :: 0 <= i < |keys| ==> keys[i] in container
    ensures |r| == |keys| && forall i :: 0 <= i < |keys| ==> r[i] == Entry(keys[i], container[keys[i]])
  {
    seq(|keys|, i requires 0 <= i < |keys| => Entry(keys[i], container[keys[i]]))
  }

  lemma PositionIsFirst<V>(list: seq<Entry<V>>, key: string, i: nat)
    requires i <= |list| && (i < |list| ==> list[i].key == key)
    requires forall j :: 0 <= j < i ==> list[j].key != key
    ensures Position(list, key) == i
  {
  }

  /** The keys are those of the container, each once. */
  ghost predicate Matching<V>(keys: seq<string>, container: map<string, V>)
    ensures Matching(keys, container) ==>
              (forall i :: 0 <= i < |keys| ==> keys[i] in container) && (forall k :: k in container ==> k in keys)
  {
    if multiset(keys) == multiset(container.Keys) then
      assert forall i :: 0 <= i < |keys| ==> keys[i] in multiset(keys);
      assert forall k :: k in container ==> k in multiset(keys);
      true
    else false
  }

  lemma ToFrontKeeps<V>(keys: seq<string>, i: nat, container: map<string, V>)
    requires i < |keys| && Matching(keys, container)
    ensures Matching(ToFront(keys, i), container)
            && Zip(ToFront(keys, i), container) == ToFront(Zip(keys, container), i)
    ensures i == 0 ==> ToFront(keys, i) == keys
  {
    hide Matching, Zip;
    ToFrontPermutes(keys, i);
    SameMatching(ToFront(keys, i), keys, container);
    ZipToFront(keys, i, container);
    assert i == 0 ==> ToFront(keys, i) == [keys[0]] + [] + keys[1..] == keys;
  }

  lemma ZipToFront<V>(keys: seq<string>, i: nat, container: map<string, V>)
    requires i < |keys| && forall k :: 0 <= k < |keys| ==> keys[k] in container
    ensures forall k :: 0 <= k < |keys| ==> ToFront(keys, i)[k] in container
    ensures Zip(ToFront(keys, i), container) == ToFront(Zip(keys, container), i)
  {
    SameEntries(Zip(ToFront(keys, i), container), ToFront(Zip(keys, container), i));
  }

  lemma SameMatching<V>(a: seq<string>, b: seq<string>, container: map<string, V>)
    requires multiset(a) == multiset(b) && Matching(b, container)
    ensures Matching(a, container)
  {
  }

  lemma ToFrontPermutes(keys: seq<string>, i: nat)
    requires i < |keys|
    ensures multiset(ToFront(keys, i)) == multiset(keys)
  {
    assert keys == keys[..i] + ([keys[i]] + keys[i + 1..]);
  }

  lemma ContainsIffStored<V>(keys: seq<string>, container: map<string, V>, key: string)
    requires Matching(keys, container)
    ensures Contains(Zip(keys, container), key) <==> key in container
  {
    if key in container {
      var i :| 0 <= i < |keys| && keys[i] == key;
      PositionAt(Zip(keys, container), i);
    }
  }

  lemma SameEntries<T>(a: seq<T>, b: seq<T>)
    requires |a| == |b| && forall j :: 0 <= j < |a| ==> a[j] == b[j]
    ensures a == b
  {
  }

  lemma DropLastKeeps<V>(keys: seq<string>, container: map<string, V>)
    requires keys != [] && Matching(keys, container)
    ensures var n := |keys| - 1;
            Matching(keys[..n], container - {keys[n]})
                && Zip(keys[..n], container - {keys[n]}) == DropLast(Zip(keys, container))
  {
    hide Zip;
    var n := |keys| - 1;
    assert Matching(keys[..n], container - {keys[n]}) by {
      assert keys == keys[..n] + [keys[n]];
      assert multiset(keys[..n]) == multiset(container.Keys) - multiset{keys[n]};
      assert multiset((container - {keys[n]}).Keys) == multiset(container.Keys) - multiset{keys[n]};
    }
    SameEntries(Zip(keys[..n], container - {keys[n]}), DropLast(Zip(keys, container)));
  }

  lemma InsertKeeps<V>(keys: seq<string>, container: map<string, V>, key: string, value: V)
    requires key !in container && Matching(keys, container)
    ensures Matching([key] + keys, container[key := value])
    ensures Zip([key] + keys, container[key := value]) == [Entry(key, value)] + Zip(keys, container)
  {
    hide Zip;
    assert Matching([key] + keys, container[key := value]) by {
      hide Zip;
      assert container[key := value].Keys == container.Keys + {key};
      assert multiset(container[key := value].Keys) == multiset(container.Keys) + multiset{key};
    }
    SameEntries(Zip([key] + keys, container[key := value]), [Entry(key, value)] + Zip(keys, container));
  }

  class LRUCache<V> {
    const entryLimit: int
    var container: map<string, V>
    var keys: seq<string>

    ghost predicate Valid()
      reads this
    {
      Matching(keys, container)
    }

    ghost function List(): seq<Entry<V>>
      reads this
      requires Valid()
    {
      Zip(keys, container)
    }

    constructor (limit: int)
      ensures Valid() && List() == [] && entryLimit == limit
    {
      entryLimit := limit;
      keys, container := [], map[];
    }

    method Has(key: string) returns (r: bool)
      requires Valid()
      ensures r == Contains(List(), key)
    {
      r := key in container;
      ContainsIffStored(keys, container, key);
    }

    method IndexOf(key: string) returns (i: nat)
      requires Valid()
      ensures i == Position(List(), key)
      ensures i < |keys| <==> key in container
    {
      i := 0;
      while i < |keys| && keys[i] != key
        invariant i <= |keys| && key !in keys[..i]
      {
        i := i + 1;
      }
      PositionIsFirst(List(), key, i);
    }

    /** A hit hands out what `spread` copies of the value. */
    method Get<W>(key: string, spread: V -> W) returns (r: Option<W>)
      requires Valid()
      modifies this`keys
      ensures Valid() && List() == Touch(old(List()), key)
      ensures r == var hit := Lookup(old(List()), key); if hit.None? then None else Some(spread(hit.value))
    {
      hide Matching, Zip, Position, ToFront;
      var keyIndex := IndexOf(key);
      if key !in container {
        return None;
      }
      r := Some(spread(container[key]));
      MoveToFront(keyIndex);
    }

    method MoveToFront(keyIndex: nat)
      requires Valid() && keyIndex < |keys|
      modifies this`keys
      ensures Valid() && List() == ToFront(old(List()), keyIndex)
    {
      hide Matching, Zip;
      ghost var moved := ToFront(keys, keyIndex);
      ToFrontKeeps(keys, keyIndex, container);
      if keyIndex > 0 {
        keys := [keys[keyIndex]] + keys[..keyIndex] + keys[keyIndex + 1..];
      }
      assert keys == moved;
    }

    method Set(key: string, value: V)
      requires Valid()
      modifies this
      ensures Valid()
      ensures List() == Put(old(List()), entryLimit, key, value)
    {
      var i := IndexOf(key);
      if key !in container {
        if |keys| == entryLimit {
          RemoveLast();
        }
        InsertKeeps(keys, container, key, value);
        keys := [key] + keys;
        container := container[key := value];
      }
    }

    /** Without keys there is nothing to remove. */
    method RemoveLast()
      requires Valid()
      modifies this
      ensures Valid() && List() == DropLast(old(List())) && container.Keys <= old(container.Keys)
    {
      if keys != [] {
        DropLastKeeps(keys, container);
        container := container - {keys[|keys| - 1]};
        keys := keys[..|keys| - 1];
      }
    }

    method Clear()
      modifies this
      ensures Valid() && List() == []
    {
      keys, container := [], map[];
    }
  }

  // ---------------------------------------------------------------- runs

  datatype Op<V> = GetOp(key: string) | SetOp(key: string, value: V) | ClearOp

  function Apply<V>(list: seq<Entry<V>>, limit: int, op: Op<V>): seq<Entry<V>>
  {
    match op
    case GetOp(k) => Touch(list, k)
    case SetOp(k, v) => Put(list, limit, k, v)
    case ClearOp => []
  }

  function Run<V>(limit: int, ops: seq<Op<V>>): seq<Entry<V>>
  {
    if ops == [] then [] else Apply(Run(limit, ops[..|ops| - 1]), limit, ops[|ops| - 1])
  }

  /** The time of the last hit or insertion of `key`; -1 if there was none. */
  function LastUse<V>(limit: int, ops: seq<Op<V>>, key: string): (i: int)
    ensures -1 <= i < |ops|
  {
    if ops == [] then -1
    else
      var n := |ops| - 1;
      var before := Run(limit, ops[..n]);
      if (ops[n].GetOp? && ops[n].key == key && Contains(before, key))
          || (ops[n].SetOp? && ops[n].key == key && !Contains(before, key))
      then n
      else LastUse(limit, ops[..n], key)
  }

  /** The value `key` was last inserted with; later values for a known key are ignored. */
  function Inserted<V>(limit: int, ops: seq<Op<V>>, key: string): Option<V>
  {
    if ops == [] then None
    else
      var n := |ops| - 1;
      if ops[n].SetOp? && ops[n].key == key && !Contains(Run(limit, ops[..n]), key) then Some(ops[n].value)
      else Inserted(limit, ops[..n], key)
  }

  /** Every entry holds the value it was inserted with, and the entries stand in the order of their last use. */
  ghost predicate InOrder<V>(list: seq<Entry<V>>, limit: int, ops: seq<Op<V>>)
  {
    && (forall i :: 0 <= i < |list| ==> Inserted(limit, ops, list[i].key) == Some(list[i].value))
    && (forall i, j :: 0 <= i < j < |list| ==> LastUse(limit, ops, list[i].key) > LastUse(limit, ops, list[j].key))
  }

  /** An operation that uses one key leaves the last use and the value of the others as they were. */
  lemma OneUse<V>(limit: int, ops: seq<Op<V>>, key: string)
    requires ops != []
    ensures var n := |ops| - 1; var before := Run(limit, ops[..n]);
            var hit := ops[n].GetOp? && ops[n].key == key && Contains(before, key);
            var inserted := ops[n].SetOp? && ops[n].key == key && !Contains(before, key);
            && LastUse(limit, ops, key) == (if hit || inserted then n else LastUse(limit, ops[..n], key))
            && Inserted(limit, ops, key) == (if inserted then Some(ops[n].value) else Inserted(limit, ops[..n], key))
  {
  }

  lemma {:induction false} PositionAt<V>(list: seq<Entry<V>>, i: nat)
    requires i < |list|
    ensures Contains(list, list[i].key)
  {
    assert !(i < Position(list, list[i].key));
  }

  lemma TouchInOrder<V>(limit: int, ops: seq<Op<V>>, k: string)
    requires ops != [] && ops[|ops| - 1] == GetOp(k) && InOrder(Run(limit, ops[..|ops| - 1]), limit, ops[..|ops| - 1])
    ensures InOrder(Run(limit, ops), limit, ops)
  {
    var n := |ops| - 1;
    var before, after := Run(limit, ops[..n]), Run(limit, ops);
    forall i | 0 <= i < |before| {
      OneUse(limit, ops, before[i].key);
    }
    if Contains(before, k) {
      var p := Position(before, k);
      forall j | 0 <= j < |before| && j != p ensures before[j].key != k {
        assert LastUse(limit, ops[..n], before[j].key) != LastUse(limit, ops[..n], before[p].key);
      }
      assert after == ToFront(before, p);
      FrontInOrder(before, p, limit, ops);
    }
  }

  lemma FrontInOrder<V>(before: seq<Entry<V>>, p: nat, limit: int, ops: seq<Op<V>>)
    requires p < |before|
    requires forall i :: 0 <= i < |before| ==> Inserted(limit, ops, before[i].key) == Some(before[i].value)
    requires forall i, j :: 0 <= i < j < |before| && i != p && j != p ==>
               LastUse(limit, ops, before[i].key) > LastUse(limit, ops, before[j].key)
    requires forall i :: 0 <= i < |before| && i != p ==>
             LastUse(limit, ops, before[p].key) > LastUse(limit, ops, before[i].key)
    ensures InOrder(ToFront(before, p), limit, ops)
  {
  }

  lemma PutInOrder<V>(limit: int, ops: seq<Op<V>>, k: string, v: V)
    requires ops != [] && ops[|ops| - 1] == SetOp(k, v)
             && InOrder(Run(limit, ops[..|ops| - 1]), limit, ops[..|ops| - 1])
    ensures InOrder(Run(limit, ops), limit, ops)
  {
    var n := |ops| - 1;
    var before, after := Run(limit, ops[..n]), Run(limit, ops);
    forall i | 0 <= i < |before| ensures Contains(before, before[i].key) {
      PositionAt(before, i);
    }
    forall i | 0 <= i < |before| {
      OneUse(limit, ops, before[i].key);
    }
    if !Contains(before, k) {
      OneUse(limit, ops, k);
      var kept := if |before| == limit then DropLast(before) else before;
      HeadInOrder(Entry(k, v), kept, limit, ops);
      assert after == [Entry(k, v)] + kept;
    }
  }

  lemma HeadInOrder<V>(head: Entry<V>, kept: seq<Entry<V>>, limit: int, ops: seq<Op<V>>)
    requires InOrder(kept, limit, ops) && Inserted(limit, ops, head.key) == Some(head.value)
    requires forall i :: 0 <= i < |kept| ==> LastUse(limit, ops, head.key) > LastUse(limit, ops, kept[i].key)
    ensures InOrder([head] + kept, limit, ops)
  {
  }

  lemma {:induction false} RunInOrder<V>(limit: int, ops: seq<Op<V>>)
    ensures InOrder(Run(limit, ops), limit, ops)
  {
    if ops != [] {
      RunInOrder(limit, ops[..|ops| - 1]);
      match ops[|ops| - 1]
      case GetOp(k) => TouchInOrder(limit, ops, k);
      case SetOp(k, v) => PutInOrder(limit, ops, k, v);
      case ClearOp =>
    }
  }

  /**
    After any operations the entries hold the values they were inserted with, and what the next insertion evicts was
    last used before everything that is kept.
   */
  lemma EvictsLeastRecentlyUsed<V>(limit: int, ops: seq<Op<V>>, k: string, v: V)
    requires limit >= 1 && !Contains(Run(limit, ops), k) && |Run(limit, ops)| == limit
    ensures var before := Run(limit, ops); var after := Put(before, limit, k, v);
            && after == [Entry(k, v)] + before[..limit - 1]
            && forall i :: 0 <= i < limit - 1 ==>
                LastUse(limit, ops, before[limit - 1].key) < LastUse(limit, ops, before[i].key)
  {
    RunInOrder(limit, ops);
  }

  lemma HitReturnsInserted<V>(limit: int, ops: seq<Op<V>>, k: string)
    ensures var list := Run(limit, ops); Contains(list, k) ==> Lookup(list, k) == Inserted(limit, ops, k)
  {
    RunInOrder(limit, ops);
  }

  /** A limit of at least 1 bounds the cache. */
  lemma {:induction false} SizeStaysWithinLimit<V>(limit: int, ops: seq<Op<V>>)
    requires limit >= 1
    ensures |Run(limit, ops)| <= limit
  {
    if ops != [] {
      SizeStaysWithinLimit(limit, ops[..|ops| - 1]);
    }
  }

  // ---------------------------------------------------------------- which keys are held

  /** The time of the last clearing; -1 if there was none. */
  function LastClear<V>(ops: seq<Op<V>>): (i: int)
    ensures -1 <= i < |ops|
  {
    if ops == [] then -1
    else if ops[|ops| - 1].ClearOp? then |ops| - 1
    else LastClear(ops[..|ops| - 1])
  }

  function KeysOf<V>(ops: seq<Op<V>>): set<string>
  {
    if ops == [] then {}
    else
      var op := ops[|ops| - 1];
      KeysOf(ops[..|ops| - 1]) + (if op.ClearOp? then {} else {op.key})
  }

  /** The keys that were hit or inserted after the last use of `key`. */
  ghost function UsedSince<V>(limit: int, ops: seq<Op<V>>, key: string): set<string>
  {
    set k | k in KeysOf(ops) && LastUse(limit, ops, k) > LastUse(limit, ops, key)
  }

  lemma {:induction false} UsedIsNamed<V>(limit: int, ops: seq<Op<V>>, key: string)
    ensures LastUse(limit, ops, key) >= 0 ==> key in KeysOf(ops)
  {
    if ops != [] {
      UsedIsNamed(limit, ops[..|ops| - 1], key);
    }
  }

  /** The key was hit or inserted since the last clearing. */
  ghost predicate Recent<V>(limit: int, ops: seq<Op<V>>, key: string)
  {
    LastUse(limit, ops, key) > LastClear(ops)
  }

  /**
    What is held was used since the last clearing; what was used since and is not held was used before everything that
    is, and the cache is full.
   */
  ghost predicate Holds<V>(list: seq<Entry<V>>, limit: int, ops: seq<Op<V>>)
  {
    && (forall k :: Contains(list, k) ==> Recent(limit, ops, k))
    && (forall k :: Recent(limit, ops, k) && !Contains(list, k) ==> limit >= 1 && |list| == limit)
    && (forall k, l :: Recent(limit, ops, k) && !Contains(list, k) && Contains(list, l) ==>
          LastUse(limit, ops, l) > LastUse(limit, ops, k))
  }

  lemma PositionOf<V>(list: seq<Entry<V>>, key: string)
    ensures Contains(list, key) <==> exists i :: 0 <= i < |list| && list[i].key == key
  {
    if i :| 0 <= i < |list| && list[i].key == key {
      PositionAt(list, i);
    }
  }

  /** The last operation hits or inserts `key`. */
  ghost predicate Uses<V>(limit: int, ops: seq<Op<V>>, key: string)
    requires ops != []
  {
    var op := ops[|ops| - 1];
    !op.ClearOp? && op.key == key && (op.GetOp? <==> Contains(Run(limit, ops[..|ops| - 1]), key))
  }

  lemma StepUse<V>(limit: int, ops: seq<Op<V>>, key: string)
    requires ops != []
    ensures var n := |ops| - 1;
            && LastUse(limit, ops, key) == (if Uses(limit, ops, key) then n else LastUse(limit, ops[..n], key))
            && (Recent(limit, ops, key)
                <==> Uses(limit, ops, key) || (!ops[n].ClearOp? && Recent(limit, ops[..n], key)))
  {
  }

  ghost predicate DistinctKeys<V>(list: seq<Entry<V>>)
  {
    forall i, j :: 0 <= i < j < |list| ==> list[i].key != list[j].key
  }

  lemma PutMembers<V>(list: seq<Entry<V>>, limit: int, k: string, v: V, key: string)
    requires DistinctKeys(list)
    ensures Contains(Put(list, limit, k, v), key)
            <==> key == k || (Contains(list, key)
                              && (Contains(list, k) || |list| != limit || key != list[|list| - 1].key))
  {
    var after := Put(list, limit, k, v);
    PositionOf(list, key);
    PositionOf(after, key);
    if !Contains(list, k) {
      assert after[0].key == k && forall i :: 1 <= i < |after| ==> after[i] == list[i - 1];
      if i :| 0 <= i < |after| - 1 && list[i].key == key {
        assert after[i + 1] == list[i];
      }
    }
  }

  lemma TouchMembers<V>(list: seq<Entry<V>>, k: string, key: string)
    ensures Contains(Touch(list, k), key) <==> Contains(list, key)
  {
    var after, p := Touch(list, k), Position(list, k);
    PositionOf(list, key);
    PositionOf(after, key);
    if Contains(list, k) {
      assert after[0] == list[p];
      if i :| 0 <= i < |list| && list[i].key == key {
        assert after[if i == p then 0 else if i < p then i + 1 else i] == list[i];
      }
    }
  }

  lemma TouchHolds<V>(limit: int, ops: seq<Op<V>>, k: string)
    requires ops != [] && ops[|ops| - 1] == GetOp(k) && Holds(Run(limit, ops[..|ops| - 1]), limit, ops[..|ops| - 1])
    ensures Holds(Run(limit, ops), limit, ops)
  {
    hide Recent, LastUse, LastClear, Contains, Touch;
    var n := |ops| - 1;
    var before, after := Run(limit, ops[..n]), Run(limit, ops);
    TouchKeepsSize(before, k);
    forall key
      ensures LastUse(limit, ops, key) == if Uses(limit, ops, key) then n else LastUse(limit, ops[..n], key)
      ensures Recent(limit, ops, key) <==> Uses(limit, ops, key) || Recent(limit, ops[..n], key)
      ensures Contains(after, key) <==> Contains(before, key)
    {
      StepUse(limit, ops, key);
      TouchMembers(before, k, key);
    }
  }

  lemma TouchKeepsSize<V>(list: seq<Entry<V>>, k: string)
    ensures |Touch(list, k)| == |list|
  {
  }

  lemma RunHasDistinctKeys<V>(limit: int, ops: seq<Op<V>>)
    ensures DistinctKeys(Run(limit, ops))
  {
    RunInOrder(limit, ops);
  }

  lemma PutKeepsSize<V>(list: seq<Entry<V>>, limit: int, k: string, v: V)
    ensures !Contains(list, k) && list != [] && |list| == limit ==> |Put(list, limit, k, v)| == limit
    ensures Contains(list, k) ==> Put(list, limit, k, v) == list
  {
  }

  lemma NothingContained<V>(key: string)
    ensures !Contains<V>([], key)
  {
  }

  /** The last entry was used before the others. */
  lemma LastIsOldest<V>(limit: int, ops: seq<Op<V>>, key: string)
    requires var list := Run(limit, ops); list != [] && Contains(list, key) && key != list[|list| - 1].key
    ensures var list := Run(limit, ops); LastUse(limit, ops, key) > LastUse(limit, ops, list[|list| - 1].key)
  {
    hide Run, LastUse, Contains, Inserted;
    RunInOrder(limit, ops);
    PositionOf(Run(limit, ops), key);
  }

  lemma PutHolds<V>(limit: int, ops: seq<Op<V>>, k: string, v: V)
    requires ops != [] && ops[|ops| - 1] == SetOp(k, v)
    requires Holds(Run(limit, ops[..|ops| - 1]), limit, ops[..|ops| - 1])
    ensures Holds(Run(limit, ops), limit, ops)
  {
    hide Recent, LastUse, LastClear, Contains, Put;
    var n := |ops| - 1;
    var before, after := Run(limit, ops[..n]), Run(limit, ops);
    RunHasDistinctKeys(limit, ops[..n]);
    PutKeepsSize(before, limit, k, v);
    forall key
      ensures LastUse(limit, ops, key) == if Uses(limit, ops, key) then n else LastUse(limit, ops[..n], key)
      ensures Recent(limit, ops, key) <==> Uses(limit, ops, key) || Recent(limit, ops[..n], key)
      ensures before == [] ==> !Contains(before, key)
      ensures Contains(after, key)
              <==> key == k || (before != [] && Contains(before, key)
                                && (Contains(before, k) || |before| != limit || key != before[|before| - 1].key))
      ensures before != [] && Contains(before, key) && key != before[|before| - 1].key ==>
                LastUse(limit, ops[..n], key) > LastUse(limit, ops[..n], before[|before| - 1].key)
    {
      StepUse(limit, ops, key);
      PutMembers(before, limit, k, v, key);
      NothingContained<V>(key);
      if before != [] && Contains(before, key) && key != before[|before| - 1].key {
        LastIsOldest(limit, ops[..n], key);
      }
    }
    if before != [] {
      PositionAt(before, |before| - 1);
    }
  }

  lemma {:induction false} RunHolds<V>(limit: int, ops: seq<Op<V>>)
    ensures Holds(Run(limit, ops), limit, ops)
  {
    if ops != [] {
      var n := |ops| - 1;
      RunHolds(limit, ops[..n]);
      match ops[n]
      case GetOp(k) => TouchHolds(limit, ops, k);
      case SetOp(k, v) => PutHolds(limit, ops, k, v);
      case ClearOp =>
        forall k ensures !Recent(limit, ops, k) && !Contains(Run(limit, ops), k) {
          StepUse(limit, ops, k);
        }
    }
  }

  function KeySet<V>(list: seq<Entry<V>>): set<string>
  {
    if list == [] then {} else KeySet(list[..|list| - 1]) + {list[|list| - 1].key}
  }

  lemma {:induction false} KeySetSize<V>(list: seq<Entry<V>>)
    requires DistinctKeys(list)
    ensures |KeySet(list)| == |list|
    ensures forall k :: k in KeySet(list) <==> exists i :: 0 <= i < |list| && list[i].key == k
  {
    if list != [] {
      var n := |list| - 1;
      KeySetSize(list[..n]);
      assert list[n].key !in KeySet(list[..n]);
      forall k ensures k in KeySet(list) <==> exists i :: 0 <= i < |list| && list[i].key == k {
        if i :| 0 <= i < n && list[..n][i].key == k {
          assert list[i].key == k;
        }
        if i :| 0 <= i < n && list[i].key == k {
          assert list[..n][i].key == k;
        }
      }
    }
  }

  /**
    A key is held if and only if it was inserted or hit since the last clearing and fewer than `limit` other keys were
    since its own last use; a limit below 1 evicts nothing.
   */
  lemma HeldExactly<V>(limit: int, ops: seq<Op<V>>, key: string)
    ensures Contains(Run(limit, ops), key)
            <==> LastUse(limit, ops, key) > LastClear(ops)
                 && (limit < 1 || |UsedSince(limit, ops, key)| < limit)
  {
    hide LastUse, LastClear, Run, Contains, UsedSince;
    var list := Run(limit, ops);
    RunHolds(limit, ops);
    PositionOf(list, key);
    if Contains(list, key) {
      var p :| 0 <= p < |list| && list[p].key == key;
      HeldSince(limit, ops, p);
      if limit >= 1 {
        SizeStaysWithinLimit(limit, ops);
      }
    } else if Recent(limit, ops, key) {
      RunHasDistinctKeys(limit, ops);
      KeySetSize(list);
      forall k | k in KeySet(list) ensures k in UsedSince(limit, ops, key) {
        PositionOf(list, k);
        AfterIsSince(limit, ops, key, k);
      }
      Smaller(KeySet(list), UsedSince(limit, ops, key));
    }
  }

  lemma AfterIsSince<V>(limit: int, ops: seq<Op<V>>, key: string, k: string)
    ensures k in UsedSince(limit, ops, key) <==> LastUse(limit, ops, k) > LastUse(limit, ops, key)
  {
    UsedIsNamed(limit, ops, k);
  }

  lemma Smaller(a: set<string>, b: set<string>)
    requires a <= b
    ensures |a| <= |b|
  {
    assert b == a + (b - a);
  }

  /** Since the last use of a key that is held, those in front of it were used. */
  lemma HeldSince<V>(limit: int, ops: seq<Op<V>>, p: nat)
    requires p < |Run(limit, ops)|
    ensures |UsedSince(limit, ops, Run(limit, ops)[p].key)| == p
  {
    hide LastUse, LastClear, Run, Contains;
    var list := Run(limit, ops);
    var key, front := list[p].key, list[..p];
    RunHolds(limit, ops);
    RunInOrder(limit, ops);
    KeySetSize(front);
    PositionOf(list, key);
    forall k ensures k in UsedSince(limit, ops, key) <==> k in KeySet(front) {
      AfterIsSince(limit, ops, key, k);
      PositionOf(list, k);
      if LastUse(limit, ops, k) > LastUse(limit, ops, key) {
        assert Contains(list, k);
        var i :| 0 <= i < |list| && list[i].key == k;
        assert i < p && front[i].key == k;
      }
      if i :| 0 <= i < p && front[i].key == k {
        assert list[i] == front[i];
        assert LastUse(limit, ops, list[i].key) > LastUse(limit, ops, list[p].key);
      }
    }
    assert UsedSince(limit, ops, key) == KeySet(front);
  }

  /** The operations that insert the keys of length 0 to n-1. */
  function Insertions(n: nat): (r: seq<Op<nat>>)
    ensures |r| == n
  {
    if n == 0 then [] else Insertions(n - 1) + [SetOp(seq(n - 1, _ => 'k'), n)]
  }

  lemma LongerThanAll<V>(list: seq<Entry<V>>, k: string)
    requires forall i :: 0 <= i < |list| ==> |list[i].key| < |k|
    ensures !Contains(list, k)
  {
  }

  /** Any other limit bounds nothing: it is never the length when there is something to evict. */
  lemma {:induction false} OtherLimitsAreNone(limit: int, n: nat)
    requires limit < 1
    ensures |Run(limit, Insertions(n))| == n
    ensures forall i :: 0 <= i < n ==> |Run(limit, Insertions(n))[i].key| < n
  {
    if n > 0 {
      OtherLimitsAreNone(limit, n - 1);
      assert Insertions(n)[..n - 1] == Insertions(n - 1);
      var before, k := Run(limit, Insertions(n - 1)), seq(n - 1, _ => 'k');
      LongerThanAll(before, k);
      assert Run(limit, Insertions(n)) == Put(before, limit, k, n);
    }
  }
}
