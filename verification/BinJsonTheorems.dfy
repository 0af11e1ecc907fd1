/** The decoder undoes the encoder: the laws of the binary JSON format. */
module BinJsonTheorems {
  import opened Bytes
  import opened BinJson
  import opened BinJsonText

  // ---------------------------------------------------------------- one token

  lemma HeadByte(t: nat, l: nat, bs: seq<byte>)
    requires t < 8 && l < 32 && bs != [] && bs[0] == t * 32 + l
    ensures ReadHead(bs) == ReadLength(t, l, bs[1..])
  {
    assert bs[0] / 32 == t && bs[0] % 32 == l;
  }

  lemma LongHead(t: nat, ldata: seq<byte>, rest: seq<byte>, bs: seq<byte>)
    requires t < 8 && |ldata| <= 4 && bs != []
    requires bs[0] == t * 32 + (|ldata| + 27) && bs[1..] == ldata + rest
    ensures ReadHead(bs) == Head(t, if ldata == [] then 27 else Value(ldata), rest)
  {
    HeadByte(t, |ldata| + 27, bs);
    assert (ldata + rest)[..|ldata|] == ldata && (ldata + rest)[|ldata|..] == rest;
  }

  lemma TypeAndLengthLayout(t: nat, ldata: seq<byte>, rest: seq<byte>, bs: seq<byte>)
    requires t < 8 && |ldata| <= 4 && bs == TypeAndLength(t, ldata) + rest
    ensures bs != []
    ensures if |ldata| == 1 && ldata[0] < 28 then bs[0] == t * 32 + ldata[0] && bs[1..] == rest
            else bs[0] == t * 32 + (|ldata| + 27) && bs[1..] == ldata + rest
  {
    if |ldata| == 1 && ldata[0] < 28 {
      assert bs[1..] == rest;
    } else {
      var b: byte := t * 32 + (|ldata| + 27);
      assert bs == [b] + (ldata + rest);
    }
  }

  /** The length escape is read back, except that an empty length field reads as 27. */
  lemma HeadRoundTrip(t: nat, ldata: seq<byte>, rest: seq<byte>, bs: seq<byte>)
    requires t < 8 && |ldata| <= 4 && bs == TypeAndLength(t, ldata) + rest
    ensures ReadHead(bs) == Head(t, if ldata == [] then 27 else Value(ldata), rest)
  {
    TypeAndLengthLayout(t, ldata, rest, bs);
    if |ldata| == 1 && ldata[0] < 28 {
      SmallValue(ldata);
      HeadByte(t, ldata[0], bs);
    } else {
      LongHead(t, ldata, rest, bs);
    }
  }

  lemma NumberRoundTrip(t: nat, v: nat, rest: seq<byte>, bs: seq<byte>)
    requires t < 8 && v < LIMIT && bs == TypeAndLength(t, NumberBytes(v)) + rest
    ensures ReadHead(bs) == Head(t, v, rest)
  {
    HeadRoundTrip(t, NumberBytes(v), rest, bs);
  }

  // ---------------------------------------------------------------- the table of printed byte strings

  /**
    What every token keeps: the table lists, in the order printed, byte strings that are pairwise different
    and at least four bytes long, each with the index of an earlier token.
   */
  ghost predicate TableOk(st: State)
  {
    && (forall i :: 0 <= i < |st.table| ==> st.table[i].idx < st.count && |st.table[i].data| >= 4)
    && (forall i, j :: 0 <= i < j < |st.table| ==> st.table[i].idx < st.table[j].idx)
    && (forall i, j :: 0 <= i < j < |st.table| ==> st.table[i].data != st.table[j].data)
  }

  lemma {:induction false} ResolveEntry(table: seq<Entry>, k: nat)
    requires k < |table|
    requires forall i, j :: 0 <= i < j < |table| ==> table[i].idx < table[j].idx
    ensures Resolve(table, table[k].idx) == Some(table[k].data)
  {
    if k > 0 {
      assert table[0].idx < table[k].idx;
      ResolveEntry(table[1..], k - 1);
    }
  }

  lemma {:induction false} FindIsSearch(table: seq<Entry>, data: seq<byte>)
    ensures var r := Find(table, data);
            if r.Some? then exists k :: 0 <= k < |table| && table[k] == Entry(r.value, data)
            else forall k :: 0 <= k < |table| ==> table[k].data != data
  {
    if table != [] && table[0].data != data {
      FindIsSearch(table[1..], data);
      var r := Find(table[1..], data);
      if r.Some? {
        var k :| 0 <= k < |table[1..]| && table[1..][k] == Entry(r.value, data);
        assert table[k + 1] == Entry(r.value, data);
      } else {
        forall k | 0 <= k < |table| ensures table[k].data != data {
          assert k > 0 ==> table[k] == table[1..][k - 1];
        }
      }
    } else if table != [] {
      assert table[0] == Entry(table[0].idx, data);
    }
  }

  /** A reference is the index of an earlier token that printed the very same bytes, moved clear of false and true. */
  lemma ReferenceIsSound(data: seq<byte>, st: State)
    requires TableOk(st) && Find(st.table, data).Some?
    ensures var idx := Find(st.table, data).value;
            idx < st.count && Resolve(st.table, idx) == Some(data) && idx + 2 !in {0, 1}
  {
    var idx := Find(st.table, data).value;
    FindIsSearch(st.table, data);
    var k :| 0 <= k < |st.table| && st.table[k] == Entry(idx, data);
    ResolveEntry(st.table, k);
  }

  // ---------------------------------------------------------------- tokens without children

  /** The token at the head of `bs` has no children and is read as `r`. */
  ghost predicate ReadsScalar(bs: seq<byte>, st: State, r: Parsed<Val>)
  {
    var h := ReadHead(bs);
    h.Head? && h.t != 2 && h.t != 3 && DecScalar(h.t, h.len, h.rest, st) == r
  }

  lemma ScalarRoundTrip(x: Json, st: State, rest: seq<byte>, bs: seq<byte>)
    requires !x.Arr? && !x.Obj? && TableOk(st) && LengthsFit(x) && st.count + 1 < LIMIT
    requires bs == EncScalar(x, st.(count := st.count + 1)).bytes + rest
    ensures ReadsScalar(bs, st, Ok(Reading(x, 27), rest, EncScalar(x, st.(count := st.count + 1)).st))
  {
    match x
    case Null => ConstantRoundTrip(6, 0, rest, bs);
    case Bool(b) => ConstantRoundTrip(4, if b then 1 else 0, rest, bs);
    case Num(n) =>
      if n < LIMIT {
        NumberRoundTrip(5, n, rest, bs);
      } else {
        BlobRoundTrip(MinBytes(n), st, rest, bs);
      }
    case Str(s) =>
      if !IsHex(s) {
        Utf8RoundTrip(s);
        TextRoundTrip(Utf8(s), CodePoints(s), st, rest, bs);
      } else {
        HexDataSpells(s);
        if |HexData(s)| < 4 {
          HeadRoundTrip(5, HexData(s), rest, bs);
        } else {
          BlobRoundTrip(HexData(s), st, rest, bs);
        }
      }
  }

  lemma ConstantRoundTrip(t: nat, low: byte, rest: seq<byte>, bs: seq<byte>)
    requires t < 8 && low < 28 && bs == [t * 32 + low] + rest
    ensures ReadHead(bs) == Head(t, low, rest)
  {
    SmallValue([low]);
    HeadRoundTrip(t, [low], rest, bs);
  }

  lemma TextRoundTrip(utf8: seq<byte>, points: seq<nat>, st: State, rest: seq<byte>, bs: seq<byte>)
    requires ReadUtf8(utf8) == Some(points)
    requires |utf8| < LIMIT && bs == TypeAndLength(1, NumberBytes(|utf8|)) + (utf8 + [0]) + rest
    ensures ReadsScalar(bs, st, Ok(VText(points), rest, st.(count := st.count + 1)))
  {
    hide ReadUtf8, TypeAndLength, NumberBytes, ReadHead;
    var tail := utf8 + [0] + rest;
    assert bs == TypeAndLength(1, NumberBytes(|utf8|)) + tail;
    NumberRoundTrip(1, |utf8|, tail, bs);
    assert tail[..|utf8|] == utf8 && tail[|utf8| + 1..] == rest;
  }

  lemma BlobRoundTrip(data: seq<byte>, st: State, rest: seq<byte>, bs: seq<byte>)
    requires TableOk(st) && |data| < LIMIT && st.count + 1 < LIMIT
    requires bs == EncBlob(data, st.(count := st.count + 1)).bytes + rest
    ensures ReadsScalar(bs, st, Ok(VBytes(data), rest, EncBlob(data, st.(count := st.count + 1)).st))
  {
    hide TypeAndLength, NumberBytes, ReadHead, Find, Resolve, TableOk;
    if Find(st.table, data).Some? {
      ReferenceIsSound(data, st);
      NumberRoundTrip(4, Find(st.table, data).value + 2, rest, bs);
    } else {
      var tail := data + rest;
      assert bs == TypeAndLength(0, NumberBytes(|data|)) + tail;
      NumberRoundTrip(0, |data|, tail, bs);
      assert tail[..|data|] == data && tail[|data|..] == rest;
    }
  }

  // ---------------------------------------------------------------- whole trees

  lemma BlobKeepsTable(data: seq<byte>, st: State)
    requires TableOk(st) && |data| >= 4
    ensures var e := EncBlob(data, st.(count := st.count + 1)); TableOk(e.st) && e.st.count == st.count + 1
  {
    FindIsSearch(st.table, data);
  }

  lemma ScalarKeepsTable(x: Json, st: State)
    requires !x.Arr? && !x.Obj? && TableOk(st)
    ensures var e := EncScalar(x, st.(count := st.count + 1)); TableOk(e.st) && e.st.count == st.count + 1
  {
    if x.Num? && x.n >= LIMIT {
      BlobKeepsTable(MinBytes(x.n), st);
    } else if x.Str? && IsHex(x.s) && |HexData(x.s)| >= 4 {
      BlobKeepsTable(HexData(x.s), st);
    }
  }

  /** Printing keeps the table in order and counts each token once. */
  lemma {:induction false} EncKeepsTable(x: Json, st: State)
    requires TableOk(st)
    ensures TableOk(Enc(x, st).st) && Enc(x, st).st.count == st.count + Tokens(x)
    decreases x, 0
  {
    var st1 := st.(count := st.count + 1);
    match x
    case Arr(items) =>
      EncItemsKeepsTable(items, 0, st1);
      assert Enc(x, st).st == EncItems(items, 0, st1).st;
    case Obj(fields) =>
      EncFieldsKeepsTable(fields, 0, st1);
      assert Enc(x, st).st == EncFields(fields, 0, st1).st;
    case _ =>
      ScalarKeepsTable(x, st);
      assert Enc(x, st) == EncScalar(x, st1);
  }

  lemma {:induction false} EncItemsKeepsTable(items: seq<Json>, i: nat, st: State)
    requires TableOk(st) && i <= |items|
    ensures var e := EncItems(items, i, st); TableOk(e.st) && e.st.count == st.count + TokensOfItems(items, i)
    decreases items, |items| - i
  {
    if i < |items| {
      EncKeepsTable(items[i], st);
      EncItemsKeepsTable(items, i + 1, Enc(items[i], st).st);
    }
  }

  lemma {:induction false} EncFieldsKeepsTable(fields: seq<Field>, i: nat, st: State)
    requires TableOk(st) && i <= |fields|
    ensures var e := EncFields(fields, i, st); TableOk(e.st) && e.st.count == st.count + TokensOfFields(fields, i)
    decreases fields, |fields| - i
  {
    if i < |fields| {
      EncKeepsTable(fields[i].value, st);
      EncFieldsKeepsTable(fields, i + 1, Enc(fields[i].value, st).st);
    }
  }

  /** Decoding what was printed for `x` gives `x` back and leaves exactly what followed, in the same state. */
  lemma {:induction false} TreeRoundTrip(x: Json, st: State, rest: seq<byte>, bs: seq<byte>)
    requires TableOk(st) && LengthsFit(x) && st.count + Tokens(x) < LIMIT
    requires bs == Enc(x, st).bytes + rest
    ensures Dec(bs, st) == Ok(Reading(x, 27), rest, Enc(x, st).st)
    decreases x, 0
  {
    hide Dec, DecItems, DecFields, DecScalar, EncItems, EncFields, EncScalar, TableOk, ReadingItems, ReadingFields;
    match x
    case Arr(items) => ArrayRoundTrip(items, st, rest, bs);
    case Obj(fields) => ObjectRoundTrip(fields, st, rest, bs);
    case _ =>
      ScalarRoundTrip(x, st, rest, bs);
      DecReadsScalar(bs, st, Ok(Reading(x, 27), rest, Enc(x, st).st));
  }

  lemma {:induction false} ArrayRoundTrip(items: seq<Json>, st: State, rest: seq<byte>, bs: seq<byte>)
    requires TableOk(st) && |items| < LIMIT && ItemsFit(items, 0) && st.count + 1 + TokensOfItems(items, 0) < LIMIT
    requires bs == Enc(Arr(items), st).bytes + rest
    ensures Dec(bs, st) == Ok(VArr(ReadingItems(items, 0, 27)), rest, Enc(Arr(items), st).st)
    decreases items, |items| + 1
  {
    hide Dec, DecItems, EncItems, ReadingItems;
    var st1 := st.(count := st.count + 1);
    var body := EncItems(items, 0, st1).bytes;
    ItemsRoundTrip(items, 0, st1, rest, body + rest);
    ContainerHead(2, |items|, body, rest, bs);
    DecArray(|items|, body + rest, bs, st);
  }

  lemma {:induction false} ObjectRoundTrip(fields: seq<Field>, st: State, rest: seq<byte>, bs: seq<byte>)
    requires TableOk(st) && |fields| < LIMIT && FieldsFit(fields, 0) && st.count + 1 + TokensOfFields(fields, 0) < LIMIT
    requires bs == Enc(Obj(fields), st).bytes + rest
    ensures Dec(bs, st) == Ok(VObj(ReadingFields(fields, 0, 27)), rest, Enc(Obj(fields), st).st)
    decreases fields, |fields| + 1
  {
    hide Dec, DecFields, EncFields, ReadingFields;
    var st1 := st.(count := st.count + 1);
    var body := EncFields(fields, 0, st1).bytes;
    FieldsRoundTrip(fields, 0, st1, rest, body + rest);
    ContainerHead(3, |fields|, body, rest, bs);
    DecObject(|fields|, body + rest, bs, st);
  }

  lemma DecArray(n: nat, tail: seq<byte>, bs: seq<byte>, st: State)
    requires ReadHead(bs) == Head(2, n, tail)
    ensures var items := DecItems(n, tail, st.(count := st.count + 1));
            items.Ok? ==> Dec(bs, st) == Ok(VArr(items.value), items.rest, items.st)
  {
  }

  lemma DecObject(n: nat, tail: seq<byte>, bs: seq<byte>, st: State)
    requires ReadHead(bs) == Head(3, n, tail)
    ensures var fields := DecFields(n, tail, st.(count := st.count + 1));
            fields.Ok? ==> Dec(bs, st) == Ok(VObj(fields.value), fields.rest, fields.st)
  {
  }

  lemma DecReadsScalar(bs: seq<byte>, st: State, r: Parsed<Val>)
    requires ReadsScalar(bs, st, r)
    ensures Dec(bs, st) == r
  {
  }

  lemma ContainerHead(t: nat, n: nat, body: seq<byte>, rest: seq<byte>, bs: seq<byte>)
    requires t < 8 && n < LIMIT && bs == TypeAndLength(t, NumberBytes(n)) + body + rest
    ensures ReadHead(bs) == Head(t, n, body + rest)
  {
    hide TypeAndLength, NumberBytes, ReadHead;
    assert bs == TypeAndLength(t, NumberBytes(n)) + (body + rest);
    NumberRoundTrip(t, n, body + rest, bs);
  }

  lemma DecItemsStep(n: nat, bs: seq<byte>, st: State, first: Parsed<Val>, rest: Parsed<seq<Val>>)
    requires first.Ok? && Dec(bs, st) == first
    requires rest.Ok? && DecItems(n, first.rest, first.st) == rest
    ensures DecItems(n + 1, bs, st) == Ok([first.value] + rest.value, rest.rest, rest.st)
  {
  }

  lemma DecFieldsStep(n: nat, bs: seq<byte>, st: State, first: Parsed<Val>, rest: Parsed<seq<VField>>)
    requires |bs| >= 2 && first.Ok? && Dec(bs[2..], st) == first
    requires rest.Ok? && DecFields(n, first.rest, first.st) == rest
    ensures DecFields(n + 1, bs, st) == Ok([VField(Value(bs[..2]), first.value)] + rest.value, rest.rest, rest.st)
  {
  }

  lemma {:induction false} ItemsRoundTrip(items: seq<Json>, i: nat, st: State, rest: seq<byte>, bs: seq<byte>)
    requires i <= |items| && TableOk(st) && st.count + TokensOfItems(items, i) < LIMIT
    requires ItemsFit(items, i)
    requires bs == EncItems(items, i, st).bytes + rest
    ensures DecItems(|items| - i, bs, st) == Ok(ReadingItems(items, i, 27), rest, EncItems(items, i, st).st)
    decreases items, |items| - i
  {
    hide Dec, DecFields, DecScalar, Enc, EncFields, EncScalar, Reading;
    if i == |items| {
      assert bs == rest;
    } else {
      var first := Enc(items[i], st);
      var tail := EncItems(items, i + 1, first.st).bytes + rest;
      assert bs == first.bytes + tail;
      TreeRoundTrip(items[i], st, tail, bs);
      EncKeepsTable(items[i], st);
      ItemsRoundTrip(items, i + 1, first.st, rest, tail);
      DecItemsStep(|items| - i - 1, bs, st, Ok(Reading(items[i], 27), tail, first.st),
                   Ok(ReadingItems(items, i + 1, 27), rest, EncItems(items, i + 1, first.st).st));
    }
  }

  lemma CutKey(bs: seq<byte>, key: seq<byte>, first: seq<byte>, others: seq<byte>, rest: seq<byte>)
    requires |key| == 2 && bs == key + first + others + rest
    ensures |bs| >= 2 && bs[..2] == key && bs[2..] == first + (others + rest)
  {
    assert bs == key + (first + (others + rest));
  }

  lemma {:induction false} FieldsRoundTrip(fields: seq<Field>, i: nat, st: State, rest: seq<byte>, bs: seq<byte>)
    requires i <= |fields| && TableOk(st) && st.count + TokensOfFields(fields, i) < LIMIT
    requires FieldsFit(fields, i)
    requires bs == EncFields(fields, i, st).bytes + rest
    ensures DecFields(|fields| - i, bs, st) == Ok(ReadingFields(fields, i, 27), rest, EncFields(fields, i, st).st)
    decreases fields, |fields| - i
  {
    hide Dec, DecItems, DecScalar, Enc, EncItems, EncScalar, Reading;
    if i == |fields| {
      assert bs == rest;
    } else {
      var key := KeyBytes(fields[i].key);
      var first := Enc(fields[i].value, st);
      var tail := EncFields(fields, i + 1, first.st).bytes + rest;
      CutKey(bs, key, first.bytes, EncFields(fields, i + 1, first.st).bytes, rest);
      TreeRoundTrip(fields[i].value, st, tail, bs[2..]);
      EncKeepsTable(fields[i].value, st);
      FieldsRoundTrip(fields, i + 1, first.st, rest, tail);
      DecFieldsStep(|fields| - i - 1, bs, st, Ok(Reading(fields[i].value, 27), tail, first.st),
                    Ok(ReadingFields(fields, i + 1, 27), rest, EncFields(fields, i + 1, first.st).st));
    }
  }

  // ---------------------------------------------------------------- the laws

  /** Every message that fits the format decodes; only text like "0x" reads as something else than it means. */
  lemma MessageRoundTrip(x: Json)
    requires Fits(x)
    ensures Decode(EncodeObject(x)) == Some(Reading(x, 27))
  {
    var body := Enc(x, START);
    EncKeepsTable(x, START);
    assert body.bytes == body.bytes + [];
    TreeRoundTrip(x, START, [], body.bytes);
    NumberRoundTrip(6, body.st.count, body.bytes, EncodeObject(x));
  }

  lemma {:induction false} BareHexDecides(x: Json)
    ensures Reading(x, 27) == Meaning(x) <==> !HasBareHex(x)
    decreases x, 0
  {
    match x
    case Arr(items) => BareHexDecidesItems(items, 0);
    case Obj(fields) => BareHexDecidesFields(fields, 0);
    case _ =>
  }

  lemma {:induction false} BareHexDecidesItems(items: seq<Json>, i: nat)
    requires i <= |items|
    ensures ReadingItems(items, i, 27) == ReadingItems(items, i, 0)
            <==> forall k :: i <= k < |items| ==> !HasBareHex(items[k])
    decreases items, |items| - i
  {
    if i < |items| {
      BareHexDecides(items[i]);
      BareHexDecidesItems(items, i + 1);
      ConsEqual(Reading(items[i], 27), Reading(items[i], 0),
                ReadingItems(items, i + 1, 27), ReadingItems(items, i + 1, 0));
    }
  }

  lemma {:induction false} BareHexDecidesFields(fields: seq<Field>, i: nat)
    requires i <= |fields|
    ensures ReadingFields(fields, i, 27) == ReadingFields(fields, i, 0)
            <==> forall k :: i <= k < |fields| ==> !HasBareHex(fields[k].value)
    decreases fields, |fields| - i
  {
    if i < |fields| {
      BareHexDecides(fields[i].value);
      BareHexDecidesFields(fields, i + 1);
      ConsEqual(ReadingField(fields[i], 27), ReadingField(fields[i], 0),
                ReadingFields(fields, i + 1, 27), ReadingFields(fields, i + 1, 0));
    }
  }

  lemma ConsEqual<T>(a: T, b: T, s: seq<T>, t: seq<T>)
    ensures [a] + s == [b] + t <==> a == b && s == t
  {
    if [a] + s == [b] + t {
      assert ([a] + s)[0] == ([b] + t)[0];
      assert s == ([a] + s)[1..] && t == ([b] + t)[1..];
    }
  }

  /** The decoder recovers the meaning of a tree exactly when no string of it is a bare "0x". */
  lemma DecodesToMeaning(x: Json)
    requires Fits(x)
    ensures Decode(EncodeObject(x)) == Some(Meaning(x)) <==> !HasBareHex(x)
  {
    MessageRoundTrip(x);
    BareHexDecides(x);
  }

  /** Two trees with one encoding have one meaning, as long as neither contains a bare "0x". */
  lemma EncodingIsUnique(x: Json, y: Json)
    requires Fits(x) && Fits(y) && !HasBareHex(x) && !HasBareHex(y)
    requires EncodeObject(x) == EncodeObject(y)
    ensures Meaning(x) == Meaning(y)
  {
    DecodesToMeaning(x);
    DecodesToMeaning(y);
  }

  /** The bare "0x" is printed as the number 27 is, so the two cannot be told apart. */
  lemma BareHexCollides()
    ensures var x := Str([48, 120]); var y := Num(27);
            Fits(x) && Fits(y) && EncodeObject(x) == EncodeObject(y) && Meaning(x) != Meaning(y)
  {
    assert HexData([48, 120]) == [];
  }

  /** Hexadecimal text reads as the number of its digits: the integer below four bytes, otherwise its bytes. */
  lemma HexReadsAsNumber(s: Text)
    requires IsHex(s) && |s| > 2 && AllDigits(s[2..]) && Fits(Str(s))
    ensures Decode(EncodeObject(Str(s))) == Some(
              if |s| <= 8 then VInt(HexNumber(s[2..])) else VBytes(BigEndian(HexNumber(s[2..]), (|s| - 1) / 2)))
  {
    hide Decode, EncodeObject, Fits, Digits, HexNumber, BigEndian;
    MessageRoundTrip(Str(s));
    AllCount(s[2..]);
  }
}
