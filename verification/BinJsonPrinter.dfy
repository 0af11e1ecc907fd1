/** The printer itself: a cursor over a buffer that doubles when it is full. */
module BinJsonPrinter {
  import opened Bytes
  import opened BinJson

  ghost predicate EntriesFit(table: seq<Entry>, count: nat)
  {
    forall k :: 0 <= k < |table| ==> table[k].idx < count && |table[k].data| < LIMIT
  }

  /** `None` is the source's null, which makes the caller throw. */
  method BufferFromNumber(val: nat) returns (r: Option<seq<byte>>)
    ensures r == if val < LIMIT then Some(NumberBytes(val)) else None
  {
    var q1 := val / 0x100;
    var q2 := q1 / 0x100;
    var q3 := q2 / 0x100;
    if val < 0x100 {
      return Some([val]);
    } else if val < 0x10000 {
      assert MinBytes(q1) == [q1];
      assert MinBytes(val) == MinBytes(q1) + [val % 0x100] == [q1, val % 0x100];
      return Some([q1, val % 0x100]);
    } else if val < 0x1000000 {
      assert MinBytes(q2) == [q2];
      assert MinBytes(q1) == MinBytes(q2) + [q1 % 0x100];
      assert MinBytes(val) == MinBytes(q1) + [val % 0x100] == [q2, q1 % 0x100, val % 0x100];
      return Some([q2, q1 % 0x100, val % 0x100]);
    } else if val < LIMIT {
      assert MinBytes(q3) == [q3];
      assert MinBytes(q2) == MinBytes(q3) + [q2 % 0x100];
      assert MinBytes(q1) == MinBytes(q2) + [q1 % 0x100];
      assert MinBytes(val) == MinBytes(q1) + [val % 0x100] == [q3, q2 % 0x100, q1 % 0x100, val % 0x100];
      return Some([q3, q2 % 0x100, q1 % 0x100, val % 0x100]);
    }
    return None;
  }

  /** The printer's `bb`: `p` bytes of `data` are written, `len` tokens counted. */
  class Printer {
    var data: array<byte>
    var p: nat
    var len: nat
    var bytes: seq<Entry>

    ghost predicate Valid()
      reads this
    {
      0 < data.Length && p <= data.Length && EntriesFit(bytes, len)
    }

    ghost function Out(): seq<byte>
      reads this, data
      requires p <= data.Length
    {
      data[..p]
    }

    ghost function St(): State
      reads this
    {
      State(len, bytes)
    }

    constructor (capacity: nat)
      requires capacity > 0
      ensures Valid() && fresh(data) && Out() == [] && St() == START
    {
      data := new byte[capacity];
      p, len, bytes := 0, 0, [];
    }

    /** Doubles the buffer until `l` more bytes fit, keeping what is written. */
    method Check(l: nat)
      requires Valid()
      modifies this`data
      ensures Valid() && (data == old(data) || fresh(data))
      ensures Out() == old(Out()) && data.Length >= p + l
    {
      while data.Length < p + l
        invariant Valid() && (data == old(data) || fresh(data))
        invariant Out() == old(Out())
        decreases p + l - data.Length
      {
        var src, b := data, new byte[data.Length * 2];
        for i := 0 to src.Length
          modifies b
          invariant b[..i] == src[..i]
        {
          b[i] := src[i];
        }
        assert b[..p] == b[..src.Length][..p];
        data := b;
      }
    }

    method AddByte(val: byte)
      requires Valid()
      modifies this`data, this`p, data
      ensures Valid() && (data == old(data) || fresh(data))
      ensures Out() == old(Out()) + [val]
    {
      Check(1);
      data[p] := val;
      p := p + 1;
    }

    method AddBuffer(val: seq<byte>)
      requires Valid()
      modifies this`data, this`p, data
      ensures Valid() && (data == old(data) || fresh(data))
      ensures Out() == old(Out()) + val
    {
      Check(|val|);
      ghost var before := Out();
      var buf := data;
      for i := 0 to |val|
        modifies buf
        invariant buf[..p + i] == before + val[..i]
      {
        buf[p + i] := val[i];
      }
      assert val[..|val|] == val;
      p := p + |val|;
    }

    /** `None` for a length without a field: reading its size throws. */
    method EncodeTypeAndLength(t: nat, ldata: Option<seq<byte>>, tail: seq<byte>) returns (ok: bool)
      requires Valid() && t < 8 && (ldata.Some? ==> |ldata.value| <= 4)
      modifies this`data, this`p, data
      ensures ok <==> ldata.Some?
      ensures Valid() && (data == old(data) || fresh(data))
      ensures ok ==> Out() == old(Out()) + (TypeAndLength(t, ldata.value) + tail)
    {
      if ldata.None? {
        return false;
      }
      var l := ldata.value;
      ghost var head := TypeAndLength(t, l);
      if |l| == 1 && l[0] < 28 {
        AddByte(t * 32 + l[0]);
      } else {
        AddByte(t * 32 + (|l| + 27));
        AddBuffer(l);
      }
      assert Out() == old(Out()) + head;
      AddBuffer(tail);
      return true;
    }

    /** Prints a reference to `d` if it was printed before; otherwise remembers it under the current token. */
    method EncodeRefIfExists(d: seq<byte>) returns (found: bool, ok: bool)
      requires Valid() && len > 0 && EntriesFit(bytes, len - 1)
      modifies this`data, this`p, this`bytes, data
      ensures data == old(data) || fresh(data)
      ensures found <==> Find(old(bytes), d).Some?
      ensures found && ok ==> Valid() && bytes == old(bytes) && |d| < LIMIT
      ensures found && ok ==> Out() == old(Out()) + EncBlob(d, old(St())).bytes
      ensures found && !ok ==> len >= LIMIT
      ensures !found ==> data == old(data) && p == old(p) && bytes == old(bytes) + [Entry(len - 1, d)]
      ensures !found ==> data[..] == old(data[..])
    {
      var i := 0;
      while i < |bytes| && bytes[i].data != d
        invariant i <= |bytes| && Find(bytes, d) == Find(bytes[i..], d)
      {
        i := i + 1;
      }
      if i < |bytes| {
        assert bytes[i..][0] == bytes[i];
        var ldata := BufferFromNumber(bytes[i].idx + 2);
        ok := EncodeTypeAndLength(4, ldata, []);
        return true, ok;
      }
      bytes := bytes + [Entry(len - 1, d)];
      return false, true;
    }

    /** A byte string by reference or in full. */
    method EncodeBlob(d: seq<byte>) returns (ok: bool)
      requires Valid() && len > 0 && EntriesFit(bytes, len - 1)
      modifies this`data, this`p, this`bytes, data
      ensures data == old(data) || fresh(data)
      ensures ok ==> Valid() && |d| < LIMIT
      ensures ok ==> Out() == old(Out()) + EncBlob(d, old(St())).bytes && St() == EncBlob(d, old(St())).st
      ensures !ok ==> |d| >= LIMIT || len >= LIMIT
    {
      var found;
      found, ok := EncodeRefIfExists(d);
      if !found {
        if |d| >= LIMIT {
          return false;  // the length has no field
        }
        var ldata := BufferFromNumber(|d|);
        ok := EncodeTypeAndLength(0, ldata, d);
      }
    }

    /** Prints the tree `ob`; not `ok` where the source throws. */
    method Encode(ob: Json) returns (ok: bool)
      requires Valid()
      modifies this, data
      ensures data == old(data) || fresh(data)
      ensures ok ==> Valid() && LengthsFit(ob) && St() == Enc(ob, old(St())).st
      ensures ok ==> Out() == old(Out()) + Enc(ob, old(St())).bytes
      ensures ok ==> len == old(len) + Tokens(ob)
      ensures !ok ==> !LengthsFit(ob) || old(len) + Tokens(ob) >= LIMIT
      decreases ob, 0
    {
      hide Enc, EncItems, EncFields, EncScalar, LengthsFit, Tokens, TokensOfItems, TokensOfFields;
      ghost var st := St();
      len := len + 1;
      match ob
      case Arr(items) =>
        ArrayTokens(items);
        ArrayCase(items, st);
        ok := EncodeArray(items);
      case Obj(fields) =>
        ObjectTokens(fields);
        ObjectCase(fields, st);
        ok := EncodeFields(fields);
      case _ =>
        ScalarCase(ob, st);
        ok := EncodeScalar(ob);
    }

    method EncodeScalar(ob: Json) returns (ok: bool)
      requires Valid() && len > 0 && EntriesFit(bytes, len - 1) && !ob.Arr? && !ob.Obj?
      modifies this`data, this`p, this`bytes, data
      ensures data == old(data) || fresh(data)
      ensures ok ==> Valid() && LengthsFit(ob) && St() == EncScalar(ob, old(St())).st
      ensures ok ==> Out() == old(Out()) + EncScalar(ob, old(St())).bytes
      ensures !ok ==> !LengthsFit(ob) || len >= LIMIT
    {
      match ob
      case Null =>
        AddByte(0xc0);
        ok := true;
      case Bool(b) =>
        AddByte(if b then 0x81 else 0x80);
        ok := true;
      case Num(n) =>
        var ldata := BufferFromNumber(n);
        if ldata.Some? {
          ok := EncodeTypeAndLength(5, ldata, []);
        } else {
          ok := EncodeBlob(MinBytes(n));
        }
      case Str(s) =>
        if !IsHex(s) {
          var ldata := BufferFromNumber(|Utf8(s)|);
          ok := EncodeTypeAndLength(1, ldata, Utf8(s) + [0]);
        } else if |HexData(s)| < 4 {
          ok := EncodeTypeAndLength(5, Some(HexData(s)), []);
        } else {
          ok := EncodeBlob(HexData(s));
        }
    }

    method EncodeArray(items: seq<Json>) returns (ok: bool)
      requires Valid()
      modifies this, data
      ensures data == old(data) || fresh(data)
      ensures ok ==> Valid() && LengthsFit(Arr(items)) && St() == EncItems(items, 0, old(St())).st
      ensures ok ==>
              Out() == old(Out()) + (TypeAndLength(2, NumberBytes(|items|)) + EncItems(items, 0, old(St())).bytes)
      ensures ok ==> len == old(len) + TokensOfItems(items, 0)
      ensures !ok ==> !LengthsFit(Arr(items)) || old(len) + TokensOfItems(items, 0) >= LIMIT
      decreases items, 1
    {
      hide EncItems, TokensOfItems, Enc, LengthsFit, Tokens, TypeAndLength, NumberBytes, ItemsDone;
      ItemsLength(items);
      var ldata := BufferFromNumber(|items|);
      ok := EncodeTypeAndLength(2, ldata, []);
      if !ok {
        return;
      }
      ghost var st0, out0 := St(), Out();
      ItemsStart(items, st0, out0);
      for i := 0 to |items|
        invariant Valid() && (data == old(data) || fresh(data))
        invariant ItemsDone(items, i, st0, out0, St(), Out())
      {
        ghost var st, out := St(), Out();
        ItemsNext(items, i, st0, out0, st, out);
        ok := Encode(items[i]);
        if !ok {
          return false;
        }
      }
      ItemsEnd(items, st0, out0, St(), Out());
      ok := true;
      Regroup3(old(Out()), TypeAndLength(2, NumberBytes(|items|)), EncItems(items, 0, st0).bytes);
    }

    method EncodeFields(fields: seq<Field>) returns (ok: bool)
      requires Valid()
      modifies this, data
      ensures data == old(data) || fresh(data)
      ensures ok ==> Valid() && LengthsFit(Obj(fields)) && St() == EncFields(fields, 0, old(St())).st
      ensures ok ==>
              Out() == old(Out()) + (TypeAndLength(3, NumberBytes(|fields|)) + EncFields(fields, 0, old(St())).bytes)
      ensures ok ==> len == old(len) + TokensOfFields(fields, 0)
      ensures !ok ==> !LengthsFit(Obj(fields)) || old(len) + TokensOfFields(fields, 0) >= LIMIT
      decreases fields, 1
    {
      hide EncFields, TokensOfFields, Enc, LengthsFit, Tokens, TypeAndLength, NumberBytes, FieldsDone;
      FieldsLength(fields);
      var ldata := BufferFromNumber(|fields|);
      ok := EncodeTypeAndLength(3, ldata, []);
      if !ok {
        return;
      }
      ghost var st0, out0 := St(), Out();
      FieldsStart(fields, st0, out0);
      for i := 0 to |fields|
        invariant Valid() && (data == old(data) || fresh(data))
        invariant FieldsDone(fields, i, st0, out0, St(), Out())
      {
        ghost var st, out := St(), Out();
        FieldsNext(fields, i, st0, out0, st, out);
        ok := EncodeField(fields[i]);
        if !ok {
          return false;
        }
      }
      FieldsEnd(fields, st0, out0, St(), Out());
      ok := true;
      Regroup3(old(Out()), TypeAndLength(3, NumberBytes(|fields|)), EncFields(fields, 0, st0).bytes);
    }

    /** One key, hashed to two bytes, and its value. */
    method EncodeField(field: Field) returns (ok: bool)
      requires Valid()
      modifies this, data
      ensures data == old(data) || fresh(data)
      ensures ok ==> Valid() && LengthsFit(field.value) && St() == Enc(field.value, old(St())).st
      ensures ok ==> Out() == old(Out()) + KeyBytes(field.key) + Enc(field.value, old(St())).bytes
      ensures ok ==> len == old(len) + Tokens(field.value)
      ensures !ok ==> !LengthsFit(field.value) || old(len) + Tokens(field.value) >= LIMIT
      decreases field, 0
    {
      var h := Hash(field.key);
      AddBuffer([h / 0x100, h % 0x100]);
      ok := Encode(field.value);
    }
  }

  // ---------------------------------------------------------------- the specification, one case at a time

  lemma ScalarCase(ob: Json, st: State)
    requires !ob.Arr? && !ob.Obj?
    ensures Tokens(ob) == 1 && Enc(ob, st) == EncScalar(ob, st.(count := st.count + 1))
  {
    hide EncScalar, EncItems, EncFields, TokensOfItems, TokensOfFields, TypeAndLength, NumberBytes;
  }

  lemma ArrayTokens(items: seq<Json>)
    ensures Tokens(Arr(items)) == 1 + TokensOfItems(items, 0)
  {
    hide TokensOfItems;
  }

  lemma ArrayCase(items: seq<Json>, st: State)
    ensures var rest := EncItems(items, 0, st.(count := st.count + 1));
            Enc(Arr(items), st) == Encoded(TypeAndLength(2, NumberBytes(|items|)) + rest.bytes, rest.st)
  {
    hide ItemsFit, FieldsFit, TokensOfItems, TokensOfFields, EncItems, EncFields, EncScalar, TypeAndLength, NumberBytes;
  }

  lemma ItemsLength(items: seq<Json>)
    ensures LengthsFit(Arr(items)) <==> |items| < LIMIT && ItemsFit(items, 0)
  {
    hide ItemsFit;
  }

  /**
    The first `i` of the items have taken the printer from the state `st0` and the output `out0` to `st` and `out`:
    what is left to print from here is what is left of the whole.
   */
  ghost predicate ItemsDone(items: seq<Json>, i: nat, st0: State, out0: seq<byte>, st: State, out: seq<byte>)
    requires i <= |items|
  {
    && (ItemsFit(items, i) <==> ItemsFit(items, 0))
    && st.count + TokensOfItems(items, i) == st0.count + TokensOfItems(items, 0)
    && EncItems(items, i, st).st == EncItems(items, 0, st0).st
    && out + EncItems(items, i, st).bytes == out0 + EncItems(items, 0, st0).bytes
  }

  lemma ItemsStart(items: seq<Json>, st0: State, out0: seq<byte>)
    ensures ItemsDone(items, 0, st0, out0, st0, out0)
  {
  }

  lemma ItemsEnd(items: seq<Json>, st0: State, out0: seq<byte>, st: State, out: seq<byte>)
    requires ItemsDone(items, |items|, st0, out0, st, out)
    ensures ItemsFit(items, 0) && st.count == st0.count + TokensOfItems(items, 0)
    ensures st == EncItems(items, 0, st0).st && out == out0 + EncItems(items, 0, st0).bytes
  {
    assert out + [] == out;
  }

  lemma ItemsNext(items: seq<Json>, i: nat, st0: State, out0: seq<byte>, st: State, out: seq<byte>)
    requires i < |items| && ItemsDone(items, i, st0, out0, st, out)
    ensures var first := Enc(items[i], st);
            LengthsFit(items[i]) && first.st.count == st.count + Tokens(items[i]) ==>
              ItemsDone(items, i + 1, st0, out0, first.st, out + first.bytes)
    ensures !LengthsFit(items[i]) || st.count + Tokens(items[i]) >= LIMIT ==>
              !ItemsFit(items, 0) || st0.count + TokensOfItems(items, 0) >= LIMIT
  {
    hide Enc, LengthsFit, Tokens, KeyBytes;
    var first := Enc(items[i], st);
    var rest := EncItems(items, i + 1, first.st).bytes;
    Regroup3(out, first.bytes, rest);
  }

  lemma ObjectTokens(fields: seq<Field>)
    ensures Tokens(Obj(fields)) == 1 + TokensOfFields(fields, 0)
  {
    hide TokensOfFields;
  }

  lemma ObjectCase(fields: seq<Field>, st: State)
    ensures var rest := EncFields(fields, 0, st.(count := st.count + 1));
            Enc(Obj(fields), st) == Encoded(TypeAndLength(3, NumberBytes(|fields|)) + rest.bytes, rest.st)
  {
    hide ItemsFit, FieldsFit, TokensOfItems, TokensOfFields, EncItems, EncFields, EncScalar, TypeAndLength, NumberBytes;
  }

  lemma FieldsLength(fields: seq<Field>)
    ensures LengthsFit(Obj(fields)) <==> |fields| < LIMIT && FieldsFit(fields, 0)
  {
    hide FieldsFit;
  }

  /**
    The first `i` of the fields have taken the printer from the state `st0` and the output `out0` to `st` and `out`:
    what is left to print from here is what is left of the whole.
   */
  ghost predicate FieldsDone(fields: seq<Field>, i: nat, st0: State, out0: seq<byte>, st: State, out: seq<byte>)
    requires i <= |fields|
  {
    && (FieldsFit(fields, i) <==> FieldsFit(fields, 0))
    && st.count + TokensOfFields(fields, i) == st0.count + TokensOfFields(fields, 0)
    && EncFields(fields, i, st).st == EncFields(fields, 0, st0).st
    && out + EncFields(fields, i, st).bytes == out0 + EncFields(fields, 0, st0).bytes
  }

  lemma FieldsStart(fields: seq<Field>, st0: State, out0: seq<byte>)
    ensures FieldsDone(fields, 0, st0, out0, st0, out0)
  {
  }

  lemma FieldsEnd(fields: seq<Field>, st0: State, out0: seq<byte>, st: State, out: seq<byte>)
    requires FieldsDone(fields, |fields|, st0, out0, st, out)
    ensures FieldsFit(fields, 0) && st.count == st0.count + TokensOfFields(fields, 0)
    ensures st == EncFields(fields, 0, st0).st && out == out0 + EncFields(fields, 0, st0).bytes
  {
    assert out + [] == out;
  }

  lemma FieldsNext(fields: seq<Field>, i: nat, st0: State, out0: seq<byte>, st: State, out: seq<byte>)
    requires i < |fields| && FieldsDone(fields, i, st0, out0, st, out)
    ensures var first := Enc(fields[i].value, st);
            LengthsFit(fields[i].value) && first.st.count == st.count + Tokens(fields[i].value) ==>
              FieldsDone(fields, i + 1, st0, out0, first.st, out + KeyBytes(fields[i].key) + first.bytes)
    ensures !LengthsFit(fields[i].value) || st.count + Tokens(fields[i].value) >= LIMIT ==>
              !FieldsFit(fields, 0) || st0.count + TokensOfFields(fields, 0) >= LIMIT
  {
    hide Enc, LengthsFit, Tokens, KeyBytes;
    var first := Enc(fields[i].value, st);
    var rest := EncFields(fields, i + 1, first.st).bytes;
    Reassociate(out, KeyBytes(fields[i].key), first.bytes, rest);
  }

  lemma Regroup3(a: seq<byte>, b: seq<byte>, c: seq<byte>)
    ensures (a + b) + c == a + (b + c)
  {
  }

  lemma Reassociate(a: seq<byte>, b: seq<byte>, c: seq<byte>, d: seq<byte>)
    ensures (a + b + c) + d == a + (b + c + d)
  {
  }

  method Hash(s: Text) returns (r: unit)
    ensures r == KeyHash(s, |s|) as int && KeyBytes(s) == [r / 0x100, r % 0x100]
  {
    var val: bv16 := 0;
    for i := 0 to |s|
      invariant val == KeyHash(s, i)
    {
      val := val ^ (s[i] as bv16 | (val << 7));
    }
    r := val as int;
  }

  /** The printed message; `None` where the source throws, which is exactly where the tree does not fit. */
  method PrintObject(ob: Json) returns (r: Option<seq<byte>>)
    ensures r == if Fits(ob) then Some(EncodeObject(ob)) else None
  {
    var bb := new Printer(100);
    var ok := bb.Encode(ob);
    if !ok {
      return None;
    }
    var prefix := new Printer(bb.p + 4);
    var ldata := BufferFromNumber(bb.len);
    ok := prefix.EncodeTypeAndLength(6, ldata, bb.data[..bb.p]);
    if !ok {
      return None;
    }
    assert bb.Out() == Enc(ob, START).bytes && bb.St() == Enc(ob, START).st;
    assert prefix.Out() == EncodeObject(ob);
    return Some(prefix.data[..prefix.p]);
  }
}
