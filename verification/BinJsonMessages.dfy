/** Messages of the binary format, byte by byte: those of the repository's own tests, and one with a reference. */
module BinJsonMessages {
  import opened Bytes
  import opened BinJson
  import opened BinJsonTheorems

  lemma Rounds()
    ensures HashRound(0, 97) == 0x61 && HashRound(0x61, 98) == 0x3083 && HashRound(0x3083, 99) == 0x7160
    ensures HashRound(0x7160, 100) == 0xc104 && HashRound(0xc104, 101) == 0x4361 && HashRound(0x4361, 102) == 0xf387
  {
  }

  /** The hashes of the keys "a" and "abcdef". */
  lemma KeyHashes()
    ensures KeyBytes([97]) == [0x00, 0x61] && KeyBytes([97, 98, 99, 100, 101, 102]) == [0xf3, 0x87]
  {
    hide HashRound;
    var s := [97, 98, 99, 100, 101, 102];
    Rounds();
    assert KeyHash([97], 1) == 0x61;
    assert KeyHash(s, 2) == 0x3083;
    assert KeyHash(s, 4) == 0xc104;
    assert KeyHash(s, 6) == 0xf387;
  }

  lemma SmallNumber(n: nat)
    requires n < 0x100
    ensures NumberBytes(n) == [n]
  {
  }

  /** A message with one token. */
  lemma OneToken(x: Json)
    requires !x.Arr? && !x.Obj?
    ensures EncodeObject(x) == [0xc1] + EncScalar(x, State(1, [])).bytes
  {
    hide EncScalar;
    ScalarKeepsTable(x, START);
    SmallNumber(1);
  }

  /** The numbers 1, 0xffffff and 0xffffffff: in the head, in three bytes, and as a byte string. */
  lemma NumberMessages()
    ensures EncodeObject(Num(1)) == [0xc1, 0xa1]
    ensures EncodeObject(Num(0xffffff)) == [0xc1, 0xbe, 0xff, 0xff, 0xff]
    ensures EncodeObject(Num(0xffffffff)) == [0xc1, 0x04, 0xff, 0xff, 0xff, 0xff]
  {
    OneToken(Num(1));
    OneToken(Num(0xffffff));
    OneToken(Num(0xffffffff));
    SmallNumber(1);
    SmallNumber(4);
    FullBytes();
    hide MinBytes, NumberBytes;
  }

  lemma ConstantMessages()
    ensures EncodeObject(Null) == [0xc1, 0xc0]
    ensures EncodeObject(Bool(false)) == [0xc1, 0x80] && EncodeObject(Bool(true)) == [0xc1, 0x81]
  {
    OneToken(Null);
    OneToken(Bool(false));
    OneToken(Bool(true));
  }

  lemma FullBytes()
    ensures MinBytes(0xffffff) == [0xff, 0xff, 0xff] && NumberBytes(0xffffff) == [0xff, 0xff, 0xff]
    ensures MinBytes(0xffffffff) == [0xff, 0xff, 0xff, 0xff]
  {
    assert MinBytes(0xff) == [0xff];
    assert MinBytes(0xffff) == [0xff, 0xff];
  }

  lemma OneItem(items: seq<Json>, i: nat, st: State)
    requires i < |items|
    ensures EncItems(items, i, st).bytes == Enc(items[i], st).bytes + EncItems(items, i + 1, Enc(items[i], st).st).bytes
    ensures EncItems(items, i, st).st == EncItems(items, i + 1, Enc(items[i], st).st).st
  {
  }

  /** An array without items; and one with the text "123", the hexadecimal text "0x123", the number 1 and true. */
  lemma ArrayMessages()
    ensures EncodeObject(Arr([])) == [0xc1, 0x40]
    ensures EncodeObject(Arr([Str([49, 50, 51]), Str([48, 120, 49, 50, 51]), Num(1), Bool(true)]))
            == [0xc5, 0x44, 0x23, 0x31, 0x32, 0x33, 0x00, 0xbd, 0x01, 0x23, 0xa1, 0x81]
  {
    hide Enc, EncItems, NumberBytes;
    var items := [Str([49, 50, 51]), Str([48, 120, 49, 50, 51]), Num(1), Bool(true)];
    SmallNumber(0);
    SmallNumber(1);
    SmallNumber(4);
    SmallNumber(5);
    FourTogether();
    ArrayEncodes(items, START);
    ArrayEncodes([], START);
  }

  lemma FourItems()
    ensures Enc(Str([49, 50, 51]), State(1, [])) == Encoded([0x23, 0x31, 0x32, 0x33, 0x00], State(2, []))
    ensures Enc(Str([48, 120, 49, 50, 51]), State(2, [])) == Encoded([0xbd, 0x01, 0x23], State(3, []))
    ensures Enc(Num(1), State(3, [])) == Encoded([0xa1], State(4, []))
    ensures Enc(Bool(true), State(4, [])) == Encoded([0x81], State(5, []))
  {
    hide Utf8, HexData, NumberBytes, MinBytes;
    SmallNumber(1);
    SmallNumber(3);
    SmallUtf8();
    SmallHex();
  }

  lemma FourTogether()
    ensures var items := [Str([49, 50, 51]), Str([48, 120, 49, 50, 51]), Num(1), Bool(true)];
            EncItems(items, 0, State(1, []))
            == Encoded([0x23, 0x31, 0x32, 0x33, 0x00, 0xbd, 0x01, 0x23, 0xa1, 0x81], State(5, []))
    ensures EncItems([], 0, State(1, [])) == Encoded([], State(1, []))
  {
    hide Enc;
    var items := [Str([49, 50, 51]), Str([48, 120, 49, 50, 51]), Num(1), Bool(true)];
    FourItems();
    assert EncItems(items, 4, State(5, [])) == Encoded([], State(5, []));
    hide EncItems;
    OneItem(items, 3, State(4, []));
    OneItem(items, 2, State(3, []));
    assert EncItems(items, 2, State(3, [])) == Encoded([0xa1, 0x81], State(5, []));
    OneItem(items, 1, State(2, []));
    assert EncItems(items, 1, State(2, [])) == Encoded([0xbd, 0x01, 0x23, 0xa1, 0x81], State(5, []));
    OneItem(items, 0, State(1, []));
  }

  lemma SmallUtf8()
    ensures Utf8([49, 50, 51]) == [0x31, 0x32, 0x33]
  {
    var s: Text := [49, 50, 51];
    assert s[1..] == [50, 51] && s[1..][1..] == [51] && s[1..][1..][1..] == [];
  }

  lemma SmallHex()
    ensures HexData([48, 120, 49, 50, 51]) == [0x01, 0x23]
  {
    var s: Text := [48, 120, 49, 50, 51];
    assert Even(s[2..]) == [48, 49, 50, 51];
    assert Even(s[2..])[2..] == [50, 51];
  }

  lemma ArrayEncodes(items: seq<Json>, st: State)
    ensures var rest := EncItems(items, 0, st.(count := st.count + 1));
            Enc(Arr(items), st) == Encoded(TypeAndLength(2, NumberBytes(|items|)) + rest.bytes, rest.st)
  {
    hide EncItems, EncFields, EncScalar, TypeAndLength, NumberBytes;
  }

  /** The second of two equal byte strings refers to the first, which is token 1. */
  lemma ReferenceMessage()
    ensures var x := Str([48, 120, 49, 50, 51, 52, 53, 54, 55, 56]);
            EncodeObject(Arr([x, x])) == [0xc3, 0x42, 0x04, 0x12, 0x34, 0x56, 0x78, 0x83]
  {
    hide Enc, NumberBytes;
    var x := Str([48, 120, 49, 50, 51, 52, 53, 54, 55, 56]);
    var st := State(2, [Entry(1, [0x12, 0x34, 0x56, 0x78])]);
    SmallNumber(2);
    SmallNumber(3);
    TwoBlobs();
    OneItem([x, x], 0, State(1, []));
    OneItem([x, x], 1, st);
    assert EncItems([x, x], 2, st.(count := 3)) == Encoded([], st.(count := 3));
    ArrayEncodes([x, x], START);
  }

  lemma TwoBlobs()
    ensures var x := Str([48, 120, 49, 50, 51, 52, 53, 54, 55, 56]);
            var st := State(2, [Entry(1, [0x12, 0x34, 0x56, 0x78])]);
            && Enc(x, State(1, [])) == Encoded([0x04, 0x12, 0x34, 0x56, 0x78], st)
            && Enc(x, st) == Encoded([0x83], st.(count := 3))
  {
    hide HexData, NumberBytes, MinBytes;
    SmallNumber(3);
    SmallNumber(4);
    LongerHex();
  }

  lemma LongerHex()
    ensures HexData([48, 120, 49, 50, 51, 52, 53, 54, 55, 56]) == [0x12, 0x34, 0x56, 0x78]
  {
    var s: Text := [48, 120, 49, 50, 51, 52, 53, 54, 55, 56];
    var e: Text := [49, 50, 51, 52, 53, 54, 55, 56];
    assert Even(s[2..]) == e && e[2..] == [51, 52, 53, 54, 55, 56];
    assert e[2..][2..] == [53, 54, 55, 56] && e[2..][2..][2..] == [55, 56];
  }

  lemma OneField(fields: seq<Field>, i: nat, st: State)
    requires i < |fields|
    ensures var first := Enc(fields[i].value, st); var rest := EncFields(fields, i + 1, first.st);
            EncFields(fields, i, st) == Encoded(KeyBytes(fields[i].key) + first.bytes + rest.bytes, rest.st)
  {
  }

  lemma ObjectEncodes(fields: seq<Field>, st: State)
    ensures var rest := EncFields(fields, 0, st.(count := st.count + 1));
            Enc(Obj(fields), st) == Encoded(TypeAndLength(3, NumberBytes(|fields|)) + rest.bytes, rest.st)
  {
    hide EncItems, EncFields, EncScalar, TypeAndLength, NumberBytes;
  }

  lemma TwoValues()
    ensures Enc(Num(1), State(1, [])) == Encoded([0xa1], State(2, []))
    ensures Enc(Bool(true), State(2, [])) == Encoded([0x81], State(3, []))
  {
    hide NumberBytes, MinBytes;
    SmallNumber(1);
  }

  lemma TwoTogether()
    ensures var fields := [Field([97], Num(1)), Field([97, 98, 99, 100, 101, 102], Bool(true))];
            EncFields(fields, 0, State(1, [])) == Encoded([0x00, 0x61, 0xa1, 0xf3, 0x87, 0x81], State(3, []))
  {
    hide Enc, KeyBytes;
    var fields := [Field([97], Num(1)), Field([97, 98, 99, 100, 101, 102], Bool(true))];
    KeyHashes();
    TwoValues();
    assert EncFields(fields, 2, State(3, [])) == Encoded([], State(3, []));
    hide EncFields;
    OneField(fields, 1, State(2, []));
    assert EncFields(fields, 1, State(2, [])) == Encoded([0xf3, 0x87, 0x81], State(3, []));
    OneField(fields, 0, State(1, []));
    assert EncFields(fields, 0, State(1, [])) == Encoded([0x00, 0x61, 0xa1, 0xf3, 0x87, 0x81], State(3, []));
  }

  /** An object with the number 1 for the key "a", and true for the key "abcdef". */
  lemma ObjectMessage()
    ensures EncodeObject(Obj([Field([97], Num(1)), Field([97, 98, 99, 100, 101, 102], Bool(true))]))
            == [0xc3, 0x62, 0x00, 0x61, 0xa1, 0xf3, 0x87, 0x81]
  {
    hide Enc, EncFields, NumberBytes, KeyBytes;
    var fields := [Field([97], Num(1)), Field([97, 98, 99, 100, 101, 102], Bool(true))];
    SmallNumber(2);
    SmallNumber(3);
    TwoTogether();
    ObjectEncodes(fields, START);
  }
}
