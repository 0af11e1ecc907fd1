/**
  The binary JSON format: what the printer of `BinJsonPrinter` writes, as a function of the tree,
  and the left-to-right decoder of the format. The theorems say that the decoder undoes the encoder.
 */
module BinJson {
  import opened Bytes

  /** A UTF-16 code unit; a script string is a sequence of them. */
  type unit = u: int | 0 <= u < 0x10000
  type Text = seq<unit>

  datatype Json =
    | Null
    | Bool(b: bool)
    | Num(n: nat)
    | Str(s: Text)
    | Arr(items: seq<Json>)
    | Obj(fields: seq<Field>)

  datatype Field = Field(key: Text, value: Json)

  /** From this value on `bufferFromNumber` returns null. */
  const LIMIT: nat := 0x10000000

  // ---------------------------------------------------------------- numbers, strings, keys

  /** The bytes of a length or number below the limit; the empty string where the source has null. */
  function NumberBytes(v: nat): (r: seq<byte>)
    ensures |r| <= 4
    ensures v < LIMIT ==> Value(r) == v && r != []
  {
    MinBytesLength(v, 4);
    assert Pow256(4) == 0x100000000;
    if v < LIMIT then MinBytes(v) else []
  }

  /** The value of up to four bytes, worked out digit by digit. */
  lemma SmallValue(bs: seq<byte>)
    ensures |bs| == 1 ==> Value(bs) == bs[0]
    ensures |bs| == 2 ==> Value(bs) == bs[0] as int * 0x100 + bs[1]
    ensures |bs| == 3 ==> Value(bs) == (bs[0] as int * 0x100 + bs[1]) * 0x100 + bs[2]
    ensures |bs| == 4 ==> Value(bs) == ((bs[0] as int * 0x100 + bs[1]) * 0x100 + bs[2]) * 0x100 + bs[3]
    decreases |bs|
  {
    if 1 <= |bs| <= 4 {
      SmallValue(bs[..|bs| - 1]);
    }
  }

  function HexDigit(u: unit): Option<nibble>
  {
    if 48 <= u <= 57 then Some(u - 48)
    else if 97 <= u <= 102 then Some(u - 87)
    else if 65 <= u <= 70 then Some(u - 55)
    else None
  }

  /** Hexadecimal text to bytes, ending at the first pair that is not hexadecimal. */
  function FromHex(s: Text): seq<byte>
  {
    if |s| < 2 then []
    else
      var hi, lo := HexDigit(s[0]), HexDigit(s[1]);
      if hi.None? || lo.None? then []
      else [hi.value as int * 16 + lo.value] + FromHex(s[2..])
  }

  function Even(s: Text): Text
  {
    if |s| % 2 == 1 then [48] + s else s
  }

  predicate IsHex(s: Text)
  {
    |s| > 1 && s[0] == 48 && s[1] == 120
  }

  function HexData(s: Text): seq<byte>
    requires IsHex(s)
  {
    FromHex(Even(s[2..]))
  }

  function Utf8Of(c: nat): seq<byte>
    requires c < 0x110000
  {
    if c < 0x80 then [c]
    else if c < 0x800 then [0xC0 + c / 0x40, 0x80 + c % 0x40]
    else if c < 0x10000 then [0xE0 + c / 0x1000, 0x80 + c / 0x40 % 0x40, 0x80 + c % 0x40]
    else [0xF0 + c / 0x40000, 0x80 + c / 0x1000 % 0x40, 0x80 + c / 0x40 % 0x40, 0x80 + c % 0x40]
  }

  /** UTF-8, a lone surrogate becoming the replacement character. */
  function Utf8(s: Text): seq<byte>
  {
    if s == [] then []
    else if 0xD800 <= s[0] < 0xDC00 && |s| > 1 && 0xDC00 <= s[1] < 0xE000 then
      Utf8Of(0x10000 + 0x400 * (s[0] as int - 0xD800) + (s[1] as int - 0xDC00)) + Utf8(s[2..])
    else if 0xD800 <= s[0] < 0xE000 then
      Utf8Of(0xFFFD) + Utf8(s[1..])
    else
      Utf8Of(s[0]) + Utf8(s[1..])
  }

  function HashRound(val: bv16, u: unit): bv16
  {
    val ^ (u as bv16 | (val << 7))
  }

  /** The 16-bit key hash of the first `n` code units. */
  function KeyHash(s: Text, n: nat): bv16
    requires n <= |s|
  {
    if n == 0 then 0 else HashRound(KeyHash(s, n - 1), s[n - 1])
  }

  function KeyBytes(key: Text): (r: seq<byte>)
    ensures |r| == 2 && Value(r) == KeyHash(key, |key|) as int
  {
    var h := KeyHash(key, |key|) as int;
    SmallValue([h / 0x100, h % 0x100]);
    [h / 0x100, h % 0x100]
  }

  // ---------------------------------------------------------------- the encoder as a function

  /** The type in the upper three bits; the length in the lower five, or its size plus 27 and then the length. */
  function TypeAndLength(t: nat, ldata: seq<byte>): seq<byte>
    requires t < 8 && |ldata| <= 4
  {
    if |ldata| == 1 && ldata[0] < 28 then [t * 32 + ldata[0]]
    else [t * 32 + (|ldata| + 27)] + ldata
  }

  /** A byte string printed in full, and the index of the token that printed it. */
  datatype Entry = Entry(idx: nat, data: seq<byte>)

  datatype State = State(count: nat, table: seq<Entry>)

  datatype Encoded = Encoded(bytes: seq<byte>, st: State)

  /** The index of the first entry holding `data`, if any. */
  function Find(table: seq<Entry>, data: seq<byte>): Option<nat>
  {
    if table == [] then None
    else if table[0].data == data then Some(table[0].idx)
    else Find(table[1..], data)
  }

  /** A byte string: a reference where it was printed before, otherwise in full. The token is already counted. */
  function EncBlob(data: seq<byte>, st: State): Encoded
    requires st.count > 0
  {
    var found := Find(st.table, data);
    if found.Some? then
      Encoded(TypeAndLength(4, NumberBytes(found.value + 2)), st)
    else
      Encoded(TypeAndLength(0, NumberBytes(|data|)) + data,
              st.(table := st.table + [Entry(st.count - 1, data)]))
  }

  function Enc(x: Json, st: State): Encoded
    decreases x, 0
  {
    var st1 := st.(count := st.count + 1);
    match x
    case Arr(items) =>
      var rest := EncItems(items, 0, st1);
      Encoded(TypeAndLength(2, NumberBytes(|items|)) + rest.bytes, rest.st)
    case Obj(fields) =>
      var rest := EncFields(fields, 0, st1);
      Encoded(TypeAndLength(3, NumberBytes(|fields|)) + rest.bytes, rest.st)
    case _ => EncScalar(x, st1)
  }

  /** A token without children; it is already counted. */
  function EncScalar(x: Json, st: State): Encoded
    requires !x.Arr? && !x.Obj? && st.count > 0
  {
    match x
    case Null => Encoded([0xc0], st)
    case Bool(b) => Encoded([if b then 0x81 else 0x80], st)
    case Num(n) =>
      if n < LIMIT then Encoded(TypeAndLength(5, NumberBytes(n)), st) else EncBlob(MinBytes(n), st)
    case Str(s) =>
      if IsHex(s) then
        var data := HexData(s);
        if |data| < 4 then Encoded(TypeAndLength(5, data), st) else EncBlob(data, st)
      else
        var data := Utf8(s);
        Encoded(TypeAndLength(1, NumberBytes(|data|)) + (data + [0]), st)
  }

  function EncItems(items: seq<Json>, i: nat, st: State): Encoded
    requires i <= |items|
    decreases items, |items| - i
  {
    if i == |items| then Encoded([], st)
    else
      var first := Enc(items[i], st);
      var rest := EncItems(items, i + 1, first.st);
      Encoded(first.bytes + rest.bytes, rest.st)
  }

  function EncFields(fields: seq<Field>, i: nat, st: State): Encoded
    requires i <= |fields|
    decreases fields, |fields| - i
  {
    if i == |fields| then Encoded([], st)
    else
      var first := Enc(fields[i].value, st);
      var rest := EncFields(fields, i + 1, first.st);
      Encoded(KeyBytes(fields[i].key) + first.bytes + rest.bytes, rest.st)
  }

  const START := State(0, [])

  /** The whole message: a header with the number of tokens, then the tokens. */
  function EncodeObject(x: Json): seq<byte>
  {
    var body := Enc(x, START);
    TypeAndLength(6, NumberBytes(body.st.count)) + body.bytes
  }

  // ---------------------------------------------------------------- what fits the format

  function Tokens(x: Json): (r: nat)
    ensures r >= 1
    decreases x, 0
  {
    match x
    case Arr(items) => 1 + TokensOfItems(items, 0)
    case Obj(fields) => 1 + TokensOfFields(fields, 0)
    case _ => 1
  }

  function TokensOfItems(items: seq<Json>, i: nat): nat
    requires i <= |items|
    decreases items, |items| - i
  {
    if i == |items| then 0 else Tokens(items[i]) + TokensOfItems(items, i + 1)
  }

  function TokensOfFields(fields: seq<Field>, i: nat): nat
    requires i <= |fields|
    decreases fields, |fields| - i
  {
    if i == |fields| then 0 else Tokens(fields[i].value) + TokensOfFields(fields, i + 1)
  }

  /** Every length that is printed in full has a length field. */
  predicate LengthsFit(x: Json)
    decreases x, 0
  {
    match x
    case Num(n) => n < LIMIT || |MinBytes(n)| < LIMIT
    case Str(s) => if IsHex(s) then |HexData(s)| < LIMIT else |Utf8(s)| < LIMIT
    case Arr(items) => |items| < LIMIT && ItemsFit(items, 0)
    case Obj(fields) => |fields| < LIMIT && FieldsFit(fields, 0)
    case _ => true
  }

  predicate ItemsFit(items: seq<Json>, i: nat)
    requires i <= |items|
    decreases items, |items| - i
  {
    i == |items| || (LengthsFit(items[i]) && ItemsFit(items, i + 1))
  }

  predicate FieldsFit(fields: seq<Field>, i: nat)
    requires i <= |fields|
    decreases fields, |fields| - i
  {
    i == |fields| || (LengthsFit(fields[i].value) && FieldsFit(fields, i + 1))
  }

  predicate Fits(x: Json)
  {
    LengthsFit(x) && Tokens(x) < LIMIT
  }

  // ---------------------------------------------------------------- the decoder

  datatype Val =
    | VNull
    | VBool(b: bool)
    | VInt(n: nat)
    | VBytes(data: seq<byte>)
    | VText(points: seq<nat>)
    | VArr(items: seq<Val>)
    | VObj(fields: seq<VField>)

  datatype VField = VField(keyHash: nat, value: Val)

  datatype Head = NoHead | Head(t: nat, len: nat, rest: seq<byte>)

  function ReadHead(bs: seq<byte>): (h: Head)
    ensures h.Head? ==> |h.rest| < |bs|
  {
    if bs == [] then NoHead else ReadLength(bs[0] / 32, bs[0] % 32, bs[1..])
  }

  function ReadLength(t: nat, l: nat, bs: seq<byte>): (h: Head)
    ensures h.Head? ==> |h.rest| <= |bs|
  {
    if l < 28 then Head(t, l, bs)
    else if |bs| < l - 27 then NoHead
    else Head(t, Value(bs[..l - 27]), bs[l - 27..])
  }

  datatype Point = NoPoint | Point(c: nat, len: nat)

  /** A byte after the first one of a character. */
  predicate Continues(b: byte) { 0x80 <= b < 0xC0 }

  /** Six more bits. */
  function Continued(high: nat, b: byte): nat
    requires Continues(b)
  {
    high * 0x40 + (b - 0x80)
  }

  /** The character at the head of `bs`, by section 4 of RFC 3629: in its shortest form, and no surrogate. */
  function FirstPoint(bs: seq<byte>): (p: Point)
    ensures p.Point? ==> 1 <= p.len <= |bs|
  {
    if |bs| >= 1 && bs[0] < 0x80 then Point(bs[0], 1)
    else if |bs| >= 2 && 0xC0 <= bs[0] < 0xE0 && Continues(bs[1]) then
      AtLeast(0x80, Continued(bs[0] - 0xC0, bs[1]), 2)
    else if |bs| >= 3 && 0xE0 <= bs[0] < 0xF0 && Continues(bs[1]) && Continues(bs[2]) then
      AtLeast(0x800, Continued(Continued(bs[0] - 0xE0, bs[1]), bs[2]), 3)
    else if |bs| >= 4 && 0xF0 <= bs[0] < 0xF8 && Continues(bs[1]) && Continues(bs[2]) && Continues(bs[3]) then
      AtLeast(0x10000, Continued(Continued(Continued(bs[0] - 0xF0, bs[1]), bs[2]), bs[3]), 4)
    else NoPoint
  }

  function AtLeast(low: nat, c: nat, len: nat): Point
  {
    if low <= c < 0x110000 && !(0xD800 <= c < 0xE000) then Point(c, len) else NoPoint
  }

  /** The characters of UTF-8 text, if it is well formed. */
  function ReadUtf8(bs: seq<byte>): Option<seq<nat>>
  {
    if bs == [] then Some([])
    else
      var p := FirstPoint(bs);
      if p.NoPoint? then None
      else
        var rest := ReadUtf8(bs[p.len..]);
        if rest.None? then None else Some([p.c] + rest.value)
  }

  /** The data of the entry with index `idx`, if any. */
  function Resolve(table: seq<Entry>, idx: nat): Option<seq<byte>>
  {
    if table == [] then None
    else if table[0].idx == idx then Some(table[0].data)
    else Resolve(table[1..], idx)
  }

  datatype Parsed<T> = Fail | Ok(value: T, rest: seq<byte>, st: State)

  function Dec(bs: seq<byte>, st: State): (r: Parsed<Val>)
    ensures r.Ok? ==> |r.rest| < |bs|
    decreases |bs|, 0
  {
    var h := ReadHead(bs);
    if h.NoHead? then Fail
    else if h.t == 2 then
      var items := DecItems(h.len, h.rest, st.(count := st.count + 1));
      if items.Fail? then Fail else Ok(VArr(items.value), items.rest, items.st)
    else if h.t == 3 then
      var fields := DecFields(h.len, h.rest, st.(count := st.count + 1));
      if fields.Fail? then Fail else Ok(VObj(fields.value), fields.rest, fields.st)
    else DecScalar(h.t, h.len, h.rest, st)
  }

  function DecScalar(t: nat, len: nat, rest: seq<byte>, st: State): (r: Parsed<Val>)
    ensures r.Ok? ==> |r.rest| <= |rest|
  {
    var st1 := st.(count := st.count + 1);
    match t
    case 0 =>
      if |rest| < len then Fail
      else Ok(VBytes(rest[..len]), rest[len..], st1.(table := st.table + [Entry(st.count, rest[..len])]))
    case 1 =>
      if |rest| < len + 1 || rest[len] != 0 || ReadUtf8(rest[..len]).None? then Fail
      else Ok(VText(ReadUtf8(rest[..len]).value), rest[len + 1..], st1)
    case 4 =>
      if len < 2 then Ok(VBool(len == 1), rest, st1)
      else
        var data := Resolve(st.table, len - 2);
        if data.None? then Fail else Ok(VBytes(data.value), rest, st1)
    case 5 => Ok(VInt(len), rest, st1)
    case 6 => if len == 0 then Ok(VNull, rest, st1) else Fail
    case _ => Fail
  }

  function DecItems(n: nat, bs: seq<byte>, st: State): (r: Parsed<seq<Val>>)
    ensures r.Ok? ==> |r.rest| <= |bs|
    decreases |bs|, n
  {
    if n == 0 then Ok([], bs, st)
    else
      var first := Dec(bs, st);
      if first.Fail? then Fail
      else
        var rest := DecItems(n - 1, first.rest, first.st);
        if rest.Fail? then Fail else Ok([first.value] + rest.value, rest.rest, rest.st)
  }

  function DecFields(n: nat, bs: seq<byte>, st: State): (r: Parsed<seq<VField>>)
    ensures r.Ok? ==> |r.rest| <= |bs|
    decreases |bs|, n
  {
    if n == 0 then Ok([], bs, st)
    else if |bs| < 2 then Fail
    else
      var first := Dec(bs[2..], st);
      if first.Fail? then Fail
      else
        var rest := DecFields(n - 1, first.rest, first.st);
        if rest.Fail? then Fail
        else Ok([VField(Value(bs[..2]), first.value)] + rest.value, rest.rest, rest.st)
  }

  /** A message is well formed when its header counts exactly the tokens of the one tree that follows. */
  function Decode(bs: seq<byte>): Option<Val>
  {
    var h := ReadHead(bs);
    if h.NoHead? || h.t != 6 then None
    else
      var r := Dec(h.rest, START);
      if r.Fail? || r.rest != [] || r.st.count != h.len then None else Some(r.value)
  }

  // ---------------------------------------------------------------- what a tree means

  /** The number that hexadecimal digits spell, read from the left. */
  function HexNumber(digits: Text): nat
  {
    if digits == [] then 0
    else
      var n := |digits| - 1;
      var d := HexDigit(digits[n]);
      HexNumber(digits[..n]) * 16 + (if d.Some? then d.value else 0)
  }

  /** The digits in pairs, up to the first pair with something else in it. */
  function Pairs(t: Text): Text
  {
    if |t| >= 2 && HexDigit(t[0]).Some? && HexDigit(t[1]).Some? then t[..2] + Pairs(t[2..]) else []
  }

  /** The digits of hexadecimal text that count; of an odd number of characters the first one stands alone. */
  function Digits(t: Text): Text
  {
    if |t| % 2 == 0 then Pairs(t)
    else if HexDigit(t[0]).Some? then t[..1] + Pairs(t[1..])
    else []
  }

  /** A number in base 256, with leading zeros. */
  function BigEndian(n: nat, len: nat): seq<byte>
  {
    if len == 0 then [] else BigEndian(n / 256, len - 1) + [n % 256]
  }

  /** What hexadecimal text means: the number its digits spell, in as many bytes as they take. */
  function HexBytes(t: Text): seq<byte>
  {
    BigEndian(HexNumber(Digits(t)), (|Digits(t)| + 1) / 2)
  }

  /** The Unicode characters of a script string; a surrogate without its partner is the replacement character. */
  function CodePoints(s: Text): seq<nat>
  {
    if s == [] then []
    else if IsHigh(s[0]) && |s| > 1 && IsLow(s[1]) then
      [Supplementary(s[0], s[1])] + CodePoints(s[2..])
    else [if IsHigh(s[0]) || IsLow(s[0]) then 0xFFFD else s[0]] + CodePoints(s[1..])
  }

  function Supplementary(high: unit, low: unit): nat
    requires IsHigh(high) && IsLow(low)
  {
    0x10000 + 0x400 * (high as nat - 0xD800) + (low as nat - 0xDC00)
  }

  predicate IsHigh(u: unit) { 0xD800 <= u < 0xDC00 }

  predicate IsLow(u: unit) { 0xDC00 <= u < 0xE000 }

  /**
    What a reader should get for `x`: keys are hashed, text is its characters, hexadecimal text is the bytes
    it spells or, below four bytes, the integer; a number from 2^28 on is its bytes. `bare` is the integer
    read for hexadecimal text without a digit, such as "0x". Nothing of it is taken from the encoder.
   */
  function Reading(x: Json, bare: nat): Val
    decreases x, 0
  {
    match x
    case Null => VNull
    case Bool(b) => VBool(b)
    case Num(n) => if n < LIMIT then VInt(n) else VBytes(MinBytes(n))
    case Str(s) =>
      if IsHex(s) then
        var digits := Digits(s[2..]);
        if digits == [] then VInt(bare)
        else if |digits| <= 6 then VInt(HexNumber(digits))
        else VBytes(HexBytes(s[2..]))
      else VText(CodePoints(s))
    case Arr(items) => VArr(ReadingItems(items, 0, bare))
    case Obj(fields) => VObj(ReadingFields(fields, 0, bare))
  }

  function ReadingItems(items: seq<Json>, i: nat, bare: nat): (r: seq<Val>)
    requires i <= |items|
    decreases items, |items| - i
  {
    if i == |items| then [] else [Reading(items[i], bare)] + ReadingItems(items, i + 1, bare)
  }

  function ReadingFields(fields: seq<Field>, i: nat, bare: nat): (r: seq<VField>)
    requires i <= |fields|
    decreases fields, |fields| - i
  {
    if i == |fields| then [] else [ReadingField(fields[i], bare)] + ReadingFields(fields, i + 1, bare)
  }

  function ReadingField(field: Field, bare: nat): VField
    decreases field, 0
  {
    VField(KeyHash(field.key, |field.key|) as int, Reading(field.value, bare))
  }

  /** The integer 0 that hexadecimal text without a digit spells. */
  function Meaning(x: Json): Val { Reading(x, 0) }

  /** Some string of the tree starts with 0x and goes on without a digit that counts. */
  predicate HasBareHex(x: Json)
    decreases x, 0
  {
    match x
    case Str(s) => IsHex(s) && Digits(s[2..]) == []
    case Arr(items) => exists i :: 0 <= i < |items| && HasBareHex(items[i])
    case Obj(fields) => exists i :: 0 <= i < |fields| && HasBareHex(fields[i].value)
    case _ => false
  }
}
