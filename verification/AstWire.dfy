/** The wire format of query-language values: marshal_ast prints a tree into a packet, unmarshal_ast parses it back. */
module AstWire {
  import opened Base
  import opened Wire

  // The ASTType codes that travel.

  const EMPTY_TYPE: uint32 := 0
  const INT_TYPE: uint32 := 1
  const DOUBLE_TYPE: uint32 := 2
  const STRING_TYPE: uint32 := 5
  const SEP_TYPE: uint32 := 7
  const ADT_TYPE: uint32 := 23
  const VAR_ADT_TYPE: uint32 := 24
  const ARRAY_TYPE: uint32 := 27

  type Str = seq<byte>

  /** A double as section 4.7 of RFC 4506 sees it: one bit of sign, 11 of exponent, 52 of fraction. */
  datatype Double64 = Double64(negative: bool, exponent: Exponent, high: Fraction20, low: uint32)

  type Exponent = x: int | 0 <= x < 2048
  type Fraction20 = x: int | 0 <= x < 0x10_0000

  datatype Field = Field(key: Str, value: Ast)

  /** A value; the fields of a struct are listed in map order. */
  datatype Ast =
    | Empty
    | Int(i: int32)
    | Double(d: Double64)
    | Text(s: Str)
    | Array(elem: uint32, adtName: Option<Str>, items: seq<Ast>)
    | Struct(name: Str, fields: seq<Field>)
    | Sep(items: seq<Ast>)

  // ---------------------------------------------------------------- doubles

  ghost function DoubleBytes(d: Double64): (b: seq<byte>)
    ensures |b| == 8
  {
    Word((if d.negative then 0x8000_0000 else 0) + d.exponent * 0x10_0000 + d.high) + Word(d.low)
  }

  function BytesDouble(b: seq<byte>): Double64
    requires |b| == 8
  {
    WordSizes();
    var first: uint32 := FromBigEndian(b[..4]);
    var rest := first % 0x8000_0000;
    Double64(first >= 0x8000_0000, rest / 0x10_0000, rest % 0x10_0000, FromBigEndian(b[4..]))
  }

  lemma {:induction false} SplitFirstWord(negative: bool, exponent: Exponent, high: Fraction20, first: int)
    requires first == (if negative then 0x8000_0000 else 0) + exponent * 0x10_0000 + high
    ensures 0 <= first < 0x1_0000_0000 && (first >= 0x8000_0000 <==> negative)
    ensures (first % 0x8000_0000) / 0x10_0000 == exponent && (first % 0x8000_0000) % 0x10_0000 == high
  {
    assert first % 0x8000_0000 == exponent * 0x10_0000 + high;
  }

  lemma {:induction false} DoubleRoundTrip(d: Double64)
    ensures BytesDouble(DoubleBytes(d)) == d
  {
    var b := DoubleBytes(d);
    var first := (if d.negative then 0x8000_0000 else 0) + d.exponent * 0x10_0000 + d.high;
    SplitFirstWord(d.negative, d.exponent, d.high, first);
    assert b[..4] == Word(first) && b[4..] == Word(d.low);
  }

  // ---------------------------------------------------------------- printing

  ghost function Block(s: Str): seq<byte> {
    Word(|s|) + s
  }

  /** The name of a struct type; arrays of anything else carry an empty block. */
  ghost function NameBlock(elem: uint32, adtName: Option<Str>): seq<byte> {
    if elem == ADT_TYPE && adtName.Some? then Block(adtName.value) else Word(0)
  }

  ghost function Encode(t: Ast): (b: seq<byte>)
    ensures |b| >= 4
  {
    match t
    case Empty => Word(EMPTY_TYPE)
    case Int(i) => Word(INT_TYPE) + Word(Unsigned(i))
    case Double(d) => Word(DOUBLE_TYPE) + DoubleBytes(d)
    case Text(s) => Word(STRING_TYPE) + Block(s)
    case Array(elem, adtName, items) =>
      Word(ARRAY_TYPE) + (Word(elem) + (NameBlock(elem, adtName) + (Word(|items|) + EncodeAll(items))))
    case Struct(name, fields) => Word(VAR_ADT_TYPE) + (Block(name) + (Word(|fields|) + EncodeFields(fields)))
    case Sep(items) => Word(SEP_TYPE) + (Word(|items|) + EncodeAll(items))
  }

  ghost function EncodeAll(items: seq<Ast>): (b: seq<byte>)
    ensures |b| >= 4 * |items|
  {
    if items == [] then [] else Encode(items[0]) + EncodeAll(items[1..])
  }

  ghost function EncodeFields(fields: seq<Field>): (b: seq<byte>)
    ensures |b| >= 4 * |fields|
  {
    if fields == [] then []
    else Block(fields[0].key) + (Encode(fields[0].value) + EncodeFields(fields[1..]))
  }

  // ---------------------------------------------------------------- parsing

  /** The order of std::string. */
  predicate StrLess(a: Str, b: Str) {
    b != [] && (a == [] || a[0] < b[0] || (a[0] == b[0] && StrLess(a[1..], b[1..])))
  }

  /** Assignment to a map, kept as a list in key order. */
  function Put(fields: seq<Field>, key: Str, value: Ast): seq<Field> {
    if fields == [] || StrLess(key, fields[0].key) then [Field(key, value)] + fields
    else if key == fields[0].key then [Field(key, value)] + fields[1..]
    else [fields[0]] + Put(fields[1..], key, value)
  }

  function TakeBlock(rd: Reader): (r: (Str, Reader))
    ensures !r.1.error ==> !rd.error && |r.1.rest| <= |rd.rest| - 4
  {
    var (size, r1) := TakeWord(rd);
    Take(r1, size)
  }

  /** unmarshal_ast: Empty for a parse error as well as for an empty value. */
  function Unmarshal(rd: Reader): (r: (Ast, Reader))
    ensures !r.1.error ==> |r.1.rest| <= |rd.rest| - 4
    ensures |r.1.rest| <= |rd.rest|
    ensures r.0 != Empty ==> !r.1.error
    decreases |rd.rest|, 1, 0
  {
    var (code, r1) := TakeWord(rd);
    if r1.error || code == EMPTY_TYPE then (Empty, r1)
    else if code == INT_TYPE then
      var (x, r2) := TakeWord(r1);
      (if r2.error then Empty else Int(Signed(x)), r2)
    else if code == DOUBLE_TYPE then
      var (b, r2) := Take(r1, 8);
      (if r2.error then Empty else Double(BytesDouble(b)), r2)
    else if code == STRING_TYPE then
      var (s, r2) := TakeBlock(r1);
      (if r2.error then Empty else Text(s), r2)
    else if code == ARRAY_TYPE then UnmarshalArray(r1)
    else if code == VAR_ADT_TYPE then UnmarshalStruct(r1)
    else if code == SEP_TYPE then
      var (n, r2) := TakeWord(r1);
      if r2.error then (Empty, r2)
      else
        var (items, r3) := UnmarshalItems(r2, n, []);
        (if items.None? then Empty else Sep(items.value), r3)
    else (Empty, r1)
  }

  function UnmarshalArray(rd: Reader): (r: (Ast, Reader))
    ensures |r.1.rest| <= |rd.rest|
    ensures r.0 != Empty ==> !r.1.error
    decreases |rd.rest|, 3, 0
  {
    var (elem, r1) := TakeWord(rd);
    var (name, r2) := TakeBlock(r1);
    var (n, r3) := TakeWord(r2);
    if r3.error then (Empty, r3)
    else
      var (items, r4) := UnmarshalItems(r3, n, []);
      (if items.None? then Empty else Array(elem, if name == [] then None else Some(name), items.value), r4)
  }

  function UnmarshalStruct(rd: Reader): (r: (Ast, Reader))
    ensures |r.1.rest| <= |rd.rest|
    ensures r.0 != Empty ==> !r.1.error
    decreases |rd.rest|, 3, 0
  {
    var (name, r1) := TakeBlock(rd);
    var (n, r2) := TakeWord(r1);
    if r2.error then (Empty, r2)
    else
      var (fields, r3) := UnmarshalFields(r2, n, []);
      (if fields.None? then Empty else Struct(name, fields.value), r3)
  }

  /** n more elements after those already read; an Empty one fails the whole. */
  function UnmarshalItems(rd: Reader, n: nat, read: seq<Ast>): (r: (Option<seq<Ast>>, Reader))
    ensures |r.1.rest| <= |rd.rest|
    ensures r.0.Some? && !rd.error ==> !r.1.error
    decreases |rd.rest|, 2, n
  {
    if n == 0 then (Some(read), rd)
    else
      var (item, r1) := Unmarshal(rd);
      if item == Empty then (None, r1) else UnmarshalItems(r1, n - 1, read + [item])
  }

  function UnmarshalField(rd: Reader): (r: (Option<Field>, Reader))
    ensures r.0.Some? ==> !r.1.error && r.0.value.value != Empty && |r.1.rest| <= |rd.rest| - 4
    ensures |r.1.rest| <= |rd.rest|
    decreases |rd.rest|, 1, 0
  {
    var (key, r1) := TakeBlock(rd);
    if r1.error then (None, r1)
    else
      var (value, r2) := Unmarshal(r1);
      (if value == Empty then None else Some(Field(key, value)), r2)
  }

  function UnmarshalFields(rd: Reader, n: nat, read: seq<Field>): (r: (Option<seq<Field>>, Reader))
    ensures |r.1.rest| <= |rd.rest|
    ensures r.0.Some? && !rd.error ==> !r.1.error
    decreases |rd.rest|, 2, n
  {
    if n == 0 then (Some(read), rd)
    else
      var (f, r1) := UnmarshalField(rd);
      if f.None? then (None, r1) else UnmarshalFields(r1, n - 1, Put(read, f.value.key, f.value.value))
  }

  // ---------------------------------------------------------------- which trees survive

  /** What the code can print: struct arrays carry a name, fields are in map order, sizes fit a packet. */
  predicate Printable(t: Ast) {
    match t
    case Array(elem, adtName, items) => (elem == ADT_TYPE ==> adtName.Some?) && AllPrintable(items)
    case Struct(_, fields) => Ordered(fields) && FieldsPrintable(fields)
    case Sep(items) => AllPrintable(items)
    case _ => true
  }

  predicate AllPrintable(items: seq<Ast>) {
    items == [] || (Printable(items[0]) && AllPrintable(items[1..]))
  }

  predicate FieldsPrintable(fields: seq<Field>) {
    fields == [] || (Printable(fields[0].value) && FieldsPrintable(fields[1..]))
  }

  predicate Ordered(fields: seq<Field>) {
    forall i, j :: 0 <= i < j < |fields| ==> StrLess(fields[i].key, fields[j].key)
  }

  /** No empty value inside another value. */
  predicate Solid(t: Ast) {
    match t
    case Array(_, _, items) => AllSolid(items)
    case Struct(_, fields) => FieldsSolid(fields)
    case Sep(items) => AllSolid(items)
    case _ => true
  }

  predicate AllSolid(items: seq<Ast>) {
    items == [] || (items[0] != Empty && Solid(items[0]) && AllSolid(items[1..]))
  }

  predicate FieldsSolid(fields: seq<Field>) {
    fields == [] || (fields[0].value != Empty && Solid(fields[0].value) && FieldsSolid(fields[1..]))
  }

  /** The name an array keeps: a struct array its own unless that is empty, any other array none. */
  function KeptName(elem: uint32, adtName: Option<Str>): Option<Str> {
    if elem == ADT_TYPE && adtName != Some([]) then adtName else None
  }

  /** The tree with the names that do not travel taken off its arrays. */
  function Kept(t: Ast): (k: Ast)
    ensures k == Empty <==> t == Empty
  {
    match t
    case Array(elem, adtName, items) => Array(elem, KeptName(elem, adtName), KeptAll(items))
    case Struct(name, fields) => Struct(name, KeptFields(fields))
    case Sep(items) => Sep(KeptAll(items))
    case _ => t
  }

  function KeptAll(items: seq<Ast>): (k: seq<Ast>)
    ensures |k| == |items|
  {
    if items == [] then [] else [Kept(items[0])] + KeptAll(items[1..])
  }

  function KeptFields(fields: seq<Field>): (k: seq<Field>)
    ensures |k| == |fields|
  {
    if fields == [] then [] else [Field(fields[0].key, Kept(fields[0].value))] + KeptFields(fields[1..])
  }

  /** Every array's name is one that travels. */
  predicate ProperNames(t: Ast) {
    match t
    case Array(elem, adtName, items) => KeptName(elem, adtName) == adtName && AllProper(items)
    case Struct(_, fields) => FieldsProper(fields)
    case Sep(items) => AllProper(items)
    case _ => true
  }

  predicate AllProper(items: seq<Ast>) {
    items == [] || (ProperNames(items[0]) && AllProper(items[1..]))
  }

  predicate FieldsProper(fields: seq<Field>) {
    fields == [] || (ProperNames(fields[0].value) && FieldsProper(fields[1..]))
  }

  lemma {:induction false} KeptIsSameIff(t: Ast)
    ensures Kept(t) == t <==> ProperNames(t)
  {
    match t
    case Array(_, _, items) => KeptAllIsSameIff(items);
    case Struct(_, fields) => KeptFieldsIsSameIff(fields);
    case Sep(items) => KeptAllIsSameIff(items);
    case _ =>
  }

  lemma {:induction false} KeptAllIsSameIff(items: seq<Ast>)
    ensures KeptAll(items) == items <==> AllProper(items)
  {
    if items != [] {
      KeptIsSameIff(items[0]);
      KeptAllIsSameIff(items[1..]);
      var k := KeptAll(items);
      assert k[0] == Kept(items[0]) && k[1..] == KeptAll(items[1..]);
      assert items == [items[0]] + items[1..];
    }
  }

  lemma {:induction false} KeptFieldsIsSameIff(fields: seq<Field>)
    ensures KeptFields(fields) == fields <==> FieldsProper(fields)
  {
    if fields != [] {
      KeptIsSameIff(fields[0].value);
      KeptFieldsIsSameIff(fields[1..]);
      var k := KeptFields(fields);
      assert k[0] == Field(fields[0].key, Kept(fields[0].value)) && k[1..] == KeptFields(fields[1..]);
      assert fields == [fields[0]] + fields[1..];
    }
  }

  // ---------------------------------------------------------------- the order of fields

  lemma {:induction false} StrLessAsymmetric(a: Str, b: Str)
    requires StrLess(a, b)
    ensures a != b && !StrLess(b, a)
  {
    if a != [] && a[0] == b[0] { StrLessAsymmetric(a[1..], b[1..]); }
  }

  /** Keys arriving in order are appended. */
  lemma {:induction false} PutLast(fields: seq<Field>, key: Str, value: Ast)
    requires forall i :: 0 <= i < |fields| ==> StrLess(fields[i].key, key)
    ensures Put(fields, key, value) == fields + [Field(key, value)]
  {
    if fields != [] {
      StrLessAsymmetric(fields[0].key, key);
      PutLast(fields[1..], key, value);
      assert fields + [Field(key, value)] == [fields[0]] + (fields[1..] + [Field(key, value)]);
    }
  }

  // ---------------------------------------------------------------- the round trip

  lemma {:induction false} TakeBlockBack(s: Str, tail: seq<byte>)
    requires |s| <= 0x7FFF_FFFF
    ensures TakeBlock(Reader(Block(s) + tail, false)) == (s, Reader(tail, false))
  {
    assert Block(s) + tail == Word(|s|) + (s + tail);
    TakeWordBack(|s|, s + tail);
    TakeBack(s, tail);
  }

  lemma {:induction false} NameBack(elem: uint32, adtName: Option<Str>, tail: seq<byte>)
    requires (elem == ADT_TYPE ==> adtName.Some?) && |NameBlock(elem, adtName)| <= 0x7FFF_FFFF
    ensures var (name, rd) := TakeBlock(Reader(NameBlock(elem, adtName) + tail, false));
      rd == Reader(tail, false) && KeptName(elem, adtName) == if name == [] then None else Some(name)
  {
    if elem == ADT_TYPE {
      TakeBlockBack(adtName.value, tail);
    } else {
      assert Block([]) == Word(0);
      TakeBlockBack([], tail);
    }
  }

  /** What parsing returns for the bytes of t followed by anything. */
  ghost predicate ParsesBack(t: Ast, tail: seq<byte>) {
    var r := Unmarshal(Reader(Encode(t) + tail, false));
    if Solid(t) then r == (Kept(t), Reader(tail, false)) else r.0 == Empty
  }

  ghost predicate ItemsParseBack(items: seq<Ast>, read: seq<Ast>, tail: seq<byte>) {
    var r := UnmarshalItems(Reader(EncodeAll(items) + tail, false), |items|, read);
    if AllSolid(items) then r == (Some(read + KeptAll(items)), Reader(tail, false)) else r.0 == None
  }

  ghost predicate FieldsParseBack(fields: seq<Field>, read: seq<Field>, tail: seq<byte>) {
    FieldsComeBack(fields, read, tail, UnmarshalFields(Reader(EncodeFields(fields) + tail, false), |fields|, read))
  }

  ghost predicate FieldsComeBack(fields: seq<Field>, read: seq<Field>, tail: seq<byte>,
                                 r: (Option<seq<Field>>, Reader)) {
    if FieldsSolid(fields) then r == (Some(read + KeptFields(fields)), Reader(tail, false)) else r.0 == None
  }

  lemma {:induction false} LeafParsesBack(t: Ast, tail: seq<byte>)
    requires !t.Array? && !t.Struct? && !t.Sep? && |Encode(t)| <= 0x7FFF_FFFF
    ensures ParsesBack(t, tail)
  {
    match t
    case Empty => TakeWordBack(EMPTY_TYPE, tail);
    case Int(i) =>
      assert Encode(t) + tail == Word(INT_TYPE) + (Word(Unsigned(i)) + tail);
      TakeWordBack(INT_TYPE, Word(Unsigned(i)) + tail);
      TakeWordBack(Unsigned(i), tail);
    case Double(d) =>
      assert Encode(t) + tail == Word(DOUBLE_TYPE) + (DoubleBytes(d) + tail);
      TakeWordBack(DOUBLE_TYPE, DoubleBytes(d) + tail);
      TakeBack(DoubleBytes(d), tail);
      DoubleRoundTrip(d);
    case Text(s) =>
      assert Encode(t) + tail == Word(STRING_TYPE) + (Block(s) + tail);
      TakeWordBack(STRING_TYPE, Block(s) + tail);
      TakeBlockBack(s, tail);
  }

  lemma {:induction false} ArrayBodyBack(elem: uint32, adtName: Option<Str>, items: seq<Ast>, x: seq<byte>,
                                         tail: seq<byte>)
    requires (elem == ADT_TYPE ==> adtName.Some?) && |NameBlock(elem, adtName)| <= 0x7FFF_FFFF
    requires |items| <= UINT_MAX && ItemsParseBack(items, [], tail) && x == Word(|items|) + (EncodeAll(items) + tail)
    ensures var r := UnmarshalArray(Reader(Word(elem) + (NameBlock(elem, adtName) + x), false));
      if AllSolid(items) then r == (Array(elem, KeptName(elem, adtName), KeptAll(items)), Reader(tail, false))
      else r.0 == Empty
  {
    TakeWordBack(elem, NameBlock(elem, adtName) + x);
    NameBack(elem, adtName, x);
    TakeWordBack(|items|, EncodeAll(items) + tail);
    assert [] + KeptAll(items) == KeptAll(items);
  }

  lemma {:induction false} Regroup(all: seq<byte>, a: seq<byte>, b: seq<byte>, c: seq<byte>, d: seq<byte>,
                                   tail: seq<byte>)
    requires all == a + (b + (c + d))
    ensures all + tail == a + (b + (c + (d + tail)))
  {}

  lemma {:induction false} DispatchArray(b: seq<byte>)
    ensures Unmarshal(Reader(Word(ARRAY_TYPE) + b, false)) == UnmarshalArray(Reader(b, false))
  {
    TakeWordBack(ARRAY_TYPE, b);
  }

  lemma {:induction false} DispatchStruct(b: seq<byte>)
    ensures Unmarshal(Reader(Word(VAR_ADT_TYPE) + b, false)) == UnmarshalStruct(Reader(b, false))
  {
    TakeWordBack(VAR_ADT_TYPE, b);
  }

  lemma {:induction false} ArrayUnfold(elem: uint32, adtName: Option<Str>, items: seq<Ast>)
    ensures Encode(Array(elem, adtName, items))
         == Word(ARRAY_TYPE) + (Word(elem) + (NameBlock(elem, adtName) + (Word(|items|) + EncodeAll(items))))
  {}

  lemma {:induction false} RegroupBody(a: seq<byte>, b: seq<byte>, c: seq<byte>, n: seq<byte>, d: seq<byte>,
                                       tail: seq<byte>)
    ensures a + (b + (c + (n + d + tail))) == a + (b + (c + (n + (d + tail))))
  {
    assert n + d + tail == n + (d + tail);
  }

  lemma {:induction false} ArrayBytes(elem: uint32, adtName: Option<Str>, items: seq<Ast>, tail: seq<byte>)
    ensures Encode(Array(elem, adtName, items)) + tail
         == Word(ARRAY_TYPE) + (Word(elem) + (NameBlock(elem, adtName) + (Word(|items|) + (EncodeAll(items) + tail))))
  {
    ArrayUnfold(elem, adtName, items);
    var a, b, c, n, d := Word(ARRAY_TYPE), Word(elem), NameBlock(elem, adtName), Word(|items|), EncodeAll(items);
    Regroup(Encode(Array(elem, adtName, items)), a, b, c, n + d, tail);
    RegroupBody(a, b, c, n, d, tail);
  }

  lemma {:induction false} ArrayParsesBack(elem: uint32, adtName: Option<Str>, items: seq<Ast>, tail: seq<byte>)
    requires (elem == ADT_TYPE ==> adtName.Some?) && |NameBlock(elem, adtName)| <= 0x7FFF_FFFF
    requires |items| <= UINT_MAX && ItemsParseBack(items, [], tail)
    ensures ParsesBack(Array(elem, adtName, items), tail)
  {
    var x := Word(|items|) + (EncodeAll(items) + tail);
    ArrayBodyBack(elem, adtName, items, x, tail);
    ArrayBytes(elem, adtName, items, tail);
    DispatchArray(Word(elem) + (NameBlock(elem, adtName) + x));
  }

  lemma {:induction false} StructBodyBack(name: Str, fields: seq<Field>, x: seq<byte>, y: seq<byte>, tail: seq<byte>)
    requires |name| <= 0x7FFF_FFFF && |fields| <= UINT_MAX && FieldsParseBack(fields, [], tail)
    requires y == EncodeFields(fields) + tail && x == Word(|fields|) + y
    ensures var r := UnmarshalStruct(Reader(Block(name) + x, false));
      if FieldsSolid(fields) then r == (Struct(name, [] + KeptFields(fields)), Reader(tail, false)) else r.0 == Empty
  {
    TakeBlockBack(name, x);
    TakeWordBack(|fields|, y);
  }

  lemma {:induction false} StructUnfold(name: Str, fields: seq<Field>)
    ensures Encode(Struct(name, fields)) == Word(VAR_ADT_TYPE) + (Block(name) + (Word(|fields|) + EncodeFields(fields)))
  {}

  lemma {:induction false} StructBytes(name: Str, fields: seq<Field>, tail: seq<byte>)
    ensures Encode(Struct(name, fields)) + tail
         == Word(VAR_ADT_TYPE) + (Block(name) + (Word(|fields|) + (EncodeFields(fields) + tail)))
  {
    StructUnfold(name, fields);
    Regroup(Encode(Struct(name, fields)), Word(VAR_ADT_TYPE), Block(name), Word(|fields|), EncodeFields(fields), tail);
  }

  lemma {:induction false} StructParsesBack(name: Str, fields: seq<Field>, tail: seq<byte>)
    requires |name| <= 0x7FFF_FFFF && |fields| <= UINT_MAX && FieldsParseBack(fields, [], tail)
    ensures ParsesBack(Struct(name, fields), tail)
  {
    var y := EncodeFields(fields) + tail;
    var x := Word(|fields|) + y;
    StructBodyBack(name, fields, x, y, tail);
    StructBytes(name, fields, tail);
    DispatchStruct(Block(name) + x);
    assert [] + KeptFields(fields) == KeptFields(fields);
  }

  lemma {:induction false} SepBytes(items: seq<Ast>, tail: seq<byte>)
    ensures Encode(Sep(items)) + tail == Word(SEP_TYPE) + (Word(|items|) + (EncodeAll(items) + tail))
  {
    assert Encode(Sep(items)) == Word(SEP_TYPE) + (Word(|items|) + EncodeAll(items));
  }

  lemma {:induction false} DispatchSep(x: seq<byte>)
    ensures var rd, (n, r2) := Reader(Word(SEP_TYPE) + x, false), TakeWord(Reader(x, false));
      !r2.error ==>
        var (items, r3) := UnmarshalItems(r2, n, []);
        Unmarshal(rd) == (if items.None? then Empty else Sep(items.value), r3)
  {
    TakeWordBack(SEP_TYPE, x);
  }

  lemma {:induction false} SepParsesBack(items: seq<Ast>, tail: seq<byte>)
    requires |items| <= UINT_MAX && ItemsParseBack(items, [], tail)
    ensures ParsesBack(Sep(items), tail)
  {
    var y := EncodeAll(items) + tail;
    SepBytes(items, tail);
    TakeWordBack(|items|, y);
    DispatchSep(Word(|items|) + y);
    assert [] + KeptAll(items) == KeptAll(items);
  }

  /**
    Parsing the bytes of any printable tree, whatever follows them: a tree without empty values inside comes back as
    it is but for the names that do not travel, and leaves exactly what followed; any other fails.
   */
  lemma {:induction false} UnmarshalBack(t: Ast, tail: seq<byte>)
    requires Printable(t) && |Encode(t)| <= 0x7FFF_FFFF
    ensures ParsesBack(t, tail)
  {
    match t
    case Array(elem, adtName, items) =>
      UnmarshalItemsBack(items, [], tail);
      ArrayParsesBack(elem, adtName, items, tail);
    case Struct(name, fields) =>
      UnmarshalFieldsBack(fields, [], tail);
      StructParsesBack(name, fields, tail);
    case Sep(items) =>
      UnmarshalItemsBack(items, [], tail);
      SepParsesBack(items, tail);
    case _ => LeafParsesBack(t, tail);
  }

  lemma {:induction false} UnmarshalItemsBack(items: seq<Ast>, read: seq<Ast>, tail: seq<byte>)
    requires AllPrintable(items) && |EncodeAll(items)| <= 0x7FFF_FFFF
    ensures ItemsParseBack(items, read, tail)
  {
    if items == [] {
      assert EncodeAll(items) + tail == tail && read + KeptAll(items) == read;
    } else {
      var rest := EncodeAll(items[1..]) + tail;
      assert EncodeAll(items) + tail == Encode(items[0]) + rest;
      UnmarshalBack(items[0], rest);
      var k := Kept(items[0]);
      UnmarshalItemsBack(items[1..], read + [k], tail);
      assert read + KeptAll(items) == read + [k] + KeptAll(items[1..]);
    }
  }

  lemma {:induction false} FieldStep(f: Field, more: seq<Field>, n: nat, read: seq<Field>, rest: seq<byte>)
    requires |f.key| <= 0x7FFF_FFFF && ParsesBack(f.value, rest) && Ordered(read + ([f] + more))
    ensures var r := UnmarshalFields(Reader(Block(f.key) + (Encode(f.value) + rest), false), n + 1, read);
      if f.value != Empty && Solid(f.value) then
        r == UnmarshalFields(Reader(rest, false), n, read + [Field(f.key, Kept(f.value))])
      else r.0 == None
  {
    TakeBlockBack(f.key, Encode(f.value) + rest);
    var all := read + ([f] + more);
    forall i | 0 <= i < |read| ensures StrLess(read[i].key, f.key) {
      assert all[i] == read[i] && all[|read|] == f;
    }
    PutLast(read, f.key, Kept(f.value));
  }

  lemma {:induction false} FieldBytes(fields: seq<Field>, tail: seq<byte>)
    requires fields != []
    ensures EncodeFields(fields) + tail
         == Block(fields[0].key) + (Encode(fields[0].value) + (EncodeFields(fields[1..]) + tail))
  {}

  lemma {:induction false} FieldsCompose(fields: seq<Field>, read: seq<Field>, tail: seq<byte>, f: Field,
                                         more: seq<Field>, k: Field, r: (Option<seq<Field>>, Reader))
    requires fields != [] && f == fields[0] && more == fields[1..] && k == Field(f.key, Kept(f.value))
    requires if f.value != Empty && Solid(f.value) then FieldsComeBack(more, read + [k], tail, r) else r.0 == None
    ensures FieldsComeBack(fields, read, tail, r)
  {
    assert read + KeptFields(fields) == read + [k] + KeptFields(more);
  }

  lemma {:induction false} UnmarshalFieldsBack(fields: seq<Field>, read: seq<Field>, tail: seq<byte>)
    requires FieldsPrintable(fields) && Ordered(read + fields) && |EncodeFields(fields)| <= 0x7FFF_FFFF
    ensures FieldsParseBack(fields, read, tail)
  {
    if fields == [] {
      assert EncodeFields(fields) + tail == tail && read + KeptFields(fields) == read;
    } else {
      var f, more := fields[0], fields[1..];
      var rest := EncodeFields(more) + tail;
      FieldBytes(fields, tail);
      UnmarshalBack(f.value, rest);
      assert fields == [f] + more;
      FieldStep(f, more, |more|, read, rest);
      var k := Field(f.key, Kept(f.value));
      OrderedByKey(read + fields, read + [k] + more);
      UnmarshalFieldsBack(more, read + [k], tail);
      FieldsCompose(fields, read, tail, f, more, k,
                    UnmarshalFields(Reader(EncodeFields(fields) + tail, false), |fields|, read));
    }
  }

  lemma {:induction false} OrderedByKey(a: seq<Field>, b: seq<Field>)
    requires Ordered(a) && |a| == |b| && forall i :: 0 <= i < |a| ==> a[i].key == b[i].key
    ensures Ordered(b)
  {}

  /**
    The round trip is exact for exactly the trees without empty values inside and with names only where they travel.
   */
  lemma {:induction false} RoundTripIff(t: Ast, tail: seq<byte>)
    requires Printable(t) && |Encode(t)| <= 0x7FFF_FFFF
    ensures Unmarshal(Reader(Encode(t) + tail, false)) == (t, Reader(tail, false)) <==> Solid(t) && ProperNames(t)
  {
    UnmarshalBack(t, tail);
    KeptIsSameIff(t);
  }

  // ---------------------------------------------------------------- arbitrary bytes

  function Nodes(t: Ast): (n: nat)
    ensures n >= 1
  {
    match t
    case Array(_, _, items) => 1 + NodesOf(items)
    case Struct(_, fields) => 1 + FieldNodes(fields)
    case Sep(items) => 1 + NodesOf(items)
    case _ => 1
  }

  function NodesOf(items: seq<Ast>): nat {
    if items == [] then 0 else NodesOf(items[..|items| - 1]) + Nodes(items[|items| - 1])
  }

  function FieldNodes(fields: seq<Field>): nat {
    if fields == [] then 0 else Nodes(fields[0].value) + FieldNodes(fields[1..])
  }

  lemma {:induction false} PutNodes(fields: seq<Field>, key: Str, value: Ast)
    ensures FieldNodes(Put(fields, key, value)) <= FieldNodes(fields) + Nodes(value)
  {
    if fields == [] || StrLess(key, fields[0].key) {
      assert ([Field(key, value)] + fields)[1..] == fields;
    } else if key == fields[0].key {
      assert ([Field(key, value)] + fields[1..])[1..] == fields[1..];
    } else {
      PutNodes(fields[1..], key, value);
      assert ([fields[0]] + Put(fields[1..], key, value))[1..] == Put(fields[1..], key, value);
    }
  }

  /** Whatever the bytes, the tree that comes out has at most one node for every four bytes read. */
  lemma {:induction false} NodesPaidFor(rd: Reader)
    ensures var (t, next) := Unmarshal(rd); t != Empty ==> 4 * Nodes(t) <= |rd.rest| - |next.rest|
    decreases |rd.rest|, 1, 0
  {
    var (code, r1) := TakeWord(rd);
    if !r1.error {
      if code == ARRAY_TYPE {
        ArrayPaidFor(r1);
      } else if code == VAR_ADT_TYPE {
        StructPaidFor(r1);
      } else if code == SEP_TYPE {
        ListPaidFor(r1);
      }
    }
  }

  lemma {:induction false} ListPaidFor(rd: Reader)
    requires !rd.error
    ensures var (n, r1) := TakeWord(rd);
      !r1.error ==>
        var (items, next) := UnmarshalItems(r1, n, []);
        items.Some? ==> 4 * Nodes(Sep(items.value)) <= 4 + |rd.rest| - |next.rest|
    decreases |rd.rest|, 3, 0
  {
    var (n, r1) := TakeWord(rd);
    if !r1.error { ItemsPaidFor(r1, n, []); }
  }

  lemma {:induction false} ArrayPaidFor(rd: Reader)
    requires !rd.error
    ensures var (t, next) := UnmarshalArray(rd); t != Empty ==> 4 * Nodes(t) <= 4 + |rd.rest| - |next.rest|
    decreases |rd.rest|, 3, 0
  {
    var (_, r1) := TakeWord(rd);
    var (_, r2) := TakeBlock(r1);
    var (n, r3) := TakeWord(r2);
    if !r3.error { ItemsPaidFor(r3, n, []); }
  }

  lemma {:induction false} StructPaidFor(rd: Reader)
    requires !rd.error
    ensures var (t, next) := UnmarshalStruct(rd); t != Empty ==> 4 * Nodes(t) <= 4 + |rd.rest| - |next.rest|
    decreases |rd.rest|, 3, 0
  {
    var (_, r1) := TakeBlock(rd);
    var (n, r2) := TakeWord(r1);
    if !r2.error { FieldsPaidFor(r2, n, []); }
  }

  lemma {:induction false} ItemsPaidFor(rd: Reader, n: nat, read: seq<Ast>)
    requires !rd.error
    ensures var (items, next) := UnmarshalItems(rd, n, read);
      items.Some? ==> 4 * NodesOf(items.value) <= 4 * NodesOf(read) + |rd.rest| - |next.rest|
    decreases |rd.rest|, 2, n
  {
    if n > 0 {
      NodesPaidFor(rd);
      var (item, r1) := Unmarshal(rd);
      if item != Empty {
        ItemsPaidFor(r1, n - 1, read + [item]);
        assert (read + [item])[..|read|] == read;
      }
    }
  }

  lemma {:induction false} FieldPaidFor(rd: Reader)
    ensures var (f, next) := UnmarshalField(rd); f.Some? ==> 4 * Nodes(f.value.value) <= |rd.rest| - |next.rest|
    decreases |rd.rest|, 1, 0
  {
    var (key, r1) := TakeBlock(rd);
    if !r1.error { NodesPaidFor(r1); }
  }

  lemma {:induction false} FieldsPaidFor(rd: Reader, n: nat, read: seq<Field>)
    requires !rd.error
    ensures var (fields, next) := UnmarshalFields(rd, n, read);
      fields.Some? ==> 4 * FieldNodes(fields.value) <= 4 * FieldNodes(read) + |rd.rest| - |next.rest|
    decreases |rd.rest|, 2, n
  {
    if n > 0 {
      FieldPaidFor(rd);
      var (f, r1) := UnmarshalField(rd);
      if f.Some? {
        PutNodes(read, f.value.key, f.value.value);
        FieldsPaidFor(r1, n - 1, Put(read, f.value.key, f.value.value));
      }
    }
  }
}
