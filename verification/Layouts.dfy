/** Which byte is where: the formats stated by offset, independently of the functions that print and parse them. */
module Layouts {
  import opened Base
  import opened Averages
  import opened Wire
  import opened AstWire
  import opened Packets
  import opened ClosestModel
  import opened Rendezvous
  import opened Checksum

  // ---------------------------------------------------------------- numbers

  /** The number that n bytes from offset i spell. */
  function N(b: seq<byte>, i: nat, n: nat): nat
    requires i + n <= |b|
  {
    FromBigEndian(b[i..i + n])
  }

  /** The most significant byte first. */
  lemma FourBytes(b: seq<byte>, i: nat)
    requires i + 4 <= |b|
    ensures N(b, i, 4) ==
      0x100_0000 * (b[i] as int) + 0x1_0000 * (b[i + 1] as int) + 0x100 * (b[i + 2] as int) + b[i + 3]
  {
    var w := b[i..i + 4];
    assert w[..3][..2][..1] == [w[0]] && w[..3][..2] == [w[0], w[1]] && w[..3] == [w[0], w[1], w[2]];
    assert FromBigEndian([w[0]]) == w[0];
    assert FromBigEndian(w[..3][..2]) == 0x100 * (w[0] as int) + w[1];
    assert FromBigEndian(w[..3]) == 0x100 * FromBigEndian(w[..3][..2]) + w[2];
  }

  lemma TwoBytes(b: seq<byte>, i: nat)
    requires i + 2 <= |b|
    ensures N(b, i, 2) == 0x100 * (b[i] as int) + b[i + 1]
  {
    var w := b[i..i + 2];
    assert w[..1] == [w[0]];
    assert FromBigEndian([w[0]]) == w[0];
  }

  lemma {:induction false} Joined(a: seq<byte>, b: seq<byte>)
    ensures FromBigEndian(a + b) == FromBigEndian(a) * Pow256(|b|) + FromBigEndian(b)
  {
    if b == [] {
      assert a + b == a;
    } else {
      var n := |b| - 1;
      assert (a + b)[..|a + b| - 1] == a + b[..n];
      Joined(a, b[..n]);
      assert Pow256(|b|) == 256 * Pow256(n);
      Spread(FromBigEndian(a), Pow256(n), FromBigEndian(b[..n]), b[n]);
    }
  }

  lemma Spread(x: nat, p: nat, y: nat, z: nat)
    ensures 256 * (x * p + y) + z == x * (256 * p) + (256 * y + z)
  {}

  /** What follows offset d. */
  lemma Further(b: seq<byte>, d: nat, rest: seq<byte>, i: nat, n: nat)
    requires d <= |b| && b[d..] == rest && i + n <= |rest|
    ensures N(b, d + i, n) == N(rest, i, n) && b[d + i..] == rest[i..] && b[d + i..d + i + n] == rest[i..i + n]
  {
    assert b[d + i..d + i + n] == rest[i..i + n];
  }

  lemma WordThen(x: uint32, rest: seq<byte>)
    ensures var b := Word(x) + rest; N(b, 0, 4) == x && b[4..] == rest
  {
    assert (Word(x) + rest)[0..4] == Word(x);
  }

  /** The length of a string, its characters, and what follows. */
  lemma BlockThen(s: Str, rest: seq<byte>)
    requires |s| < TWO_TO_32
    ensures var b := Block(s) + rest; N(b, 0, 4) == |s| && b[4..4 + |s|] == s && b[4 + |s|..] == rest
  {
    WordThen(|s|, s + rest);
    assert Block(s) + rest == Word(|s|) + (s + rest);
    Further(Block(s) + rest, 4, s + rest, 0, |s|);
    Further(Block(s) + rest, 4, s + rest, |s|, 0);
    assert (s + rest)[0..|s|] == s && (s + rest)[|s|..] == rest;
  }

  lemma InFront(a: seq<byte>, b: seq<byte>)
    ensures N(a + b, 0, |a|) == FromBigEndian(a)
  {
    assert (a + b)[0..|a|] == a;
  }

  // ---------------------------------------------------------------- doubles and integers

  /** The eight bytes of a double spell its sign bit, its exponent and its fraction, in that order. */
  lemma DoubleIsSpelled(d: Double64)
    ensures FromBigEndian(DoubleBytes(d)) ==
      (if d.negative then 0x8000_0000_0000_0000 else 0)
      + d.exponent * 0x10_0000_0000_0000 + d.high * 0x1_0000_0000 + d.low
  {
    var first := (if d.negative then 0x8000_0000 else 0) + d.exponent * 0x10_0000 + d.high;
    SplitFirstWord(d.negative, d.exponent, d.high, first);
    TwoWords(first, d.low);
    Places(if d.negative then 1 else 0, d.exponent, d.high, first);
  }

  lemma TwoWords(x: uint32, y: uint32)
    ensures FromBigEndian(Word(x) + Word(y)) == 0x1_0000_0000 * x + y
  {
    WordSizes();
    Joined(Word(x), Word(y));
  }

  lemma Places(sign: int, exponent: int, high: int, first: int)
    requires first == 0x8000_0000 * sign + exponent * 0x10_0000 + high
    ensures 0x1_0000_0000 * first
         == 0x8000_0000_0000_0000 * sign + exponent * 0x10_0000_0000_0000 + high * 0x1_0000_0000
  {}

  /** An integer: code 1, then its two's complement. */
  lemma IntIsSpelled(i: int32)
    ensures var b := Encode(Int(i));
      |b| == 8 && N(b, 0, 4) == 1 && N(b, 4, 4) == if i < 0 then i + 0x1_0000_0000 else i
  {
    var b := Encode(Int(i));
    InFront(Word(INT_TYPE), Word(Unsigned(i)));
    assert b[4..8] == Word(Unsigned(i));
  }

  /** A string: code 5, its length, its characters. */
  lemma TextIsSpelled(s: Str)
    requires |s| < TWO_TO_32
    ensures var b := Encode(Text(s)); |b| == 8 + |s| && N(b, 0, 4) == 5 && N(b, 4, 4) == |s| && b[8..] == s
  {
    var b := Encode(Text(s));
    assert b[0..4] == Word(STRING_TYPE) && b[4..8] == Word(|s|);
  }

  // ---------------------------------------------------------------- values with parts

  /** Items follow one another without anything in between. */
  lemma {:induction false} ItemsFollow(p: seq<Ast>, q: seq<Ast>)
    ensures EncodeAll(p + q) == EncodeAll(p) + EncodeAll(q)
    decreases |p|
  {
    if p == [] {
      assert p + q == q;
    } else {
      ItemsFollow(p[1..], q);
      assert p == [p[0]] + p[1..] && p + q == [p[0]] + (p[1..] + q);
      FirstItem(p[0], p[1..]);
      FirstItem(p[0], p[1..] + q);
      Bracketed(Encode(p[0]), EncodeAll(p[1..]), EncodeAll(q));
    }
  }

  lemma FirstItem(t: Ast, rest: seq<Ast>)
    ensures EncodeAll([t] + rest) == Encode(t) + EncodeAll(rest)
  {
    assert ([t] + rest)[1..] == rest;
  }

  lemma Bracketed(a: seq<byte>, b: seq<byte>, c: seq<byte>)
    ensures a + (b + c) == (a + b) + c
  {}

  lemma OneItem(t: Ast)
    ensures EncodeAll([t]) == Encode(t)
  {
    assert EncodeAll([t]) == Encode(t) + EncodeAll([]);
  }

  /** So do fields: the length of the name, the name, the value. */
  lemma {:induction false} FieldsFollow(p: seq<Field>, q: seq<Field>)
    ensures EncodeFields(p + q) == EncodeFields(p) + EncodeFields(q)
    decreases |p|
  {
    if p == [] {
      assert p + q == q;
    } else {
      assert (p + q)[1..] == p[1..] + q;
      FieldsFollow(p[1..], q);
    }
  }

  lemma FieldIsSpelled(key: Str, value: Ast)
    requires |key| < TWO_TO_32
    ensures var b := EncodeFields([Field(key, value)]);
      |b| >= 4 + |key| && N(b, 0, 4) == |key| && b[4..4 + |key|] == key && b[4 + |key|..] == Encode(value)
  {
    var b := EncodeFields([Field(key, value)]);
    assert EncodeFields([]) == [];
    assert b == Word(|key|) + key + Encode(value);
    assert b[0..4] == Word(|key|);
  }

  /** At offset d: the length of a name, the name, the number of parts, and the parts up to the end. */
  ghost predicate NamedAt(b: seq<byte>, d: nat, name: Str, n: nat, parts: seq<byte>) {
    && d + 8 + |name| <= |b| && N(b, d, 4) == |name| && b[d + 4..d + 4 + |name|] == name
    && N(b, d + 4 + |name|, 4) == n && b[d + 8 + |name|..] == parts
  }

  lemma NamedParts(name: Str, n: uint32, parts: seq<byte>)
    requires |name| < TWO_TO_32
    ensures NamedAt(Block(name) + (Word(n) + parts), 0, name, n, parts)
  {
    var rest := Word(n) + parts;
    BlockThen(name, rest);
    WordThen(n, parts);
    Further(Block(name) + rest, 4 + |name|, rest, 0, 4);
    Further(Block(name) + rest, 4 + |name|, rest, 4, 0);
  }

  lemma NamedFurther(b: seq<byte>, d: nat, rest: seq<byte>, name: Str, n: nat, parts: seq<byte>)
    requires d <= |b| && b[d..] == rest && NamedAt(rest, 0, name, n, parts)
    ensures NamedAt(b, d, name, n, parts)
  {
    Further(b, d, rest, 0, 4);
    Further(b, d, rest, 4, |name|);
    Further(b, d, rest, 4 + |name|, 4);
    Further(b, d, rest, 8 + |name|, 0);
  }

  /**
    An array: code 27, the element type, the length of the struct name (0 for other arrays), the name, the number of
    items, and the items.
   */
  lemma ArrayIsSpelled(elem: uint32, adtName: Option<Str>, items: seq<Ast>, name: Str)
    requires name == if elem == 23 && adtName.Some? then adtName.value else []
    requires |items| < TWO_TO_32 && |name| < TWO_TO_32
    ensures var b := Encode(Array(elem, adtName, items));
      |b| >= 8 && N(b, 0, 4) == 27 && N(b, 4, 4) == elem && NamedAt(b, 8, name, |items|, EncodeAll(items))
  {
    NameIsBlock(elem, adtName, name);
    var named := Block(name) + (Word(|items|) + EncodeAll(items));
    NamedParts(name, |items|, EncodeAll(items));
    TwoWordsThen(ARRAY_TYPE, elem, named);
    NamedFurther(Word(ARRAY_TYPE) + (Word(elem) + named), 8, named, name, |items|, EncodeAll(items));
  }

  lemma NameIsBlock(elem: uint32, adtName: Option<Str>, name: Str)
    requires name == if elem == 23 && adtName.Some? then adtName.value else []
    ensures NameBlock(elem, adtName) == Block(name)
  {
    assert Block([]) == Word(0);
  }

  lemma TwoWordsThen(x: uint32, y: uint32, rest: seq<byte>)
    ensures var b := Word(x) + (Word(y) + rest); N(b, 0, 4) == x && N(b, 4, 4) == y && b[8..] == rest
  {
    var more := Word(y) + rest;
    WordThen(x, more);
    WordThen(y, rest);
    Further(Word(x) + more, 4, more, 0, 4);
    Further(Word(x) + more, 4, more, 4, 0);
  }

  /** A struct: code 24, the length of its name, the name, the number of fields, and the fields. */
  lemma StructIsSpelled(name: Str, fields: seq<Field>)
    requires |fields| < TWO_TO_32 && |name| < TWO_TO_32
    ensures var b := Encode(Struct(name, fields));
      N(b, 0, 4) == 24 && NamedAt(b, 4, name, |fields|, EncodeFields(fields))
  {
    StructBytes(Struct(name, fields), EncodeFields(fields));
    WordThenNamed(VAR_ADT_TYPE, name, |fields|, EncodeFields(fields));
  }

  lemma StructBytes(t: Ast, parts: seq<byte>)
    requires t.Struct? && parts == EncodeFields(t.fields)
    ensures Encode(t) == Word(VAR_ADT_TYPE) + (Block(t.name) + (Word(|t.fields|) + parts))
  {}

  lemma WordThenNamed(x: uint32, name: Str, n: uint32, parts: seq<byte>)
    requires |name| < TWO_TO_32
    ensures var b := Word(x) + (Block(name) + (Word(n) + parts)); N(b, 0, 4) == x && NamedAt(b, 4, name, n, parts)
  {
    var named := Block(name) + (Word(n) + parts);
    WordThen(x, named);
    NamedParts(name, n, parts);
    NamedFurther(Word(x) + named, 4, named, name, n, parts);
  }

  /** A list: code 7, the number of items, the items; and nothing at all: code 0. */
  lemma ListIsSpelled(items: seq<Ast>)
    requires |items| < TWO_TO_32
    ensures var b := Encode(Sep(items));
      |b| >= 8 && N(b, 0, 4) == 7 && N(b, 4, 4) == |items| && b[8..] == EncodeAll(items)
    ensures Encode(Ast.Empty) == [0, 0, 0, 0]
  {
    TwoWordsThen(SEP_TYPE, |items|, EncodeAll(items));
    FourBytes(Encode(Ast.Empty), 0);
    assert Encode(Ast.Empty)[0..4] == Word(0);
  }

  // ---------------------------------------------------------------- packets

  /** Every packet: its type, the query id in two words, the magic number. */
  lemma HeaderIsSpelled(kind: byte, id: (uint32, uint32), magic: uint32, tail: seq<byte>)
    ensures var b := PutHeader(kind, id, magic, tail);
      && b[0] == kind && N(b, 1, 4) == id.0 && N(b, 5, 4) == id.1 && N(b, 9, 4) == magic && b[13..] == tail
  {
    var b := PutHeader(kind, id, magic, tail);
    assert b == [kind] + Word(id.0) + Word(id.1) + Word(magic) + tail;
    assert b[1..5] == Word(id.0) && b[5..9] == Word(id.1) && b[9..13] == Word(magic);
  }

  lemma NodeIsSpelled(n: NodeIdent, tail: seq<byte>)
    ensures var b := PutNode(n, tail); N(b, 0, 4) == n.addr && N(b, 4, 2) == n.port && b[6..] == tail
  {
    var b := PutNode(n, tail);
    assert b == Word(n.addr) + Half(n.port) + tail;
    assert b[0..4] == Word(n.addr) && b[4..6] == Half(n.port);
  }

  /** b reads a node address at offset i. */
  ghost predicate NodeAt(b: seq<byte>, i: nat, n: NodeIdent) {
    i + 6 <= |b| && N(b, i, 4) == n.addr && N(b, i + 4, 2) == n.port
  }

  /** A node address and a latency at offset i. */
  ghost predicate EntryAt(b: seq<byte>, i: nat, n: NodeIdent, latencyUS: uint32) {
    i + 10 <= |b| && NodeAt(b, i, n) && N(b, i + 6, 4) == latencyUS
  }

  lemma {:induction false} EntriesAreSpelled(m: Latencies, keys: seq<NodeIdent>, tail: seq<byte>, i: nat)
    requires (forall k :: k in keys ==> k in m) && i < |keys|
    ensures EntryAt(PutEntries(m, keys, tail), 10 * i, keys[i], m[keys[i]])
    decreases i
  {
    var rest := PutEntries(m, keys[1..], tail);
    FirstEntry(keys[0], m[keys[0]], rest);
    if i > 0 {
      EntriesAreSpelled(m, keys[1..], tail, i - 1);
      EntryFurther(PutEntries(m, keys, tail), 10, rest, 10 * (i - 1), keys[i], m[keys[i]]);
    }
  }

  lemma FirstEntry(n: NodeIdent, latencyUS: uint32, rest: seq<byte>)
    ensures var b := PutNode(n, Word(latencyUS) + rest); EntryAt(b, 0, n, latencyUS) && b[10..] == rest
  {
    var word := Word(latencyUS) + rest;
    NodeIsSpelled(n, word);
    WordThen(latencyUS, rest);
    Further(PutNode(n, word), 6, word, 0, 4);
    Further(PutNode(n, word), 6, word, 4, 0);
  }

  lemma EntryFurther(b: seq<byte>, d: nat, rest: seq<byte>, i: nat, n: NodeIdent, latencyUS: uint32)
    requires d <= |b| && b[d..] == rest && EntryAt(rest, i, n, latencyUS)
    ensures EntryAt(b, d + i, n, latencyUS)
  {
    Further(b, d, rest, i, 4);
    Further(b, d, rest, i + 4, 2);
    Further(b, d, rest, i + 6, 4);
  }

  /**
    A reply of n latencies: type 9, id, magic number, the node at offset 13, n at offset 19, and from offset 23 on, in
    the order of the nodes, ten bytes for each: its address and its latency.
   */
  lemma ResponseIsSpelled(id: (uint32, uint32), magic: uint32, node: NodeIdent, m: Latencies, i: nat)
    requires |m| <= UINT_MAX && i < |m|
    ensures var b, keys := PutResponse(id, magic, node, m), Ascending(m.Keys);
      && |b| == 23 + 10 * |m| && b[0] == 9 && N(b, 1, 4) == id.0 && N(b, 5, 4) == id.1 && N(b, 9, 4) == magic
      && NodeAt(b, 13, node) && N(b, 19, 4) == |m| && EntryAt(b, 23 + 10 * i, keys[i], m[keys[i]])
  {
    var keys := Ascending(m.Keys);
    var entries := PutEntries(m, keys, []);
    NodeAndCount(RET_RESPONSE, id, magic, node, |m|, entries);
    EntriesAreSpelled(m, keys, [], i);
    EntryFurther(PutResponse(id, magic, node, m), 23, entries, 10 * i, keys[i], m[keys[i]]);
  }

  lemma NodeAndCount(kind: byte, id: (uint32, uint32), magic: uint32, node: NodeIdent, n: uint32, rest: seq<byte>)
    ensures var b := PutHeader(kind, id, magic, PutNode(node, Word(n) + rest));
      && b[0] == kind && N(b, 1, 4) == id.0 && N(b, 5, 4) == id.1 && N(b, 9, 4) == magic
      && NodeAt(b, 13, node) && N(b, 19, 4) == n && b[23..] == rest
  {
    var body := Word(n) + rest;
    var b := PutHeader(kind, id, magic, PutNode(node, body));
    HeaderIsSpelled(kind, id, magic, PutNode(node, body));
    NodeIsSpelled(node, body);
    NodeBehind(b, 13, PutNode(node, body), node);
    WordThen(n, rest);
    Further(b, 13, PutNode(node, body), 6, 0);
    Further(b, 19, body, 0, 4);
    Further(b, 19, body, 4, 0);
  }

  lemma NodeBehind(b: seq<byte>, d: nat, rest: seq<byte>, n: NodeIdent)
    requires d <= |b| && b[d..] == rest && NodeAt(rest, 0, n)
    ensures NodeAt(b, d, n)
  {
    Further(b, d, rest, 0, 4);
    Further(b, d, rest, 4, 2);
  }

  /**
    A PULL frame: type 12, id 0, magic number, the sender at offset 13, the payload's length at offset 19, the payload
    from offset 23 on.
   */
  lemma FrameIsSpelled(m: Message, magic: uint32)
    requires |m.payload| <= UINT_MAX
    ensures var b := Frame(m, magic);
      && |b| == 23 + |m.payload| && b[0] == 12 && N(b, 1, 4) == 0 && N(b, 5, 4) == 0 && N(b, 9, 4) == magic
      && NodeAt(b, 13, m.src) && N(b, 19, 4) == |m.payload| && b[23..] == m.payload
  {
    NodeAndCount(PULL, (0, 0), magic, m.src, |m.payload|, m.payload);
  }

  /** A PUSH packet: type 11, id 0, magic number, the destination at offset 13, the payload from offset 19 on. */
  lemma PushIsSpelled(dest: NodeIdent, payload: seq<byte>, magic: uint32)
    ensures var b := PushBytes(dest, payload, magic);
      && |b| == 19 + |payload| && b[0] == 11 && N(b, 1, 4) == 0 && N(b, 5, 4) == 0 && N(b, 9, 4) == magic
      && NodeAt(b, 13, dest) && b[19..] == payload
  {
    var b := PushBytes(dest, payload, magic);
    HeaderIsSpelled(PUSH, (0, 0), magic, PutNode(dest, payload));
    NodeIsSpelled(dest, payload);
    NodeBehind(b, 13, PutNode(dest, payload), dest);
    Further(b, 13, PutNode(dest, payload), 6, 0);
  }

  // ---------------------------------------------------------------- checksums

  /** The message as one big-endian number, an odd byte padded with a zero byte. */
  function Padded(b: seq<byte>): seq<byte> {
    if |b| % 2 == 0 then b else b + [0]
  }

  /** Modulo 65535 a sum of words is the whole number: 65536 is 1. */
  lemma {:induction false} SumIsNumber(b: seq<byte>)
    ensures WordSum(false, b) % 0xFFFF == FromBigEndian(Padded(b)) % 0xFFFF
    decreases |b|
  {
    if b != [] {
      SumIsNumber(Rest(b));
      var k := FirstTwo(b);
      Reduced(Word16(false, b), FromBigEndian(Padded(Rest(b))), WordSum(false, Rest(b)), k, FromBigEndian(Padded(b)));
    }
  }

  /** The first two bytes count as much as their word, but for a multiple of 65535. */
  lemma FirstTwo(b: seq<byte>) returns (k: nat)
    requires b != []
    ensures FromBigEndian(Padded(b)) == Word16(false, b) + FromBigEndian(Padded(Rest(b))) + k * 0xFFFF
  {
    var front := [b[0], if |b| == 1 then 0 else b[1]];
    PaddedIs(b, front);
    k := FrontCounts(front, Padded(Rest(b)));
  }

  lemma FrontCounts(front: seq<byte>, rest: seq<byte>) returns (k: nat)
    requires |front| == 2 && |rest| % 2 == 0
    ensures FromBigEndian(front + rest) == Load(false, front[0], front[1]) + FromBigEndian(rest) + k * 0xFFFF
  {
    Joined(front, rest);
    Pair(front);
    var j := PowerIsOne(|rest|);
    var x := FromBigEndian(front);
    k := x * j;
    TimesPower(x, Pow256(|rest|), j);
  }

  lemma TimesPower(x: nat, p: nat, j: nat)
    requires p == 1 + j * 0xFFFF
    ensures x * p == x + (x * j) * 0xFFFF
  {}

  lemma PaddedIs(b: seq<byte>, front: seq<byte>)
    requires b != [] && front == [b[0], if |b| == 1 then 0 else b[1]]
    ensures Padded(b) == front + Padded(Rest(b))
  {
    if |b| % 2 == 1 && |b| > 1 { assert b + [0] == front + (b[2..] + [0]); }
  }

  lemma Pair(front: seq<byte>)
    requires |front| == 2
    ensures FromBigEndian(front) == Load(false, front[0], front[1])
  {
    TwoBytes(front, 0);
    assert front[0..2] == front;
  }

  lemma {:induction false} PowerIsOne(n: nat) returns (k: nat)
    requires n % 2 == 0
    ensures Pow256(n) == 1 + k * 0xFFFF
  {
    k := 0;
    if n > 0 {
      var j := PowerIsOne(n - 2);
      assert Pow256(n) == 256 * Pow256(n - 1) && Pow256(n - 1) == 256 * Pow256(n - 2);
      k := 0x1_0000 * j + 1;
    }
  }

  lemma Reduced(x: nat, y: nat, z: nat, k: nat, n: nat)
    requires n == x + y + k * 0xFFFF && y % 0xFFFF == z % 0xFFFF
    ensures (x + z) % 0xFFFF == n % 0xFFFF
  {
    var q, r := y / 0xFFFF, z / 0xFFFF;
    MultipleApart(x + z, n, k + q - r);
  }

  /** What the checksum of a message is: the negative of the message, as a number modulo 65535. */
  lemma ChecksumIsNegative(b: seq<byte>)
    ensures (Checksum.Complement(OnesSum(false, b, 0)) + FromBigEndian(Padded(b))) % 0xFFFF == 0
  {
    assert Stands(0, 0);
    OnesSumStands(false, b, 0, 0);
    SumIsNumber(b);
    var s, n := OnesSum(false, b, 0), FromBigEndian(Padded(b));
    assert s % 0xFFFF == n % 0xFFFF;
    var q, p := n / 0xFFFF, s / 0xFFFF;
    MultipleApart(0, Checksum.Complement(s) + n, 1 + q - p);
  }
}
