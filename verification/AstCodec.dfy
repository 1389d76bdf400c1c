/** marshal_ast and unmarshal_ast as they run: recursion with loops over a packet buffer and a buffer reader. */
module AstCodec {
  import opened Base
  import opened Wire
  import opened AstWire

  // ---------------------------------------------------------------- printing

  /** A size and that many bytes. A size beyond 32 bits belongs to a block that cannot fit either. */
  method AppendBlock(pkt: RealPacket, s: Str)
    requires pkt.Valid()
    modifies pkt, pkt.packet
    ensures pkt.Valid() && Wrote(old(pkt.State()), pkt.State(), Block(s))
  {
    ghost var w0 := pkt.State();
    var b := ToNetwork(|s| % TWO_TO_32);
    WordIsUnique(|s|, b);
    pkt.AppendStr(b);
    ghost var w1 := pkt.State();
    pkt.AppendStr(s);
    WroteMore(w0, w1, pkt.State(), Word(|s|), s);
  }

  method AppendName(pkt: RealPacket, elem: uint32, adtName: Option<Str>)
    requires pkt.Valid() && (elem == ADT_TYPE ==> adtName.Some?)
    modifies pkt, pkt.packet
    ensures pkt.Valid() && Wrote(old(pkt.State()), pkt.State(), NameBlock(elem, adtName))
  {
    if elem == ADT_TYPE {
      AppendBlock(pkt, adtName.value);
    } else {
      AppendWord(pkt, 0);
    }
  }

  /** Eight bytes as xdr_double writes them. */
  method AppendDouble(pkt: RealPacket, d: Double64)
    requires pkt.Valid()
    modifies pkt, pkt.packet
    ensures pkt.Valid() && Wrote(old(pkt.State()), pkt.State(), DoubleBytes(d))
  {
    var first := (if d.negative then 0x8000_0000 else 0) + d.exponent * 0x10_0000 + d.high;
    SplitFirstWord(d.negative, d.exponent, d.high, first);
    var b0 := ToNetwork(first);
    var b1 := ToNetwork(d.low);
    pkt.AppendStr(b0 + b1);
  }

  /** marshal_ast: 0 when the whole tree went into the packet, -1 when it did not fit. */
  method MarshalAst(t: Ast, pkt: RealPacket) returns (ret: int)
    requires pkt.Valid() && Printable(t)
    modifies pkt, pkt.packet
    ensures pkt.Valid() && Wrote(old(pkt.State()), pkt.State(), Encode(t))
    ensures ret == if pkt.complete then 0 else -1
    decreases t
  {
    ghost var w0 := pkt.State();
    AppendWord(pkt, TypeCode(t));
    ghost var w1 := pkt.State();
    match t {
      case Empty =>
      case Int(i) =>
        AppendWord(pkt, Unsigned(i));
        WroteMore(w0, w1, pkt.State(), Word(INT_TYPE), Word(Unsigned(i)));
      case Double(d) =>
        AppendDouble(pkt, d);
        WroteMore(w0, w1, pkt.State(), Word(DOUBLE_TYPE), DoubleBytes(d));
      case Text(s) =>
        AppendBlock(pkt, s);
        WroteMore(w0, w1, pkt.State(), Word(STRING_TYPE), Block(s));
      case Array(elem, adtName, items) =>
        AppendWord(pkt, elem);
        ghost var w2 := pkt.State();
        AppendName(pkt, elem, adtName);
        ghost var w3 := pkt.State();
        MarshalItems(items, pkt);
        ghost var tail := Word(|items|) + EncodeAll(items);
        WroteMore(w2, w3, pkt.State(), NameBlock(elem, adtName), tail);
        WroteMore(w1, w2, pkt.State(), Word(elem), NameBlock(elem, adtName) + tail);
        WroteMore(w0, w1, pkt.State(), Word(ARRAY_TYPE), Word(elem) + (NameBlock(elem, adtName) + tail));
      case Struct(name, fields) =>
        AppendBlock(pkt, name);
        ghost var w2 := pkt.State();
        MarshalFields(fields, pkt);
        ghost var tail := Word(|fields|) + EncodeFields(fields);
        WroteMore(w1, w2, pkt.State(), Block(name), tail);
        WroteMore(w0, w1, pkt.State(), Word(VAR_ADT_TYPE), Block(name) + tail);
      case Sep(items) =>
        MarshalItems(items, pkt);
        WroteMore(w0, w1, pkt.State(), Word(SEP_TYPE), Word(|items|) + EncodeAll(items));
    }
    ret := if pkt.complete then 0 else -1;
  }

  function TypeCode(t: Ast): uint32 {
    match t
    case Empty => EMPTY_TYPE
    case Int(_) => INT_TYPE
    case Double(_) => DOUBLE_TYPE
    case Text(_) => STRING_TYPE
    case Array(_, _, _) => ARRAY_TYPE
    case Struct(_, _) => VAR_ADT_TYPE
    case Sep(_) => SEP_TYPE
  }

  lemma NextItem(items: seq<Ast>, i: nat)
    requires i < |items| && AllPrintable(items[i..])
    ensures Printable(items[i]) && AllPrintable(items[i + 1..])
    ensures EncodeAll(items[i..]) == Encode(items[i]) + EncodeAll(items[i + 1..])
  {
    assert items[i..][1..] == items[i + 1..];
  }

  lemma NextField(fields: seq<Field>, i: nat)
    requires i < |fields| && FieldsPrintable(fields[i..])
    ensures Printable(fields[i].value) && FieldsPrintable(fields[i + 1..])
    ensures EncodeFields(fields[i..]) == Block(fields[i].key) + Encode(fields[i].value) + EncodeFields(fields[i + 1..])
  {
    assert fields[i..][1..] == fields[i + 1..];
  }

  /** The number of elements and the elements; stops at the first that does not fit. */
  method MarshalItems(items: seq<Ast>, pkt: RealPacket)
    requires pkt.Valid() && AllPrintable(items)
    modifies pkt, pkt.packet
    ensures pkt.Valid() && Wrote(old(pkt.State()), pkt.State(), Word(|items|) + EncodeAll(items))
    decreases items
  {
    ghost var w0 := pkt.State();
    AppendCount(pkt, |items|);
    ghost var w1, done: seq<byte> := pkt.State(), [];
    var i := 0;
    assert items[0..] == items;
    while i < |items|
      invariant i <= |items| && pkt.Valid() && Wrote(w1, pkt.State(), done)
      invariant AllPrintable(items[i..]) && done + EncodeAll(items[i..]) == EncodeAll(items)
    {
      ghost var w := pkt.State();
      NextItem(items, i);
      var ret := MarshalAst(items[i], pkt);
      Progress(w1, w, pkt.State(), done, Encode(items[i]), EncodeAll(items[i + 1..]), EncodeAll(items));
      if ret == -1 {
        WroteMore(w0, w1, pkt.State(), Word(|items|), EncodeAll(items));
        return;
      }
      done := done + Encode(items[i]);
      i := i + 1;
    }
    assert done == EncodeAll(items);
    WroteMore(w0, w1, pkt.State(), Word(|items|), EncodeAll(items));
  }

  method MarshalField(f: Field, pkt: RealPacket) returns (ret: int)
    requires pkt.Valid() && Printable(f.value)
    modifies pkt, pkt.packet
    ensures pkt.Valid() && Wrote(old(pkt.State()), pkt.State(), Block(f.key) + Encode(f.value))
    ensures ret == if pkt.complete then 0 else -1
    decreases f
  {
    ghost var w := pkt.State();
    AppendBlock(pkt, f.key);
    ghost var w' := pkt.State();
    ret := MarshalAst(f.value, pkt);
    WroteMore(w, w', pkt.State(), Block(f.key), Encode(f.value));
  }

  method MarshalFields(fields: seq<Field>, pkt: RealPacket)
    requires pkt.Valid() && FieldsPrintable(fields)
    modifies pkt, pkt.packet
    ensures pkt.Valid() && Wrote(old(pkt.State()), pkt.State(), Word(|fields|) + EncodeFields(fields))
    decreases fields
  {
    ghost var w0 := pkt.State();
    AppendCount(pkt, |fields|);
    ghost var w1, done: seq<byte> := pkt.State(), [];
    var i := 0;
    assert fields[0..] == fields;
    while i < |fields|
      invariant i <= |fields| && pkt.Valid() && Wrote(w1, pkt.State(), done)
      invariant FieldsPrintable(fields[i..]) && done + EncodeFields(fields[i..]) == EncodeFields(fields)
    {
      ghost var w, b := pkt.State(), Block(fields[i].key) + Encode(fields[i].value);
      NextField(fields, i);
      var ret := MarshalField(fields[i], pkt);
      Progress(w1, w, pkt.State(), done, b, EncodeFields(fields[i + 1..]), EncodeFields(fields));
      if ret == -1 {
        WroteMore(w0, w1, pkt.State(), Word(|fields|), EncodeFields(fields));
        return;
      }
      done := done + b;
      i := i + 1;
    }
    assert done == EncodeFields(fields);
    WroteMore(w0, w1, pkt.State(), Word(|fields|), EncodeFields(fields));
  }

  // ---------------------------------------------------------------- parsing

  method RetrieveBlock(bw: BufferWrapper) returns (s: Str)
    requires bw.Valid()
    modifies bw
    ensures bw.Valid() && (s, bw.State()) == TakeBlock(old(bw.State()))
  {
    var size := bw.RetrieveUInt();
    s := bw.RetrieveBuf(size);
  }

  /** unmarshal_ast. */
  method UnmarshalAst(bw: BufferWrapper) returns (t: Ast)
    requires bw.Valid()
    modifies bw
    ensures bw.Valid() && (t, bw.State()) == Unmarshal(old(bw.State()))
    decreases |bw.State().rest|, 1, 0
  {
    t := Empty;
    var code := bw.RetrieveUInt();
    if bw.errorFlag {
      return;
    }
    if code == INT_TYPE {
      var x := bw.RetrieveUInt();
      t := if bw.errorFlag then Empty else Int(Signed(x));
    } else if code == DOUBLE_TYPE {
      var b := bw.RetrieveBuf(8);
      t := if bw.errorFlag then Empty else Double(BytesDouble(b));
    } else if code == STRING_TYPE {
      var s := RetrieveBlock(bw);
      t := if bw.errorFlag then Empty else Text(s);
    } else if code == ARRAY_TYPE {
      t := UnmarshalArrayAst(bw);
    } else if code == VAR_ADT_TYPE {
      t := UnmarshalStructAst(bw);
    } else if code == SEP_TYPE {
      var n := bw.RetrieveUInt();
      if !bw.errorFlag {
        var items := UnmarshalItemList(bw, n);
        t := if items.None? then Empty else Sep(items.value);
      }
    }
  }

  method UnmarshalArrayAst(bw: BufferWrapper) returns (t: Ast)
    requires bw.Valid()
    modifies bw
    ensures bw.Valid() && (t, bw.State()) == UnmarshalArray(old(bw.State()))
    decreases |bw.State().rest|, 3, 0
  {
    t := Empty;
    var elem := bw.RetrieveUInt();
    var name := RetrieveBlock(bw);
    var n := bw.RetrieveUInt();
    if !bw.errorFlag {
      var items := UnmarshalItemList(bw, n);
      if items.Some? {
        t := Array(elem, if |name| > 0 then Some(name) else None, items.value);
      }
    }
  }

  method UnmarshalStructAst(bw: BufferWrapper) returns (t: Ast)
    requires bw.Valid()
    modifies bw
    ensures bw.Valid() && (t, bw.State()) == UnmarshalStruct(old(bw.State()))
    decreases |bw.State().rest|, 3, 0
  {
    t := Empty;
    var name := RetrieveBlock(bw);
    var n := bw.RetrieveUInt();
    if !bw.errorFlag {
      var fields := UnmarshalFieldMap(bw, n);
      if fields.Some? {
        t := Struct(name, fields.value);
      }
    }
  }

  method UnmarshalItemList(bw: BufferWrapper, n: nat) returns (items: Option<seq<Ast>>)
    requires bw.Valid() && !bw.errorFlag
    modifies bw
    ensures bw.Valid() && (items, bw.State()) == UnmarshalItems(old(bw.State()), n, [])
    decreases |bw.State().rest|, 2, n
  {
    var read: seq<Ast> := [];
    var i := 0;
    while i < n
      invariant i <= n && bw.Valid() && !bw.errorFlag
      invariant |bw.State().rest| <= |old(bw.State().rest)|
      invariant UnmarshalItems(bw.State(), n - i, read) == UnmarshalItems(old(bw.State()), n, [])
    {
      var nextNode := UnmarshalAst(bw);
      if nextNode == Empty {
        return None;
      }
      read := read + [nextNode];
      i := i + 1;
    }
    items := Some(read);
  }

  method UnmarshalMapEntry(bw: BufferWrapper) returns (f: Option<Field>)
    requires bw.Valid()
    modifies bw
    ensures bw.Valid() && (f, bw.State()) == UnmarshalField(old(bw.State()))
    decreases |bw.State().rest|, 1, 0
  {
    var key := RetrieveBlock(bw);
    if bw.errorFlag {
      return None;
    }
    var value := UnmarshalAst(bw);
    f := if value == Empty then None else Some(Field(key, value));
  }

  /** One turn of the loop over the fields of a struct; n fields are still to come. */
  method InsertField(bw: BufferWrapper, ghost n: nat, read: seq<Field>) returns (next: Option<seq<Field>>)
    requires bw.Valid() && n > 0
    modifies bw
    ensures bw.Valid() && |bw.State().rest| <= |old(bw.State().rest)|
    ensures next.Some? ==>
      !bw.errorFlag && UnmarshalFields(old(bw.State()), n, read) == UnmarshalFields(bw.State(), n - 1, next.value)
    ensures next.None? ==> UnmarshalFields(old(bw.State()), n, read) == (None, bw.State())
    decreases |bw.State().rest|, 1, 1
  {
    var f := UnmarshalMapEntry(bw);
    next := if f.None? then None else Some(Put(read, f.value.key, f.value.value));
  }

  method UnmarshalFieldMap(bw: BufferWrapper, n: nat) returns (fields: Option<seq<Field>>)
    requires bw.Valid() && !bw.errorFlag
    modifies bw
    ensures bw.Valid() && (fields, bw.State()) == UnmarshalFields(old(bw.State()), n, [])
    decreases |bw.State().rest|, 2, n
  {
    ghost var rd := bw.State();
    fields := Some([]);
    var i := 0;
    while i < n && fields.Some?
      invariant i <= n && bw.Valid() && |bw.State().rest| <= |rd.rest|
      invariant fields.Some? ==>
        !bw.errorFlag && UnmarshalFields(bw.State(), n - i, fields.value) == UnmarshalFields(rd, n, [])
      invariant fields.None? ==> UnmarshalFields(rd, n, []) == (None, bw.State())
      decreases n - i
    {
      fields := InsertField(bw, n - i, fields.value);
      i := i + 1;
    }
  }

  /** A tree sent through a packet that holds it arrives as itself, exactly when it is one that survives. */
  method SendAndReceive(t: Ast, maxPacketSize: nat) returns (arrived: Ast, ret: int)
    requires Printable(t) && maxPacketSize <= 0x7FFF_FFFF
    ensures ret == if |Encode(t)| <= maxPacketSize then 0 else -1
    ensures ret == 0 ==> (arrived == t <==> Solid(t) && ProperNames(t))
  {
    var pkt := new RealPacket(maxPacketSize);
    ret := MarshalAst(t, pkt);
    arrived := Empty;
    if ret == 0 {
      assert pkt.packet[..pkt.size] == Encode(t);
      var bw := new BufferWrapper(pkt.packet[..pkt.size]);
      RoundTripIff(t, []);
      UnmarshalBack(t, []);
      assert Encode(t) + [] == Encode(t);
      arrived := UnmarshalAst(bw);
    }
  }
}
