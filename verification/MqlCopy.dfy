/** updateADT copies: on success the target stands for the source's value and shares no node with it. */
module MqlCopy {
  import opened Base
  import opened MqlState
  import opened MqlUpdate
  import opened MqlValues

  type Heap = map<Ref, Obj>

  // ---------------------------------------------------------------- footprints

  /** All nodes a value is made of. */
  ghost function Foot(heap: Heap, r: Ref, v: Value): (f: set<Ref>)
    requires Denotes(heap, r, v)
    ensures r in f && f <= heap.Keys
    decreases v
  {
    match v
    case VAtom(_) => {r}
    case VArr(_, _, vs) => {r} + set i, c | 0 <= i < |vs| && c in Foot(heap, heap[r].cell.items[i], vs[i]) :: c
    case VRec(_, fs) => {r} + set k, c | k in fs && c in Foot(heap, heap[r].cell.fields[k], fs[k]) :: c
  }

  /** The value is a tree: no node is used twice. */
  ghost predicate Separate(heap: Heap, r: Ref, v: Value)
    requires Denotes(heap, r, v)
    decreases v
  {
    match v
    case VAtom(_) => true
    case VArr(_, _, vs) =>
      && (forall i :: 0 <= i < |vs| ==>
            r !in Foot(heap, heap[r].cell.items[i], vs[i]) && Separate(heap, heap[r].cell.items[i], vs[i]))
      && (forall i, j :: 0 <= i < j < |vs| ==>
            Foot(heap, heap[r].cell.items[i], vs[i]) !! Foot(heap, heap[r].cell.items[j], vs[j]))
    case VRec(_, fs) =>
      && (forall k :: k in fs ==>
            r !in Foot(heap, heap[r].cell.fields[k], fs[k]) && Separate(heap, heap[r].cell.fields[k], fs[k]))
      && (forall k, l :: k in fs && l in fs && k != l ==>
            Foot(heap, heap[r].cell.fields[k], fs[k]) !! Foot(heap, heap[r].cell.fields[l], fs[l]))
  }

  /** The nodes in f are there and hold the same in both heaps. */
  ghost predicate SameOn(h: Heap, h': Heap, f: set<Ref>) {
    forall r :: r in f ==> r in h && r in h' && h'[r].cell == h[r].cell
  }

  /** Node c stands for v in both heaps, made of the same nodes, and is a tree in both or in neither. */
  ghost predicate Alike(h: Heap, h': Heap, c: Ref, v: Value) {
    && Denotes(h, c, v) && Denotes(h', c, v)
    && Foot(h', c, v) == Foot(h, c, v) && (Separate(h', c, v) <==> Separate(h, c, v))
  }

  lemma {:induction false} FramedArray(h: Heap, h': Heap, r: Ref, elem: Kind, adt: Option<Name>, vs: seq<Value>)
    requires Denotes(h, r, VArr(elem, adt, vs)) && r in h' && h'[r].cell == h[r].cell
    requires forall i :: 0 <= i < |vs| ==> Alike(h, h', h[r].cell.items[i], vs[i])
    ensures Alike(h, h', r, VArr(elem, adt, vs))
  {}

  lemma {:induction false} FramedRecord(h: Heap, h': Heap, r: Ref, adt: Name, fs: map<Name, Value>)
    requires Denotes(h, r, VRec(adt, fs)) && r in h' && h'[r].cell == h[r].cell
    requires forall k :: k in fs ==> Alike(h, h', h[r].cell.fields[k], fs[k])
    ensures Alike(h, h', r, VRec(adt, fs))
  {}

  /** A value depends on its own nodes only. */
  lemma {:induction false} Framed(h: Heap, h': Heap, r: Ref, v: Value)
    requires Denotes(h, r, v) && SameOn(h, h', Foot(h, r, v))
    ensures Denotes(h', r, v) && Foot(h', r, v) == Foot(h, r, v)
    ensures Separate(h', r, v) <==> Separate(h, r, v)
    decreases v
  {
    match v
    case VAtom(_) =>
    case VArr(elem, adt, vs) =>
      forall i | 0 <= i < |vs| ensures Alike(h, h', h[r].cell.items[i], vs[i]) {
        Framed(h, h', h[r].cell.items[i], vs[i]);
      }
      FramedArray(h, h', r, elem, adt, vs);
    case VRec(adt, fs) =>
      forall k | k in fs ensures Alike(h, h', h[r].cell.fields[k], fs[k]) {
        Framed(h, h', h[r].cell.fields[k], fs[k]);
      }
      FramedRecord(h, h', r, adt, fs);
  }

  /** r stands for v as a tree whose nodes are all in f or new since h. */
  ghost predicate Tree(h: Heap, h': Heap, r: Ref, v: Value, f: set<Ref>) {
    && Denotes(h', r, v) && Separate(h', r, v)
    && forall c :: c in Foot(h', r, v) ==> c in f || c !in h
  }

  /** From h to h' nothing outside f changed, and nothing vanished. */
  ghost predicate OnlyIn(h: Heap, h': Heap, f: set<Ref>) {
    forall c :: c in h ==> c in h' && (c !in f ==> h'[c].cell == h[c].cell)
  }

  lemma OnlyInThen(a: Heap, b: Heap, c: Heap, f: set<Ref>, g: set<Ref>)
    requires OnlyIn(a, b, f) && OnlyIn(b, c, g) && forall x :: x in g ==> x in f || x !in a
    ensures OnlyIn(a, c, f)
  {}

  lemma TreeThen(a: Heap, b: Heap, c: Heap, r: Ref, v: Value, f: set<Ref>, g: set<Ref>)
    requires OnlyIn(a, b, f) && Tree(b, c, r, v, g) && forall x :: x in g ==> x in f || x !in a
    ensures Tree(a, c, r, v, f)
  {}

  // ---------------------------------------------------------------- replacing a part

  /** A field of a record copied over: the record stands for the record with that field replaced. */
  lemma FieldReplaced(h: Heap, h': Heap, r: Ref, adt: Name, w: map<Name, Value>, k: Name, v: Value)
    requires k in w && Denotes(h, r, VRec(adt, w)) && Separate(h, r, VRec(adt, w))
    requires OnlyIn(h, h', Foot(h, h[r].cell.fields[k], w[k]))
    requires Tree(h, h', h[r].cell.fields[k], v, Foot(h, h[r].cell.fields[k], w[k]))
    ensures Tree(h, h', r, VRec(adt, w[k := v]), Foot(h, r, VRec(adt, w)))
  {
    var fields := h[r].cell.fields;
    assert h'[r].cell == h[r].cell;
    forall l | l in w && l != k && l in fields ensures OtherSame(h, h', fields[l], w[l]) {
      assert Foot(h, fields[k], w[k]) !! Foot(h, fields[l], w[l]);
      Framed(h, h', fields[l], w[l]);
    }
    FieldSeparate(h, h', r, adt, w, k, v, w[k := v]);
  }

  /** The other fields of r are as they were. */
  ghost predicate OthersSame(h: Heap, h': Heap, fields: map<Name, Ref>, w: map<Name, Value>, k: Name) {
    forall l :: l in w && l != k && l in fields ==> OtherSame(h, h', fields[l], w[l])
  }

  ghost predicate OtherSame(h: Heap, h': Heap, c: Ref, v: Value) {
    && Denotes(h, c, v) && Denotes(h', c, v)
    && Foot(h', c, v) == Foot(h, c, v) && Separate(h', c, v)
  }

  lemma FeetApart(h: Heap, h': Heap, r: Ref, adt: Name, w: map<Name, Value>, k: Name, v: Value, l: Name)
    requires k in w && l in w && l != k && Denotes(h, r, VRec(adt, w)) && Separate(h, r, VRec(adt, w))
    requires Tree(h, h', h[r].cell.fields[k], v, Foot(h, h[r].cell.fields[k], w[k]))
    requires OtherSame(h, h', h[r].cell.fields[l], w[l])
    ensures Foot(h', h[r].cell.fields[k], v) !! Foot(h', h[r].cell.fields[l], w[l])
  {
    assert Foot(h, h[r].cell.fields[k], w[k]) !! Foot(h, h[r].cell.fields[l], w[l]);
  }

  lemma AnyFeetApart(h: Heap, h': Heap, r: Ref, adt: Name, w: map<Name, Value>, k: Name, v: Value, w': map<Name, Value>,
                     l: Name, m: Name)
    requires k in w && w' == w[k := v] && Denotes(h, r, VRec(adt, w)) && Separate(h, r, VRec(adt, w))
    requires Tree(h, h', h[r].cell.fields[k], v, Foot(h, h[r].cell.fields[k], w[k]))
    requires OthersSame(h, h', h[r].cell.fields, w, k) && l in w' && m in w' && l != m
    requires Denotes(h', h[r].cell.fields[l], w'[l]) && Denotes(h', h[r].cell.fields[m], w'[m])
    ensures Foot(h', h[r].cell.fields[l], w'[l]) !! Foot(h', h[r].cell.fields[m], w'[m])
  {
    var fields := h[r].cell.fields;
    if l == k {
      assert OtherSame(h, h', fields[m], w[m]);
      FeetApart(h, h', r, adt, w, k, v, m);
    } else if m == k {
      assert OtherSame(h, h', fields[l], w[l]);
      FeetApart(h, h', r, adt, w, k, v, l);
    } else {
      assert OtherSame(h, h', fields[l], w[l]) && OtherSame(h, h', fields[m], w[m]);
      assert Foot(h, fields[l], w[l]) !! Foot(h, fields[m], w[m]);
    }
  }

  lemma RecSeparate(h: Heap, r: Ref, adt: Name, fs: map<Name, Value>)
    requires Denotes(h, r, VRec(adt, fs))
    requires forall l :: l in fs ==>
      r !in Foot(h, h[r].cell.fields[l], fs[l]) && Separate(h, h[r].cell.fields[l], fs[l])
    requires forall l, m :: l in fs && m in fs && l != m ==>
      Foot(h, h[r].cell.fields[l], fs[l]) !! Foot(h, h[r].cell.fields[m], fs[m])
    ensures Separate(h, r, VRec(adt, fs))
  {}

  lemma FieldSeparate(h: Heap, h': Heap, r: Ref, adt: Name, w: map<Name, Value>, k: Name, v: Value,
                      w': map<Name, Value>)
    requires k in w && w' == w[k := v] && Denotes(h, r, VRec(adt, w)) && Separate(h, r, VRec(adt, w))
    requires r in h' && h'[r].cell == h[r].cell
    requires Tree(h, h', h[r].cell.fields[k], v, Foot(h, h[r].cell.fields[k], w[k]))
    requires OthersSame(h, h', h[r].cell.fields, w, k)
    ensures Tree(h, h', r, VRec(adt, w'), Foot(h, r, VRec(adt, w)))
  {
    FieldsDenote(h, h', r, adt, w, k, v);
    forall l, m | l in w' && m in w' && l != m
      ensures Foot(h', h'[r].cell.fields[l], w'[l]) !! Foot(h', h'[r].cell.fields[m], w'[m])
    {
      AnyFeetApart(h, h', r, adt, w, k, v, w', l, m);
    }
    RecSeparate(h', r, adt, w');
  }

  lemma FieldsDenote(h: Heap, h': Heap, r: Ref, adt: Name, w: map<Name, Value>, k: Name, v: Value)
    requires k in w && Denotes(h, r, VRec(adt, w)) && Separate(h, r, VRec(adt, w))
    requires r in h' && h'[r].cell == h[r].cell
    requires Tree(h, h', h[r].cell.fields[k], v, Foot(h, h[r].cell.fields[k], w[k]))
    requires OthersSame(h, h', h[r].cell.fields, w, k)
    ensures Denotes(h', r, VRec(adt, w[k := v]))
    ensures forall l :: l in w[k := v] ==>
      (r !in Foot(h', h[r].cell.fields[l], w[k := v][l]) && Separate(h', h[r].cell.fields[l], w[k := v][l]))
    ensures forall c :: c in Foot(h', r, VRec(adt, w[k := v])) ==> c in Foot(h, r, VRec(adt, w)) || c !in h
  {
    var fields, w' := h[r].cell.fields, w[k := v];
    assert fields.Keys == w'.Keys;
    forall l | l in w'
      ensures Denotes(h', fields[l], w'[l]) && r !in Foot(h', fields[l], w'[l]) && Separate(h', fields[l], w'[l])
    {
      FieldDenotes(h, h', r, adt, w, k, v, l);
    }
  }

  lemma FieldDenotes(h: Heap, h': Heap, r: Ref, adt: Name, w: map<Name, Value>, k: Name, v: Value, l: Name)
    requires k in w && l in w && Denotes(h, r, VRec(adt, w)) && Separate(h, r, VRec(adt, w))
    requires r in h' && h'[r].cell == h[r].cell
    requires Tree(h, h', h[r].cell.fields[k], v, Foot(h, h[r].cell.fields[k], w[k]))
    requires OthersSame(h, h', h[r].cell.fields, w, k)
    ensures var c, u := h[r].cell.fields[l], w[k := v][l];
      && Denotes(h', c, u) && r !in Foot(h', c, u) && Separate(h', c, u)
      && forall x :: x in Foot(h', c, u) ==> x in Foot(h, r, VRec(adt, w)) || x !in h
  {
    if l != k { assert OtherSame(h, h', h[r].cell.fields[l], w[l]); }
  }

  /** A new element appended: everything it is made of is new. */
  lemma ItemAppended(h: Heap, h': Heap, r: Ref, elem: Kind, adt: Option<Name>, vs: seq<Value>, c: Ref, v: Value)
    requires Denotes(h, r, VArr(elem, adt, vs)) && Separate(h, r, VArr(elem, adt, vs))
    requires OnlyIn(h, h', {}) && Tree(h, h', c, v, {})
    requires r in h' && h'[r].cell == h[r].cell
    ensures var pushed := h'[r := h'[r].(cell := h'[r].cell.(items := h'[r].cell.items + [c]))];
      Tree(h, pushed, r, VArr(elem, adt, vs + [v]), Foot(h, r, VArr(elem, adt, vs)))
  {
    var pushed := h'[r := h'[r].(cell := h'[r].cell.(items := h'[r].cell.items + [c]))];
    var items := h[r].cell.items;
    forall i | 0 <= i < |vs| ensures OtherSame(h, pushed, items[i], vs[i]) {
      Framed(h, pushed, items[i], vs[i]);
    }
    Framed(h', pushed, c, v);
    ItemSeparate(h, pushed, r, elem, adt, vs, c, v);
  }

  lemma ItemSeparate(h: Heap, h': Heap, r: Ref, elem: Kind, adt: Option<Name>, vs: seq<Value>, c: Ref, v: Value)
    requires Denotes(h, r, VArr(elem, adt, vs)) && Separate(h, r, VArr(elem, adt, vs)) && Tree(h, h', c, v, {})
    requires r in h' && h'[r].cell == h[r].cell.(items := h[r].cell.items + [c])
    requires forall i :: 0 <= i < |vs| ==> OtherSame(h, h', h[r].cell.items[i], vs[i])
    ensures Tree(h, h', r, VArr(elem, adt, vs + [v]), Foot(h, r, VArr(elem, adt, vs)))
  {
    var items, all := h'[r].cell.items, vs + [v];
    ItemsDenote(h, h', r, elem, adt, vs, c, v, all);
    forall i, j | 0 <= i < j < |all| ensures Foot(h', items[i], all[i]) !! Foot(h', items[j], all[j]) {
      assert items[i] == h[r].cell.items[i] && OtherSame(h, h', items[i], vs[i]);
      if j < |vs| {
        assert OtherSame(h, h', items[j], vs[j]) && Foot(h, items[i], vs[i]) !! Foot(h, items[j], vs[j]);
      }
    }
    ArrSeparate(h', r, elem, adt, all);
  }

  lemma ItemsDenote(h: Heap, h': Heap, r: Ref, elem: Kind, adt: Option<Name>, vs: seq<Value>, c: Ref, v: Value,
                    all: seq<Value>)
    requires Denotes(h, r, VArr(elem, adt, vs)) && Separate(h, r, VArr(elem, adt, vs)) && Tree(h, h', c, v, {})
    requires r in h' && h'[r].cell == h[r].cell.(items := h[r].cell.items + [c]) && all == vs + [v]
    requires forall i :: 0 <= i < |vs| ==> OtherSame(h, h', h[r].cell.items[i], vs[i])
    ensures Denotes(h', r, VArr(elem, adt, all))
    ensures forall i :: 0 <= i < |all| ==>
      (r !in Foot(h', h'[r].cell.items[i], all[i]) && Separate(h', h'[r].cell.items[i], all[i]))
    ensures forall x :: x in Foot(h', r, VArr(elem, adt, all)) ==> x in Foot(h, r, VArr(elem, adt, vs)) || x !in h
  {
    var items := h'[r].cell.items;
    forall i | 0 <= i < |all|
      ensures Denotes(h', items[i], all[i]) && Separate(h', items[i], all[i]) && r !in Foot(h', items[i], all[i])
    {
      if i < |vs| { assert items[i] == h[r].cell.items[i] && OtherSame(h, h', items[i], vs[i]); }
    }
  }

  lemma ArrSeparate(h: Heap, r: Ref, elem: Kind, adt: Option<Name>, vs: seq<Value>)
    requires Denotes(h, r, VArr(elem, adt, vs))
    requires forall i :: 0 <= i < |vs| ==>
      r !in Foot(h, h[r].cell.items[i], vs[i]) && Separate(h, h[r].cell.items[i], vs[i])
    requires forall i, j :: 0 <= i < j < |vs| ==>
      Foot(h, h[r].cell.items[i], vs[i]) !! Foot(h, h[r].cell.items[j], vs[j])
    ensures Separate(h, r, VArr(elem, adt, vs))
  {}

  // ---------------------------------------------------------------- struct declarations

  type Decls = map<Name, seq<FieldDecl>>

  /** Every table sees the same struct declarations: struct names are global. */
  ghost predicate Uniform(tables: seq<Table>, decls: Decls) {
    forall i, adt :: 0 <= i < |tables| ==> StructIn(tables, i, adt) == if adt in decls then Some(decls[adt]) else None
  }

  function FieldNames(decl: seq<FieldDecl>): set<Name> {
    set f | f in decl :: f.name
  }

  lemma FieldNamesStep(fields: seq<FieldDecl>)
    requires fields != []
    ensures FieldNames(fields) == FieldNames(fields[..|fields| - 1]) + {fields[|fields| - 1].name}
  {
    var n := |fields| - 1;
    assert forall f :: f in fields <==> f in fields[..n] || f == fields[n];
  }

  /** Of two declarations of one field the later one counts. */
  function FieldType(decl: seq<FieldDecl>, name: Name): Type
    requires name in FieldNames(decl)
  {
    FieldNamesStep(decl);
    var n := |decl| - 1;
    if decl[n].name == name then decl[n].typ else FieldType(decl[..n], name)
  }

  function ItemType(elem: Kind, adt: Option<Name>): Type {
    Type(elem, if adt.Some? then adt.value else "", VoidT)
  }

  /**
    v is a value of the declared type: structs have exactly their fields, arrays hold what they are declared to hold.
   */
  ghost predicate HasType(decls: Decls, v: Value, typ: Type)
    decreases v
  {
    match v
    case VAtom(b) => OfKind(b, typ.kind)
    case VArr(elem, adt, vs) =>
      && typ.kind == ArrayT && elem == typ.elem && adt == (if elem == StructT then Some(typ.adt) else None)
      && forall i :: 0 <= i < |vs| ==> HasType(decls, vs[i], ItemType(elem, adt))
    case VRec(adt, fs) =>
      && typ.kind == StructT && adt == typ.adt && adt in decls && decls[adt] != [] && fs.Keys == FieldNames(decls[adt])
      && forall k :: k in fs ==> HasType(decls, fs[k], FieldType(decls[adt], k))
  }

  predicate OfKind(b: Basic, kind: Kind) {
    match kind
    case IntT => b.I?
    case DoubleT => b.D?
    case StringT => b.S?
    case _ => false
  }

  /** Structs are of their type; the items of an array outside a struct may be of any type. */
  ghost predicate Regular(decls: Decls, v: Value) {
    match v
    case VAtom(_) => true
    case VArr(elem, adt, vs) =>
      (elem == StructT <==> adt.Some?) && forall i :: 0 <= i < |vs| ==> Regular(decls, vs[i])
    case VRec(adt, _) => HasType(decls, v, Type(StructT, adt, VoidT))
  }

  lemma {:induction false} TypedIsRegular(decls: Decls, v: Value, typ: Type)
    requires HasType(decls, v, typ)
    ensures Regular(decls, v)
    decreases v
  {
    match v
    case VAtom(_) =>
    case VArr(elem, adt, vs) =>
      forall i | 0 <= i < |vs| ensures Regular(decls, vs[i]) { TypedIsRegular(decls, vs[i], ItemType(elem, adt)); }
    case VRec(_, _) =>
  }

  /** For anything but a struct the name in the item type says nothing. */
  lemma ItemTypeName(decls: Decls, v: Value, elem: Kind, adt: Name)
    requires HasType(decls, v, Type(elem, adt, VoidT))
    ensures HasType(decls, v, ItemType(elem, if elem == StructT then Some(adt) else None))
  {}

  // ---------------------------------------------------------------- new nodes

  /** A field added to, or replaced in, a record: everything it is made of is new. */
  lemma FieldAdded(h: Heap, h1: Heap, r: Ref, adt: Name, w: map<Name, Value>, k: Name, c: Ref, d: Value, h2: Heap)
    requires Denotes(h, r, VRec(adt, w)) && Separate(h, r, VRec(adt, w))
    requires OnlyIn(h, h1, {}) && Tree(h, h1, c, d, {})
    requires h2 == h1[r := h1[r].(cell := Rec(adt, h[r].cell.fields[k := c]))]
    ensures Tree(h, h2, r, VRec(adt, w[k := d]), Foot(h, r, VRec(adt, w)))
  {
    AddedHolds(h, h1, r, adt, w, k, c, d, h2);
    AddedTree(h, h2, r, adt, w, k, c, d, w[k := d]);
  }

  lemma AddedHolds(h: Heap, h1: Heap, r: Ref, adt: Name, w: map<Name, Value>, k: Name, c: Ref, d: Value, h2: Heap)
    requires Denotes(h, r, VRec(adt, w)) && Separate(h, r, VRec(adt, w))
    requires OnlyIn(h, h1, {}) && Tree(h, h1, c, d, {})
    requires h2 == h1[r := h1[r].(cell := Rec(adt, h[r].cell.fields[k := c]))]
    ensures Added(h, h2, r, adt, w, k, c, d, w[k := d])
  {
    Framed(h1, h2, c, d);
    forall l | l in w && l != k ensures OtherSame(h, h2, h[r].cell.fields[l], w[l]) {
      assert r !in Foot(h, h[r].cell.fields[l], w[l]);
      Framed(h, h2, h[r].cell.fields[l], w[l]);
    }
  }

  lemma AddedTree(h: Heap, h2: Heap, r: Ref, adt: Name, w: map<Name, Value>, k: Name, c: Ref, d: Value,
                  w': map<Name, Value>)
    requires Added(h, h2, r, adt, w, k, c, d, w')
    ensures Tree(h, h2, r, VRec(adt, w'), Foot(h, r, VRec(adt, w)))
  {
    AddedDenotes(h, h2, r, adt, w, k, c, d, w');
    forall l, m | l in w' && m in w' && l != m
      ensures Foot(h2, h2[r].cell.fields[l], w'[l]) !! Foot(h2, h2[r].cell.fields[m], w'[m])
    {
      AddedApart(h, h2, r, adt, w, k, c, d, w', l, m);
    }
    RecSeparate(h2, r, adt, w');
  }

  /** c is new, and the other fields are as they were. */
  ghost predicate Added(h: Heap, h2: Heap, r: Ref, adt: Name, w: map<Name, Value>, k: Name, c: Ref, d: Value,
                        w': map<Name, Value>)
  {
    && Denotes(h, r, VRec(adt, w)) && Separate(h, r, VRec(adt, w)) && w' == w[k := d]
    && r in h2 && h2[r].cell == Rec(adt, h[r].cell.fields[k := c]) && Tree(h, h2, c, d, {})
    && forall l :: l in w && l != k ==> OtherSame(h, h2, h[r].cell.fields[l], w[l])
  }

  lemma AddedDenotes(h: Heap, h2: Heap, r: Ref, adt: Name, w: map<Name, Value>, k: Name, c: Ref, d: Value,
                     w': map<Name, Value>)
    requires Added(h, h2, r, adt, w, k, c, d, w')
    ensures Denotes(h2, r, VRec(adt, w'))
    ensures forall l :: l in w' ==>
      (r !in Foot(h2, h2[r].cell.fields[l], w'[l]) && Separate(h2, h2[r].cell.fields[l], w'[l]))
    ensures forall x :: x in Foot(h2, r, VRec(adt, w')) ==> x in Foot(h, r, VRec(adt, w)) || x !in h
  {
    var fields := h2[r].cell.fields;
    assert fields.Keys == w'.Keys;
    forall l | l in w'
      ensures Denotes(h2, fields[l], w'[l]) && r !in Foot(h2, fields[l], w'[l]) && Separate(h2, fields[l], w'[l])
    {
      AddedField(h, h2, r, adt, w, k, c, d, w', l);
    }
  }

  lemma AddedField(h: Heap, h2: Heap, r: Ref, adt: Name, w: map<Name, Value>, k: Name, c: Ref, d: Value,
                   w': map<Name, Value>, l: Name)
    requires Added(h, h2, r, adt, w, k, c, d, w') && l in w'
    ensures var f := h2[r].cell.fields;
      && l in f && Denotes(h2, f[l], w'[l]) && r !in Foot(h2, f[l], w'[l]) && Separate(h2, f[l], w'[l])
      && forall x :: x in Foot(h2, f[l], w'[l]) ==> x in Foot(h, r, VRec(adt, w)) || x !in h
  {
    if l != k { assert OtherSame(h, h2, h2[r].cell.fields[l], w[l]); }
  }

  lemma AddedApart(h: Heap, h2: Heap, r: Ref, adt: Name, w: map<Name, Value>, k: Name, c: Ref, d: Value,
                   w': map<Name, Value>, l: Name, m: Name)
    requires Added(h, h2, r, adt, w, k, c, d, w') && l in w' && m in w' && l != m
    requires Denotes(h2, r, VRec(adt, w'))
    ensures Foot(h2, h2[r].cell.fields[l], w'[l]) !! Foot(h2, h2[r].cell.fields[m], w'[m])
  {
    var fields := h[r].cell.fields;
    if l != k { assert OtherSame(h, h2, fields[l], w[l]); }
    if m != k { assert OtherSame(h, h2, fields[m], w[m]); }
    if l != k && m != k { assert Foot(h, fields[l], w[l]) !! Foot(h, fields[m], w[m]); }
  }

  /** What a successful creation makes. */
  ghost predicate Made(st: State, r: (State, Option<Ref>), decls: Decls, typ: Type, d: Value) {
    OnlyIn(st.heap, r.0.heap, {}) && (r.1.Some? ==> Tree(st.heap, r.0.heap, r.1.value, d, {}) && HasType(decls, d, typ))
  }

  lemma AtomMade(st: State, t: nat, root: Ref, parent: Ref, b: Basic, decls: Decls, typ: Type)
    requires Inv(st) && st.budget > 0 && OfKind(b, typ.kind)
    ensures Made(st, (Allocate(st, Atom(b), t, root, parent), Some(st.next)), decls, typ, VAtom(b))
  {}

  lemma {:induction false} CreateMakes(st: State, t: nat, root: Ref, parent: Ref, typ: Type, size: int, decls: Decls)
    returns (d: Value)
    requires Inv(st) && t < |st.tables| && Uniform(st.tables, decls)
    ensures Made(st, Create(st, t, root, parent, typ, size), decls, typ, d)
    decreases Left(st.budget), 1, 0
  {
    CreateOk(st, t, root, parent, typ, size);
    d := VAtom(I(0));
    if Create(st, t, root, parent, typ, size).1.Some? {
      if typ.kind == StructT {
        d := StructMakes(st, t, root, parent, typ, decls);
      } else if typ.kind == ArrayT {
        d := ArrayMakes(st, t, root, parent, typ, size, decls);
      } else {
        var b := DefaultBasic(typ.kind);
        AtomMade(st, t, root, parent, b.value, decls, typ);
        d := VAtom(b.value);
      }
    }
  }

  lemma {:induction false} StructMakes(st: State, t: nat, root: Ref, parent: Ref, typ: Type, decls: Decls)
    returns (d: Value)
    requires Inv(st) && t < |st.tables| && Uniform(st.tables, decls) && st.budget > 0
    requires typ.kind == StructT && typ.adt in decls && decls[typ.adt] != []
    ensures var r := CreateFields(Allocate(st, Rec(typ.adt, map[]), t, root, parent), t, root, st.next, decls[typ.adt]);
      r.1.Some? ==> Tree(st.heap, r.0.heap, r.1.value, d, {}) && HasType(decls, d, typ)
    decreases Left(st.budget), 0, 0
  {
    var adt := typ.adt;
    AllocateOk(st, Rec(adt, map[]), t, root, parent);
    var st1 := Allocate(st, Rec(adt, map[]), t, root, parent);
    var w := FieldsMake(st1, t, root, st.next, adt, decls[adt], decls);
    var r := CreateFields(st1, t, root, st.next, decls[adt]);
    d := VRec(adt, w);
    if r.1.Some? { FreshTree(st.heap, st1.heap, r.0.heap, st.next, VRec(adt, map[]), d); }
  }

  lemma FreshTree(h: Heap, h1: Heap, h2: Heap, r: Ref, u: Value, d: Value)
    requires r !in h && OnlyIn(h, h1, {}) && Denotes(h1, r, u) && Foot(h1, r, u) == {r} && Tree(h1, h2, r, d, {r})
    ensures Tree(h, h2, r, d, {})
  {}

  /** The fields declared so far, each of its type. */
  ghost predicate TypedFields(decls: Decls, w: map<Name, Value>, fields: seq<FieldDecl>) {
    w.Keys == FieldNames(fields) && forall k :: k in w ==> HasType(decls, w[k], FieldType(fields, k))
  }

  lemma TypedStep(decls: Decls, w: map<Name, Value>, fields: seq<FieldDecl>, d: Value)
    requires fields != [] && TypedFields(decls, w, fields[..|fields| - 1])
    requires HasType(decls, d, fields[|fields| - 1].typ)
    ensures TypedFields(decls, w[fields[|fields| - 1].name := d], fields)
  {
    FieldNamesStep(fields);
  }

  /** From w the record has become w', and nothing else has changed. */
  ghost predicate Grown(st: State, r: (State, Option<Ref>), self: Ref, adt: Name, w: map<Name, Value>,
                        w': map<Name, Value>)
    requires Denotes(st.heap, self, VRec(adt, w))
  {
    r.1.Some? ==>
      && r.1 == Some(self) && Tree(st.heap, r.0.heap, self, VRec(adt, w'), Foot(st.heap, self, VRec(adt, w)))
      && OnlyIn(st.heap, r.0.heap, Foot(st.heap, self, VRec(adt, w)))
  }

  lemma GrownThen(st: State, st1: State, r: (State, Option<Ref>), self: Ref, adt: Name, w: map<Name, Value>,
                  w1: map<Name, Value>, w2: map<Name, Value>)
    requires Denotes(st.heap, self, VRec(adt, w)) && Grown(st, (st1, Some(self)), self, adt, w, w1)
    requires Grown(st1, r, self, adt, w1, w2)
    ensures Grown(st, r, self, adt, w, w2)
  {
    if r.1.Some? {
      var f, g := Foot(st.heap, self, VRec(adt, w)), Foot(st1.heap, self, VRec(adt, w1));
      OnlyInThen(st.heap, st1.heap, r.0.heap, f, g);
      TreeThen(st.heap, st1.heap, r.0.heap, self, VRec(adt, w2), f, g);
    }
  }

  lemma NotGrown(st: State, self: Ref, adt: Name)
    requires Denotes(st.heap, self, VRec(adt, map[]))
    ensures Grown(st, (st, Some(self)), self, adt, map[], map[])
  {}

  lemma {:induction false} FieldsMake(st: State, t: nat, root: Ref, r: Ref, adt: Name, fields: seq<FieldDecl>,
                                      decls: Decls)
    returns (w: map<Name, Value>)
    requires Inv(st) && Filling(st, t, root, r) && Uniform(st.tables, decls) && Denotes(st.heap, r, VRec(adt, map[]))
    ensures var res := CreateFields(st, t, root, r, fields);
      Grown(st, res, r, adt, map[], w) && (res.1.Some? ==> TypedFields(decls, w, fields))
    decreases Left(st.budget), 2, |fields|
  {
    w := map[];
    if fields == [] {
      NotGrown(st, r, adt);
    } else {
      var n := |fields| - 1;
      w := FieldsMake(st, t, root, r, adt, fields[..n], decls);
      CreateFieldsOk(st, t, root, r, fields[..n]);
      var (st1, o) := CreateFields(st, t, root, r, fields[..n]);
      if o.Some? {
        var d := FieldMakes(st1, t, root, r, adt, w, fields[n], decls);
        var w2 := w[fields[n].name := d];
        GrownThen(st, st1, CreateField(st1, t, root, r, fields[n]), r, adt, map[], w, w2);
        if CreateField(st1, t, root, r, fields[n]).1.Some? { TypedStep(decls, w, fields, d); }
        w := w2;
      }
    }
  }

  lemma {:induction false} FieldMakes(st: State, t: nat, root: Ref, r: Ref, adt: Name, w: map<Name, Value>,
                                      f: FieldDecl, decls: Decls) returns (d: Value)
    requires Inv(st) && Filling(st, t, root, r) && Uniform(st.tables, decls)
    requires Denotes(st.heap, r, VRec(adt, w)) && Separate(st.heap, r, VRec(adt, w))
    ensures var res := CreateField(st, t, root, r, f);
      Grown(st, res, r, adt, w, w[f.name := d]) && (res.1.Some? ==> HasType(decls, d, f.typ))
    decreases Left(st.budget), 1, 1
  {
    d := VAtom(I(0));
    if !(f.typ.kind == ArrayT && f.size.None?) {
      var size := if f.typ.kind == ArrayT then f.size.value else 0;
      d := CreateMakes(st, t, root, r, f.typ, size, decls);
      var (st1, c) := Create(st, t, root, r, f.typ, size);
      if c.Some? { FieldMade(st, st1, r, adt, w, f.name, c.value, d); }
    }
  }

  lemma FieldMade(st: State, st1: State, r: Ref, adt: Name, w: map<Name, Value>, name: Name, c: Ref, d: Value)
    requires Denotes(st.heap, r, VRec(adt, w)) && Separate(st.heap, r, VRec(adt, w))
    requires OnlyIn(st.heap, st1.heap, {}) && Tree(st.heap, st1.heap, c, d, {})
    ensures r in st1.heap && st1.heap[r].cell.Rec?
    ensures Grown(st, (SetField(st1, r, name, c), Some(r)), r, adt, w, w[name := d])
  {
    assert st1.heap[r].cell == st.heap[r].cell;
    FieldAdded(st.heap, st1.heap, r, adt, w, name, c, d, SetField(st1, r, name, c).heap);
    OnlySelf(st, st1, SetField(st1, r, name, c), r, Foot(st.heap, r, VRec(adt, w)));
  }

  lemma OnlySelf(st: State, st1: State, st2: State, r: Ref, f: set<Ref>)
    requires OnlyIn(st.heap, st1.heap, {}) && r in st1.heap && r in st2.heap && r in f
    requires st2.heap == st1.heap[r := st1.heap[r].(cell := st2.heap[r].cell)]
    ensures OnlyIn(st.heap, st2.heap, f)
  {}

  lemma {:induction false} ArrayMakes(st: State, t: nat, root: Ref, parent: Ref, typ: Type, size: int, decls: Decls)
    returns (d: Value)
    requires Inv(st) && t < |st.tables| && Uniform(st.tables, decls) && typ.kind == ArrayT
    requires Create(st, t, root, parent, typ, size).1.Some?
    ensures var r := Create(st, t, root, parent, typ, size);
      Tree(st.heap, r.0.heap, r.1.value, d, {}) && HasType(decls, d, typ)
    decreases Left(st.budget), 0, 1
  {
    var adt := if typ.elem == StructT then Some(typ.adt) else None;
    AllocateOk(st, EmptyArray(typ, t), t, root, parent);
    var st1 := Allocate(st, EmptyArray(typ, t), t, root, parent);
    var elem := Type(typ.elem, typ.adt, VoidT);
    var vs := ItemsMake(st1, t, root, st.next, typ.elem, adt, elem, size, decls);
    d := VArr(typ.elem, adt, vs);
    FreshTree(st.heap, st1.heap, CreateItems(st1, t, root, st.next, elem, size).0.heap, st.next,
              VArr(typ.elem, adt, []), d);
    forall i | 0 <= i < |vs| ensures HasType(decls, vs[i], ItemType(typ.elem, adt)) {
      ItemTypeName(decls, vs[i], typ.elem, typ.adt);
    }
  }

  /** Array r has been filled with vs, and nothing else has changed. */
  ghost predicate ItemsMade(st: State, r: (State, Option<Ref>), self: Ref, elem: Kind, adt: Option<Name>,
                            vs: seq<Value>, decls: Decls, typ: Type)
    requires Denotes(st.heap, self, VArr(elem, adt, []))
  {
    r.1.Some? ==>
      && r.1 == Some(self) && Tree(st.heap, r.0.heap, self, VArr(elem, adt, vs),
                                   Foot(st.heap, self, VArr(elem, adt, [])))
      && OnlyIn(st.heap, r.0.heap, Foot(st.heap, self, VArr(elem, adt, [])))
      && forall i :: 0 <= i < |vs| ==> HasType(decls, vs[i], typ)
  }

  lemma {:induction false} ItemsMake(st: State, t: nat, root: Ref, r: Ref, elem: Kind, adt: Option<Name>, typ: Type,
                                     n: nat, decls: Decls) returns (vs: seq<Value>)
    requires Inv(st) && Filling(st, t, root, r) && Uniform(st.tables, decls)
    requires Denotes(st.heap, r, VArr(elem, adt, []))
    ensures ItemsMade(st, CreateItems(st, t, root, r, typ, n), r, elem, adt, vs, decls, typ)
    decreases Left(st.budget), 2, n
  {
    vs := [];
    if n > 0 {
      vs := ItemsMake(st, t, root, r, elem, adt, typ, n - 1, decls);
      ItemsKeep(st, t, root, r, typ, n - 1);
      var (st1, o) := CreateItems(st, t, root, r, typ, n - 1);
      if o.Some? {
        vs := ItemMakes(st, st1, t, root, r, elem, adt, typ, vs, decls);
      }
    }
  }

  lemma ItemsKeep(st: State, t: nat, root: Ref, r: Ref, typ: Type, n: nat)
    requires Inv(st) && Filling(st, t, root, r) && st.heap[r].cell.Arr?
    ensures var st1 := CreateItems(st, t, root, r, typ, n).0;
      Inv(st1) && Filling(st1, t, root, r) && st1.tables == st.tables && st1.budget <= st.budget
  {
    CreateItemsOk(st, t, root, r, typ, n);
  }

  lemma {:induction false} ItemMakes(st: State, st1: State, t: nat, root: Ref, r: Ref, elem: Kind, adt: Option<Name>,
                                     typ: Type, vs: seq<Value>, decls: Decls) returns (vs': seq<Value>)
    requires Inv(st1) && Filling(st1, t, root, r) && Uniform(st1.tables, decls) && st1.budget <= st.budget
    requires Denotes(st.heap, r, VArr(elem, adt, []))
    requires ItemsMade(st, (st1, Some(r)), r, elem, adt, vs, decls, typ)
    ensures ItemsMade(st, CreateItem(st1, t, root, r, typ), r, elem, adt, vs', decls, typ)
    decreases Left(st.budget), 1, 1
  {
    var d := CreateMakes(st1, t, root, r, typ, 0, decls);
    vs' := vs + [d];
    var (st2, c) := Create(st1, t, root, r, typ, 0);
    if c.Some? {
      assert st2.heap[r].cell == st1.heap[r].cell;
      ItemMade(st, st1, st2, r, elem, adt, vs, c.value, d, decls, typ);
    }
  }

  lemma ItemMade(st: State, st1: State, st2: State, r: Ref, elem: Kind, adt: Option<Name>, vs: seq<Value>, c: Ref,
                 d: Value, decls: Decls, typ: Type)
    requires Denotes(st.heap, r, VArr(elem, adt, []))
    requires ItemsMade(st, (st1, Some(r)), r, elem, adt, vs, decls, typ) && Made(st1, (st2, Some(c)), decls, typ, d)
    requires r in st2.heap && st2.heap[r].cell.Arr?
    ensures ItemsMade(st, (Push(st2, r, c), Some(r)), r, elem, adt, vs + [d], decls, typ)
  {
    var f, g := Foot(st.heap, r, VArr(elem, adt, [])), Foot(st1.heap, r, VArr(elem, adt, vs));
    ItemAppended(st1.heap, st2.heap, r, elem, adt, vs, c, d);
    OnlySelf(st1, st2, Push(st2, r, c), r, g);
    var h := Push(st2, r, c).heap;
    OnlyInThen(st.heap, st1.heap, h, f, g);
    TreeThen(st.heap, st1.heap, h, r, VArr(elem, adt, vs + [d]), f, g);
  }
}
