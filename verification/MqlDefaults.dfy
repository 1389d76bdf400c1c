/** The value a new node starts with. */
module MqlDefaults {
  import opened Base
  import opened MqlState
  import opened MqlUpdate
  import opened MqlValues
  import opened MqlCopy

  /** 0, 0.0 or the empty string wherever there is a basic value. */
  ghost predicate Initial(v: Value) {
    match v
    case VAtom(b) => b == I(0) || b == D(0.0) || b == S("")
    case VArr(_, _, vs) => forall i :: 0 <= i < |vs| ==> Initial(vs[i])
    case VRec(_, fs) => forall k :: k in fs ==> Initial(fs[k])
  }

  ghost predicate InitialCell(c: Cell) {
    c.Atom? ==> Initial(VAtom(c.b))
  }

  ghost predicate OnlyInitial(h: Heap, h': Heap) {
    forall r :: r in h' ==> InitialCell(h'[r].cell) || (r in h && h[r].cell == h'[r].cell)
  }

  lemma {:induction false} CreatesInitial(st: State, t: nat, root: Ref, parent: Ref, typ: Type, size: int)
    requires t < |st.tables|
    ensures OnlyInitial(st.heap, Create(st, t, root, parent, typ, size).0.heap)
    decreases Left(st.budget), 1, 0
  {
    if st.budget > 0 {
      if typ.kind == StructT {
        var decl := StructDecl(st, t, typ.adt);
        if decl.Some? {
          FieldsInitial(Allocate(st, Rec(typ.adt, map[]), t, root, parent), t, root, st.next, decl.value);
        }
      } else if typ.kind == ArrayT && size >= 0 {
        ItemsInitial(Allocate(st, EmptyArray(typ, t), t, root, parent), t, root, st.next,
                     Type(typ.elem, typ.adt, VoidT), size);
      }
    }
  }

  lemma {:induction false} FieldsInitial(st: State, t: nat, root: Ref, r: Ref, fields: seq<FieldDecl>)
    requires t < |st.tables|
    ensures OnlyInitial(st.heap, CreateFields(st, t, root, r, fields).0.heap)
    decreases Left(st.budget), 2, |fields|
  {
    if fields != [] {
      var n := |fields| - 1;
      FieldsInitial(st, t, root, r, fields[..n]);
      var (st1, o) := CreateFields(st, t, root, r, fields[..n]);
      if o.Some? { FieldInitial(st1, t, root, r, fields[n]); }
    }
  }

  lemma {:induction false} FieldInitial(st: State, t: nat, root: Ref, r: Ref, f: FieldDecl)
    requires t < |st.tables|
    ensures OnlyInitial(st.heap, CreateField(st, t, root, r, f).0.heap)
    decreases Left(st.budget), 1, 1
  {
    if f.typ.kind != ArrayT || f.size.Some? {
      CreatesInitial(st, t, root, r, f.typ, if f.typ.kind == ArrayT then f.size.value else 0);
    }
  }

  lemma {:induction false} ItemsInitial(st: State, t: nat, root: Ref, r: Ref, typ: Type, n: nat)
    requires t < |st.tables|
    ensures OnlyInitial(st.heap, CreateItems(st, t, root, r, typ, n).0.heap)
    decreases Left(st.budget), 2, n
  {
    if n > 0 {
      ItemsInitial(st, t, root, r, typ, n - 1);
      var (st1, o) := CreateItems(st, t, root, r, typ, n - 1);
      if o.Some? { CreatesInitial(st1, t, root, r, typ, 0); }
    }
  }

  lemma {:induction false} InitialFrom(h: Heap, h': Heap, r: Ref, v: Value)
    requires OnlyInitial(h, h') && Denotes(h', r, v) && forall c :: c in Foot(h', r, v) ==> c !in h
    ensures Initial(v)
    decreases v
  {
    assert r in Foot(h', r, v);
    match v
    case VAtom(_) =>
    case VArr(_, _, vs) =>
      forall i | 0 <= i < |vs| ensures Initial(vs[i]) { InitialFrom(h, h', h'[r].cell.items[i], vs[i]); }
    case VRec(_, fs) =>
      forall k | k in fs ensures Initial(fs[k]) { InitialFrom(h, h', h'[r].cell.fields[k], fs[k]); }
  }

  lemma {:induction false} ItemCount(st: State, t: nat, root: Ref, r: Ref, typ: Type, n: nat)
    requires Inv(st) && Filling(st, t, root, r) && st.heap[r].cell.Arr?
    ensures var (st', o) := CreateItems(st, t, root, r, typ, n);
      o.Some? ==> r in st'.heap && st'.heap[r].cell.Arr? && |st'.heap[r].cell.items| == |st.heap[r].cell.items| + n
  {
    if n > 0 {
      ItemCount(st, t, root, r, typ, n - 1);
      ItemsKeep(st, t, root, r, typ, n - 1);
      var (st1, o) := CreateItems(st, t, root, r, typ, n - 1);
      CreateOk(st1, t, root, r, typ, 0);
    }
  }

  /**
    What ASTCreate makes out of new nodes stands for a value of the type in which every basic value is 0, 0.0 or empty;
    an array has the number of items asked for.
   */
  lemma CreateMakesDefault(st: State, t: nat, root: Ref, parent: Ref, typ: Type, size: int, decls: Decls)
    returns (d: Value)
    requires Inv(st) && t < |st.tables| && Uniform(st.tables, decls)
    ensures Made(st, Create(st, t, root, parent, typ, size), decls, typ, d)
    ensures Create(st, t, root, parent, typ, size).1.Some? ==>
      Initial(d) && (typ.kind == ArrayT ==> d.VArr? && |d.items| == size)
  {
    d := CreateMakes(st, t, root, parent, typ, size, decls);
    CreatesInitial(st, t, root, parent, typ, size);
    var (st1, o) := Create(st, t, root, parent, typ, size);
    if o.Some? {
      InitialFrom(st.heap, st1.heap, o.value, d);
      if typ.kind == ArrayT {
        AllocateOk(st, EmptyArray(typ, t), t, root, parent);
        ItemCount(Allocate(st, EmptyArray(typ, t), t, root, parent), t, root, st.next, Type(typ.elem, typ.adt, VoidT),
                  size);
      }
    }
  }
}
