/** Assignment of one value to another copies it: the main theorem about updateADT. */
module MqlAssign {
  import opened Base
  import opened MqlState
  import opened MqlUpdate
  import opened MqlValues
  import opened MqlCopy

  /** Target and source, both trees, without a node in common, and with the fields their structs are declared with. */
  ghost predicate Ready(st: State, t: nat, dst: Ref, u: Value, src: Ref, v: Value, decls: Decls) {
    && Inv(st) && t < |st.tables| && Uniform(st.tables, decls)
    && Denotes(st.heap, dst, u) && Separate(st.heap, dst, u) && Denotes(st.heap, src, v)
    && Foot(st.heap, dst, u) !! Foot(st.heap, src, v)
    && Regular(decls, u) && Regular(decls, v)
  }

  /** Only the target changed, and on success it stands for v. */
  ghost predicate Copied(st: State, r: (State, bool), dst: Ref, u: Value, v: Value)
    requires Denotes(st.heap, dst, u)
  {
    && Inv(r.0) && r.0.tables == st.tables
    && OnlyIn(st.heap, r.0.heap, Foot(st.heap, dst, u))
    && (r.1 ==> Tree(st.heap, r.0.heap, dst, v, Foot(st.heap, dst, u)))
  }

  lemma UpdateInv(st: State, t: nat, dst: Ref, src: Node, fuel: nat)
    requires Inv(st) && t < |st.tables| && dst in st.heap && Live(st, src)
    ensures Inv(Update(st, t, dst, src, fuel).0)
  {
    UpdateOk(st, t, dst, src, fuel, st.heap[dst].table, st.heap[dst].root);
  }

  lemma {:induction false} UpdateCopies(st: State, t: nat, dst: Ref, u: Value, src: Ref, v: Value, fuel: nat,
                                        decls: Decls)
    requires Ready(st, t, dst, u, src, v, decls)
    ensures Copied(st, Update(st, t, dst, At(src), fuel), dst, u, v)
    decreases fuel, 3, 0
  {
    UpdateInv(st, t, dst, At(src), fuel);
    if fuel > 0 {
      match u
      case VAtom(_) =>
      case VArr(_, _, _) => ArrayCopies(st, t, dst, u, src, v, fuel, decls);
      case VRec(adt, w) => RecordCopies(st, t, dst, adt, w, src, v, fuel, decls);
    }
  }

  // ---------------------------------------------------------------- records

  /** w with the fields in names taken from x. */
  function Mixed(w: map<Name, Value>, x: map<Name, Value>, names: set<Name>): map<Name, Value>
    requires w.Keys == x.Keys
  {
    map k | k in w :: if k in names then x[k] else w[k]
  }

  lemma MixedStep(w: map<Name, Value>, x: map<Name, Value>, names: set<Name>, k: Name)
    requires w.Keys == x.Keys
    ensures var w1 := Mixed(w, x, names); Mixed(w, x, names + {k}) == if k in w1 then w1[k := x[k]] else w1
  {}

  ghost predicate FieldsReady(st: State, t: nat, dst: Ref, adt: Name, w: map<Name, Value>, src: Ref,
                              x: map<Name, Value>, decls: Decls) {
    Ready(st, t, dst, VRec(adt, w), src, VRec(adt, x), decls) && w.Keys == x.Keys
  }

  lemma {:induction false} RecordCopies(st: State, t: nat, dst: Ref, adt: Name, w: map<Name, Value>, src: Ref, v: Value,
                                        fuel: nat, decls: Decls)
    requires Ready(st, t, dst, VRec(adt, w), src, v, decls) && fuel > 0
    requires Inv(UpdateRec(st, t, dst, At(src), fuel).0)
    ensures Copied(st, UpdateRec(st, t, dst, At(src), fuel), dst, VRec(adt, w), v)
    decreases fuel, 2, 0
  {
    var decl := StructDecl(st, t, adt);
    if decl.Some? && decl.value != [] && v.VRec? && v.adt == adt {
      AllFields(st, t, dst, adt, w, src, v.fields, decls);
      FieldsCopy(st, t, dst, adt, w, src, v.fields, decl.value, fuel, decls);
    }
  }

  /** Copying every declared field copies the record. */
  lemma AllFields(st: State, t: nat, dst: Ref, adt: Name, w: map<Name, Value>, src: Ref, x: map<Name, Value>,
                  decls: Decls)
    requires Ready(st, t, dst, VRec(adt, w), src, VRec(adt, x), decls) && StructDecl(st, t, adt).Some?
    ensures FieldsReady(st, t, dst, adt, w, src, x, decls)
    ensures Mixed(w, x, FieldNames(StructDecl(st, t, adt).value)) == x
  {
    assert StructIn(st.tables, t, adt) == Some(decls[adt]);
  }

  lemma {:induction false} FieldsCopy(st: State, t: nat, dst: Ref, adt: Name, w: map<Name, Value>, src: Ref,
                                      x: map<Name, Value>, decl: seq<FieldDecl>, fuel: nat, decls: Decls)
    requires FieldsReady(st, t, dst, adt, w, src, x, decls) && fuel > 0
    ensures Copied(st, CopyFields(st, t, dst, src, decl, fuel), dst, VRec(adt, w),
                   VRec(adt, Mixed(w, x, FieldNames(decl))))
    decreases fuel, 1, |decl|
  {
    if decl == [] {
      NoFieldCopied(st, t, dst, adt, w, src, x, decls);
    } else {
      var n := |decl| - 1;
      FieldsCopy(st, t, dst, adt, w, src, x, decl[..n], fuel, decls);
      FieldNamesStep(decl);
      var (st1, ok) := CopyFields(st, t, dst, src, decl[..n], fuel);
      if ok {
        NextFieldCopies(st, st1, t, dst, adt, w, src, x, FieldNames(decl[..n]), decl[n].name, fuel, decls);
      }
    }
  }

  lemma NoFieldCopied(st: State, t: nat, dst: Ref, adt: Name, w: map<Name, Value>, src: Ref, x: map<Name, Value>,
                      decls: Decls)
    requires FieldsReady(st, t, dst, adt, w, src, x, decls)
    ensures Copied(st, (st, true), dst, VRec(adt, w), VRec(adt, Mixed(w, x, FieldNames([]))))
  {
    assert Mixed(w, x, FieldNames([])) == w;
  }

  lemma {:induction false} NextFieldCopies(st: State, st1: State, t: nat, dst: Ref, adt: Name, w: map<Name, Value>,
                                           src: Ref, x: map<Name, Value>, names: set<Name>, k: Name, fuel: nat,
                                           decls: Decls)
    requires FieldsReady(st, t, dst, adt, w, src, x, decls) && fuel > 0
    requires Copied(st, (st1, true), dst, VRec(adt, w), VRec(adt, Mixed(w, x, names)))
    ensures Copied(st, CopyField(st1, t, dst, src, k, fuel), dst, VRec(adt, w), VRec(adt, Mixed(w, x, names + {k})))
    decreases fuel, 0, 3
  {
    MixedStep(w, x, names, k);
    FieldCopiesAfter(st, st1, t, dst, adt, w, Mixed(w, x, names), src, x, k, fuel, decls);
  }

  lemma {:induction false} FieldCopiesAfter(st: State, st1: State, t: nat, dst: Ref, adt: Name, w: map<Name, Value>,
                                            w1: map<Name, Value>, src: Ref, x: map<Name, Value>, k: Name, fuel: nat,
                                            decls: Decls)
    requires FieldsReady(st, t, dst, adt, w, src, x, decls) && fuel > 0 && w1.Keys == x.Keys
    requires Copied(st, (st1, true), dst, VRec(adt, w), VRec(adt, w1))
    requires forall l :: l in w1 ==> w1[l] == w[l] || w1[l] == x[l]
    ensures Copied(st, CopyField(st1, t, dst, src, k, fuel), dst, VRec(adt, w),
                   VRec(adt, if k in w1 then w1[k := x[k]] else w1))
    decreases fuel, 0, 2
  {
    StillReady(st, st1, t, dst, adt, w, w1, src, x, decls);
    FieldCopies(st1, t, dst, adt, w1, src, x, k, fuel, decls);
    CopiedThen(st, st1, CopyField(st1, t, dst, src, k, fuel), dst, VRec(adt, w), VRec(adt, w1),
               VRec(adt, if k in w1 then w1[k := x[k]] else w1));
  }

  lemma CopiedThen(st: State, st1: State, r: (State, bool), dst: Ref, u: Value, u1: Value, v: Value)
    requires Denotes(st.heap, dst, u) && Copied(st, (st1, true), dst, u, u1) && Copied(st1, r, dst, u1, v)
    ensures Copied(st, r, dst, u, v)
  {
    var f, g := Foot(st.heap, dst, u), Foot(st1.heap, dst, u1);
    OnlyInThen(st.heap, st1.heap, r.0.heap, f, g);
    if r.1 { TreeThen(st.heap, st1.heap, r.0.heap, dst, v, f, g); }
  }

  /** After some fields were copied the source is as it was, and still apart from the target. */
  lemma StillReady(st: State, st1: State, t: nat, dst: Ref, adt: Name, w: map<Name, Value>, w1: map<Name, Value>,
                   src: Ref, x: map<Name, Value>, decls: Decls)
    requires FieldsReady(st, t, dst, adt, w, src, x, decls) && w1.Keys == x.Keys
    requires Copied(st, (st1, true), dst, VRec(adt, w), VRec(adt, w1))
    requires forall k :: k in w1 ==> w1[k] == w[k] || w1[k] == x[k]
    ensures FieldsReady(st1, t, dst, adt, w1, src, x, decls)
  {
    StillApart(st, st1, dst, VRec(adt, w), VRec(adt, w1), src, VRec(adt, x));
    RegularMixed(decls, adt, w, x, w1);
  }

  lemma StillApart(st: State, st1: State, dst: Ref, u: Value, u1: Value, src: Ref, v: Value)
    requires Denotes(st.heap, dst, u) && Denotes(st.heap, src, v) && Foot(st.heap, dst, u) !! Foot(st.heap, src, v)
    requires Copied(st, (st1, true), dst, u, u1)
    ensures Denotes(st1.heap, src, v) && Foot(st1.heap, dst, u1) !! Foot(st1.heap, src, v)
  {
    Framed(st.heap, st1.heap, src, v);
  }

  lemma RegularMixed(decls: Decls, adt: Name, w: map<Name, Value>, x: map<Name, Value>, w1: map<Name, Value>)
    requires Regular(decls, VRec(adt, w)) && Regular(decls, VRec(adt, x)) && w.Keys == x.Keys == w1.Keys
    requires forall k :: k in w1 ==> w1[k] == w[k] || w1[k] == x[k]
    ensures Regular(decls, VRec(adt, w1))
  {
    assert HasType(decls, VRec(adt, w), Type(StructT, adt, VoidT))
      && HasType(decls, VRec(adt, x), Type(StructT, adt, VoidT));
  }

  /** A field's nodes are among the record's. */
  lemma FootOfField(h: Heap, r: Ref, adt: Name, w: map<Name, Value>, k: Name)
    requires Denotes(h, r, VRec(adt, w)) && k in w
    ensures Denotes(h, h[r].cell.fields[k], w[k]) && Foot(h, h[r].cell.fields[k], w[k]) <= Foot(h, r, VRec(adt, w))
    ensures Separate(h, r, VRec(adt, w)) ==> Separate(h, h[r].cell.fields[k], w[k])
  {}

  /** The parts of two records that are apart are apart. */
  lemma PartsReady(st: State, t: nat, dst: Ref, adt: Name, w: map<Name, Value>, src: Ref, x: map<Name, Value>, k: Name,
                   decls: Decls, d: Ref, c: Ref)
    requires FieldsReady(st, t, dst, adt, w, src, x, decls) && k in w
    requires d == st.heap[dst].cell.fields[k] && c == st.heap[src].cell.fields[k]
    ensures Ready(st, t, d, w[k], c, x[k], decls)
  {
    FootOfField(st.heap, dst, adt, w, k);
    FootOfField(st.heap, src, adt, x, k);
    ApartBelow(Foot(st.heap, dst, VRec(adt, w)), Foot(st.heap, src, VRec(adt, x)),
               Foot(st.heap, d, w[k]), Foot(st.heap, c, x[k]));
    RegularField(decls, adt, w, k);
    RegularField(decls, adt, x, k);
  }

  lemma ApartBelow(a: set<Ref>, b: set<Ref>, c: set<Ref>, d: set<Ref>)
    requires a !! b && c <= a && d <= b
    ensures c !! d
  {}

  lemma RegularField(decls: Decls, adt: Name, w: map<Name, Value>, k: Name)
    requires Regular(decls, VRec(adt, w)) && k in w
    ensures Regular(decls, w[k]) && HasType(decls, w[k], FieldType(decls[adt], k))
  {
    TypedIsRegular(decls, w[k], FieldType(decls[adt], k));
  }

  lemma {:induction false} FieldCopies(st: State, t: nat, dst: Ref, adt: Name, w: map<Name, Value>, src: Ref,
                                       x: map<Name, Value>, k: Name, fuel: nat, decls: Decls)
    requires FieldsReady(st, t, dst, adt, w, src, x, decls) && fuel > 0
    ensures Copied(st, CopyField(st, t, dst, src, k, fuel), dst, VRec(adt, w),
                   VRec(adt, if k in w then w[k := x[k]] else w))
    decreases fuel, 0, 1
  {
    if k in w {
      FieldCells(st.heap, dst, adt, w, k);
      FieldCells(st.heap, src, adt, x, k);
      CopyFieldIs(st, t, dst, src, k, fuel);
      KnownField(st, t, dst, adt, w, src, x, k, st.heap[dst].cell.fields[k], st.heap[src].cell.fields[k], fuel - 1,
                 decls, CopyField(st, t, dst, src, k, fuel));
    } else {
      UnknownField(st, t, dst, adt, w, src, x, k, fuel);
    }
  }

  lemma {:induction false} KnownField(st: State, t: nat, dst: Ref, adt: Name, w: map<Name, Value>, src: Ref,
                                      x: map<Name, Value>, k: Name, d: Ref, c: Ref, fuel: nat, decls: Decls,
                                      r: (State, bool))
    requires FieldsReady(st, t, dst, adt, w, src, x, decls) && k in w
    requires d == st.heap[dst].cell.fields[k] && c == st.heap[src].cell.fields[k]
    requires r == Update(st, t, d, At(c), fuel)
    ensures Copied(st, r, dst, VRec(adt, w), VRec(adt, w[k := x[k]]))
    decreases fuel, 5, 0
  {
    PartsReady(st, t, dst, adt, w, src, x, k, decls, d, c);
    PartCopies(st, t, d, w[k], c, x[k], fuel, decls, r);
    PartCopied(st, r, dst, adt, w, k, d, x[k]);
  }

  lemma {:induction false} PartCopies(st: State, t: nat, dst: Ref, u: Value, src: Ref, v: Value, fuel: nat,
                                      decls: Decls, r: (State, bool))
    requires Ready(st, t, dst, u, src, v, decls) && r == Update(st, t, dst, At(src), fuel)
    ensures Copied(st, r, dst, u, v)
    decreases fuel, 4, 0
  {
    UpdateCopies(st, t, dst, u, src, v, fuel, decls);
  }

  lemma FieldCells(h: Heap, r: Ref, adt: Name, w: map<Name, Value>, k: Name)
    requires Denotes(h, r, VRec(adt, w)) && k in w
    ensures r in h && h[r].cell.Rec? && k in h[r].cell.fields
  {}

  lemma UnknownField(st: State, t: nat, dst: Ref, adt: Name, w: map<Name, Value>, src: Ref, x: map<Name, Value>,
                     k: Name, fuel: nat)
    requires Inv(st) && t < |st.tables| && fuel > 0 && w.Keys == x.Keys && k !in w
    requires Denotes(st.heap, dst, VRec(adt, w)) && Denotes(st.heap, src, VRec(adt, x))
    ensures Copied(st, CopyField(st, t, dst, src, k, fuel), dst, VRec(adt, w), VRec(adt, w))
  {
    assert CopyField(st, t, dst, src, k, fuel) == (st, false);
  }

  lemma CopyFieldIs(st: State, t: nat, dst: Ref, src: Ref, k: Name, fuel: nat)
    requires t < |st.tables| && fuel > 0
    requires dst in st.heap && st.heap[dst].cell.Rec? && k in st.heap[dst].cell.fields
    requires src in st.heap && st.heap[src].cell.Rec? && k in st.heap[src].cell.fields
    ensures CopyField(st, t, dst, src, k, fuel)
         == Update(st, t, st.heap[dst].cell.fields[k], At(st.heap[src].cell.fields[k]), fuel - 1)
  {}

  lemma PartCopied(st: State, r: (State, bool), dst: Ref, adt: Name, w: map<Name, Value>, k: Name, d: Ref, v: Value)
    requires Denotes(st.heap, dst, VRec(adt, w)) && Separate(st.heap, dst, VRec(adt, w)) && k in w
    requires d == st.heap[dst].cell.fields[k] && Copied(st, r, d, w[k], v)
    ensures Copied(st, r, dst, VRec(adt, w), VRec(adt, w[k := v]))
  {
    if r.1 { FieldReplaced(st.heap, r.0.heap, dst, adt, w, k, v); }
  }

  // ---------------------------------------------------------------- arrays

  lemma {:induction false} ArrayCopies(st: State, t: nat, dst: Ref, u: Value, src: Ref, v: Value, fuel: nat,
                                       decls: Decls)
    requires Ready(st, t, dst, u, src, v, decls) && fuel > 0 && u.VArr?
    requires Inv(UpdateArr(st, t, dst, At(src), fuel).0)
    ensures Copied(st, UpdateArr(st, t, dst, At(src), fuel), dst, u, v)
    decreases fuel, 2, 0
  {
    if SameArray(st.heap[dst].cell, st.heap[src].cell) {
      var cleared := Clear(st, dst);
      ClearedReady(st, t, dst, u, src, v, decls);
      var items := cleared.heap[src].cell.items;
      ItemsCopy(cleared, t, dst, u.elem, u.elemAdt, src, v, items, |items|, fuel, decls);
      assert items[..|items|] == items && v.items[..|items|] == v.items;
      CopiedThen(st, cleared, UpdateItems(cleared, t, dst, Refs(items), fuel), dst, u, VArr(u.elem, u.elemAdt, []), v);
    }
  }

  lemma ClearedReady(st: State, t: nat, dst: Ref, u: Value, src: Ref, v: Value, decls: Decls)
    requires Ready(st, t, dst, u, src, v, decls) && u.VArr? && SameArray(st.heap[dst].cell, st.heap[src].cell)
    ensures v == VArr(u.elem, u.elemAdt, v.items)
    ensures Copied(st, (Clear(st, dst), true), dst, u, VArr(u.elem, u.elemAdt, []))
    ensures ItemsReady(Clear(st, dst), t, dst, u.elem, u.elemAdt, src, v, st.heap[src].cell.items, decls)
  {
    ClearOk(st, dst);
    ClearedCopied(st, dst, u);
    Framed(st.heap, Clear(st, dst).heap, src, v);
    SameArrayValue(st, dst, u, src, v, decls);
  }

  lemma SameArrayValue(st: State, dst: Ref, u: Value, src: Ref, v: Value, decls: Decls)
    requires Denotes(st.heap, dst, u) && Denotes(st.heap, src, v) && Regular(decls, u) && Regular(decls, v)
    requires u.VArr? && SameArray(st.heap[dst].cell, st.heap[src].cell)
    ensures v == VArr(u.elem, u.elemAdt, v.items)
  {}

  lemma ClearedCopied(st: State, dst: Ref, u: Value)
    requires Denotes(st.heap, dst, u) && u.VArr? && Inv(Clear(st, dst))
    ensures Copied(st, (Clear(st, dst), true), dst, u, VArr(u.elem, u.elemAdt, []))
  {}

  /** The emptied target, and the source apart from it. */
  ghost predicate ItemsReady(st: State, t: nat, dst: Ref, elem: Kind, adt: Option<Name>, src: Ref, v: Value,
                             items: seq<Ref>, decls: Decls) {
    && Inv(st) && t < |st.tables| && Uniform(st.tables, decls) && v.VArr? && Regular(decls, v)
    && Denotes(st.heap, dst, VArr(elem, adt, [])) && Denotes(st.heap, src, v) && st.heap[src].cell.items == items
    && dst !in Foot(st.heap, src, v)
  }

  lemma {:induction false} ItemsCopy(st: State, t: nat, dst: Ref, elem: Kind, adt: Option<Name>, src: Ref, v: Value,
                                     items: seq<Ref>, n: nat, fuel: nat, decls: Decls)
    requires ItemsReady(st, t, dst, elem, adt, src, v, items, decls) && fuel > 0 && n <= |items|
    ensures Copied(st, UpdateItems(st, t, dst, Refs(items[..n]), fuel), dst, VArr(elem, adt, []),
                   VArr(elem, adt, v.items[..n]))
    decreases fuel, 1, n
  {
    if n == 0 {
      assert Refs(items[..0]) == [] && v.items[..0] == [];
    } else {
      ItemsCopy(st, t, dst, elem, adt, src, v, items, n - 1, fuel, decls);
      LastItemCopies(st, UpdateItems(st, t, dst, Refs(items[..n - 1]), fuel), t, dst, elem, adt, src, v, items, n, fuel,
                     decls);
    }
  }

  lemma {:induction false} LastItemCopies(st: State, r1: (State, bool), t: nat, dst: Ref, elem: Kind, adt: Option<Name>,
                                          src: Ref, v: Value, items: seq<Ref>, n: nat, fuel: nat, decls: Decls)
    requires ItemsReady(st, t, dst, elem, adt, src, v, items, decls) && fuel > 0 && 0 < n <= |items|
    requires r1 == UpdateItems(st, t, dst, Refs(items[..n - 1]), fuel)
    requires Copied(st, r1, dst, VArr(elem, adt, []), VArr(elem, adt, v.items[..n - 1]))
    ensures Copied(st, UpdateItems(st, t, dst, Refs(items[..n]), fuel), dst, VArr(elem, adt, []),
                   VArr(elem, adt, v.items[..n]))
    decreases fuel, 0, 2
  {
    UpdateItemsStep(st, t, dst, items, n, fuel);
    assert v.items[..n] == v.items[..n - 1] + [v.items[n - 1]];
    if r1.1 { NextItemCopies(st, r1.0, t, dst, elem, adt, src, v, items, n - 1, v.items[..n - 1], fuel, decls); }
  }

  /** One item after the others. */
  lemma UpdateItemsStep(st: State, t: nat, dst: Ref, items: seq<Ref>, n: nat, fuel: nat)
    requires t < |st.tables| && fuel > 0 && 0 < n <= |items|
    ensures var r1 := UpdateItems(st, t, dst, Refs(items[..n - 1]), fuel);
      UpdateItems(st, t, dst, Refs(items[..n]), fuel) ==
        if r1.1 then UpdateItem(r1.0, t, dst, At(items[n - 1]), fuel) else r1
  {
    assert Refs(items[..n])[..n - 1] == Refs(items[..n - 1]);
  }

  lemma {:induction false} NextItemCopies(st: State, st1: State, t: nat, dst: Ref, elem: Kind, adt: Option<Name>,
                                          src: Ref, v: Value, items: seq<Ref>, i: nat, vs: seq<Value>, fuel: nat,
                                          decls: Decls)
    requires ItemsReady(st, t, dst, elem, adt, src, v, items, decls) && fuel > 0 && i < |items|
    requires Copied(st, (st1, true), dst, VArr(elem, adt, []), VArr(elem, adt, vs))
    ensures Copied(st, UpdateItem(st1, t, dst, At(items[i]), fuel), dst, VArr(elem, adt, []),
                   VArr(elem, adt, vs + [v.items[i]]))
    decreases fuel, 0, 1
  {
    ItemApart(st, st1, dst, elem, adt, src, v, i, vs);
    ItemCopies(st1, t, dst, elem, adt, vs, items[i], v.items[i], fuel, decls);
    CopiedThen(st, st1, UpdateItem(st1, t, dst, At(items[i]), fuel), dst, VArr(elem, adt, []), VArr(elem, adt, vs),
               VArr(elem, adt, vs + [v.items[i]]));
  }

  lemma ItemApart(st: State, st1: State, dst: Ref, elem: Kind, adt: Option<Name>, src: Ref, v: Value, i: nat,
                  vs: seq<Value>)
    requires v.VArr? && i < |v.items| && Denotes(st.heap, src, v) && Denotes(st.heap, dst, VArr(elem, adt, []))
    requires dst !in Foot(st.heap, src, v) && Copied(st, (st1, true), dst, VArr(elem, adt, []), VArr(elem, adt, vs))
    ensures var c := st.heap[src].cell.items[i];
      Denotes(st1.heap, c, v.items[i]) && dst !in Foot(st1.heap, c, v.items[i])
  {
    Framed(st.heap, st1.heap, st.heap[src].cell.items[i], v.items[i]);
  }

  lemma {:induction false} ItemCopies(st: State, t: nat, dst: Ref, elem: Kind, adt: Option<Name>, vs: seq<Value>,
                                      src: Ref, v: Value, fuel: nat, decls: Decls)
    requires Inv(st) && t < |st.tables| && Uniform(st.tables, decls) && fuel > 0 && Regular(decls, v)
    requires Denotes(st.heap, dst, VArr(elem, adt, vs)) && Separate(st.heap, dst, VArr(elem, adt, vs))
    requires Denotes(st.heap, src, v) && dst !in Foot(st.heap, src, v)
    ensures Copied(st, UpdateItem(st, t, dst, At(src), fuel), dst, VArr(elem, adt, vs), VArr(elem, adt, vs + [v]))
    decreases fuel, 0, 0
  {
    ItemInv(st, t, dst, src, fuel);
    var d := NewElementMade(st, dst, decls);
    var (st1, c) := NewElement(st, dst);
    if c.Some? {
      NewElementReady(st, st1, t, c.value, ItemType(elem, adt), d, src, v, decls);
      NewItemCopies(st, st1, t, dst, elem, adt, vs, c.value, d, src, v, fuel, decls);
    } else {
      NothingCopied(st, st1, dst, VArr(elem, adt, vs), VArr(elem, adt, vs + [v]));
    }
  }

  lemma {:induction false} NewItemCopies(st: State, st1: State, t: nat, dst: Ref, elem: Kind, adt: Option<Name>,
                                         vs: seq<Value>, c: Ref, d: Value, src: Ref, v: Value, fuel: nat, decls: Decls)
    requires t < |st.tables| && st1.tables == st.tables && fuel > 0 && Ready(st1, t, c, d, src, v, decls)
    requires Denotes(st.heap, dst, VArr(elem, adt, vs)) && Separate(st.heap, dst, VArr(elem, adt, vs))
    requires OnlyIn(st.heap, st1.heap, {}) && Tree(st.heap, st1.heap, c, d, {})
    requires Inv(FillElement(st1, t, dst, c, At(src), fuel).0)
    ensures Copied(st, FillElement(st1, t, dst, c, At(src), fuel), dst, VArr(elem, adt, vs), VArr(elem, adt, vs + [v]))
    decreases fuel - 1, 6, 0
  {
    PartCopies(st1, t, c, d, src, v, fuel - 1, decls, Update(st1, t, c, At(src), fuel - 1));
    ElementFilled(st, st1, t, dst, elem, adt, vs, c, d, At(src), v, fuel, decls);
  }

  lemma ItemInv(st: State, t: nat, dst: Ref, src: Ref, fuel: nat)
    requires Inv(st) && t < |st.tables| && dst in st.heap && st.heap[dst].cell.Arr? && src in st.heap && fuel > 0
    ensures st.heap[dst].cell.home < |st.tables|
    ensures Inv(NewElement(st, dst).0) && Inv(UpdateItem(st, t, dst, At(src), fuel).0)
  {
    assert ObjOk(st.heap, dst, st.heap[dst]);
    NewElementOk(st, dst, st.heap[dst].table, st.heap[dst].root);
    UpdateItemOk(st, t, dst, At(src), fuel, st.heap[dst].table, st.heap[dst].root);
  }

  lemma NothingCopied(st: State, st1: State, dst: Ref, u: Value, v: Value)
    requires Denotes(st.heap, dst, u) && Inv(st1) && st1.tables == st.tables && OnlyIn(st.heap, st1.heap, {})
    ensures Copied(st, (st1, false), dst, u, v)
  {}

  lemma NewElementMade(st: State, dst: Ref, decls: Decls) returns (d: Value)
    requires Inv(st) && dst in st.heap && st.heap[dst].cell.Arr? && st.heap[dst].cell.home < |st.tables|
    requires Uniform(st.tables, decls)
    ensures var cell := st.heap[dst].cell; Made(st, NewElement(st, dst), decls, ItemType(cell.elem, cell.elemAdt), d)
  {
    var cell := st.heap[dst].cell;
    d := CreateMakes(st, cell.home, st.heap[dst].root, dst, ItemType(cell.elem, cell.elemAdt), 0, decls);
  }

  lemma NewElementReady(st: State, st1: State, t: nat, c: Ref, typ: Type, d: Value, src: Ref, v: Value, decls: Decls)
    requires Inv(st1) && t < |st1.tables| && st1.tables == st.tables && Uniform(st.tables, decls) && Regular(decls, v)
    requires Made(st, (st1, Some(c)), decls, typ, d) && Denotes(st.heap, src, v)
    ensures Ready(st1, t, c, d, src, v, decls)
  {
    TypedIsRegular(decls, d, typ);
    Framed(st.heap, st1.heap, src, v);
  }

  lemma ElementFilled(st: State, st1: State, t: nat, dst: Ref, elem: Kind, adt: Option<Name>, vs: seq<Value>, c: Ref,
                      d: Value, src: Node, v: Value, fuel: nat, decls: Decls)
    requires t < |st.tables| && st1.tables == st.tables && fuel > 0
    requires Denotes(st.heap, dst, VArr(elem, adt, vs)) && Separate(st.heap, dst, VArr(elem, adt, vs))
    requires OnlyIn(st.heap, st1.heap, {}) && Tree(st.heap, st1.heap, c, d, {})
      && Copied(st1, Update(st1, t, c, src, fuel - 1), c, d, v)
    requires Inv(FillElement(st1, t, dst, c, src, fuel).0)
    ensures Copied(st, FillElement(st1, t, dst, c, src, fuel), dst, VArr(elem, adt, vs), VArr(elem, adt, vs + [v]))
  {
    var (st2, ok) := Update(st1, t, c, src, fuel - 1);
    var f := Foot(st1.heap, c, d);
    OnlyInThen(st.heap, st1.heap, st2.heap, {}, f);
    assert st2.heap[dst].cell == st.heap[dst].cell;
    if ok {
      TreeThen(st.heap, st1.heap, st2.heap, c, v, {}, f);
      ItemAppended(st.heap, st2.heap, dst, elem, adt, vs, c, v);
    }
  }

  // ---------------------------------------------------------------- what an assignment achieves

  lemma {:induction false} WellFormedFrom(decls: Decls, v: Value)
    requires Regular(decls, v)
    ensures WellFormed(v)
  {
    match v
    case VAtom(_) =>
    case VArr(_, _, vs) => forall i | 0 <= i < |vs| ensures WellFormed(vs[i]) { WellFormedFrom(decls, vs[i]); }
    case VRec(adt, fs) =>
      forall k | k in fs ensures WellFormed(fs[k]) {
        RegularField(decls, adt, fs, k);
        WellFormedFrom(decls, fs[k]);
      }
  }

  /**
    Assigning to a well-formed target from a well-formed source without a node in common, where struct names are global:
    whatever happens, nothing but the target's own nodes changes and the source stands for the same value; on success
    the target is ADTEqual to the source, is a tree, and still shares no node with it.
   */
  lemma AssignmentCopies(st: State, t: nat, dst: Ref, u: Value, src: Ref, v: Value, fuel: nat, depth: nat, decls: Decls)
    requires Ready(st, t, dst, u, src, v, decls) && Within(v, depth)
    ensures var (st', ok) := Update(st, t, dst, At(src), fuel);
      && Inv(st') && st'.tables == st.tables
      && OnlyIn(st.heap, st'.heap, Foot(st.heap, dst, u))
      && Denotes(st'.heap, src, v) && Foot(st'.heap, src, v) == Foot(st.heap, src, v)
      && (ok ==> Denotes(st'.heap, dst, v) && Separate(st'.heap, dst, v)
                 && Foot(st'.heap, dst, v) !! Foot(st'.heap, src, v) && ADTEqual(st'.heap, dst, src, depth))
  {
    UpdateCopies(st, t, dst, u, src, v, fuel, decls);
    var (st', ok) := Update(st, t, dst, At(src), fuel);
    Framed(st.heap, st'.heap, src, v);
    if ok {
      WellFormedFrom(decls, v);
      ADTEqualIsValueEquality(st'.heap, dst, src, v, v, depth);
    }
  }

  /** Disjointness matters: an array assigned to itself is emptied, so it survives exactly when it was empty. */
  lemma SelfAssignmentEmpties(st: State, t: nat, r: Ref, elem: Kind, adt: Option<Name>, vs: seq<Value>, fuel: nat)
    requires t < |st.tables| && fuel > 0 && Denotes(st.heap, r, VArr(elem, adt, vs))
    ensures var (st', ok) := Update(st, t, r, At(r), fuel);
      ok && Denotes(st'.heap, r, VArr(elem, adt, [])) && (Denotes(st'.heap, r, VArr(elem, adt, vs)) <==> vs == [])
  {
    var cleared := Clear(st, r);
    assert Refs(cleared.heap[r].cell.items) == [];
    assert UpdateItems(cleared, t, r, [], fuel) == (cleared, true);
    assert UpdateArr(st, t, r, At(r), fuel) == (cleared, true);
    assert Update(st, t, r, At(r), fuel) == (cleared, true);
  }
}
