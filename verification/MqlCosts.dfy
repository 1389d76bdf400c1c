/**
  When creating and copying succeed. Struct declarations and the value decide how many nodes either takes; within the
  allocation limit both succeed, beyond it both fail.
 */
module MqlCosts {
  import opened Base
  import opened MqlState
  import opened MqlUpdate
  import opened MqlValues
  import opened MqlCopy
  import opened MqlAssign

  function Plus(a: Option<nat>, b: Option<nat>): Option<nat> {
    if a.Some? && b.Some? then Some(a.value + b.value) else None
  }

  predicate Affordable(cost: Option<nat>, budget: int) {
    cost.Some? && cost.value <= Left(budget)
  }

  // ---------------------------------------------------------------- defaults

  /**
    How many nodes the default value of a type takes: for a struct its fields, each with its default, for an array
    `size` items. None when there is no such value with at most `depth` levels.
   */
  function CreateCost(decls: Decls, typ: Type, size: int, depth: nat): Option<nat>
    decreases depth, 0, 0
  {
    if depth == 0 then None
    else
      match typ.kind
      case StructT =>
        if typ.adt !in decls || decls[typ.adt] == [] then None
        else Plus(Some(1), FieldsCost(decls, decls[typ.adt], depth - 1))
      case ArrayT =>
        if size < 0 || (typ.elem == StructT && typ.adt !in decls) then None
        else Plus(Some(1), ItemsCost(decls, Type(typ.elem, typ.adt, VoidT), size, depth - 1))
      case VoidT => None
      case _ => Some(1)
  }

  function FieldsCost(decls: Decls, fields: seq<FieldDecl>, depth: nat): Option<nat>
    decreases depth, 1, |fields|
  {
    if fields == [] then Some(0)
    else Plus(FieldsCost(decls, fields[..|fields| - 1], depth), FieldCost(decls, fields[|fields| - 1], depth))
  }

  function FieldCost(decls: Decls, f: FieldDecl, depth: nat): Option<nat>
    decreases depth, 0, 1
  {
    if f.typ.kind == ArrayT && f.size.None? then None
    else CreateCost(decls, f.typ, if f.typ.kind == ArrayT then f.size.value else 0, depth)
  }

  function ItemsCost(decls: Decls, typ: Type, n: nat, depth: nat): Option<nat>
    decreases depth, 1, n
  {
    if n == 0 then Some(0) else Plus(ItemsCost(decls, typ, n - 1, depth), CreateCost(decls, typ, 0, depth))
  }

  /** It succeeds exactly when the limit allows, and takes as many nodes as said. */
  ghost predicate Paid(before: int, r: (State, Option<Ref>), cost: Option<nat>) {
    (r.1.Some? <==> Affordable(cost, before)) && (r.1.Some? ==> r.0.budget == before - cost.value)
  }

  lemma PaidThen(before: int, r1: (State, Option<Ref>), c1: Option<nat>, r2: (State, Option<Ref>), c2: Option<nat>)
    requires Paid(before, r1, c1) && (r1.1.Some? ==> Paid(r1.0.budget, r2, c2)) && (r1.1.None? ==> r2.1.None?)
    ensures Paid(before, r2, Plus(c1, c2))
  {}

  /** ASTCreate succeeds exactly when the type has a default value and the limit allows its nodes. */
  lemma {:induction false} CreateDecided(st: State, t: nat, root: Ref, parent: Ref, typ: Type, size: int, depth: nat,
                                         decls: Decls)
    requires Inv(st) && t < |st.tables| && Uniform(st.tables, decls) && depth >= Left(st.budget)
    ensures Paid(st.budget, Create(st, t, root, parent, typ, size), CreateCost(decls, typ, size, depth))
    decreases Left(st.budget), 1, 0
  {
    assert StructIn(st.tables, t, typ.adt) == if typ.adt in decls then Some(decls[typ.adt]) else None;
    if st.budget > 0 {
      if typ.kind == StructT {
        if typ.adt in decls && decls[typ.adt] != [] {
          AllocateOk(st, Rec(typ.adt, map[]), t, root, parent);
          var st1 := Allocate(st, Rec(typ.adt, map[]), t, root, parent);
          FieldsDecided(st1, t, root, st.next, decls[typ.adt], depth - 1, decls);
          OneMore(st.budget, CreateFields(st1, t, root, st.next, decls[typ.adt]),
                  FieldsCost(decls, decls[typ.adt], depth - 1));
        }
      } else if typ.kind == ArrayT {
        if size >= 0 && !(typ.elem == StructT && typ.adt !in decls) {
          AllocateOk(st, EmptyArray(typ, t), t, root, parent);
          var st1, elem := Allocate(st, EmptyArray(typ, t), t, root, parent), Type(typ.elem, typ.adt, VoidT);
          DefaultsDecided(st1, t, root, st.next, elem, size, depth - 1, decls);
          OneMore(st.budget, CreateItems(st1, t, root, st.next, elem, size), ItemsCost(decls, elem, size, depth - 1));
        }
      }
    }
  }

  lemma OneMore(before: int, r: (State, Option<Ref>), cost: Option<nat>)
    requires before > 0 && Paid(before - 1, r, cost)
    ensures Paid(before, r, Plus(Some(1), cost))
  {}

  lemma {:induction false} FieldsDecided(st: State, t: nat, root: Ref, r: Ref, fields: seq<FieldDecl>, depth: nat,
                                         decls: Decls)
    requires Inv(st) && Filling(st, t, root, r) && st.heap[r].cell.Rec? && Uniform(st.tables, decls)
    requires depth >= Left(st.budget)
    ensures Paid(st.budget, CreateFields(st, t, root, r, fields), FieldsCost(decls, fields, depth))
    decreases Left(st.budget), 2, |fields|
  {
    if fields != [] {
      var n := |fields| - 1;
      FieldsDecided(st, t, root, r, fields[..n], depth, decls);
      CreateFieldsOk(st, t, root, r, fields[..n]);
      var (st1, o) := CreateFields(st, t, root, r, fields[..n]);
      if o.Some? {
        FieldDecided(st1, t, root, r, fields[n], depth, decls);
      }
      PaidThen(st.budget, (st1, o), FieldsCost(decls, fields[..n], depth), CreateFields(st, t, root, r, fields),
               FieldCost(decls, fields[n], depth));
    }
  }

  lemma {:induction false} FieldDecided(st: State, t: nat, root: Ref, r: Ref, f: FieldDecl, depth: nat, decls: Decls)
    requires Inv(st) && Filling(st, t, root, r) && st.heap[r].cell.Rec? && Uniform(st.tables, decls)
    requires depth >= Left(st.budget)
    ensures Paid(st.budget, CreateField(st, t, root, r, f), FieldCost(decls, f, depth))
    decreases Left(st.budget), 1, 1
  {
    if !(f.typ.kind == ArrayT && f.size.None?) {
      var size := if f.typ.kind == ArrayT then f.size.value else 0;
      CreateDecided(st, t, root, r, f.typ, size, depth, decls);
      CreateOk(st, t, root, r, f.typ, size);
    }
  }

  lemma {:induction false} DefaultsDecided(st: State, t: nat, root: Ref, r: Ref, typ: Type, n: nat, depth: nat,
                                           decls: Decls)
    requires Inv(st) && Filling(st, t, root, r) && st.heap[r].cell.Arr? && Uniform(st.tables, decls)
    requires depth >= Left(st.budget)
    ensures Paid(st.budget, CreateItems(st, t, root, r, typ, n), ItemsCost(decls, typ, n, depth))
    decreases Left(st.budget), 2, n
  {
    if n > 0 {
      DefaultsDecided(st, t, root, r, typ, n - 1, depth, decls);
      CreateItemsOk(st, t, root, r, typ, n - 1);
      var (st1, o) := CreateItems(st, t, root, r, typ, n - 1);
      if o.Some? {
        DefaultDecided(st1, t, root, r, typ, depth, decls);
      }
      PaidThen(st.budget, (st1, o), ItemsCost(decls, typ, n - 1, depth), CreateItems(st, t, root, r, typ, n),
               CreateCost(decls, typ, 0, depth));
    }
  }

  lemma {:induction false} DefaultDecided(st: State, t: nat, root: Ref, r: Ref, typ: Type, depth: nat, decls: Decls)
    requires Inv(st) && Filling(st, t, root, r) && st.heap[r].cell.Arr? && Uniform(st.tables, decls)
    requires depth >= Left(st.budget)
    ensures Paid(st.budget, CreateItem(st, t, root, r, typ), CreateCost(decls, typ, 0, depth))
    decreases Left(st.budget), 1, 1
  {
    CreateDecided(st, t, root, r, typ, 0, depth, decls);
    CreateOk(st, t, root, r, typ, 0);
  }

  // ---------------------------------------------------------------- copies

  /**
    How many nodes copying v into a value of the same type takes: nothing is reused, so every item of every array in it
    is created anew before it is copied.
   */
  function CopyCost(decls: Decls, v: Value, depth: nat): Option<nat>
    decreases v, 1, 0
  {
    match v
    case VAtom(_) => Some(0)
    case VArr(_, _, vs) => ItemsCopyCost(decls, v, |vs|, depth)
    case VRec(adt, _) => if adt in decls then FieldsCopyCost(decls, v, decls[adt], depth) else None
  }

  function ItemsCopyCost(decls: Decls, v: Value, n: nat, depth: nat): Option<nat>
    requires v.VArr? && n <= |v.items|
    decreases v, 0, n
  {
    if n == 0 then Some(0)
    else
      Plus(ItemsCopyCost(decls, v, n - 1, depth),
           Plus(CreateCost(decls, ItemType(v.elem, v.elemAdt), 0, depth), CopyCost(decls, v.items[n - 1], depth)))
  }

  function FieldsCopyCost(decls: Decls, v: Value, decl: seq<FieldDecl>, depth: nat): Option<nat>
    requires v.VRec?
    decreases v, 0, |decl|
  {
    if decl == [] then Some(0)
    else
      var n := |decl| - 1;
      if decl[n].name !in v.fields then None
      else Plus(FieldsCopyCost(decls, v, decl[..n], depth), CopyCost(decls, v.fields[decl[n].name], depth))
  }

  ghost predicate PaidFor(before: int, r: (State, bool), cost: Option<nat>) {
    (r.1 <==> Affordable(cost, before)) && (r.1 ==> r.0.budget == before - cost.value)
  }

  lemma PaidForThen(before: int, r1: (State, bool), c1: Option<nat>, r2: (State, bool), c2: Option<nat>)
    requires PaidFor(before, r1, c1) && (r1.1 ==> PaidFor(r1.0.budget, r2, c2)) && (!r1.1 ==> !r2.1)
    ensures PaidFor(before, r2, Plus(c1, c2))
  {}

  lemma LessLeft(before: int, r: (State, bool), cost: Option<nat>, depth: nat)
    requires PaidFor(before, r, cost) && depth >= Left(before)
    ensures r.1 ==> depth >= Left(r.0.budget)
  {}

  /** Ready, and both of one type. */
  ghost predicate TypedPair(st: State, t: nat, dst: Ref, u: Value, src: Ref, v: Value, typ: Type, fuel: nat, depth: nat,
                            decls: Decls) {
    && Ready(st, t, dst, u, src, v, decls) && HasType(decls, u, typ) && HasType(decls, v, typ)
    && Within(v, fuel) && depth >= Left(st.budget)
  }

  /**
    An assignment between separate values of one type succeeds exactly when the limit allows the nodes it takes. fuel
    must suffice for the nesting of the source.
   */
  lemma {:induction false} AssignmentDecided(st: State, t: nat, dst: Ref, u: Value, src: Ref, v: Value, typ: Type,
                                             fuel: nat, depth: nat, decls: Decls)
    requires TypedPair(st, t, dst, u, src, v, typ, fuel, depth, decls)
    ensures PaidFor(st.budget, Update(st, t, dst, At(src), fuel), CopyCost(decls, v, depth))
    decreases fuel, 4, 0
  {
    match v
    case VAtom(_) =>
    case VArr(_, _, _) => ArrayDecided(st, t, dst, u, src, v, typ, fuel, depth, decls);
    case VRec(adt, x) => RecordDecided(st, t, dst, adt, u, src, x, typ, fuel, depth, decls);
  }

  lemma {:induction false} ArrayDecided(st: State, t: nat, dst: Ref, u: Value, src: Ref, v: Value, typ: Type, fuel: nat,
                                        depth: nat, decls: Decls)
    requires TypedPair(st, t, dst, u, src, v, typ, fuel, depth, decls) && v.VArr?
    ensures PaidFor(st.budget, Update(st, t, dst, At(src), fuel), CopyCost(decls, v, depth))
    decreases fuel, 3, 0
  {
    ClearedReady(st, t, dst, u, src, v, decls);
    var cleared, items := Clear(st, dst), st.heap[src].cell.items;
    assert items[..|items|] == items;
    ArrayCopyIs(st, t, dst, src, fuel);
    CopiesDecided(cleared, t, dst, v.elem, v.elemAdt, src, v, items, |items|, fuel, depth, decls);
  }

  lemma ArrayCopyIs(st: State, t: nat, dst: Ref, src: Ref, fuel: nat)
    requires t < |st.tables| && fuel > 0 && dst in st.heap && src in st.heap && dst != src
    requires SameArray(st.heap[dst].cell, st.heap[src].cell)
    ensures Update(st, t, dst, At(src), fuel) ==
      UpdateItems(Clear(st, dst), t, dst, Refs(st.heap[src].cell.items), fuel)
  {}

  lemma {:induction false} CopiesDecided(st: State, t: nat, dst: Ref, elem: Kind, adt: Option<Name>, src: Ref, v: Value,
                                         items: seq<Ref>, n: nat, fuel: nat, depth: nat, decls: Decls)
    requires ItemsReady(st, t, dst, elem, adt, src, v, items, decls) && fuel > 0 && n <= |items|
    requires v.elem == elem && v.elemAdt == adt && ItemsTyped(decls, v) && Within(v, fuel) && depth >= Left(st.budget)
    ensures PaidFor(st.budget, UpdateItems(st, t, dst, Refs(items[..n]), fuel), ItemsCopyCost(decls, v, n, depth))
    decreases fuel, 2, n
  {
    if n > 0 {
      var i := n - 1;
      CopiesDecided(st, t, dst, elem, adt, src, v, items, i, fuel, depth, decls);
      ItemsCopy(st, t, dst, elem, adt, src, v, items, i, fuel, decls);
      var r1 := UpdateItems(st, t, dst, Refs(items[..i]), fuel);
      LessLeft(st.budget, r1, ItemsCopyCost(decls, v, i, depth), depth);
      if r1.1 {
        NextItemDecided(st, r1.0, t, dst, elem, adt, src, v, items, i, fuel, depth, decls);
      }
      ItemsPaid(st, t, dst, items, n, fuel, ItemsCopyCost(decls, v, i, depth),
                Plus(CreateCost(decls, ItemType(elem, adt), 0, depth), CopyCost(decls, v.items[i], depth)));
    }
  }

  lemma ItemsPaid(st: State, t: nat, dst: Ref, items: seq<Ref>, n: nat, fuel: nat, c1: Option<nat>, c2: Option<nat>)
    requires t < |st.tables| && fuel > 0 && 0 < n <= |items|
    requires var r1 := UpdateItems(st, t, dst, Refs(items[..n - 1]), fuel);
      && PaidFor(st.budget, r1, c1)
      && (r1.1 ==> PaidFor(r1.0.budget, UpdateItem(r1.0, t, dst, At(items[n - 1]), fuel), c2))
    ensures PaidFor(st.budget, UpdateItems(st, t, dst, Refs(items[..n]), fuel), Plus(c1, c2))
  {
    UpdateItemsStep(st, t, dst, items, n, fuel);
  }

  lemma {:induction false} NextItemDecided(st: State, st1: State, t: nat, dst: Ref, elem: Kind, adt: Option<Name>,
                                           src: Ref, v: Value, items: seq<Ref>, i: nat, fuel: nat, depth: nat,
                                           decls: Decls)
    requires ItemsReady(st, t, dst, elem, adt, src, v, items, decls) && fuel > 0 && i < |items|
    requires v.elem == elem && v.elemAdt == adt && ItemsTyped(decls, v) && Within(v, fuel) && depth >= Left(st1.budget)
    requires Copied(st, (st1, true), dst, VArr(elem, adt, []), VArr(elem, adt, v.items[..i]))
    ensures PaidFor(st1.budget, UpdateItem(st1, t, dst, At(items[i]), fuel),
                    Plus(CreateCost(decls, ItemType(elem, adt), 0, depth), CopyCost(decls, v.items[i], depth)))
    decreases fuel, 1, 1
  {
    ItemApart(st, st1, dst, elem, adt, src, v, i, v.items[..i]);
    CopyDecided(st1, t, dst, elem, adt, v.items[..i], items[i], v.items[i], fuel, depth, decls);
  }

  ghost predicate ItemsTyped(decls: Decls, v: Value)
    requires v.VArr?
  {
    forall i :: 0 <= i < |v.items| ==> HasType(decls, v.items[i], ItemType(v.elem, v.elemAdt))
  }

  lemma {:induction false} CopyDecided(st: State, t: nat, dst: Ref, elem: Kind, adt: Option<Name>, vs: seq<Value>,
                                       src: Ref, v: Value, fuel: nat, depth: nat, decls: Decls)
    requires Inv(st) && t < |st.tables| && Uniform(st.tables, decls) && fuel > 0 && Regular(decls, v)
    requires Denotes(st.heap, dst, VArr(elem, adt, vs)) && Separate(st.heap, dst, VArr(elem, adt, vs))
    requires Denotes(st.heap, src, v) && dst !in Foot(st.heap, src, v)
    requires HasType(decls, v, ItemType(elem, adt)) && Within(v, fuel - 1) && depth >= Left(st.budget)
    ensures PaidFor(st.budget, UpdateItem(st, t, dst, At(src), fuel),
                    Plus(CreateCost(decls, ItemType(elem, adt), 0, depth), CopyCost(decls, v, depth)))
    decreases fuel, 1, 0
  {
    ItemInv(st, t, dst, src, fuel);
    var typ := ItemType(elem, adt);
    NewElementDecided(st, dst, typ, depth, decls);
    var d := NewElementMade(st, dst, decls);
    var (st1, c) := NewElement(st, dst);
    if c.Some? {
      NewElementReady(st, st1, t, c.value, typ, d, src, v, decls);
      FillDecided(st1, t, dst, c.value, d, src, v, typ, fuel, depth, decls);
    }
    ElementPaid(st, t, dst, At(src), fuel, CreateCost(decls, typ, 0, depth), CopyCost(decls, v, depth));
  }

  lemma NewElementDecided(st: State, dst: Ref, typ: Type, depth: nat, decls: Decls)
    requires Inv(st) && dst in st.heap && st.heap[dst].cell.Arr? && st.heap[dst].cell.home < |st.tables|
    requires typ == ItemType(st.heap[dst].cell.elem, st.heap[dst].cell.elemAdt)
    requires Uniform(st.tables, decls) && depth >= Left(st.budget)
    ensures Paid(st.budget, NewElement(st, dst), CreateCost(decls, typ, 0, depth))
  {
    assert ObjOk(st.heap, dst, st.heap[dst]);
    CreateDecided(st, st.heap[dst].cell.home, st.heap[dst].root, dst, typ, 0, depth, decls);
  }

  lemma ElementPaid(st: State, t: nat, dst: Ref, src: Node, fuel: nat, c1: Option<nat>, c2: Option<nat>)
    requires t < |st.tables| && fuel > 0
    requires dst in st.heap && st.heap[dst].cell.Arr? && st.heap[dst].cell.home < |st.tables|
    requires var (st1, c) := NewElement(st, dst);
      && Paid(st.budget, (st1, c), c1)
      && (c.Some? ==> PaidFor(st1.budget, FillElement(st1, t, dst, c.value, src, fuel), c2))
    ensures PaidFor(st.budget, UpdateItem(st, t, dst, src, fuel), Plus(c1, c2))
  {}

  lemma {:induction false} FillDecided(st: State, t: nat, dst: Ref, c: Ref, d: Value, src: Ref, v: Value, typ: Type,
                                       fuel: nat, depth: nat, decls: Decls)
    requires fuel > 0 && TypedPair(st, t, c, d, src, v, typ, fuel - 1, depth, decls)
    requires dst in st.heap && st.heap[dst].cell.Arr?
    ensures PaidFor(st.budget, FillElement(st, t, dst, c, At(src), fuel), CopyCost(decls, v, depth))
    decreases fuel, 0, 0
  {
    AssignmentDecided(st, t, c, d, src, v, typ, fuel - 1, depth, decls);
    FilledDecided(st, t, dst, c, At(src), fuel);
  }

  lemma PaidBoth(before: int, r1: (State, Option<Ref>), c1: Option<nat>, r2: (State, bool), c2: Option<nat>)
    requires Paid(before, r1, c1) && r1.1.Some? && PaidFor(r1.0.budget, r2, c2)
    ensures PaidFor(before, r2, Plus(c1, c2))
  {}

  /** Filling an element succeeds when the copy does, and takes no more. */
  lemma FilledDecided(st1: State, t: nat, dst: Ref, c: Ref, src: Node, fuel: nat)
    requires Inv(st1) && t < |st1.tables| && fuel > 0 && dst in st1.heap && st1.heap[dst].cell.Arr? && c in st1.heap
    requires Live(st1, src)
    ensures var (st2, ok) := Update(st1, t, c, src, fuel - 1);
      FillElement(st1, t, dst, c, src, fuel).1 == ok
        && (ok ==> FillElement(st1, t, dst, c, src, fuel).0.budget == st2.budget)
  {
    UpdateOk(st1, t, c, src, fuel - 1, st1.heap[c].table, st1.heap[c].root);
    assert SamePlace(st1.heap[dst], Update(st1, t, c, src, fuel - 1).0.heap[dst]);
  }

  lemma {:induction false} RecordDecided(st: State, t: nat, dst: Ref, adt: Name, u: Value, src: Ref,
                                         x: map<Name, Value>, typ: Type, fuel: nat, depth: nat, decls: Decls)
    requires TypedPair(st, t, dst, u, src, VRec(adt, x), typ, fuel, depth, decls)
    ensures PaidFor(st.budget, Update(st, t, dst, At(src), fuel), CopyCost(decls, VRec(adt, x), depth))
    decreases fuel, 3, 0
  {
    assert StructIn(st.tables, t, adt) == Some(decls[adt]);
    RecordCopyIs(st, t, dst, src, decls[adt], fuel);
    FieldCopiesDecided(st, t, dst, adt, u.fields, src, x, decls[adt], fuel, depth, decls);
  }

  lemma RecordCopyIs(st: State, t: nat, dst: Ref, src: Ref, decl: seq<FieldDecl>, fuel: nat)
    requires t < |st.tables| && fuel > 0 && dst in st.heap && src in st.heap && decl != []
    requires st.heap[dst].cell.Rec? && st.heap[src].cell.Rec? && st.heap[dst].cell.adt == st.heap[src].cell.adt
    requires StructDecl(st, t, st.heap[dst].cell.adt) == Some(decl)
    ensures Update(st, t, dst, At(src), fuel) == CopyFields(st, t, dst, src, decl, fuel)
  {}

  lemma {:induction false} FieldCopiesDecided(st: State, t: nat, dst: Ref, adt: Name, w: map<Name, Value>, src: Ref,
                                              x: map<Name, Value>, decl: seq<FieldDecl>, fuel: nat, depth: nat,
                                              decls: Decls)
    requires FieldsReady(st, t, dst, adt, w, src, x, decls) && Within(VRec(adt, x), fuel) && depth >= Left(st.budget)
    requires FieldNames(decl) <= x.Keys
    ensures PaidFor(st.budget, CopyFields(st, t, dst, src, decl, fuel),
                    FieldsCopyCost(decls, VRec(adt, x), decl, depth))
    decreases fuel, 2, |decl|
  {
    if decl != [] {
      var front := decl[..|decl| - 1];
      FieldNamesStep(decl);
      FieldCopiesDecided(st, t, dst, adt, w, src, x, front, fuel, depth, decls);
      LessLeft(st.budget, CopyFields(st, t, dst, src, front, fuel), FieldsCopyCost(decls, VRec(adt, x), front, depth),
               depth);
      AfterFrontDecided(st, t, dst, adt, w, src, x, front, decl[|decl| - 1].name, fuel, depth, decls);
      CopiesPaid(st, t, dst, src, decl, fuel, depth, VRec(adt, x), decls);
    }
  }

  lemma {:induction false} AfterFrontDecided(st: State, t: nat, dst: Ref, adt: Name, w: map<Name, Value>, src: Ref,
                                             x: map<Name, Value>, front: seq<FieldDecl>, k: Name, fuel: nat, depth: nat,
                                             decls: Decls)
    requires FieldsReady(st, t, dst, adt, w, src, x, decls) && Within(VRec(adt, x), fuel) && k in x
    requires var r1 := CopyFields(st, t, dst, src, front, fuel); r1.1 ==> depth >= Left(r1.0.budget)
    ensures var r1 := CopyFields(st, t, dst, src, front, fuel);
      r1.1 ==> PaidFor(r1.0.budget, CopyField(r1.0, t, dst, src, k, fuel), CopyCost(decls, x[k], depth))
    decreases fuel, 1, 3
  {
    FieldsCopy(st, t, dst, adt, w, src, x, front, fuel, decls);
    NextCopyDecided(st, CopyFields(st, t, dst, src, front, fuel), t, dst, adt, w, Mixed(w, x, FieldNames(front)), src,
                    x, k, fuel, depth, decls);
  }

  /** One field after the others. */
  lemma CopiesPaid(st: State, t: nat, dst: Ref, src: Ref, decl: seq<FieldDecl>, fuel: nat, depth: nat, v: Value,
                   decls: Decls)
    requires t < |st.tables| && fuel > 0 && decl != [] && v.VRec? && decl[|decl| - 1].name in v.fields
    requires var front, k := decl[..|decl| - 1], decl[|decl| - 1].name;
      var r1 := CopyFields(st, t, dst, src, front, fuel);
      && PaidFor(st.budget, r1, FieldsCopyCost(decls, v, front, depth))
      && (r1.1 ==> PaidFor(r1.0.budget, CopyField(r1.0, t, dst, src, k, fuel), CopyCost(decls, v.fields[k], depth)))
    ensures PaidFor(st.budget, CopyFields(st, t, dst, src, decl, fuel), FieldsCopyCost(decls, v, decl, depth))
  {
    var front, k := decl[..|decl| - 1], decl[|decl| - 1].name;
    var r1 := CopyFields(st, t, dst, src, front, fuel);
    CopyFieldsStep(st, t, dst, src, decl, fuel, depth, v, decls);
    PaidForThen(st.budget, r1, FieldsCopyCost(decls, v, front, depth),
                if r1.1 then CopyField(r1.0, t, dst, src, k, fuel) else r1, CopyCost(decls, v.fields[k], depth));
  }

  lemma CopyFieldsStep(st: State, t: nat, dst: Ref, src: Ref, decl: seq<FieldDecl>, fuel: nat, depth: nat, v: Value,
                       decls: Decls)
    requires t < |st.tables| && fuel > 0 && decl != [] && v.VRec? && decl[|decl| - 1].name in v.fields
    ensures var front, k := decl[..|decl| - 1], decl[|decl| - 1].name;
      var r1 := CopyFields(st, t, dst, src, front, fuel);
      && CopyFields(st, t, dst, src, decl, fuel) == (if r1.1 then CopyField(r1.0, t, dst, src, k, fuel) else r1)
      && FieldsCopyCost(decls, v, decl, depth)
      == Plus(FieldsCopyCost(decls, v, front, depth), CopyCost(decls, v.fields[k], depth))
  {}

  lemma {:induction false} NextCopyDecided(st: State, r1: (State, bool), t: nat, dst: Ref, adt: Name,
                                           w: map<Name, Value>, w1: map<Name, Value>, src: Ref, x: map<Name, Value>,
                                           k: Name, fuel: nat, depth: nat, decls: Decls)
    requires FieldsReady(st, t, dst, adt, w, src, x, decls) && Within(VRec(adt, x), fuel) && w1.Keys == x.Keys && k in x
    requires Copied(st, r1, dst, VRec(adt, w), VRec(adt, w1)) && (r1.1 ==> depth >= Left(r1.0.budget))
    requires forall l :: l in w1 ==> w1[l] == w[l] || w1[l] == x[l]
    ensures r1.1 ==> PaidFor(r1.0.budget, CopyField(r1.0, t, dst, src, k, fuel), CopyCost(decls, x[k], depth))
    decreases fuel, 1, 2
  {
    if r1.1 {
      StillReady(st, r1.0, t, dst, adt, w, w1, src, x, decls);
      FieldCopyDecided(r1.0, t, dst, adt, w1, src, x, k, fuel, depth, decls);
    }
  }

  lemma {:induction false} FieldCopyDecided(st: State, t: nat, dst: Ref, adt: Name, w: map<Name, Value>, src: Ref,
                                            x: map<Name, Value>, k: Name, fuel: nat, depth: nat, decls: Decls)
    requires FieldsReady(st, t, dst, adt, w, src, x, decls) && Within(VRec(adt, x), fuel) && depth >= Left(st.budget)
    requires k in x
    ensures PaidFor(st.budget, CopyField(st, t, dst, src, k, fuel), CopyCost(decls, x[k], depth))
    decreases fuel, 1, 1
  {
    FieldCells(st.heap, dst, adt, w, k);
    FieldCells(st.heap, src, adt, x, k);
    CopyFieldIs(st, t, dst, src, k, fuel);
    var d, c := st.heap[dst].cell.fields[k], st.heap[src].cell.fields[k];
    PartsReady(st, t, dst, adt, w, src, x, k, decls, d, c);
    RegularField(decls, adt, w, k);
    RegularField(decls, adt, x, k);
    AssignmentDecided(st, t, d, w[k], c, x[k], FieldType(decls[adt], k), fuel - 1, depth, decls);
  }
}
