/** Types on the heap: what a node may hold is fixed when it is made; no assignment changes it, even one that fails. */
module MqlTidy {
  import opened Base
  import opened MqlState
  import opened MqlUpdate
  import opened MqlValues
  import opened MqlCopy
  import opened MqlAssign
  import opened MqlArrays
  import opened MqlEval
  import opened MqlScope
  import opened MqlCalls
  import opened MqlTrees

  function Above(st: State, r: Ref): nat {
    if r < st.next then st.next - r else 0
  }

  predicate PartPlace(st: State, r: Ref, c: Ref) {
    r < c < st.next
  }

  /** Node r holds a value of the type. */
  ghost predicate Is(st: State, decls: Decls, r: Ref, typ: Type)
    decreases Above(st, r)
  {
    r in st.heap &&
    match st.heap[r].cell
    case Atom(b) => OfKind(b, typ.kind)
    case Arr(elem, adt, items, _) =>
      && typ.kind == ArrayT && elem == typ.elem && adt == (if elem == StructT then Some(typ.adt) else None)
      && forall i :: 0 <= i < |items| ==> PartPlace(st, r, items[i]) && Is(st, decls, items[i], ItemType(elem, adt))
    case Rec(adt, fields) =>
      && typ.kind == StructT && adt == typ.adt && adt in decls && decls[adt] != []
        && fields.Keys == FieldNames(decls[adt])
      && forall k :: k in fields ==> PartPlace(st, r, fields[k]) && Is(st, decls, fields[k], FieldType(decls[adt], k))
  }

  /** Node r holds a regular value. */
  ghost predicate Fine(st: State, decls: Decls, r: Ref)
    decreases Above(st, r)
  {
    r in st.heap &&
    match st.heap[r].cell
    case Atom(_) => true
    case Arr(elem, adt, items, _) =>
      && (elem == StructT <==> adt.Some?)
      && forall i :: 0 <= i < |items| ==> PartPlace(st, r, items[i]) && Fine(st, decls, items[i])
    case Rec(adt, _) => Is(st, decls, r, Type(StructT, adt, VoidT))
  }

  lemma {:induction false} IsFine(st: State, decls: Decls, r: Ref, typ: Type)
    requires Is(st, decls, r, typ)
    ensures Fine(st, decls, r)
    decreases Above(st, r)
  {
    match st.heap[r].cell
    case Atom(_) =>
    case Arr(elem, adt, items, _) =>
      forall i | 0 <= i < |items|
        ensures Fine(st, decls, items[i])
      {
        IsFine(st, decls, items[i], ItemType(elem, adt));
      }
    case Rec(_, _) =>
  }

  /** On values this is HasType. */
  lemma {:induction false} IsHasType(st: State, decls: Decls, r: Ref, v: Value, typ: Type)
    requires Inv(st) && Denotes(st.heap, r, v)
    ensures Is(st, decls, r, typ) <==> HasType(decls, v, typ)
    decreases v
  {
    PartsAfter(st, r);
    var cell := st.heap[r].cell;
    match v
    case VAtom(_) =>
    case VArr(elem, adt, vs) =>
      forall i | 0 <= i < |vs|
        ensures PartPlace(st, r, cell.items[i])
        ensures Is(st, decls, cell.items[i], ItemType(elem, adt)) <==> HasType(decls, vs[i], ItemType(elem, adt))
      {
        PartsAfter(st, cell.items[i]);
        IsHasType(st, decls, cell.items[i], vs[i], ItemType(elem, adt));
      }
    case VRec(adt, fs) =>
      if adt in decls && fs.Keys == FieldNames(decls[adt]) {
        forall k | k in fs
          ensures PartPlace(st, r, cell.fields[k])
          ensures Is(st, decls, cell.fields[k], FieldType(decls[adt], k)) <==>
            HasType(decls, fs[k], FieldType(decls[adt], k))
        {
          PartsAfter(st, cell.fields[k]);
          IsHasType(st, decls, cell.fields[k], fs[k], FieldType(decls[adt], k));
        }
      }
  }

  lemma {:induction false} FineIsRegular(st: State, decls: Decls, r: Ref, v: Value)
    requires Inv(st) && Denotes(st.heap, r, v)
    ensures Fine(st, decls, r) <==> Regular(decls, v)
    decreases v
  {
    PartsAfter(st, r);
    var cell := st.heap[r].cell;
    match v
    case VAtom(_) =>
    case VArr(_, _, vs) =>
      forall i | 0 <= i < |vs|
        ensures PartPlace(st, r, cell.items[i]) && (Fine(st, decls, cell.items[i]) <==> Regular(decls, vs[i]))
      {
        PartsAfter(st, cell.items[i]);
        FineIsRegular(st, decls, cell.items[i], vs[i]);
      }
    case VRec(adt, _) => IsHasType(st, decls, r, v, Type(StructT, adt, VoidT));
  }

  // ---------------------------------------------------------------- changes that keep the types

  /** Whatever a node held a value of, it still does. */
  ghost predicate KeepsTypes(st: State, st': State, decls: Decls) {
    && (forall r, typ :: Is(st, decls, r, typ) ==> Is(st', decls, r, typ))
    && (forall r :: Fine(st, decls, r) ==> Fine(st', decls, r))
  }

  lemma KeepsThen(a: State, b: State, c: State, decls: Decls)
    requires KeepsTypes(a, b, decls) && KeepsTypes(b, c, decls)
    ensures KeepsTypes(a, c, decls)
  {}

  /** The new content of node r: the same, another basic value, or items that were there or are of its type. */
  ghost predicate Fits(st: State, decls: Decls, r: Ref, old': Cell, cell: Cell) {
    || cell == old'
    || (old'.Atom? && cell.Atom? && SameBasicKind(old'.b, cell.b))
    || (old'.Arr? && cell.Arr? && cell.elem == old'.elem && cell.elemAdt == old'.elemAdt
        && forall x :: x in cell.items ==>
             x in old'.items || (PartPlace(st, r, x) && Is(st, decls, x, ItemType(cell.elem, cell.elemAdt))))
  }

  ghost predicate AllFit(st: State, st': State, decls: Decls) {
    st'.next >= st.next
    && forall r :: r in st.heap ==> r in st'.heap && Fits(st, decls, r, st.heap[r].cell, st'.heap[r].cell)
  }

  lemma {:induction false} IsStays(st: State, st': State, decls: Decls, r: Ref, typ: Type)
    requires AllFit(st, st', decls) && Is(st, decls, r, typ)
    ensures Is(st', decls, r, typ)
    decreases Above(st, r)
  {
    var old', cell := st.heap[r].cell, st'.heap[r].cell;
    assert Fits(st, decls, r, old', cell);
    match cell
    case Atom(_) =>
    case Arr(elem, adt, items, _) =>
      forall i | 0 <= i < |items| ensures PartPlace(st', r, items[i]) && Is(st', decls, items[i], ItemType(elem, adt)) {
        if items[i] in old'.items {
          var j :| 0 <= j < |old'.items| && old'.items[j] == items[i];
        }
        assert PartPlace(st, r, items[i]) && Is(st, decls, items[i], ItemType(elem, adt));
        IsStays(st, st', decls, items[i], ItemType(elem, adt));
      }
    case Rec(adt, fields) =>
      forall k | k in fields
        ensures PartPlace(st', r, fields[k]) && Is(st', decls, fields[k], FieldType(decls[adt], k))
      {
        assert PartPlace(st, r, fields[k]);
        IsStays(st, st', decls, fields[k], FieldType(decls[adt], k));
      }
  }

  lemma {:induction false} FineStays(st: State, st': State, decls: Decls, r: Ref)
    requires AllFit(st, st', decls) && Fine(st, decls, r)
    ensures Fine(st', decls, r)
    decreases Above(st, r)
  {
    var old', cell := st.heap[r].cell, st'.heap[r].cell;
    assert Fits(st, decls, r, old', cell);
    match cell
    case Atom(_) =>
    case Arr(elem, adt, items, _) =>
      forall i | 0 <= i < |items| ensures PartPlace(st', r, items[i]) && Fine(st', decls, items[i]) {
        if items[i] in old'.items {
          var j :| 0 <= j < |old'.items| && old'.items[j] == items[i];
        } else {
          IsFine(st, decls, items[i], ItemType(elem, adt));
        }
        assert PartPlace(st, r, items[i]) && Fine(st, decls, items[i]);
        FineStays(st, st', decls, items[i]);
      }
    case Rec(adt, _) => IsStays(st, st', decls, r, Type(StructT, adt, VoidT));
  }

  lemma FitKeeps(st: State, st': State, decls: Decls)
    requires AllFit(st, st', decls)
    ensures KeepsTypes(st, st', decls)
  {
    forall r, typ | Is(st, decls, r, typ) ensures Is(st', decls, r, typ) { IsStays(st, st', decls, r, typ); }
    forall r | Fine(st, decls, r) ensures Fine(st', decls, r) { FineStays(st, st', decls, r); }
  }

  lemma AddsKeep(st: State, st': State, decls: Decls)
    requires st'.next >= st.next && forall r :: r in st.heap ==> r in st'.heap && st'.heap[r].cell == st.heap[r].cell
    ensures KeepsTypes(st, st', decls)
  {
    FitKeeps(st, st', decls);
  }

  lemma CellKeeps(st: State, dst: Ref, cell: Cell, decls: Decls)
    requires dst in st.heap && Fits(st, decls, dst, st.heap[dst].cell, cell)
    ensures KeepsTypes(st, SetCell(st, dst, cell), decls)
  {
    FitKeeps(st, SetCell(st, dst, cell), decls);
  }

  lemma PushKeeps(st: State, dst: Ref, c: Ref, decls: Decls)
    requires dst in st.heap && st.heap[dst].cell.Arr? && PartPlace(st, dst, c)
    requires Is(st, decls, c, ItemType(st.heap[dst].cell.elem, st.heap[dst].cell.elemAdt))
    ensures KeepsTypes(st, Push(st, dst, c), decls)
  {
    var cell := st.heap[dst].cell;
    CellKeeps(st, dst, cell.(items := cell.items + [c]), decls);
  }

  // ---------------------------------------------------------------- assignment keeps the types

  /** What a creation makes is of the type asked for. */
  lemma CreateTyped(st: State, t: nat, root: Ref, parent: Ref, typ: Type, size: int, decls: Decls)
    requires Inv(st) && t < |st.tables| && Uniform(st.tables, decls)
    ensures var (st', c) := Create(st, t, root, parent, typ, size);
      KeepsTypes(st, st', decls) && (c.Some? ==> Is(st', decls, c.value, typ))
  {
    CreateOk(st, t, root, parent, typ, size);
    var (st', c) := Create(st, t, root, parent, typ, size);
    AddsKeep(st, st', decls);
    var d := CreateMakes(st, t, root, parent, typ, size, decls);
    if c.Some? { IsHasType(st', decls, c.value, d, typ); }
  }

  lemma {:induction false} UpdateKeeps(st: State, t: nat, dst: Ref, src: Node, fuel: nat, decls: Decls)
    requires Inv(st) && t < |st.tables| && dst in st.heap && Live(st, src) && Uniform(st.tables, decls)
    ensures KeepsTypes(st, Update(st, t, dst, src, fuel).0, decls)
    decreases fuel, 3, 0
  {
    if fuel == 0 {
    } else if st.heap[dst].cell.Rec? {
      UpdateRecKeeps(st, t, dst, src, fuel, decls);
    } else if st.heap[dst].cell.Arr? {
      UpdateArrKeeps(st, t, dst, src, fuel, decls);
    } else {
      var b := BasicOf(st, src);
      if b.Some? && SameBasicKind(st.heap[dst].cell.b, b.value) { CellKeeps(st, dst, Atom(b.value), decls); }
    }
  }

  lemma {:induction false} UpdateRecKeeps(st: State, t: nat, dst: Ref, src: Node, fuel: nat, decls: Decls)
    requires Inv(st) && t < |st.tables| && dst in st.heap && Live(st, src) && Uniform(st.tables, decls)
    requires fuel > 0 && st.heap[dst].cell.Rec?
    ensures KeepsTypes(st, UpdateRec(st, t, dst, src, fuel).0, decls)
    decreases fuel, 2, 0
  {
    var decl := StructDecl(st, t, st.heap[dst].cell.adt);
    if decl.Some? && decl.value != [] {
      if src.Listed? && |src.items| == |decl.value| {
        UpdateFieldsKeep(st, t, dst, decl.value, src.items, fuel, decls);
      } else if src.At? {
        CopyFieldsKeep(st, t, dst, src.r, decl.value, fuel, decls);
      }
    }
  }

  lemma {:induction false} UpdateArrKeeps(st: State, t: nat, dst: Ref, src: Node, fuel: nat, decls: Decls)
    requires Inv(st) && t < |st.tables| && dst in st.heap && Live(st, src) && Uniform(st.tables, decls)
    requires fuel > 0 && st.heap[dst].cell.Arr?
    ensures KeepsTypes(st, UpdateArr(st, t, dst, src, fuel).0, decls)
    decreases fuel, 2, 0
  {
    ClearOk(st, dst);
    CellKeeps(st, dst, st.heap[dst].cell.(items := []), decls);
    var cleared := Clear(st, dst);
    if src.Listed? {
      AllLiveStay(st, cleared, src.items);
      UpdateItemsKeep(cleared, t, dst, src.items, fuel, decls);
      KeepsThen(st, cleared, UpdateItems(cleared, t, dst, src.items, fuel).0, decls);
    } else if src.At? && SameArray(st.heap[dst].cell, st.heap[src.r].cell) {
      var items := Refs(cleared.heap[src.r].cell.items);
      PartsLive(cleared, src.r);
      UpdateItemsKeep(cleared, t, dst, items, fuel, decls);
      KeepsThen(st, cleared, UpdateItems(cleared, t, dst, items, fuel).0, decls);
    }
  }

  lemma {:induction false} UpdateFieldsKeep(st: State, t: nat, dst: Ref, decl: seq<FieldDecl>, items: seq<Node>,
                                            fuel: nat, decls: Decls)
    requires Inv(st) && t < |st.tables| && dst in st.heap && AllLive(st, items) && Uniform(st.tables, decls)
    requires fuel > 0 && |decl| == |items|
    ensures KeepsTypes(st, UpdateFields(st, t, dst, decl, items, fuel).0, decls)
    decreases fuel, 1, |decl|
  {
    if decl != [] {
      var n := |decl| - 1;
      UpdateFieldsKeep(st, t, dst, decl[..n], items[..n], fuel, decls);
      var (st1, ok) := UpdateFields(st, t, dst, decl[..n], items[..n], fuel);
      if ok {
        UpdateFieldsOk(st, t, dst, decl[..n], items[..n], fuel, st.heap[dst].table, st.heap[dst].root);
        LiveStays(st, st1, items[n]);
        UpdateFieldKeeps(st1, t, dst, decl[n].name, items[n], fuel, decls);
        KeepsThen(st, st1, UpdateField(st1, t, dst, decl[n].name, items[n], fuel).0, decls);
      }
    }
  }

  lemma {:induction false} UpdateFieldKeeps(st: State, t: nat, dst: Ref, name: Name, src: Node, fuel: nat, decls: Decls)
    requires Inv(st) && t < |st.tables| && dst in st.heap && Live(st, src) && fuel > 0 && Uniform(st.tables, decls)
    ensures KeepsTypes(st, UpdateField(st, t, dst, name, src, fuel).0, decls)
    decreases fuel, 0, 0
  {
    PartsAfter(st, dst);
    if st.heap[dst].cell.Rec? && name in st.heap[dst].cell.fields {
      UpdateKeeps(st, t, st.heap[dst].cell.fields[name], src, fuel - 1, decls);
    }
  }

  lemma {:induction false} CopyFieldsKeep(st: State, t: nat, dst: Ref, src: Ref, decl: seq<FieldDecl>, fuel: nat,
                                          decls: Decls)
    requires Inv(st) && t < |st.tables| && dst in st.heap && src in st.heap && fuel > 0 && Uniform(st.tables, decls)
    ensures KeepsTypes(st, CopyFields(st, t, dst, src, decl, fuel).0, decls)
    decreases fuel, 1, |decl|
  {
    if decl != [] {
      var n := |decl| - 1;
      CopyFieldsKeep(st, t, dst, src, decl[..n], fuel, decls);
      var (st1, ok) := CopyFields(st, t, dst, src, decl[..n], fuel);
      if ok {
        CopyFieldsOk(st, t, dst, src, decl[..n], fuel, st.heap[dst].table, st.heap[dst].root);
        CopyFieldKeeps(st1, t, dst, src, decl[n].name, fuel, decls);
        KeepsThen(st, st1, CopyField(st1, t, dst, src, decl[n].name, fuel).0, decls);
      }
    }
  }

  lemma {:induction false} CopyFieldKeeps(st: State, t: nat, dst: Ref, src: Ref, name: Name, fuel: nat, decls: Decls)
    requires Inv(st) && t < |st.tables| && dst in st.heap && src in st.heap && fuel > 0 && Uniform(st.tables, decls)
    ensures KeepsTypes(st, CopyField(st, t, dst, src, name, fuel).0, decls)
    decreases fuel, 0, 1
  {
    PartsAfter(st, src);
    if st.heap[src].cell.Rec? && name in st.heap[src].cell.fields {
      UpdateFieldKeeps(st, t, dst, name, At(st.heap[src].cell.fields[name]), fuel, decls);
    }
  }

  lemma {:induction false} UpdateItemsKeep(st: State, t: nat, dst: Ref, items: seq<Node>, fuel: nat, decls: Decls)
    requires Inv(st) && t < |st.tables| && dst in st.heap && AllLive(st, items) && fuel > 0 && Uniform(st.tables, decls)
    ensures KeepsTypes(st, UpdateItems(st, t, dst, items, fuel).0, decls)
    decreases fuel, 1, |items|
  {
    if items != [] {
      var n := |items| - 1;
      UpdateItemsKeep(st, t, dst, items[..n], fuel, decls);
      var (st1, ok) := UpdateItems(st, t, dst, items[..n], fuel);
      if ok {
        UpdateItemsOk(st, t, dst, items[..n], fuel, st.heap[dst].table, st.heap[dst].root);
        LiveStays(st, st1, items[n]);
        UpdateItemKeeps(st1, t, dst, items[n], fuel, decls);
        KeepsThen(st, st1, UpdateItem(st1, t, dst, items[n], fuel).0, decls);
      }
    }
  }

  lemma {:induction false} UpdateItemKeeps(st: State, t: nat, dst: Ref, src: Node, fuel: nat, decls: Decls)
    requires Inv(st) && t < |st.tables| && dst in st.heap && Live(st, src) && fuel > 0 && Uniform(st.tables, decls)
    ensures KeepsTypes(st, UpdateItem(st, t, dst, src, fuel).0, decls)
    decreases fuel, 0, 0
  {
    if st.heap[dst].cell.Arr? {
      var cell := st.heap[dst].cell;
      assert ObjOk(st.heap, dst, st.heap[dst]);
      NewElementOk(st, dst, st.heap[dst].table, st.heap[dst].root);
      CreateTyped(st, cell.home, st.heap[dst].root, dst, ItemType(cell.elem, cell.elemAdt), 0, decls);
      var (st1, c) := NewElement(st, dst);
      if c.Some? {
        LiveStays(st, st1, src);
        assert SamePlace(st.heap[dst], st1.heap[dst]);
        FillKeeps(st1, t, dst, c.value, src, fuel, decls);
        KeepsThen(st, st1, FillElement(st1, t, dst, c.value, src, fuel).0, decls);
      }
    }
  }

  lemma {:induction false} FillKeeps(st: State, t: nat, dst: Ref, c: Ref, src: Node, fuel: nat, decls: Decls)
    requires Inv(st) && t < |st.tables| && dst in st.heap && Live(st, src) && fuel > 0 && Uniform(st.tables, decls)
    requires NewPart(st, dst, c) && st.heap[dst].cell.Arr?
    requires Is(st, decls, c, ItemType(st.heap[dst].cell.elem, st.heap[dst].cell.elemAdt))
    ensures KeepsTypes(st, FillElement(st, t, dst, c, src, fuel).0, decls)
    decreases fuel - 1, 4, 0
  {
    UpdateKeeps(st, t, c, src, fuel - 1, decls);
    UpdateOk(st, t, c, src, fuel - 1, st.heap[c].table, st.heap[c].root);
    var (st2, ok) := Update(st, t, c, src, fuel - 1);
    if ok {
      assert SamePlace(st.heap[dst], st2.heap[dst]) && c < st2.next;
      PushKeeps(st2, dst, c, decls);
      KeepsThen(st, st2, Push(st2, dst, c), decls);
    }
  }

  // ---------------------------------------------------------------- so do the array operations

  lemma CopyNodeFine(st: State, t: nat, ret: Ref, root: Ref, src: Ref, fuel: nat, decls: Decls)
    requires Collecting(st, t, ret, root) && src in st.heap && Uniform(st.tables, decls)
    ensures var (st', c) := CopyNode(st, t, ret, src, fuel);
      KeepsTypes(st, st', decls) && (c.Some? ==> Fine(st', decls, c.value))
  {
    if !st.heap[src].cell.Arr? {
      var typ := CopyType(st.heap[src].cell);
      CreateOk(st, t, root, ret, typ, 0);
      CreateTyped(st, t, root, ret, typ, 0, decls);
      var (st1, c) := Create(st, t, root, ret, typ, 0);
      if c.Some? {
        UpdateKeeps(st1, t, c.value, At(src), fuel, decls);
        var st2 := Update(st1, t, c.value, At(src), fuel).0;
        KeepsThen(st, st1, st2, decls);
        IsFine(st2, decls, c.value, typ);
      }
    }
  }

  /** An item more that is regular keeps the array regular, if not of its type. */
  lemma PushFine(st: State, ret: Ref, c: Ref, decls: Decls)
    requires IsArray(st, ret) && Fine(st, decls, ret) && PartPlace(st, ret, c) && Fine(st, decls, c)
    ensures Fine(Push(st, ret, c), decls, ret)
  {
    var st', items := Push(st, ret, c), st.heap[ret].cell.items;
    forall i | 0 <= i < |items + [c]|
      ensures PartPlace(st', ret, (items + [c])[i]) && Fine(st', decls, (items + [c])[i])
    {
      assert PartPlace(st, ret, (items + [c])[i]) && Fine(st, decls, (items + [c])[i]);
      FineAbove(st, st', decls, ret, (items + [c])[i]);
    }
  }

  /** A change to node low does not concern values whose nodes are all above it. */
  lemma {:induction false} IsAbove(st: State, st': State, decls: Decls, low: Ref, r: Ref, typ: Type)
    requires st'.next >= st.next && Is(st, decls, r, typ) && low < r
    requires forall x :: x in st.heap && x > low ==> x in st'.heap && st'.heap[x].cell == st.heap[x].cell
    ensures Is(st', decls, r, typ)
    decreases Above(st, r)
  {
    match st.heap[r].cell
    case Atom(_) =>
    case Arr(elem, adt, items, _) =>
      forall i | 0 <= i < |items| ensures PartPlace(st', r, items[i]) && Is(st', decls, items[i], ItemType(elem, adt)) {
        assert PartPlace(st, r, items[i]);
        IsAbove(st, st', decls, low, items[i], ItemType(elem, adt));
      }
    case Rec(adt, fields) =>
      forall k | k in fields
        ensures PartPlace(st', r, fields[k]) && Is(st', decls, fields[k], FieldType(decls[adt], k))
      {
        assert PartPlace(st, r, fields[k]);
        IsAbove(st, st', decls, low, fields[k], FieldType(decls[adt], k));
      }
  }

  lemma {:induction false} FineAbove(st: State, st': State, decls: Decls, low: Ref, r: Ref)
    requires st'.next >= st.next && Fine(st, decls, r) && low < r
    requires forall x :: x in st.heap && x > low ==> x in st'.heap && st'.heap[x].cell == st.heap[x].cell
    ensures Fine(st', decls, r)
    decreases Above(st, r)
  {
    match st.heap[r].cell
    case Atom(_) =>
    case Arr(_, _, items, _) =>
      forall i | 0 <= i < |items| ensures PartPlace(st', r, items[i]) && Fine(st', decls, items[i]) {
        assert PartPlace(st, r, items[i]);
        FineAbove(st, st', decls, low, items[i]);
      }
    case Rec(adt, _) => IsAbove(st, st', decls, low, r, Type(StructT, adt, VoidT));
  }

  lemma AddUniqueFine(st: State, t: nat, ret: Ref, root: Ref, src: Ref, fuel: nat, decls: Decls)
    requires Collecting(st, t, ret, root) && src in st.heap && Uniform(st.tables, decls) && Fine(st, decls, ret)
    ensures Fine(AddUnique(st, t, ret, src, fuel).0, decls, ret)
  {
    CopyNodeFine(st, t, ret, root, src, fuel, decls);
    CopyNodeOk(st, t, ret, root, src, fuel);
    var (st1, c) := CopyNode(st, t, ret, src, fuel);
    if c.Some? && IsArray(st1, ret) { PushFine(st1, ret, c.value, decls); }
  }

  lemma {:induction false} AddEachFine(st: State, t: nat, ret: Ref, root: Ref, xs: seq<Ref>, filter: Option<seq<Ref>>,
                                       fuel: nat, decls: Decls)
    requires Collecting(st, t, ret, root) && (forall x :: x in xs ==> x in st.heap) && Uniform(st.tables, decls)
    requires Fine(st, decls, ret)
    ensures Fine(AddEach(st, t, ret, xs, filter, fuel).0, decls, ret)
    decreases |xs|
  {
    if xs != [] {
      var n := |xs| - 1;
      AddEachFine(st, t, ret, root, xs[..n], filter, fuel, decls);
      var (st1, ok) := AddEach(st, t, ret, xs[..n], filter, fuel);
      if ok {
        AddEachOk(st, t, ret, root, xs[..n], filter, fuel);
        CollectingStays(st, st1, t, ret, root);
        AddUniqueFine(st1, t, ret, root, xs[n], fuel, decls);
      }
    }
  }

  lemma NewArrayFine(st: State, t: nat, a: Ref, decls: Decls)
    requires Inv(st) && t < |st.tables| && IsArray(st, a) && Uniform(st.tables, decls) && NewArray(st, t, a).1.Some?
    ensures Fine(NewArray(st, t, a).0, decls, NewArray(st, t, a).1.value)
  {
    var typ := CopyType(st.heap[a].cell);
    CreateTyped(st, t, st.next, st.next, typ, 0, decls);
    IsFine(NewArray(st, t, a).0, decls, NewArray(st, t, a).1.value, typ);
  }

  lemma UnionFine(st: State, t: nat, a: Ref, b: Ref, fuel: nat, decls: Decls)
    requires Inv(st) && t < |st.tables| && Uniform(st.tables, decls)
    ensures var (st', r) := UnionNodes(st, t, a, b, fuel); r.Some? ==> Fine(st', decls, r.value)
  {
    if Compatible(st, a, b) && NewArray(st, t, a).1.Some? {
      NewArrayOk(st, t, a);
      NewArrayFine(st, t, a, decls);
      ItemsThere(st, a);
      ItemsThere(st, b);
      var (st1, ret) := NewArray(st, t, a);
      var xs := st.heap[a].cell.items;
      AddEachFine(st1, t, ret.value, st.next, xs, None, fuel, decls);
      AddEachOk(st1, t, ret.value, st.next, xs, None, fuel);
      var st2 := AddEach(st1, t, ret.value, xs, None, fuel).0;
      CollectingStays(st1, st2, t, ret.value, st.next);
      AddEachFine(st2, t, ret.value, st.next, st.heap[b].cell.items, None, fuel, decls);
    }
  }

  lemma IntersectFine(st: State, t: nat, a: Ref, b: Ref, fuel: nat, decls: Decls)
    requires Inv(st) && t < |st.tables| && Uniform(st.tables, decls)
    ensures var (st', r) := IntersectNodes(st, t, a, b, fuel); r.Some? ==> Fine(st', decls, r.value)
  {
    if Compatible(st, a, b) && NewArray(st, t, a).1.Some? {
      NewArrayOk(st, t, a);
      NewArrayFine(st, t, a, decls);
      ItemsThere(st, a);
      var (st1, ret) := NewArray(st, t, a);
      AddEachFine(st1, t, ret.value, st.next, st.heap[a].cell.items, Some(st.heap[b].cell.items), fuel, decls);
    }
  }
}
