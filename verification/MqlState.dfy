/**
  The state of the query-language interpreter: a stack of variable tables and a heap of nodes. Every node belongs to the
  table whose allocation list frees it. `root` names the variable (or temporary) a node is part of and `parent` the node
  it was made as a part of; the code has no such fields, and nothing the code does depends on them.
 */
module MqlState {
  import opened Base
  import opened Wire

  type Name = string
  type Ref = nat

  datatype Kind = IntT | DoubleT | StringT | ArrayT | StructT | VoidT

  /** A declared type: for arrays also the element kind, and the struct name wherever structs occur. */
  datatype Type = Type(kind: Kind, adt: Name, elem: Kind)

  datatype Basic = I(i: int32) | D(d: real) | S(s: string)

  datatype Cell =
    | Atom(b: Basic)
    | Arr(elem: Kind, elemAdt: Option<Name>, items: seq<Ref>, home: nat)
    | Rec(adt: Name, fields: map<Name, Ref>)

  datatype Obj = Obj(cell: Cell, table: nat, root: Ref, parent: Ref)

  /** size is the literal size of an array field. */
  datatype FieldDecl = FieldDecl(name: Name, typ: Type, size: Option<int>)

  datatype Formal = Formal(typ: Type, name: Name)

  datatype Init = One(e: Expr) | List(es: seq<Expr>)

  datatype Expr =
    | Nothing
    | Const(b: Basic)
    | VarRef(name: Name)
    | Elem(base: Expr, index: Expr)
    | FieldRef(base: Expr, field: Name)
    | NewVar(typ: Type, name: Name, size: Expr)
    | NewVarInit(typ: Type, name: Name, init: Init)
    | Seq(left: Expr, right: Expr)
    | Block(body: Expr)
    | Bin(op: nat, left: Expr, right: Expr)
    | Assign(left: Expr, right: Expr)
    | If(cond: Expr, yes: Expr, no: Expr)
    | While(cond: Expr, body: Expr)
    | For(start: Expr, cond: Expr, step: Expr, body: Expr)
    | Break
    | Continue
    | Declare(name: Name, f: Function)
    | Call(name: Name, args: seq<Expr>)
    | Invoke(f: Function, args: seq<Expr>)
    | Return(e: Expr)
    | DefStruct(name: Name, fields: seq<FieldDecl>)
    | PushBack(arr: Expr, item: Expr)
    | PopBack(arr: Expr)
    | ArrayUnion(first: Expr, second: Expr)
    | ArrayIntersect(first: Expr, second: Expr)

  datatype Function = Function(typ: Type, formals: seq<Formal>, body: Expr)

  datatype Entry = Var(r: Ref) | Struct(fields: seq<FieldDecl>) | Func(f: Function)

  datatype Table = Table(names: map<Name, Entry>, prev: Option<nat>)

  /**
    budget is the limit on nodes minus the count of allocations, which failed ones enter as well; references from next
    on are fresh.
   */
  datatype State = State(tables: seq<Table>, heap: map<Ref, Obj>, next: Ref, budget: int)

  // ---------------------------------------------------------------- scopes

  /** The name in table i or, failing that, along its chain of previous tables. */
  function Lookup(tables: seq<Table>, i: nat, name: Name): Option<Entry>
    requires i < |tables|
    decreases i
  {
    if name in tables[i].names then Some(tables[i].names[name])
    else
      match tables[i].prev
      case None => None
      case Some(p) => if p < i then Lookup(tables, p, name) else None
  }

  /** The tables a lookup from table i can reach. */
  function Chain(tables: seq<Table>, i: nat): set<nat>
    requires i < |tables|
    decreases i
  {
    {i} + match tables[i].prev
      case None => {}
      case Some(p) => if p < i then Chain(tables, p) else {}
  }

  ghost predicate Holds(tables: seq<Table>, i: nat, j: nat, name: Name)
    requires i < |tables| && Lookup(tables, i, name).Some?
  {
    && j in Chain(tables, i) && j < |tables| && name in tables[j].names
    && tables[j].names[name] == Lookup(tables, i, name).value
  }

  lemma {:induction false} LookupInChain(tables: seq<Table>, i: nat, name: Name)
    requires i < |tables|
    ensures Lookup(tables, i, name).Some? ==> exists j: nat :: Holds(tables, i, j, name)
    decreases i
  {
    if name in tables[i].names {
      assert Holds(tables, i, i, name);
    } else if tables[i].prev.Some? && tables[i].prev.value < i {
      var p := tables[i].prev.value;
      LookupInChain(tables, p, name);
      if Lookup(tables, p, name).Some? {
        var j: nat :| Holds(tables, p, j, name);
        assert Holds(tables, i, j, name);
      }
    }
  }

  function Top(st: State): nat
    requires st.tables != []
  {
    |st.tables| - 1
  }

  // ---------------------------------------------------------------- the invariant

  function Children(c: Cell): set<Ref> {
    match c
    case Atom(_) => {}
    case Arr(_, _, items, _) => set r | r in items
    case Rec(_, fields) => fields.Values
  }

  /** No part occurs twice, and the items of an array are in the order they were allocated in. */
  ghost predicate SlotsOk(c: Cell) {
    match c
    case Atom(_) => true
    case Arr(_, _, items, _) => forall i, j :: 0 <= i < j < |items| ==> items[i] < items[j]
    case Rec(_, fields) => forall k, l :: k in fields && l in fields && k != l ==> fields[k] != fields[l]
  }

  /** c was made as a part of node r, after it and in the same place. */
  ghost predicate PartOf(heap: map<Ref, Obj>, c: Ref, r: Ref, o: Obj) {
    r < c && c in heap && heap[c].table == o.table && heap[c].root == o.root && heap[c].parent == r
  }

  /** A node's parts were made for it; an array allocates in its own table. */
  ghost predicate ObjOk(heap: map<Ref, Obj>, r: Ref, o: Obj) {
    && (forall c :: c in Children(o.cell) ==> PartOf(heap, c, r, o))
    && SlotsOk(o.cell)
    && (o.cell.Arr? ==> o.cell.home == o.table)
  }

  ghost predicate HeapOk(st: State) {
    forall r :: r in st.heap ==> r < st.next && st.heap[r].table < |st.tables| && ObjOk(st.heap, r, st.heap[r])
  }

  /** Table 0 is global; every other table continues at a lower one. */
  ghost predicate StackOk(tables: seq<Table>) {
    && tables != [] && tables[0].prev.None?
    && forall i :: 0 < i < |tables| ==> tables[i].prev.Some? && tables[i].prev.value < i
  }

  /** A variable is a whole node of the table that declares it. */
  ghost predicate NamesOk(st: State) {
    forall i, x :: 0 <= i < |st.tables| && x in st.tables[i].names && st.tables[i].names[x].Var? ==>
      var r := st.tables[i].names[x].r;
      r in st.heap && st.heap[r].table == i && st.heap[r].root == r
  }

  ghost predicate Inv(st: State) {
    StackOk(st.tables) && HeapOk(st) && NamesOk(st)
  }

  // ---------------------------------------------------------------- how the heap may change

  /** Nodes present in st stay, in the same table, part of the same variable; nodes of other roots than `root` as they
      are. New nodes belong to table t and to root. */
  ghost predicate OnlyRoot(st: State, st': State, t: nat, root: Ref) {
    && st'.tables == st.tables && st'.next >= st.next && st'.budget <= st.budget
    && (forall r :: r in st.heap ==> r in st'.heap && SamePlace(st.heap[r], st'.heap[r]))
    && (forall r :: r in st.heap && st.heap[r].root != root ==> st'.heap[r] == st.heap[r])
    && (forall r :: r in st'.heap && r !in st.heap ==>
          st'.heap[r].table == t && st'.heap[r].root == root && r >= st.next)
  }

  predicate SamePlace(o: Obj, o': Obj) {
    o'.table == o.table && o'.root == o.root && o'.parent == o.parent && SameKind(o.cell, o'.cell)
  }

  predicate SameKind(c: Cell, c': Cell) {
    match c
    case Atom(b) => c'.Atom? && SameBasicKind(b, c'.b)
    case Arr(elem, adt, _, home) => c'.Arr? && c'.elem == elem && c'.elemAdt == adt && c'.home == home
    case Rec(adt, _) => c'.Rec? && c'.adt == adt
  }

  predicate SameBasicKind(b: Basic, b': Basic) {
    (b.I? && b'.I?) || (b.D? && b'.D?) || (b.S? && b'.S?)
  }

  /** Nothing that was there changed; new nodes belong to table t and to root. */
  ghost predicate OnlyAdds(st: State, st': State, t: nat, root: Ref) {
    && st'.tables == st.tables && st'.next >= st.next && st'.budget <= st.budget
    && (forall r :: r in st.heap ==> r in st'.heap && st'.heap[r] == st.heap[r])
    && (forall r :: r in st'.heap && r !in st.heap ==>
          st'.heap[r].table == t && st'.heap[r].root == root && r >= st.next)
  }

  // ---------------------------------------------------------------- allocation

  function Allocate(st: State, cell: Cell, t: nat, root: Ref, parent: Ref): State
    requires st.budget > 0
  {
    State(st.tables, st.heap[st.next := Obj(cell, t, root, parent)], st.next + 1, st.budget - 1)
  }

  /** An allocation beyond the limit fails, and counts all the same. */
  function Refused(st: State): State {
    st.(budget := st.budget - 1)
  }

  function Left(budget: int): nat {
    if budget > 0 then budget else 0
  }

  function SetCell(st: State, r: Ref, cell: Cell): State
    requires r in st.heap
  {
    st.(heap := st.heap[r := st.heap[r].(cell := cell)])
  }

  function DefaultBasic(kind: Kind): Option<Basic> {
    match kind
    case IntT => Some(I(0))
    case DoubleT => Some(D(0.0))
    case StringT => Some(S(""))
    case _ => None
  }

  /** The declaration of a struct, as seen from table t. */
  function StructDecl(st: State, t: nat, adt: Name): Option<seq<FieldDecl>>
    requires t < |st.tables|
  {
    StructIn(st.tables, t, adt)
  }

  function StructIn(tables: seq<Table>, t: nat, adt: Name): Option<seq<FieldDecl>>
    requires t < |tables|
  {
    match Lookup(tables, t, adt)
    case Some(Struct(fields)) => Some(fields)
    case _ => None
  }

  /** ASTCreate in table t: a node of the type with its default value, all of it part of root; None when it fails. */
  function Create(st: State, t: nat, root: Ref, parent: Ref, typ: Type, size: int): (r: (State, Option<Ref>))
    requires t < |st.tables|
    ensures r.0.budget <= st.budget && r.0.tables == st.tables && r.0.next >= st.next
    decreases Left(st.budget), 1, 0
  {
    if typ.kind == StructT then
      var decl := StructDecl(st, t, typ.adt);
      if decl.None? || decl.value == [] then (st, None)
      else if st.budget <= 0 then (Refused(st), None)
      else CreateFields(Allocate(st, Rec(typ.adt, map[]), t, root, parent), t, root, st.next, decl.value)
    else if typ.kind == ArrayT then
      if size < 0 || (typ.elem == StructT && StructDecl(st, t, typ.adt).None?) then (st, None)
      else if st.budget <= 0 then (Refused(st), None)
      else
        var st1 := Allocate(st, EmptyArray(typ, t), t, root, parent);
        CreateItems(st1, t, root, st.next, Type(typ.elem, typ.adt, VoidT), size)
    else if st.budget <= 0 then (Refused(st), None)
    else
      var b := DefaultBasic(typ.kind);
      if b.None? then (Allocate(st, Atom(I(0)), t, root, parent), None)
      else (Allocate(st, Atom(b.value), t, root, parent), Some(st.next))
  }

  function EmptyArray(typ: Type, t: nat): Cell {
    Arr(typ.elem, if typ.elem == StructT then Some(typ.adt) else None, [], t)
  }

  /** The fields of record r, one after the other. An array field needs a literal size. */
  function CreateFields(st: State, t: nat, root: Ref, r: Ref, fields: seq<FieldDecl>): (res: (State, Option<Ref>))
    requires t < |st.tables|
    ensures res.0.budget <= st.budget && res.0.tables == st.tables && res.0.next >= st.next
    decreases Left(st.budget), 2, |fields|
  {
    if fields == [] then (st, Some(r))
    else
      var n := |fields| - 1;
      var (st1, o) := CreateFields(st, t, root, r, fields[..n]);
      if o.None? then (st1, None) else CreateField(st1, t, root, r, fields[n])
  }

  function CreateField(st: State, t: nat, root: Ref, r: Ref, f: FieldDecl): (res: (State, Option<Ref>))
    requires t < |st.tables|
    ensures res.0.budget <= st.budget && res.0.tables == st.tables && res.0.next >= st.next
    decreases Left(st.budget), 1, 1
  {
    if f.typ.kind == ArrayT && f.size.None? then (st, None)
    else
      var (st1, c) := Create(st, t, root, r, f.typ, if f.typ.kind == ArrayT then f.size.value else 0);
      if c.None? || r !in st1.heap || !st1.heap[r].cell.Rec? then (st1, None)
      else (SetField(st1, r, f.name, c.value), Some(r))
  }

  function SetField(st: State, r: Ref, name: Name, c: Ref): State
    requires r in st.heap && st.heap[r].cell.Rec?
  {
    SetCell(st, r, st.heap[r].cell.(fields := st.heap[r].cell.fields[name := c]))
  }

  /** n default elements at the end of array r. */
  function CreateItems(st: State, t: nat, root: Ref, r: Ref, typ: Type, n: nat): (res: (State, Option<Ref>))
    requires t < |st.tables|
    ensures res.0.budget <= st.budget && res.0.tables == st.tables && res.0.next >= st.next
    decreases Left(st.budget), 2, n
  {
    if n == 0 then (st, Some(r))
    else
      var (st1, o) := CreateItems(st, t, root, r, typ, n - 1);
      if o.None? then (st1, None) else CreateItem(st1, t, root, r, typ)
  }

  function CreateItem(st: State, t: nat, root: Ref, r: Ref, typ: Type): (res: (State, Option<Ref>))
    requires t < |st.tables|
    ensures res.0.budget <= st.budget && res.0.tables == st.tables && res.0.next >= st.next
    decreases Left(st.budget), 1, 1
  {
    var (st1, c) := Create(st, t, root, r, typ, 0);
    if c.None? || r !in st1.heap || !st1.heap[r].cell.Arr? then (st1, None)
    else (Push(st1, r, c.value), Some(r))
  }

  function Push(st: State, r: Ref, c: Ref): State
    requires r in st.heap && st.heap[r].cell.Arr?
  {
    SetCell(st, r, st.heap[r].cell.(items := st.heap[r].cell.items + [c]))
  }

  // ---------------------------------------------------------------- what allocation keeps

  /** A node without parts. */
  predicate IsNew(cell: Cell, t: nat) {
    match cell
    case Atom(_) => true
    case Arr(_, _, items, home) => items == [] && home == t
    case Rec(_, fields) => fields == map[]
  }

  lemma AllocateOk(st: State, cell: Cell, t: nat, root: Ref, parent: Ref)
    requires Inv(st) && st.budget > 0 && t < |st.tables| && IsNew(cell, t)
    ensures Inv(Allocate(st, cell, t, root, parent)) && OnlyAdds(st, Allocate(st, cell, t, root, parent), t, root)
    ensures st.next !in st.heap
  {
    AllocatedHeap(st, cell, t, root, parent);
  }

  lemma AllocatedHeap(st: State, cell: Cell, t: nat, root: Ref, parent: Ref)
    requires HeapOk(st) && st.budget > 0 && t < |st.tables| && IsNew(cell, t)
    ensures HeapOk(Allocate(st, cell, t, root, parent))
  {
    var st' := Allocate(st, cell, t, root, parent);
    forall r | r in st'.heap
      ensures r < st'.next && st'.heap[r].table < |st'.tables| && ObjOk(st'.heap, r, st'.heap[r])
    {
      if r != st.next {
        assert ObjOk(st.heap, r, st.heap[r]);
      }
    }
  }

  /** Giving a node other parts that were made for it. */
  lemma SetCellOk(st: State, r: Ref, cell: Cell)
    requires Inv(st) && r in st.heap && SameKind(st.heap[r].cell, cell) && SlotsOk(cell)
    requires forall c :: c in Children(cell) ==> PartOf(st.heap, c, r, st.heap[r])
    ensures Touched(st, SetCell(st, r, cell), st.heap[r].table, st.heap[r].root, r)
  {
    var st' := SetCell(st, r, cell);
    forall x | x in st'.heap
      ensures x < st'.next && st'.heap[x].table < |st'.tables| && ObjOk(st'.heap, x, st'.heap[x])
    {
      assert ObjOk(st.heap, x, st.heap[x]);
    }
  }

  /** Nothing allocated before node low has changed. */
  ghost predicate SameBelow(st: State, st': State, low: Ref) {
    forall r :: r in st.heap && r < low ==> r in st'.heap && st'.heap[r] == st.heap[r]
  }

  /** A change to node low, or its parts, keeps the invariant and touches only the variable they are part of. */
  ghost predicate Touched(st: State, st': State, t: nat, root: Ref, low: Ref) {
    Inv(st') && OnlyRoot(st, st', t, root) && SameBelow(st, st', low)
  }

  /** Nothing that was there changed, except that a fresh node r was filled. */
  ghost predicate AddsExcept(st: State, st': State, t: nat, root: Ref, r: Ref) {
    && st'.tables == st.tables && st'.next >= st.next && st'.budget <= st.budget
    && (forall x :: x in st.heap ==> x in st'.heap && SamePlace(st.heap[x], st'.heap[x]))
    && (forall x :: x in st.heap && x != r ==> st'.heap[x] == st.heap[x])
    && (forall x :: x in st'.heap && x !in st.heap ==>
          st'.heap[x].table == t && st'.heap[x].root == root && x >= st.next)
  }

  lemma AddsThen(st: State, st1: State, st2: State, t: nat, root: Ref, r: Ref)
    requires AddsExcept(st, st1, t, root, r) && AddsExcept(st1, st2, t, root, r)
    ensures AddsExcept(st, st2, t, root, r)
  {}

  lemma FreshThen(st: State, st1: State, st2: State, t: nat, root: Ref, r: Ref)
    requires OnlyAdds(st, st1, t, root) && r !in st.heap && AddsExcept(st1, st2, t, root, r)
    ensures OnlyAdds(st, st2, t, root)
  {}

  lemma FillOk(st: State, st1: State, t: nat, root: Ref, r: Ref, c: Ref, cell: Cell)
    requires Inv(st) && Inv(st1) && OnlyAdds(st, st1, t, root) && r in st.heap && c in st1.heap && c !in st.heap
    requires st.heap[r].table == t && st.heap[r].root == root && SameKind(st1.heap[r].cell, cell)
    requires Children(cell) <= Children(st1.heap[r].cell) + {c} && SlotsOk(cell) && st1.heap[c].parent == r
    ensures Inv(SetCell(st1, r, cell)) && AddsExcept(st, SetCell(st1, r, cell), t, root, r)
  {
    assert ObjOk(st1.heap, r, st1.heap[r]);
    SetCellOk(st1, r, cell);
  }

  /** A part allocated later than everything else. */
  lemma FieldSlot(st: State, r: Ref, name: Name, c: Ref)
    requires HeapOk(st) && r in st.heap && st.heap[r].cell.Rec? && c >= st.next
    ensures var cell := st.heap[r].cell; SlotsOk(cell.(fields := cell.fields[name := c]))
  {
    assert ObjOk(st.heap, r, st.heap[r]);
    forall k | k in st.heap[r].cell.fields ensures st.heap[r].cell.fields[k] < c {
      assert st.heap[r].cell.fields[k] in Children(st.heap[r].cell);
    }
  }

  lemma ItemSlot(st: State, r: Ref, c: Ref)
    requires HeapOk(st) && r in st.heap && st.heap[r].cell.Arr? && c >= st.next
    ensures var cell := st.heap[r].cell; SlotsOk(cell.(items := cell.items + [c]))
  {
    assert ObjOk(st.heap, r, st.heap[r]);
    forall i | 0 <= i < |st.heap[r].cell.items| ensures st.heap[r].cell.items[i] < c {
      assert st.heap[r].cell.items[i] in Children(st.heap[r].cell);
    }
  }

  /** r is a node under construction. */
  ghost predicate Filling(st: State, t: nat, root: Ref, r: Ref) {
    t < |st.tables| && r in st.heap && st.heap[r].table == t && st.heap[r].root == root
  }

  ghost predicate Filled(st: State, res: (State, Option<Ref>), t: nat, root: Ref, r: Ref) {
    Inv(res.0) && AddsExcept(st, res.0, t, root, r) && (res.1.Some? ==> res.1 == Some(r))
  }

  lemma FilledThen(st: State, st1: State, res: (State, Option<Ref>), t: nat, root: Ref, r: Ref)
    requires AddsExcept(st, st1, t, root, r) && Filled(st1, res, t, root, r)
    ensures Filled(st, res, t, root, r)
  {
    AddsThen(st, st1, res.0, t, root, r);
  }

  /** A creation only adds nodes; the one it returns, if any, is the first of them. */
  ghost predicate Created(st: State, r: (State, Option<Ref>), t: nat, root: Ref, parent: Ref) {
    && Inv(r.0) && OnlyAdds(st, r.0, t, root)
    && (r.1.Some? ==>
          && r.1 == Some(st.next) && st.next in r.0.heap && st.next !in st.heap
          && r.0.heap[st.next].parent == parent)
  }

  lemma {:induction false} CreateOk(st: State, t: nat, root: Ref, parent: Ref, typ: Type, size: int)
    requires Inv(st) && t < |st.tables|
    ensures Created(st, Create(st, t, root, parent, typ, size), t, root, parent)
    decreases Left(st.budget), 1, 0
  {
    if typ.kind == StructT {
      var decl := StructDecl(st, t, typ.adt);
      if decl.Some? && decl.value != [] && st.budget > 0 {
        AllocateOk(st, Rec(typ.adt, map[]), t, root, parent);
        var st1 := Allocate(st, Rec(typ.adt, map[]), t, root, parent);
        CreateFieldsOk(st1, t, root, st.next, decl.value);
        FilledCreated(st, st1, CreateFields(st1, t, root, st.next, decl.value), t, root, parent);
      }
    } else if typ.kind == ArrayT {
      if size >= 0 && !(typ.elem == StructT && StructDecl(st, t, typ.adt).None?) && st.budget > 0 {
        AllocateOk(st, EmptyArray(typ, t), t, root, parent);
        var st1 := Allocate(st, EmptyArray(typ, t), t, root, parent);
        var elem := Type(typ.elem, typ.adt, VoidT);
        CreateItemsOk(st1, t, root, st.next, elem, size);
        FilledCreated(st, st1, CreateItems(st1, t, root, st.next, elem, size), t, root, parent);
      }
    } else if st.budget > 0 {
      var b := DefaultBasic(typ.kind);
      AllocateOk(st, Atom(if b.Some? then b.value else I(0)), t, root, parent);
    }
  }

  lemma FilledCreated(st: State, st1: State, r: (State, Option<Ref>), t: nat, root: Ref, parent: Ref)
    requires OnlyAdds(st, st1, t, root) && st.next !in st.heap && Filled(st1, r, t, root, st.next)
    requires st.next in st1.heap && st1.heap[st.next].parent == parent
    ensures Created(st, r, t, root, parent)
  {
    FreshThen(st, st1, r.0, t, root, st.next);
  }

  lemma {:induction false} CreateFieldOk(st: State, t: nat, root: Ref, r: Ref, f: FieldDecl)
    requires Inv(st) && Filling(st, t, root, r) && st.heap[r].cell.Rec?
    ensures Filled(st, CreateField(st, t, root, r, f), t, root, r)
    decreases Left(st.budget), 1, 1
  {
    if !(f.typ.kind == ArrayT && f.size.None?) {
      var size := if f.typ.kind == ArrayT then f.size.value else 0;
      CreateOk(st, t, root, r, f.typ, size);
      var (st1, c) := Create(st, t, root, r, f.typ, size);
      if c.Some? {
        FieldSlot(st, r, f.name, c.value);
        FillOk(st, st1, t, root, r, c.value, st1.heap[r].cell.(fields := st1.heap[r].cell.fields[f.name := c.value]));
      }
    }
  }

  lemma {:induction false} CreateFieldsOk(st: State, t: nat, root: Ref, r: Ref, fields: seq<FieldDecl>)
    requires Inv(st) && Filling(st, t, root, r) && st.heap[r].cell.Rec?
    ensures Filled(st, CreateFields(st, t, root, r, fields), t, root, r)
    decreases Left(st.budget), 2, |fields|
  {
    if fields != [] {
      var n := |fields| - 1;
      CreateFieldsOk(st, t, root, r, fields[..n]);
      var (st1, o) := CreateFields(st, t, root, r, fields[..n]);
      if o.Some? {
        CreateFieldOk(st1, t, root, r, fields[n]);
        FilledThen(st, st1, CreateField(st1, t, root, r, fields[n]), t, root, r);
      }
    }
  }

  lemma {:induction false} CreateItemOk(st: State, t: nat, root: Ref, r: Ref, typ: Type)
    requires Inv(st) && Filling(st, t, root, r) && st.heap[r].cell.Arr?
    ensures Filled(st, CreateItem(st, t, root, r, typ), t, root, r)
    decreases Left(st.budget), 1, 1
  {
    CreateOk(st, t, root, r, typ, 0);
    var (st1, c) := Create(st, t, root, r, typ, 0);
    if c.Some? {
      ItemSlot(st, r, c.value);
      FillOk(st, st1, t, root, r, c.value, st1.heap[r].cell.(items := st1.heap[r].cell.items + [c.value]));
    }
  }

  lemma {:induction false} CreateItemsOk(st: State, t: nat, root: Ref, r: Ref, typ: Type, n: nat)
    requires Inv(st) && Filling(st, t, root, r) && st.heap[r].cell.Arr?
    ensures Filled(st, CreateItems(st, t, root, r, typ, n), t, root, r)
    decreases Left(st.budget), 2, n
  {
    if n > 0 {
      CreateItemsOk(st, t, root, r, typ, n - 1);
      var (st1, o) := CreateItems(st, t, root, r, typ, n - 1);
      if o.Some? {
        CreateItemOk(st1, t, root, r, typ);
        FilledThen(st, st1, CreateItem(st1, t, root, r, typ), t, root, r);
      }
    }
  }

  // ---------------------------------------------------------------- variables do not share nodes

  /** The first node of a variable is its own root, and all its parts are in the same table. */
  ghost predicate RootOk(heap: map<Ref, Obj>, o: Obj) {
    o.root in heap && heap[o.root].root == o.root && heap[o.root].table == o.table
  }

  ghost predicate Roots(st: State) {
    forall r :: r in st.heap ==> RootOk(st.heap, st.heap[r])
  }

  lemma RootsStay(st: State, st': State, t: nat, root: Ref)
    requires Roots(st) && OnlyRoot(st, st', t, root)
    requires (exists r :: r in st'.heap && r !in st.heap) ==>
      root in st'.heap && st'.heap[root].root == root && st'.heap[root].table == t
    ensures Roots(st')
  {
    forall r | r in st'.heap ensures RootOk(st'.heap, st'.heap[r]) {
      if r in st.heap { assert RootOk(st.heap, st.heap[r]) && SamePlace(st.heap[r], st'.heap[r]); }
    }
  }
}
