/**
  The interpreter's tables and nodes as the code keeps them: a stack of tables that grows and shrinks in place and nodes
  that are overwritten in place. Every method is proved to take the state to what MqlState, MqlUpdate and MqlEval say.
 */
module ParserStates {
  import opened Base
  import opened MqlState
  import opened MqlUpdate
  import opened MqlEval

  class ParserState {
    var varTable: seq<Table>
    var nodes: map<Ref, Obj>
    var next: Ref
    var budget: int

    ghost function S(): State
      reads this
    {
      State(varTable, nodes, next, budget)
    }

    /** A parser state begins with the global table. */
    constructor (maxNodes: nat)
      ensures S() == State([Table(map[], None)], map[], 0, maxNodes)
      ensures Inv(S()) && Roots(S())
    {
      varTable, nodes, next, budget := [Table(map[], None)], map[], 0, maxNodes;
    }

    /** new_var_table: a function sees its own names and the globals. */
    method NewVarTable() returns (oldTable: nat)
      requires varTable != []
      modifies this`varTable
      ensures oldTable == Top(old(S())) && S() == PushTable(old(S()), 0)
    {
      oldTable := |varTable| - 1;
      varTable := varTable + [Table(map[], Some(0))];
    }

    /** new_context: a block sees everything the enclosing scope sees. */
    method NewContext()
      requires varTable != []
      modifies this`varTable
      ensures S() == PushTable(old(S()), Top(old(S())))
    {
      varTable := varTable + [Table(map[], Some(|varTable| - 1))];
    }

    /** remove_var_table: the nodes the table allocated are freed one by one. */
    method RemoveVarTable()
      requires varTable != []
      modifies this
      ensures S() == PopTable(old(S()))
    {
      ghost var st := S();
      var top := |varTable| - 1;
      var oldest := set r | r in nodes && nodes[r].table == top;
      ghost var all := oldest;
      while oldest != {}
        invariant oldest <= nodes.Keys && varTable == st.tables && next == st.next
        invariant forall r :: r in st.heap && st.heap[r].table != top ==> r in nodes
        invariant forall r :: r in nodes ==> r in st.heap && nodes[r] == st.heap[r]
        invariant forall r :: r in oldest <==> r in nodes && st.heap[r].table == top
        invariant budget == st.budget + |all| - |oldest|
        decreases |oldest|
      {
        var r :| r in oldest;
        oldest := oldest - {r};
        nodes := nodes - {r};
        budget := budget + 1;
      }
      varTable := varTable[..top];
      assert st.heap.Keys - PopTable(st).heap.Keys == all;
      assert nodes == PopTable(st).heap;
    }

    /** lookup: from table i along the chain of previous tables. */
    method LookupFrom(i: nat, name: Name) returns (e: Option<Entry>)
      requires StackOk(varTable) && i < |varTable|
      ensures e == Lookup(varTable, i, name)
    {
      var j: nat := i;
      while name !in varTable[j].names && varTable[j].prev.Some?
        invariant 0 <= j <= i && Lookup(varTable, j, name) == Lookup(varTable, i, name)
        decreases j
      {
        j := varTable[j].prev.value;
      }
      e := if name in varTable[j].names then Some(varTable[j].names[name]) else None;
    }

    /** insert into the current table: -1 when the name is taken there. */
    method InsertName(name: Name, entry: Entry) returns (ret: int)
      requires varTable != []
      modifies this`varTable
      ensures S() == Declared(old(S()), name, entry)
      ensures ret == if name in old(varTable)[|old(varTable)| - 1].names then -1 else 0
    {
      var top := |varTable| - 1;
      if name in varTable[top].names {
        return -1;
      }
      varTable := varTable[top := varTable[top].(names := varTable[top].names[name := entry])];
      ret := 0;
    }

    /** new_ast: the count goes up in any case. */
    method NewNode(cell: Cell, t: nat, root: Ref, parent: Ref) returns (r: Option<Ref>)
      modifies this`nodes, this`next, this`budget
      ensures old(budget) > 0 ==> S() == Allocate(old(S()), cell, t, root, parent) && r == Some(old(next))
      ensures old(budget) <= 0 ==> S() == Refused(old(S())) && r == None
    {
      budget := budget - 1;
      if budget < 0 {
        return None;
      }
      r := Some(next);
      nodes := nodes[next := Obj(cell, t, root, parent)];
      next := next + 1;
    }

    method FindStruct(t: nat, adt: Name) returns (decl: Option<seq<FieldDecl>>)
      requires StackOk(varTable) && t < |varTable|
      ensures decl == StructDecl(S(), t, adt)
    {
      var e := LookupFrom(t, adt);
      decl := if e.Some? && e.value.Struct? then Some(e.value.fields) else None;
    }

    /** ASTCreate. */
    method ASTCreate(t: nat, root: Ref, parent: Ref, typ: Type, size: int) returns (r: Option<Ref>)
      requires StackOk(varTable) && t < |varTable|
      modifies this`nodes, this`next, this`budget
      ensures (S(), r) == Create(old(S()), t, root, parent, typ, size)
      decreases Left(budget), 1, 0
    {
      if typ.kind == StructT {
        var decl := FindStruct(t, typ.adt);
        if decl.None? || decl.value == [] {
          return None;
        }
        r := NewNode(Rec(typ.adt, map[]), t, root, parent);
        if r.Some? {
          r := FillFields(t, root, r.value, decl.value);
        }
      } else if typ.kind == ArrayT {
        var decl := FindStruct(t, typ.adt);
        if size < 0 || (typ.elem == StructT && decl.None?) {
          return None;
        }
        r := NewNode(EmptyArray(typ, t), t, root, parent);
        if r.Some? {
          r := FillItems(t, root, r.value, Type(typ.elem, typ.adt, VoidT), size);
        }
      } else {
        r := CreateBasicType(t, root, parent, typ.kind);
      }
    }

    /** create_basic_type: the node is allocated before its type is looked at. */
    method CreateBasicType(t: nat, root: Ref, parent: Ref, kind: Kind) returns (r: Option<Ref>)
      requires t < |varTable| && kind != StructT && kind != ArrayT
      modifies this`nodes, this`next, this`budget
      ensures (S(), r) == Create(old(S()), t, root, parent, Type(kind, "", VoidT), 0)
    {
      var b := DefaultBasic(kind);
      r := NewNode(Atom(if b.Some? then b.value else I(0)), t, root, parent);
      if b.None? {
        r := None;
      }
    }

    method FillFields(t: nat, root: Ref, self: Ref, fields: seq<FieldDecl>) returns (r: Option<Ref>)
      requires StackOk(varTable) && t < |varTable|
      modifies this`nodes, this`next, this`budget
      ensures (S(), r) == CreateFields(old(S()), t, root, self, fields)
      decreases Left(budget), 2, |fields|
    {
      ghost var st := S();
      r := Some(self);
      var i := 0;
      assert fields[..0] == [];
      while i < |fields| && r.Some?
        invariant i <= |fields| && budget <= st.budget && varTable == st.tables
        invariant (S(), r) == CreateFields(st, t, root, self, fields[..i])
      {
        assert fields[..i + 1][..i] == fields[..i];
        r := FillField(t, root, self, fields[i]);
        i := i + 1;
      }
      FieldsStop(st, t, root, self, fields, i);
    }

    method FillField(t: nat, root: Ref, self: Ref, f: FieldDecl) returns (r: Option<Ref>)
      requires StackOk(varTable) && t < |varTable|
      modifies this`nodes, this`next, this`budget
      ensures (S(), r) == CreateField(old(S()), t, root, self, f)
      decreases Left(budget), 1, 1
    {
      if f.typ.kind == ArrayT && f.size.None? {
        return None;
      }
      var c := ASTCreate(t, root, self, f.typ, if f.typ.kind == ArrayT then f.size.value else 0);
      if c.None? || self !in nodes || !nodes[self].cell.Rec? {
        return None;
      }
      nodes := nodes[self := nodes[self].(cell := Rec(nodes[self].cell.adt,
                                                      nodes[self].cell.fields[f.name := c.value]))];
      r := Some(self);
    }

    method FillItems(t: nat, root: Ref, self: Ref, typ: Type, n: nat) returns (r: Option<Ref>)
      requires StackOk(varTable) && t < |varTable|
      modifies this`nodes, this`next, this`budget
      ensures (S(), r) == CreateItems(old(S()), t, root, self, typ, n)
      decreases Left(budget), 2, n
    {
      ghost var st := S();
      r := Some(self);
      var i := 0;
      while i < n && r.Some?
        invariant i <= n && budget <= st.budget && varTable == st.tables
        invariant (S(), r) == CreateItems(st, t, root, self, typ, i)
      {
        r := FillItem(t, root, self, typ);
        i := i + 1;
      }
      ItemsStop(st, t, root, self, typ, i, n);
    }

    method FillItem(t: nat, root: Ref, self: Ref, typ: Type) returns (r: Option<Ref>)
      requires StackOk(varTable) && t < |varTable|
      modifies this`nodes, this`next, this`budget
      ensures (S(), r) == CreateItem(old(S()), t, root, self, typ)
      decreases Left(budget), 1, 1
    {
      var c := ASTCreate(t, root, self, typ, 0);
      if c.None? || self !in nodes || !nodes[self].cell.Arr? {
        return None;
      }
      PushNode(self, c.value);
      r := Some(self);
    }

    method PushNode(self: Ref, c: Ref)
      requires self in nodes && nodes[self].cell.Arr?
      modifies this`nodes
      ensures S() == Push(old(S()), self, c)
    {
      var cell := nodes[self].cell;
      nodes := nodes[self := nodes[self].(cell := cell.(items := cell.items + [c]))];
    }

    /** updateADT. */
    method UpdateADT(t: nat, dst: Ref, src: Node, fuel: nat) returns (ok: bool)
      requires StackOk(varTable) && t < |varTable|
      modifies this`nodes, this`next, this`budget
      ensures (S(), ok) == Update(old(S()), t, dst, src, fuel)
      decreases fuel, 3, 0
    {
      if fuel == 0 || dst !in nodes {
        return false;
      }
      if nodes[dst].cell.Rec? {
        ok := UpdateRecord(t, dst, src, fuel);
      } else if nodes[dst].cell.Arr? {
        ok := UpdateArray(t, dst, src, fuel);
      } else {
        ok := UpdateBasicType(dst, src);
      }
    }

    method UpdateBasicType(dst: Ref, src: Node) returns (ok: bool)
      requires dst in nodes && nodes[dst].cell.Atom?
      modifies this`nodes
      ensures var st, b := old(S()), BasicOf(old(S()), src);
        (S(), ok) == if b.Some? && SameBasicKind(st.heap[dst].cell.b, b.value)
          then (SetCell(st, dst, Atom(b.value)), true)
                     else (st, false)
    {
      var b := if src.Value? then Some(src.b)
               else if src.At? && src.r in nodes && nodes[src.r].cell.Atom? then Some(nodes[src.r].cell.b)
               else None;
      ok := b.Some? && SameBasicKind(nodes[dst].cell.b, b.value);
      if ok {
        nodes := nodes[dst := nodes[dst].(cell := Atom(b.value))];
      }
    }

    method UpdateRecord(t: nat, dst: Ref, src: Node, fuel: nat) returns (ok: bool)
      requires StackOk(varTable) && t < |varTable| && fuel > 0 && dst in nodes && nodes[dst].cell.Rec?
      modifies this`nodes, this`next, this`budget
      ensures (S(), ok) == UpdateRec(old(S()), t, dst, src, fuel)
      decreases fuel, 2, 0
    {
      var adt := nodes[dst].cell.adt;
      var decl := FindStruct(t, adt);
      if decl.None? || decl.value == [] {
        return false;
      }
      if src.Listed? {
        if |src.items| != |decl.value| {
          return false;
        }
        ok := SetFields(t, dst, decl.value, src.items, fuel);
      } else if src.At? && src.r in nodes && nodes[src.r].cell.Rec? && nodes[src.r].cell.adt == adt {
        ok := CopyAllFields(t, dst, src.r, decl.value, fuel);
      } else {
        ok := false;
      }
    }

    method UpdateArray(t: nat, dst: Ref, src: Node, fuel: nat) returns (ok: bool)
      requires StackOk(varTable) && t < |varTable| && fuel > 0 && dst in nodes && nodes[dst].cell.Arr?
      modifies this`nodes, this`next, this`budget
      ensures (S(), ok) == UpdateArr(old(S()), t, dst, src, fuel)
      decreases fuel, 2, 0
    {
      if !src.Listed? && !(src.At? && src.r in nodes && SameArray(nodes[dst].cell, nodes[src.r].cell)) {
        return false;
      }
      nodes := nodes[dst := nodes[dst].(cell := nodes[dst].cell.(items := []))];
      var items := if src.Listed? then src.items else Refs(nodes[src.r].cell.items);
      ok := AppendItems(t, dst, items, fuel);
    }

    method SetFields(t: nat, dst: Ref, decl: seq<FieldDecl>, items: seq<Node>, fuel: nat) returns (ok: bool)
      requires StackOk(varTable) && t < |varTable| && fuel > 0 && |decl| == |items|
      modifies this`nodes, this`next, this`budget
      ensures (S(), ok) == UpdateFields(old(S()), t, dst, decl, items, fuel)
      decreases fuel, 1, |decl|
    {
      ghost var st := S();
      ok := true;
      var i := 0;
      assert decl[..0] == [] && items[..0] == [];
      while i < |decl| && ok
        invariant i <= |decl| && varTable == st.tables
        invariant (S(), ok) == UpdateFields(st, t, dst, decl[..i], items[..i], fuel)
      {
        assert decl[..i + 1][..i] == decl[..i] && items[..i + 1][..i] == items[..i];
        ok := SetField(t, dst, decl[i].name, items[i], fuel);
        i := i + 1;
      }
      SetStop(st, t, dst, decl, items, fuel, i);
    }

    method SetField(t: nat, dst: Ref, name: Name, src: Node, fuel: nat) returns (ok: bool)
      requires StackOk(varTable) && t < |varTable| && fuel > 0
      modifies this`nodes, this`next, this`budget
      ensures (S(), ok) == UpdateField(old(S()), t, dst, name, src, fuel)
      decreases fuel, 0, 0
    {
      if dst !in nodes || !nodes[dst].cell.Rec? || name !in nodes[dst].cell.fields {
        return false;
      }
      ok := UpdateADT(t, nodes[dst].cell.fields[name], src, fuel - 1);
    }

    method CopyAllFields(t: nat, dst: Ref, src: Ref, decl: seq<FieldDecl>, fuel: nat) returns (ok: bool)
      requires StackOk(varTable) && t < |varTable| && fuel > 0
      modifies this`nodes, this`next, this`budget
      ensures (S(), ok) == CopyFields(old(S()), t, dst, src, decl, fuel)
      decreases fuel, 1, |decl|
    {
      ghost var st := S();
      ok := true;
      var i := 0;
      assert decl[..0] == [];
      while i < |decl| && ok
        invariant i <= |decl| && varTable == st.tables
        invariant (S(), ok) == CopyFields(st, t, dst, src, decl[..i], fuel)
      {
        assert decl[..i + 1][..i] == decl[..i];
        ok := CopyOneField(t, dst, src, decl[i].name, fuel);
        i := i + 1;
      }
      CopyStop(st, t, dst, src, decl, fuel, i);
    }

    method CopyOneField(t: nat, dst: Ref, src: Ref, name: Name, fuel: nat) returns (ok: bool)
      requires StackOk(varTable) && t < |varTable| && fuel > 0
      modifies this`nodes, this`next, this`budget
      ensures (S(), ok) == CopyField(old(S()), t, dst, src, name, fuel)
      decreases fuel, 0, 1
    {
      if src !in nodes || !nodes[src].cell.Rec? || name !in nodes[src].cell.fields {
        return false;
      }
      ok := SetField(t, dst, name, At(nodes[src].cell.fields[name]), fuel);
    }

    method AppendItems(t: nat, dst: Ref, items: seq<Node>, fuel: nat) returns (ok: bool)
      requires StackOk(varTable) && t < |varTable| && fuel > 0
      modifies this`nodes, this`next, this`budget
      ensures (S(), ok) == UpdateItems(old(S()), t, dst, items, fuel)
      decreases fuel, 1, |items|
    {
      ghost var st := S();
      ok := true;
      var i := 0;
      assert items[..0] == [];
      while i < |items| && ok
        invariant i <= |items| && varTable == st.tables
        invariant (S(), ok) == UpdateItems(st, t, dst, items[..i], fuel)
      {
        assert items[..i + 1][..i] == items[..i];
        ok := AppendItem(t, dst, items[i], fuel);
        i := i + 1;
      }
      AppendStop(st, t, dst, items, fuel, i);
    }

    method AppendItem(t: nat, dst: Ref, src: Node, fuel: nat) returns (ok: bool)
      requires StackOk(varTable) && t < |varTable| && fuel > 0
      modifies this`nodes, this`next, this`budget
      ensures (S(), ok) == UpdateItem(old(S()), t, dst, src, fuel)
      decreases fuel, 0, 0
    {
      if dst !in nodes || !nodes[dst].cell.Arr? || nodes[dst].cell.home >= |varTable| {
        return false;
      }
      var cell := nodes[dst].cell;
      var typ := Type(cell.elem, if cell.elemAdt.Some? then cell.elemAdt.value else "", VoidT);
      var c := ASTCreate(cell.home, nodes[dst].root, dst, typ, 0);
      if c.None? {
        return false;
      }
      ok := UpdateADT(t, c.value, src, fuel - 1);
      if !ok || dst !in nodes || !nodes[dst].cell.Arr? {
        return false;
      }
      PushNode(dst, c.value);
    }
  }

  // ---------------------------------------------------------------- a loop that stops early has failed

  lemma {:induction false} FieldsStop(st: State, t: nat, root: Ref, r: Ref, fields: seq<FieldDecl>, i: nat)
    requires t < |st.tables| && i <= |fields|
    requires i == |fields| || CreateFields(st, t, root, r, fields[..i]).1.None?
    ensures CreateFields(st, t, root, r, fields) == CreateFields(st, t, root, r, fields[..i])
    decreases |fields|
  {
    if i == |fields| {
      assert fields[..i] == fields;
    } else {
      var front := fields[..|fields| - 1];
      assert front[..i] == fields[..i];
      FieldsStop(st, t, root, r, front, i);
    }
  }

  lemma {:induction false} ItemsStop(st: State, t: nat, root: Ref, r: Ref, typ: Type, i: nat, n: nat)
    requires t < |st.tables| && i <= n && (i == n || CreateItems(st, t, root, r, typ, i).1.None?)
    ensures CreateItems(st, t, root, r, typ, n) == CreateItems(st, t, root, r, typ, i)
    decreases n
  {
    if i < n { ItemsStop(st, t, root, r, typ, i, n - 1); }
  }

  lemma {:induction false} SetStop(st: State, t: nat, dst: Ref, decl: seq<FieldDecl>, items: seq<Node>, fuel: nat,
                                   i: nat)
    requires t < |st.tables| && fuel > 0 && |decl| == |items| && i <= |decl|
    requires i == |decl| || !UpdateFields(st, t, dst, decl[..i], items[..i], fuel).1
    ensures UpdateFields(st, t, dst, decl, items, fuel) == UpdateFields(st, t, dst, decl[..i], items[..i], fuel)
    decreases |decl|
  {
    if i == |decl| {
      assert decl[..i] == decl && items[..i] == items;
    } else {
      var n := |decl| - 1;
      assert decl[..n][..i] == decl[..i] && items[..n][..i] == items[..i];
      SetStop(st, t, dst, decl[..n], items[..n], fuel, i);
    }
  }

  lemma {:induction false} CopyStop(st: State, t: nat, dst: Ref, src: Ref, decl: seq<FieldDecl>, fuel: nat, i: nat)
    requires t < |st.tables| && fuel > 0 && i <= |decl|
    requires i == |decl| || !CopyFields(st, t, dst, src, decl[..i], fuel).1
    ensures CopyFields(st, t, dst, src, decl, fuel) == CopyFields(st, t, dst, src, decl[..i], fuel)
    decreases |decl|
  {
    if i == |decl| {
      assert decl[..i] == decl;
    } else {
      var n := |decl| - 1;
      assert decl[..n][..i] == decl[..i];
      CopyStop(st, t, dst, src, decl[..n], fuel, i);
    }
  }

  lemma {:induction false} AppendStop(st: State, t: nat, dst: Ref, items: seq<Node>, fuel: nat, i: nat)
    requires t < |st.tables| && fuel > 0 && i <= |items|
    requires i == |items| || !UpdateItems(st, t, dst, items[..i], fuel).1
    ensures UpdateItems(st, t, dst, items, fuel) == UpdateItems(st, t, dst, items[..i], fuel)
    decreases |items|
  {
    if i == |items| {
      assert items[..i] == items;
    } else {
      var n := |items| - 1;
      assert items[..n][..i] == items[..i];
      AppendStop(st, t, dst, items[..n], fuel, i);
    }
  }
}
