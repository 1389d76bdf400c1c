/** ADTEqual and the array operations as they run, on the nodes of a ParserState. */
module ParserArrays {
  import opened Base
  import opened MqlState
  import opened MqlUpdate
  import opened MqlValues
  import opened MqlArrays
  import opened ParserStates

  lemma PartsThere(st: State, r: Ref)
    requires Inv(st) && r in st.heap
    ensures forall c :: c in Children(st.heap[r].cell) ==> c in st.heap && r < c
    ensures var cell := st.heap[r].cell;
      && (cell.Arr? ==> forall i :: 0 <= i < |cell.items| ==> cell.items[i] in st.heap && r < cell.items[i])
      && (cell.Rec? ==> forall k :: k in cell.fields ==> cell.fields[k] in st.heap && r < cell.fields[k])
  {
    var cell := st.heap[r].cell;
    assert ObjOk(st.heap, r, st.heap[r]);
    if cell.Arr? { assert forall i :: 0 <= i < |cell.items| ==> cell.items[i] in Children(cell); }
    if cell.Rec? { assert forall k :: k in cell.fields ==> cell.fields[k] in Children(cell); }
  }

  /** ADTEqual; depth, which the code does not have, bounds how far down the walk can go. */
  method EqualNodes(ps: ParserState, a: Ref, b: Ref, ghost depth: nat) returns (eq: bool)
    requires Inv(ps.S()) && a in ps.nodes && b in ps.nodes && depth + a >= ps.next
    ensures eq == ADTEqual(ps.nodes, a, b, depth)
    decreases depth, 1
  {
    var x, y := ps.nodes[a].cell, ps.nodes[b].cell;
    PartsThere(ps.S(), a);
    PartsThere(ps.S(), b);
    assert a < ps.S().next;
    if x.Atom? && y.Atom? {
      eq := x.b == y.b;
    } else if x.Arr? && y.Arr? {
      if x.elem != y.elem || (x.elem == StructT && x.elemAdt != y.elemAdt) || |x.items| != |y.items| {
        return false;
      }
      eq := EqualItems(ps, x.items, y.items, depth - 1, a + 1);
    } else if x.Rec? && y.Rec? {
      if x.adt != y.adt || |x.fields| != |y.fields| {
        return false;
      }
      eq := EqualFields(ps, x.fields, y.fields, depth - 1, a + 1);
    } else {
      eq := false;
    }
  }

  method EqualItems(ps: ParserState, xs: seq<Ref>, ys: seq<Ref>, ghost depth: nat, ghost low: Ref) returns (eq: bool)
    requires Inv(ps.S()) && |xs| == |ys| && depth + low >= ps.next
    requires forall i :: 0 <= i < |xs| ==> xs[i] in ps.nodes && low <= xs[i] && ys[i] in ps.nodes
    ensures eq == ItemsEqual(ps.nodes, xs, ys, depth)
    decreases depth, 2
  {
    var i := 0;
    while i < |xs|
      invariant i <= |xs| && forall j :: 0 <= j < i ==> ADTEqual(ps.nodes, xs[j], ys[j], depth)
    {
      var same := EqualNodes(ps, xs[i], ys[i], depth);
      if !same {
        return false;
      }
      i := i + 1;
    }
    eq := true;
  }

  method EqualFields(ps: ParserState, xs: map<Name, Ref>, ys: map<Name, Ref>, ghost depth: nat, ghost low: Ref)
    returns (eq: bool)
    requires Inv(ps.S()) && depth + low >= ps.next
    requires forall k :: k in xs ==> xs[k] in ps.nodes && low <= xs[k]
    requires forall k :: k in ys ==> ys[k] in ps.nodes
    ensures eq == FieldsEqual(ps.nodes, xs, ys, depth)
    decreases depth, 2
  {
    var rest := xs.Keys;
    while rest != {}
      invariant rest <= xs.Keys
      invariant forall k :: k in xs && k !in rest ==> k in ys && ADTEqual(ps.nodes, xs[k], ys[k], depth)
      decreases |rest|
    {
      var k :| k in rest;
      if k !in ys {
        return false;
      }
      var same := EqualNodes(ps, xs[k], ys[k], depth);
      if !same {
        return false;
      }
      rest := rest - {k};
    }
    eq := true;
  }

  /** Whether a node equal to x is in the list. */
  method FindEqual(ps: ParserState, x: Ref, items: seq<Ref>) returns (found: bool)
    requires Inv(ps.S()) && x in ps.nodes && forall y :: y in items ==> y in ps.nodes
    ensures found == Among(ps.S(), x, items)
  {
    var i := 0;
    while i < |items|
      invariant i <= |items| && forall j :: 0 <= j < i ==> !Equal(ps.S(), x, items[j])
    {
      found := EqualNodes(ps, x, items[i], ps.next);
      if found {
        assert Equal(ps.S(), x, items[i]);
        return true;
      }
      i := i + 1;
    }
    found := false;
  }

  /** ADTCreateAndCopy. */
  method CreateAndCopy(ps: ParserState, t: nat, ret: Ref, a: Ref, fuel: nat) returns (c: Option<Ref>)
    requires Inv(ps.S()) && t < |ps.varTable|
    modifies ps
    ensures (ps.S(), c) == CopyNode(old(ps.S()), t, ret, a, fuel)
  {
    if a !in ps.nodes || ret !in ps.nodes || ps.nodes[a].cell.Arr? {
      return None;
    }
    c := ps.ASTCreate(t, ps.nodes[ret].root, ret, CopyType(ps.nodes[a].cell), 0);
    if c.Some? {
      var ok := ps.UpdateADT(t, c.value, At(a), fuel);
      if !ok {
        c := None;
      }
    }
  }

  /** uniqueAdd. */
  method UniqueAdd(ps: ParserState, t: nat, ret: Ref, a: Ref, fuel: nat) returns (ok: bool)
    requires Inv(ps.S()) && t < |ps.varTable| && a in ps.nodes
    modifies ps
    ensures (ps.S(), ok) == AddUnique(old(ps.S()), t, ret, a, fuel)
  {
    if ret !in ps.nodes || !ps.nodes[ret].cell.Arr? {
      return false;
    }
    PartsThere(ps.S(), ret);
    assert forall y :: y in ps.nodes[ret].cell.items ==> y in Children(ps.nodes[ret].cell);
    var found := FindEqual(ps, a, ps.nodes[ret].cell.items);
    if found {
      return true;
    }
    var c := CreateAndCopy(ps, t, ret, a, fuel);
    if c.None? || ret !in ps.nodes || !ps.nodes[ret].cell.Arr? {
      return false;
    }
    ps.PushNode(ret, c.value);
    ok := true;
  }

  /** uniqueAdd for each node of a list, or for those of them that are in another list as well. */
  method UniqueAddEach(ps: ParserState, t: nat, ret: Ref, ghost root: Ref, xs: seq<Ref>, filter: Option<seq<Ref>>,
                       fuel: nat)
    returns (ok: bool)
    requires Collecting(ps.S(), t, ret, root) && forall x :: x in xs ==> x in ps.nodes
    requires filter.Some? ==> forall y :: y in filter.value ==> y in ps.nodes
    modifies ps
    ensures (ps.S(), ok) == AddEach(old(ps.S()), t, ret, xs, filter, fuel)
  {
    ghost var st := ps.S();
    ok := true;
    var i := 0;
    assert xs[..0] == [];
    TouchedSame(st, t, root, ret);
    while i < |xs| && ok
      invariant i <= |xs| && Touched(st, ps.S(), t, root, ret)
      invariant (ps.S(), ok) == AddEach(st, t, ret, xs[..i], filter, fuel)
    {
      assert xs[..i + 1][..i] == xs[..i];
      AddEachOk(st, t, ret, root, xs[..i + 1], filter, fuel);
      var wanted := true;
      if filter.Some? {
        wanted := FindEqual(ps, xs[i], filter.value);
      }
      if wanted {
        ok := UniqueAdd(ps, t, ret, xs[i], fuel);
      }
      i := i + 1;
    }
    EachStop(st, t, ret, xs, filter, fuel, i);
  }

  lemma {:induction false} EachStop(st: State, t: nat, ret: Ref, xs: seq<Ref>, filter: Option<seq<Ref>>, fuel: nat,
                                    i: nat)
    requires t < |st.tables| && i <= |xs|
    requires i == |xs| || !AddEach(st, t, ret, xs[..i], filter, fuel).1
    ensures AddEach(st, t, ret, xs, filter, fuel) == AddEach(st, t, ret, xs[..i], filter, fuel)
    decreases |xs|
  {
    if i == |xs| {
      assert xs[..i] == xs;
    } else {
      var n := |xs| - 1;
      assert xs[..n][..i] == xs[..i];
      EachStop(st, t, ret, xs[..n], filter, fuel, i);
    }
  }

  /** The tests both operations begin with, and the new array for the result. */
  method CreateReturn(ps: ParserState, t: nat, a: Ref, b: Ref) returns (ret: Option<Ref>)
    requires Inv(ps.S()) && t < |ps.varTable|
    modifies ps
    ensures (ps.S(), ret) ==
      if Compatible(old(ps.S()), a, b) then NewArray(old(ps.S()), t, a) else (old(ps.S()), None)
  {
    if a !in ps.nodes || !ps.nodes[a].cell.Arr? || b !in ps.nodes || !ps.nodes[b].cell.Arr? {
      return None;
    }
    if ps.nodes[a].cell.elem == StructT && ps.nodes[a].cell.elemAdt != ps.nodes[b].cell.elemAdt {
      return None;
    }
    ret := ps.ASTCreate(t, ps.next, ps.next, CopyType(ps.nodes[a].cell), 0);
  }

  /** The ARRAY_UNION case. */
  method ArrayUnionOf(ps: ParserState, t: nat, a: Ref, b: Ref, fuel: nat) returns (ret: Option<Ref>)
    requires Inv(ps.S()) && t < |ps.varTable|
    modifies ps
    ensures (ps.S(), ret) == UnionNodes(old(ps.S()), t, a, b, fuel)
  {
    ghost var st := ps.S();
    ret := CreateReturn(ps, t, a, b);
    if ret.None? {
      return;
    }
    NewArrayOk(st, t, a);
    ItemsThere(st, a);
    ItemsThere(st, b);
    var xs, ys := ps.nodes[a].cell.items, ps.nodes[b].cell.items;
    AddEachOk(ps.S(), t, ret.value, st.next, xs, None, fuel);
    ghost var st1 := ps.S();
    var ok := UniqueAddEach(ps, t, ret.value, st.next, xs, None, fuel);
    if ok {
      CollectingStays(st1, ps.S(), t, ret.value, st.next);
      ok := UniqueAddEach(ps, t, ret.value, st.next, ys, None, fuel);
    }
    ret := if ok then ret else None;
  }

  /** The ARRAY_INTERSECT case. */
  method ArrayIntersectOf(ps: ParserState, t: nat, a: Ref, b: Ref, fuel: nat) returns (ret: Option<Ref>)
    requires Inv(ps.S()) && t < |ps.varTable|
    modifies ps
    ensures (ps.S(), ret) == IntersectNodes(old(ps.S()), t, a, b, fuel)
  {
    ghost var st := ps.S();
    ret := CreateReturn(ps, t, a, b);
    if ret.None? {
      return;
    }
    NewArrayOk(st, t, a);
    ItemsThere(st, a);
    ItemsThere(st, b);
    var ok := UniqueAddEach(ps, t, ret.value, st.next, ps.nodes[a].cell.items, Some(ps.nodes[b].cell.items), fuel);
    ret := if ok then ret else None;
  }
}
