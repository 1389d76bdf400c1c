/**
  array_union and array_intersect: a new array in the current table, and a copy in it of every value of the two
  arguments (or of both at once) that ADTEqual does not find there already.
 */
module MqlArrays {
  import opened Base
  import opened MqlState
  import opened MqlUpdate
  import opened MqlValues

  /** ADTEqual. Every part of a node was allocated after it, so st.next levels are all there can be. */
  predicate Equal(st: State, a: Ref, b: Ref) {
    ADTEqual(st.heap, a, b, st.next)
  }

  predicate Among(st: State, x: Ref, items: seq<Ref>) {
    exists i :: 0 <= i < |items| && Equal(st, x, items[i])
  }

  function KindOf(b: Basic): Kind {
    match b
    case I(_) => IntT
    case D(_) => DoubleT
    case S(_) => StringT
  }

  /** What ADTCreateAndCopy asks ASTCreate for. */
  function CopyType(cell: Cell): Type {
    match cell
    case Atom(b) => Type(KindOf(b), "", VoidT)
    case Arr(elem, adt, _, _) => Type(ArrayT, if adt.Some? then adt.value else "", elem)
    case Rec(adt, _) => Type(StructT, adt, VoidT)
  }

  predicate IsArray(st: State, r: Ref) {
    r in st.heap && st.heap[r].cell.Arr?
  }

  /** ADTCreateAndCopy, for array ret: it copies anything but an array. */
  function CopyNode(st: State, t: nat, ret: Ref, src: Ref, fuel: nat): (r: (State, Option<Ref>))
    requires t < |st.tables|
    ensures r.0.tables == st.tables
  {
    if src !in st.heap || ret !in st.heap || st.heap[src].cell.Arr? then (st, None)
    else
      var (st1, c) := Create(st, t, st.heap[ret].root, ret, CopyType(st.heap[src].cell), 0);
      if c.None? then (st1, None) else CopyInto(st1, t, c.value, src, fuel)
  }

  function CopyInto(st: State, t: nat, c: Ref, src: Ref, fuel: nat): (r: (State, Option<Ref>))
    requires t < |st.tables|
    ensures r.0.tables == st.tables
  {
    var (st1, ok) := Update(st, t, c, At(src), fuel);
    (st1, if ok then Some(c) else None)
  }

  /** uniqueAdd for one node. */
  function AddUnique(st: State, t: nat, ret: Ref, src: Ref, fuel: nat): (r: (State, bool))
    requires t < |st.tables|
    ensures r.0.tables == st.tables
  {
    if !IsArray(st, ret) then (st, false)
    else if Among(st, src, st.heap[ret].cell.items) then (st, true)
    else
      var (st1, c) := CopyNode(st, t, ret, src, fuel);
      if c.None? || !IsArray(st1, ret) then (st1, false) else (Push(st1, ret, c.value), true)
  }

  /** The nodes of xs, one after the other; with a filter only those that are among it. */
  function AddEach(st: State, t: nat, ret: Ref, xs: seq<Ref>, filter: Option<seq<Ref>>, fuel: nat): (r: (State, bool))
    requires t < |st.tables|
    ensures r.0.tables == st.tables
    decreases |xs|
  {
    if xs == [] then (st, true)
    else
      var n := |xs| - 1;
      var (st1, ok) := AddEach(st, t, ret, xs[..n], filter, fuel);
      if !ok then (st1, false) else AddFiltered(st1, t, ret, xs[n], filter, fuel)
  }

  function AddFiltered(st: State, t: nat, ret: Ref, x: Ref, filter: Option<seq<Ref>>, fuel: nat): (r: (State, bool))
    requires t < |st.tables|
    ensures r.0.tables == st.tables
  {
    if filter.Some? && !Among(st, x, filter.value) then (st, true) else AddUnique(st, t, ret, x, fuel)
  }

  /** Both are arrays, and of the same struct if the first is one of structs. */
  predicate Compatible(st: State, a: Ref, b: Ref) {
    IsArray(st, a) && IsArray(st, b)
    && (st.heap[a].cell.elem == StructT ==> st.heap[a].cell.elemAdt == st.heap[b].cell.elemAdt)
  }

  /** The new array for the result, of the first argument's type. */
  function NewArray(st: State, t: nat, a: Ref): (r: (State, Option<Ref>))
    requires t < |st.tables| && IsArray(st, a)
    ensures r.0.tables == st.tables
  {
    Create(st, t, st.next, st.next, CopyType(st.heap[a].cell), 0)
  }

  function UnionNodes(st: State, t: nat, a: Ref, b: Ref, fuel: nat): (r: (State, Option<Ref>))
    requires t < |st.tables|
    ensures r.0.tables == st.tables
  {
    if !Compatible(st, a, b) then (st, None)
    else
      var (st1, ret) := NewArray(st, t, a);
      if ret.None? then (st1, None)
      else
        var (st2, ok) := AddBoth(st1, t, ret.value, st.heap[a].cell.items, st.heap[b].cell.items, fuel);
        (st2, if ok then ret else None)
  }

  function AddBoth(st: State, t: nat, ret: Ref, xs: seq<Ref>, ys: seq<Ref>, fuel: nat): (r: (State, bool))
    requires t < |st.tables|
    ensures r.0.tables == st.tables
  {
    var r := AddEach(st, t, ret, xs, None, fuel);
    if r.1 then AddEach(r.0, t, ret, ys, None, fuel) else r
  }

  function IntersectNodes(st: State, t: nat, a: Ref, b: Ref, fuel: nat): (r: (State, Option<Ref>))
    requires t < |st.tables|
    ensures r.0.tables == st.tables
  {
    if !Compatible(st, a, b) then (st, None)
    else
      var (st1, ret) := NewArray(st, t, a);
      if ret.None? then (st1, None)
      else
        var (st2, ok) := AddEach(st1, t, ret.value, st.heap[a].cell.items, Some(st.heap[b].cell.items), fuel);
        (st2, if ok then ret else None)
  }

  // ---------------------------------------------------------------- what they can touch

  /** ret is an array under construction in table t. */
  ghost predicate Collecting(st: State, t: nat, ret: Ref, root: Ref) {
    Inv(st) && t < |st.tables| && IsArray(st, ret) && Part(st, ret, t, root)
  }

  lemma CollectingStays(st: State, st': State, t: nat, ret: Ref, root: Ref)
    requires Collecting(st, t, ret, root) && Touched(st, st', t, root, ret)
    ensures Collecting(st', t, ret, root)
  {
    assert SamePlace(st.heap[ret], st'.heap[ret]);
  }

  lemma CopyNodeOk(st: State, t: nat, ret: Ref, root: Ref, src: Ref, fuel: nat)
    requires Collecting(st, t, ret, root) && src in st.heap
    ensures var (st', c) := CopyNode(st, t, ret, src, fuel);
      Touched(st, st', t, root, ret) && (c.Some? ==> NewPart(st', ret, c.value) && c.value !in st.heap)
  {
    TouchedSame(st, t, root, ret);
    if !st.heap[src].cell.Arr? {
      var typ := CopyType(st.heap[src].cell);
      CreateOk(st, t, root, ret, typ, 0);
      var (st1, c) := Create(st, t, root, ret, typ, 0);
      AddsIsTouched(st, st1, t, root, ret);
      if c.Some? {
        assert ObjOk(st.heap, ret, st.heap[ret]);
        UpdateOk(st1, t, c.value, At(src), fuel, t, root);
        var st2 := Update(st1, t, c.value, At(src), fuel).0;
        StaysNewPart(st1, st2, ret, c.value, t, root);
        TouchedAbove(st1, st2, t, root, c.value, ret);
        TouchedThen(st, st1, st2, t, root, ret);
      }
    }
  }

  lemma AddUniqueOk(st: State, t: nat, ret: Ref, root: Ref, src: Ref, fuel: nat)
    requires Collecting(st, t, ret, root) && src in st.heap
    ensures Touched(st, AddUnique(st, t, ret, src, fuel).0, t, root, ret)
  {
    TouchedSame(st, t, root, ret);
    CopyNodeOk(st, t, ret, root, src, fuel);
    var (st1, c) := CopyNode(st, t, ret, src, fuel);
    if c.Some? {
      CollectingStays(st, st1, t, ret, root);
      AppendOk(st1, ret, c.value);
      TouchedThen(st, st1, Push(st1, ret, c.value), t, root, ret);
    }
  }

  lemma {:induction false} AddEachOk(st: State, t: nat, ret: Ref, root: Ref, xs: seq<Ref>, filter: Option<seq<Ref>>,
                                     fuel: nat)
    requires Collecting(st, t, ret, root) && forall x :: x in xs ==> x in st.heap
    ensures Touched(st, AddEach(st, t, ret, xs, filter, fuel).0, t, root, ret)
    decreases |xs|
  {
    TouchedSame(st, t, root, ret);
    if xs != [] {
      var n := |xs| - 1;
      AddEachOk(st, t, ret, root, xs[..n], filter, fuel);
      var (st1, ok) := AddEach(st, t, ret, xs[..n], filter, fuel);
      if ok {
        CollectingStays(st, st1, t, ret, root);
        TouchedSame(st1, t, root, ret);
        AddUniqueOk(st1, t, ret, root, xs[n], fuel);
        TouchedThen(st, st1, AddFiltered(st1, t, ret, xs[n], filter, fuel).0, t, root, ret);
      }
    }
  }

  lemma ItemsThere(st: State, a: Ref)
    requires Inv(st) && IsArray(st, a)
    ensures forall x :: x in st.heap[a].cell.items ==> x in st.heap
  {
    assert ObjOk(st.heap, a, st.heap[a]);
    assert forall x :: x in st.heap[a].cell.items ==> x in Children(st.heap[a].cell);
  }

  /** Only new nodes, all of them part of the result. */
  ghost predicate Collected(st: State, r: (State, Option<Ref>), t: nat) {
    && Inv(r.0) && OnlyAdds(st, r.0, t, st.next) && (r.1.Some? ==> r.1 == Some(st.next) && st.next in r.0.heap)
    && ((exists x :: x in r.0.heap && x !in st.heap) ==>
          st.next in r.0.heap && st.next !in st.heap && r.0.heap[st.next].root == st.next
            && r.0.heap[st.next].table == t)
  }

  lemma TouchedAdds(st: State, st1: State, st2: State, t: nat)
    requires Inv(st) && OnlyAdds(st, st1, t, st.next) && Touched(st1, st2, t, st.next, st.next)
    requires st.next in st1.heap && st1.heap[st.next].root == st.next && st1.heap[st.next].table == t
    ensures Collected(st, (st2, Some(st.next)), t)
  {
    assert SamePlace(st1.heap[st.next], st2.heap[st.next]);
  }

  lemma UnionOk(st: State, t: nat, a: Ref, b: Ref, fuel: nat)
    requires Inv(st) && t < |st.tables|
    ensures Collected(st, UnionNodes(st, t, a, b, fuel), t)
  {
    if Compatible(st, a, b) {
      NewArrayOk(st, t, a);
      var (st1, ret) := NewArray(st, t, a);
      if ret.Some? {
        var xs, ys := st.heap[a].cell.items, st.heap[b].cell.items;
        ItemsThere(st, a);
        ItemsThere(st, b);
        AddBothOk(st1, t, ret.value, st.next, xs, ys, fuel);
        TouchedAdds(st, st1, AddBoth(st1, t, ret.value, xs, ys, fuel).0, t);
      }
    }
  }

  lemma AddBothOk(st: State, t: nat, ret: Ref, root: Ref, xs: seq<Ref>, ys: seq<Ref>, fuel: nat)
    requires Collecting(st, t, ret, root) && forall x :: x in xs || x in ys ==> x in st.heap
    ensures Touched(st, AddBoth(st, t, ret, xs, ys, fuel).0, t, root, ret)
  {
    AddEachOk(st, t, ret, root, xs, None, fuel);
    var st1 := AddEach(st, t, ret, xs, None, fuel).0;
    CollectingStays(st, st1, t, ret, root);
    AddEachOk(st1, t, ret, root, ys, None, fuel);
    TouchedThen(st, st1, AddEach(st1, t, ret, ys, None, fuel).0, t, root, ret);
  }

  lemma IntersectOk(st: State, t: nat, a: Ref, b: Ref, fuel: nat)
    requires Inv(st) && t < |st.tables|
    ensures Collected(st, IntersectNodes(st, t, a, b, fuel), t)
  {
    if Compatible(st, a, b) {
      NewArrayOk(st, t, a);
      var (st1, ret) := NewArray(st, t, a);
      if ret.Some? {
        ItemsThere(st, a);
        var xs, ys := st.heap[a].cell.items, st.heap[b].cell.items;
        AddEachOk(st1, t, ret.value, st.next, xs, Some(ys), fuel);
        TouchedAdds(st, st1, AddEach(st1, t, ret.value, xs, Some(ys), fuel).0, t);
      }
    }
  }

  lemma NewArrayOk(st: State, t: nat, a: Ref)
    requires Inv(st) && t < |st.tables| && IsArray(st, a)
    ensures Collected(st, NewArray(st, t, a), t)
    ensures var (st1, ret) := NewArray(st, t, a); ret.Some? ==> Collecting(st1, t, ret.value, st.next)
  {
    NewArrayIs(st, t, a);
    if st.budget > 0 { AllocateOk(st, EmptyArray(CopyType(st.heap[a].cell), t), t, st.next, st.next); }
  }

  lemma NewArrayIs(st: State, t: nat, a: Ref)
    requires t < |st.tables| && IsArray(st, a)
    ensures var typ := CopyType(st.heap[a].cell);
      NewArray(st, t, a) == if typ.elem == StructT && StructDecl(st, t, typ.adt).None? then (st, None)
                            else if st.budget <= 0 then (Refused(st), None)
                            else (Allocate(st, EmptyArray(typ, t), t, st.next, st.next), Some(st.next))
  {
    var typ := CopyType(st.heap[a].cell);
    if st.budget > 0 {
      var st1 := Allocate(st, EmptyArray(typ, t), t, st.next, st.next);
      assert CreateItems(st1, t, st.next, st.next, Type(typ.elem, typ.adt, VoidT), 0) == (st1, Some(st.next));
    }
  }
}
