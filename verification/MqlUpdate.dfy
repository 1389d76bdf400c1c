/** updateADT: assignment by deep copy into an existing node, and which part of the heap it can touch. */
module MqlUpdate {
  import opened Base
  import opened MqlState

  /** What evaluating a node of the program yields; Other is a function or struct declaration. */
  datatype Node =
    | Empty
    | Value(b: Basic)
    | At(r: Ref)
    | Listed(items: seq<Node>)
    | Other
    | BreakTok
    | ContinueTok
    | ReturnTok

  /** The basic value of a node, if it is one. */
  function BasicOf(st: State, n: Node): Option<Basic> {
    match n
    case Value(b) => Some(b)
    case At(r) => if r in st.heap && st.heap[r].cell.Atom? then Some(st.heap[r].cell.b) else None
    case _ => None
  }

  function Refs(items: seq<Ref>): (n: seq<Node>)
    ensures |n| == |items| && forall i :: 0 <= i < |n| ==> n[i] == At(items[i])
  {
    seq(|items|, i requires 0 <= i < |items| => At(items[i]))
  }

  /** The result and whether it succeeded. fuel bounds the nesting. t is the table whose struct declarations count. */
  function Update(st: State, t: nat, dst: Ref, src: Node, fuel: nat): (r: (State, bool))
    requires t < |st.tables|
    ensures r.0.tables == st.tables
    decreases fuel, 3, 0
  {
    if fuel == 0 || dst !in st.heap then (st, false)
    else if st.heap[dst].cell.Rec? then UpdateRec(st, t, dst, src, fuel)
    else if st.heap[dst].cell.Arr? then UpdateArr(st, t, dst, src, fuel)
    else
      var b := BasicOf(st, src);
      if b.Some? && SameBasicKind(st.heap[dst].cell.b, b.value) then (SetCell(st, dst, Atom(b.value)), true)
      else (st, false)
  }

  /** A struct takes a list with one entry for each declared field, or another struct of the same type. */
  function UpdateRec(st: State, t: nat, dst: Ref, src: Node, fuel: nat): (r: (State, bool))
    requires t < |st.tables| && fuel > 0 && dst in st.heap && st.heap[dst].cell.Rec?
    ensures r.0.tables == st.tables
    decreases fuel, 2, 0
  {
    var adt := st.heap[dst].cell.adt;
    var decl := StructDecl(st, t, adt);
    if decl.None? || decl.value == [] then (st, false)
    else if src.Listed? then
      if |src.items| != |decl.value| then (st, false) else UpdateFields(st, t, dst, decl.value, src.items, fuel)
    else if src.At? && src.r in st.heap && st.heap[src.r].cell.Rec? && st.heap[src.r].cell.adt == adt then
      CopyFields(st, t, dst, src.r, decl.value, fuel)
    else (st, false)
  }

  /** An array is emptied and gets a new element for each entry of the source. */
  function UpdateArr(st: State, t: nat, dst: Ref, src: Node, fuel: nat): (r: (State, bool))
    requires t < |st.tables| && fuel > 0 && dst in st.heap && st.heap[dst].cell.Arr?
    ensures r.0.tables == st.tables
    decreases fuel, 2, 0
  {
    var cell := st.heap[dst].cell;
    if src.Listed? then UpdateItems(Clear(st, dst), t, dst, src.items, fuel)
    else if src.At? && src.r in st.heap && SameArray(cell, st.heap[src.r].cell) then
      var cleared := Clear(st, dst);
      UpdateItems(cleared, t, dst, Refs(cleared.heap[src.r].cell.items), fuel)
    else (st, false)
  }

  predicate SameArray(c: Cell, d: Cell) {
    c.Arr? && d.Arr? && c.elem == d.elem && (c.elem == StructT ==> c.elemAdt == d.elemAdt)
  }

  function Clear(st: State, r: Ref): State
    requires r in st.heap && st.heap[r].cell.Arr?
  {
    SetCell(st, r, st.heap[r].cell.(items := []))
  }

  function UpdateFields(st: State, t: nat, dst: Ref, decl: seq<FieldDecl>, items: seq<Node>,
                        fuel: nat): (r: (State, bool))
    requires t < |st.tables| && fuel > 0 && |decl| == |items|
    ensures r.0.tables == st.tables
    decreases fuel, 1, |decl|
  {
    if decl == [] then (st, true)
    else
      var n := |decl| - 1;
      var (st1, ok) := UpdateFields(st, t, dst, decl[..n], items[..n], fuel);
      if !ok then (st1, false) else UpdateField(st1, t, dst, decl[n].name, items[n], fuel)
  }

  function UpdateField(st: State, t: nat, dst: Ref, name: Name, src: Node, fuel: nat): (r: (State, bool))
    requires t < |st.tables| && fuel > 0
    ensures r.0.tables == st.tables
    decreases fuel, 0, 0
  {
    if dst in st.heap && st.heap[dst].cell.Rec? && name in st.heap[dst].cell.fields then
      Update(st, t, st.heap[dst].cell.fields[name], src, fuel - 1)
    else (st, false)
  }

  function CopyFields(st: State, t: nat, dst: Ref, src: Ref, decl: seq<FieldDecl>, fuel: nat): (r: (State, bool))
    requires t < |st.tables| && fuel > 0
    ensures r.0.tables == st.tables
    decreases fuel, 1, |decl|
  {
    if decl == [] then (st, true)
    else
      var n := |decl| - 1;
      var (st1, ok) := CopyFields(st, t, dst, src, decl[..n], fuel);
      if !ok then (st1, false) else CopyField(st1, t, dst, src, decl[n].name, fuel)
  }

  function CopyField(st: State, t: nat, dst: Ref, src: Ref, name: Name, fuel: nat): (r: (State, bool))
    requires t < |st.tables| && fuel > 0
    ensures r.0.tables == st.tables
    decreases fuel, 0, 1
  {
    if src in st.heap && st.heap[src].cell.Rec? && name in st.heap[src].cell.fields then
      UpdateField(st, t, dst, name, At(st.heap[src].cell.fields[name]), fuel)
    else (st, false)
  }

  function UpdateItems(st: State, t: nat, dst: Ref, items: seq<Node>, fuel: nat): (r: (State, bool))
    requires t < |st.tables| && fuel > 0
    ensures r.0.tables == st.tables
    decreases fuel, 1, |items|
  {
    if items == [] then (st, true)
    else
      var n := |items| - 1;
      var (st1, ok) := UpdateItems(st, t, dst, items[..n], fuel);
      if !ok then (st1, false) else UpdateItem(st1, t, dst, items[n], fuel)
  }

  /** A new element, made in the array's own table, copied into and appended. */
  function UpdateItem(st: State, t: nat, dst: Ref, src: Node, fuel: nat): (r: (State, bool))
    requires t < |st.tables| && fuel > 0
    ensures r.0.tables == st.tables
    decreases fuel, 0, 0
  {
    if dst !in st.heap || !st.heap[dst].cell.Arr? || st.heap[dst].cell.home >= |st.tables| then (st, false)
    else
      var (st1, c) := NewElement(st, dst);
      if c.None? then (st1, false) else FillElement(st1, t, dst, c.value, src, fuel)
  }

  function FillElement(st: State, t: nat, dst: Ref, c: Ref, src: Node, fuel: nat): (r: (State, bool))
    requires t < |st.tables| && fuel > 0
    ensures r.0.tables == st.tables
    decreases fuel - 1, 4, 0
  {
    var (st2, ok) := Update(st, t, c, src, fuel - 1);
    if !ok || dst !in st2.heap || !st2.heap[dst].cell.Arr? then (st2, false) else (Push(st2, dst, c), true)
  }

  function NewElement(st: State, dst: Ref): (r: (State, Option<Ref>))
    requires dst in st.heap && st.heap[dst].cell.Arr? && st.heap[dst].cell.home < |st.tables|
    ensures r.0.tables == st.tables
  {
    var cell := st.heap[dst].cell;
    Create(st, cell.home, st.heap[dst].root, dst,
           Type(cell.elem, if cell.elemAdt.Some? then cell.elemAdt.value else "", VoidT), 0)
  }

  // ---------------------------------------------------------------- what assignment can touch

  /** Every node mentioned is allocated. */
  ghost predicate Live(st: State, n: Node) {
    match n
    case At(r) => r in st.heap
    case Listed(items) => forall i :: 0 <= i < |items| ==> Live(st, items[i])
    case _ => true
  }

  ghost predicate AllLive(st: State, items: seq<Node>) {
    forall i :: 0 <= i < |items| ==> Live(st, items[i])
  }

  lemma {:induction false} LiveStays(st: State, st': State, n: Node)
    requires Live(st, n) && forall r :: r in st.heap ==> r in st'.heap
    ensures Live(st', n)
  {
    match n
    case Listed(items) => forall i | 0 <= i < |items| ensures Live(st', items[i]) { LiveStays(st, st', items[i]); }
    case _ =>
  }

  lemma AllLiveStay(st: State, st': State, items: seq<Node>)
    requires AllLive(st, items) && forall r :: r in st.heap ==> r in st'.heap
    ensures AllLive(st', items)
  {
    forall i | 0 <= i < |items| ensures Live(st', items[i]) { LiveStays(st, st', items[i]); }
  }

  lemma OnlyRootThen(st: State, st1: State, st2: State, t: nat, root: Ref)
    requires OnlyRoot(st, st1, t, root) && OnlyRoot(st1, st2, t, root)
    ensures OnlyRoot(st, st2, t, root)
  {
    forall r | r in st.heap ensures SamePlace(st.heap[r], st2.heap[r]) {
      SamePlaceThen(st.heap[r], st1.heap[r], st2.heap[r]);
    }
  }

  lemma TouchedThen(st: State, st1: State, st2: State, t: nat, root: Ref, low: Ref)
    requires Touched(st, st1, t, root, low) && Touched(st1, st2, t, root, low)
    ensures Touched(st, st2, t, root, low)
  {
    OnlyRootThen(st, st1, st2, t, root);
  }

  lemma TouchedAbove(st: State, st': State, t: nat, root: Ref, low: Ref, lower: Ref)
    requires Touched(st, st', t, root, low) && lower <= low
    ensures Touched(st, st', t, root, lower)
  {}

  lemma SamePlaceThen(o: Obj, o1: Obj, o2: Obj)
    requires SamePlace(o, o1) && SamePlace(o1, o2)
    ensures SamePlace(o, o2)
  {}

  lemma TouchedSame(st: State, t: nat, root: Ref, low: Ref)
    requires Inv(st)
    ensures Touched(st, st, t, root, low)
  {}

  lemma AddsIsTouched(st: State, st': State, t: nat, root: Ref, low: Ref)
    requires Inv(st') && OnlyAdds(st, st', t, root)
    ensures Touched(st, st', t, root, low)
  {}

  /** dst is an allocated part of variable `root` in table t. */
  ghost predicate Part(st: State, dst: Ref, t: nat, root: Ref) {
    dst in st.heap && st.heap[dst].table == t && st.heap[dst].root == root
  }

  lemma ClearOk(st: State, dst: Ref)
    requires Inv(st) && dst in st.heap && st.heap[dst].cell.Arr?
    ensures Touched(st, Clear(st, dst), st.heap[dst].table, st.heap[dst].root, dst)
  {
    assert ObjOk(st.heap, dst, st.heap[dst]);
    SetCellOk(st, dst, st.heap[dst].cell.(items := []));
  }

  lemma {:induction false} UpdateOk(st: State, t: nat, dst: Ref, src: Node, fuel: nat, tab: nat, root: Ref)
    requires Inv(st) && t < |st.tables| && Part(st, dst, tab, root) && Live(st, src)
    ensures Touched(st, Update(st, t, dst, src, fuel).0, tab, root, dst)
    decreases fuel, 3, 0
  {
    if fuel == 0 {
      TouchedSame(st, tab, root, dst);
    } else if st.heap[dst].cell.Rec? {
      UpdateRecOk(st, t, dst, src, fuel, tab, root);
    } else if st.heap[dst].cell.Arr? {
      UpdateArrOk(st, t, dst, src, fuel, tab, root);
    } else {
      var b := BasicOf(st, src);
      TouchedSame(st, tab, root, dst);
      if b.Some? && SameBasicKind(st.heap[dst].cell.b, b.value) { SetCellOk(st, dst, Atom(b.value)); }
    }
  }

  lemma {:induction false} UpdateRecOk(st: State, t: nat, dst: Ref, src: Node, fuel: nat, tab: nat, root: Ref)
    requires Inv(st) && t < |st.tables| && Part(st, dst, tab, root) && Live(st, src)
    requires fuel > 0 && st.heap[dst].cell.Rec?
    ensures Touched(st, UpdateRec(st, t, dst, src, fuel).0, tab, root, dst)
    decreases fuel, 2, 0
  {
    TouchedSame(st, tab, root, dst);
    var decl := StructDecl(st, t, st.heap[dst].cell.adt);
    if decl.Some? && decl.value != [] {
      if src.Listed? && |src.items| == |decl.value| {
        UpdateFieldsOk(st, t, dst, decl.value, src.items, fuel, tab, root);
      } else if src.At? {
        CopyFieldsOk(st, t, dst, src.r, decl.value, fuel, tab, root);
      }
    }
  }

  lemma PartsLive(st: State, r: Ref)
    requires Inv(st) && r in st.heap && st.heap[r].cell.Arr?
    ensures AllLive(st, Refs(st.heap[r].cell.items))
  {
    assert ObjOk(st.heap, r, st.heap[r]);
    var items := st.heap[r].cell.items;
    forall i | 0 <= i < |items| ensures items[i] in st.heap {
      assert items[i] in Children(st.heap[r].cell);
    }
  }

  lemma {:induction false} UpdateArrOk(st: State, t: nat, dst: Ref, src: Node, fuel: nat, tab: nat, root: Ref)
    requires Inv(st) && t < |st.tables| && Part(st, dst, tab, root) && Live(st, src)
    requires fuel > 0 && st.heap[dst].cell.Arr?
    ensures Touched(st, UpdateArr(st, t, dst, src, fuel).0, tab, root, dst)
    decreases fuel, 2, 0
  {
    TouchedSame(st, tab, root, dst);
    ClearOk(st, dst);
    var cleared := Clear(st, dst);
    if src.Listed? {
      AllLiveStay(st, cleared, src.items);
      UpdateItemsOk(cleared, t, dst, src.items, fuel, tab, root);
      TouchedThen(st, cleared, UpdateItems(cleared, t, dst, src.items, fuel).0, tab, root, dst);
    } else if src.At? && SameArray(st.heap[dst].cell, st.heap[src.r].cell) {
      var items := Refs(cleared.heap[src.r].cell.items);
      PartsLive(cleared, src.r);
      UpdateItemsOk(cleared, t, dst, items, fuel, tab, root);
      TouchedThen(st, cleared, UpdateItems(cleared, t, dst, items, fuel).0, tab, root, dst);
    }
  }

  lemma {:induction false} UpdateFieldsOk(st: State, t: nat, dst: Ref, decl: seq<FieldDecl>, items: seq<Node>,
                                          fuel: nat, tab: nat, root: Ref)
    requires Inv(st) && t < |st.tables| && Part(st, dst, tab, root) && AllLive(st, items)
    requires fuel > 0 && |decl| == |items|
    ensures Touched(st, UpdateFields(st, t, dst, decl, items, fuel).0, tab, root, dst)
    decreases fuel, 1, |decl|
  {
    TouchedSame(st, tab, root, dst);
    if decl != [] {
      var n := |decl| - 1;
      UpdateFieldsOk(st, t, dst, decl[..n], items[..n], fuel, tab, root);
      var (st1, ok) := UpdateFields(st, t, dst, decl[..n], items[..n], fuel);
      if ok {
        LiveStays(st, st1, items[n]);
        UpdateFieldOk(st1, t, dst, decl[n].name, items[n], fuel, tab, root);
        TouchedThen(st, st1, UpdateField(st1, t, dst, decl[n].name, items[n], fuel).0, tab, root, dst);
      }
    }
  }

  lemma {:induction false} UpdateFieldOk(st: State, t: nat, dst: Ref, name: Name, src: Node, fuel: nat, tab: nat,
                                         root: Ref)
    requires Inv(st) && t < |st.tables| && Part(st, dst, tab, root) && Live(st, src) && fuel > 0
    ensures Touched(st, UpdateField(st, t, dst, name, src, fuel).0, tab, root, dst)
    decreases fuel, 0, 0
  {
    TouchedSame(st, tab, root, dst);
    if st.heap[dst].cell.Rec? && name in st.heap[dst].cell.fields {
      assert ObjOk(st.heap, dst, st.heap[dst]) && st.heap[dst].cell.fields[name] in Children(st.heap[dst].cell);
      var c := st.heap[dst].cell.fields[name];
      UpdateOk(st, t, c, src, fuel - 1, tab, root);
      TouchedAbove(st, Update(st, t, c, src, fuel - 1).0, tab, root, c, dst);
    }
  }

  lemma {:induction false} CopyFieldsOk(st: State, t: nat, dst: Ref, src: Ref, decl: seq<FieldDecl>, fuel: nat,
                                        tab: nat, root: Ref)
    requires Inv(st) && t < |st.tables| && Part(st, dst, tab, root) && src in st.heap && fuel > 0
    ensures Touched(st, CopyFields(st, t, dst, src, decl, fuel).0, tab, root, dst)
    decreases fuel, 1, |decl|
  {
    TouchedSame(st, tab, root, dst);
    if decl != [] {
      var n := |decl| - 1;
      CopyFieldsOk(st, t, dst, src, decl[..n], fuel, tab, root);
      var (st1, ok) := CopyFields(st, t, dst, src, decl[..n], fuel);
      if ok {
        CopyFieldOk(st1, t, dst, src, decl[n].name, fuel, tab, root);
        TouchedThen(st, st1, CopyField(st1, t, dst, src, decl[n].name, fuel).0, tab, root, dst);
      }
    }
  }

  lemma {:induction false} CopyFieldOk(st: State, t: nat, dst: Ref, src: Ref, name: Name, fuel: nat, tab: nat,
                                       root: Ref)
    requires Inv(st) && t < |st.tables| && Part(st, dst, tab, root) && src in st.heap && fuel > 0
    ensures Touched(st, CopyField(st, t, dst, src, name, fuel).0, tab, root, dst)
    decreases fuel, 0, 1
  {
    TouchedSame(st, tab, root, dst);
    if st.heap[src].cell.Rec? && name in st.heap[src].cell.fields {
      assert ObjOk(st.heap, src, st.heap[src]) && st.heap[src].cell.fields[name] in Children(st.heap[src].cell);
      UpdateFieldOk(st, t, dst, name, At(st.heap[src].cell.fields[name]), fuel, tab, root);
    }
  }

  lemma {:induction false} UpdateItemsOk(st: State, t: nat, dst: Ref, items: seq<Node>, fuel: nat, tab: nat, root: Ref)
    requires Inv(st) && t < |st.tables| && Part(st, dst, tab, root) && AllLive(st, items) && fuel > 0
    ensures Touched(st, UpdateItems(st, t, dst, items, fuel).0, tab, root, dst)
    decreases fuel, 1, |items|
  {
    TouchedSame(st, tab, root, dst);
    if items != [] {
      var n := |items| - 1;
      UpdateItemsOk(st, t, dst, items[..n], fuel, tab, root);
      var (st1, ok) := UpdateItems(st, t, dst, items[..n], fuel);
      if ok {
        LiveStays(st, st1, items[n]);
        UpdateItemOk(st1, t, dst, items[n], fuel, tab, root);
        TouchedThen(st, st1, UpdateItem(st1, t, dst, items[n], fuel).0, tab, root, dst);
      }
    }
  }

  lemma {:induction false} UpdateItemOk(st: State, t: nat, dst: Ref, src: Node, fuel: nat, tab: nat, root: Ref)
    requires Inv(st) && t < |st.tables| && Part(st, dst, tab, root) && Live(st, src) && fuel > 0
    ensures Touched(st, UpdateItem(st, t, dst, src, fuel).0, tab, root, dst)
    decreases fuel, 0, 0
  {
    TouchedSame(st, tab, root, dst);
    if st.heap[dst].cell.Arr? {
      assert ObjOk(st.heap, dst, st.heap[dst]);
      NewElementOk(st, dst, tab, root);
      var (st1, c) := NewElement(st, dst);
      if c.Some? {
        LiveStays(st, st1, src);
        FillElementOk(st1, t, dst, c.value, src, fuel, tab, root);
        TouchedThen(st, st1, FillElement(st1, t, dst, c.value, src, fuel).0, tab, root, dst);
      }
    }
  }

  lemma {:induction false} FillElementOk(st: State, t: nat, dst: Ref, c: Ref, src: Node, fuel: nat, tab: nat, root: Ref)
    requires Inv(st) && t < |st.tables| && Part(st, dst, tab, root) && Live(st, src) && fuel > 0
    requires NewPart(st, dst, c)
    ensures Touched(st, FillElement(st, t, dst, c, src, fuel).0, tab, root, dst)
    decreases fuel - 1, 4, 0
  {
    UpdateOk(st, t, c, src, fuel - 1, tab, root);
    var st2 := Update(st, t, c, src, fuel - 1).0;
    TouchedAbove(st, st2, tab, root, c, dst);
    if st2.heap[dst].cell.Arr? {
      StaysNewPart(st, st2, dst, c, tab, root);
      AppendOk(st2, dst, c);
      TouchedThen(st, st2, Push(st2, dst, c), tab, root, dst);
    }
  }

  /** c was made for array dst, after all its items. */
  ghost predicate NewPart(st: State, dst: Ref, c: Ref) {
    && dst in st.heap && PartOf(st.heap, c, dst, st.heap[dst])
    && forall x :: x in Children(st.heap[dst].cell) ==> x < c
  }

  lemma StaysNewPart(st: State, st2: State, dst: Ref, c: Ref, tab: nat, root: Ref)
    requires NewPart(st, dst, c) && Touched(st, st2, tab, root, c)
    ensures NewPart(st2, dst, c)
  {
    assert SamePlace(st.heap[c], st2.heap[c]) && st2.heap[dst] == st.heap[dst];
  }

  lemma NewElementOk(st: State, dst: Ref, tab: nat, root: Ref)
    requires Inv(st) && Part(st, dst, tab, root) && st.heap[dst].cell.Arr? && st.heap[dst].cell.home == tab
    ensures var (st', c) := NewElement(st, dst);
      && Touched(st, st', tab, root, dst)
      && (c.Some? ==> Part(st', c.value, tab, root) && c.value !in st.heap && NewPart(st', dst, c.value))
  {
    var cell := st.heap[dst].cell;
    var typ := Type(cell.elem, if cell.elemAdt.Some? then cell.elemAdt.value else "", VoidT);
    CreateOk(st, tab, root, dst, typ, 0);
    AddsIsTouched(st, Create(st, tab, root, dst, typ, 0).0, tab, root, dst);
    assert ObjOk(st.heap, dst, st.heap[dst]);
  }

  lemma AppendOk(st: State, dst: Ref, c: Ref)
    requires Inv(st) && NewPart(st, dst, c) && st.heap[dst].cell.Arr?
    ensures Touched(st, Push(st, dst, c), st.heap[dst].table, st.heap[dst].root, dst)
  {
    assert ObjOk(st.heap, dst, st.heap[dst]);
    var items := st.heap[dst].cell.items;
    assert forall i :: 0 <= i < |items| ==> items[i] in Children(st.heap[dst].cell);
    SetCellOk(st, dst, st.heap[dst].cell.(items := items + [c]));
  }
}
