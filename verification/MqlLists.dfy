/** Arrays in place: what push_back, pop_back and a list of initial values leave in them. */
module MqlLists {
  import opened Base
  import opened MqlState
  import opened MqlUpdate
  import opened MqlArrays
  import opened MqlEval
  import opened MqlScope
  import opened MqlCalls
  import opened MqlValues
  import opened MqlCopy
  import opened MqlAssign
  import opened MqlCosts
  import opened MqlTrees
  import opened MqlTidy
  import opened MqlRuns
  import opened MqlBinding
  import opened MqlUnion

  /** dst is an array with items vs, a tree; n stands for a value and is no part of the array. */
  ghost predicate Pushable(st: State, dst: Ref, elem: Kind, adt: Option<Name>, vs: seq<MqlValues.Value>, n: Node,
                           v: MqlValues.Value, decls: Decls) {
    && Inv(st) && Uniform(st.tables, decls) && Denotes(st.heap, dst, VArr(elem, adt, vs))
    && Separate(st.heap, dst, VArr(elem, adt, vs))
    && Stands(st, n, v) && Regular(decls, v) && dst !in MqlBinding.Made(st, n, v)
  }

  lemma IsPushable(st: State, dst: Ref, elem: Kind, adt: Option<Name>, vs: seq<MqlValues.Value>, n: Node,
                   v: MqlValues.Value, decls: Decls)
    requires Tidy(st, decls) && Fine(st, decls, dst) && Denotes(st.heap, dst, VArr(elem, adt, vs))
    requires Stands(st, n, v) && NodeFine(st, decls, n) && dst !in MqlBinding.Made(st, n, v)
    ensures Pushable(st, dst, elem, adt, vs, n, v, decls) && Regular(decls, VArr(elem, adt, vs))
  {
    ValuesAreTrees(st, dst, VArr(elem, adt, vs));
    FineIsRegular(st, decls, dst, VArr(elem, adt, vs));
    if n.At? { FineIsRegular(st, decls, n.r, v); }
  }

  /** The array takes a copy of the value, at the end; on failure or not, nothing but the array changes. */
  lemma ItemTaken(st: State, dst: Ref, elem: Kind, adt: Option<Name>, vs: seq<MqlValues.Value>, n: Node,
                  v: MqlValues.Value, fuel: nat, decls: Decls)
    requires Pushable(st, dst, elem, adt, vs, n, v, decls) && fuel > 0
    ensures Copied(st, UpdateItem(st, Top(st), dst, n, fuel), dst, VArr(elem, adt, vs), VArr(elem, adt, vs + [v]))
  {
    if n.At? {
      ItemCopies(st, Top(st), dst, elem, adt, vs, n.r, v, fuel, decls);
    } else {
      BasicItemTaken(st, dst, elem, adt, vs, n.b, fuel, decls);
    }
  }

  lemma BasicItemTaken(st: State, dst: Ref, elem: Kind, adt: Option<Name>, vs: seq<MqlValues.Value>, b: Basic,
                       fuel: nat, decls: Decls)
    requires Pushable(st, dst, elem, adt, vs, Node.Value(b), VAtom(b), decls) && fuel > 0
    ensures Copied(st, UpdateItem(st, Top(st), dst, Node.Value(b), fuel), dst, VArr(elem, adt, vs),
                   VArr(elem, adt, vs + [VAtom(b)]))
  {
    ItemInv(st, Top(st), dst, dst, fuel);
    UpdateItemOk(st, Top(st), dst, Node.Value(b), fuel, st.heap[dst].table, st.heap[dst].root);
    var d := NewElementMade(st, dst, decls);
    var (st1, c) := NewElement(st, dst);
    if c.Some? {
      BasicItemFilled(st, st1, dst, elem, adt, vs, c.value, d, b, fuel, decls);
    } else {
      NothingCopied(st, st1, dst, VArr(elem, adt, vs), VArr(elem, adt, vs + [VAtom(b)]));
    }
  }

  lemma BasicItemFilled(st: State, st1: State, dst: Ref, elem: Kind, adt: Option<Name>, vs: seq<MqlValues.Value>,
                        c: Ref, d: MqlValues.Value, b: Basic, fuel: nat, decls: Decls)
    requires st.tables != [] && st1.tables == st.tables && Inv(st1) && fuel > 0
    requires Denotes(st.heap, dst, VArr(elem, adt, vs)) && Separate(st.heap, dst, VArr(elem, adt, vs))
    requires OnlyIn(st.heap, st1.heap, {}) && Tree(st.heap, st1.heap, c, d, {})
    requires Inv(FillElement(st1, Top(st), dst, c, Node.Value(b), fuel).0)
    ensures Copied(st, FillElement(st1, Top(st), dst, c, Node.Value(b), fuel), dst, VArr(elem, adt, vs),
                   VArr(elem, adt, vs + [VAtom(b)]))
  {
    BasicCopied(st1, Top(st), c, d, b, fuel - 1);
    ElementFilled(st, st1, Top(st), dst, elem, adt, vs, c, d, Node.Value(b), VAtom(b), fuel, decls);
  }

  lemma BasicCopied(st: State, t: nat, c: Ref, d: MqlValues.Value, b: Basic, fuel: nat)
    requires Inv(st) && t < |st.tables| && Denotes(st.heap, c, d) && Separate(st.heap, c, d)
    ensures Copied(st, Update(st, t, c, Node.Value(b), fuel), c, d, VAtom(b))
  {
    UpdateInv(st, t, c, Node.Value(b), fuel);
  }

  /** A fitting value is taken exactly when the limit allows the new item and the copy. */
  lemma ItemTakenIff(st: State, dst: Ref, elem: Kind, adt: Option<Name>, vs: seq<MqlValues.Value>, n: Node,
                     v: MqlValues.Value, fuel: nat, depth: nat, decls: Decls)
    requires Pushable(st, dst, elem, adt, vs, n, v, decls) && fuel > 0
    requires HasType(decls, v, ItemType(elem, adt)) && Within(v, fuel - 1) && depth >= Left(st.budget)
    ensures PaidFor(st.budget, UpdateItem(st, Top(st), dst, n, fuel),
                    Plus(CreateCost(decls, ItemType(elem, adt), 0, depth), CopyCost(decls, v, depth)))
  {
    if n.At? {
      CopyDecided(st, Top(st), dst, elem, adt, vs, n.r, v, fuel, depth, decls);
    } else {
      BasicItemDecided(st, dst, elem, adt, vs, n.b, fuel, depth, decls);
    }
  }

  lemma BasicItemDecided(st: State, dst: Ref, elem: Kind, adt: Option<Name>, vs: seq<MqlValues.Value>, b: Basic,
                         fuel: nat, depth: nat, decls: Decls)
    requires Pushable(st, dst, elem, adt, vs, Node.Value(b), VAtom(b), decls) && fuel > 1
    requires HasType(decls, VAtom(b), ItemType(elem, adt)) && depth >= Left(st.budget)
    ensures PaidFor(st.budget, UpdateItem(st, Top(st), dst, Node.Value(b), fuel),
                    Plus(CreateCost(decls, ItemType(elem, adt), 0, depth), CopyCost(decls, VAtom(b), depth)))
  {
    var typ, n := ItemType(elem, adt), Node.Value(b);
    ItemInv(st, Top(st), dst, dst, fuel);
    NewElementDecided(st, dst, typ, depth, decls);
    var d := NewElementMade(st, dst, decls);
    var (st1, c) := NewElement(st, dst);
    if c.Some? {
      BasicTaken(st1, Top(st), c.value, d, n, VAtom(b), typ, fuel - 1, decls);
      FilledDecided(st1, Top(st), dst, c.value, n, fuel);
    }
    ElementPaid(st, Top(st), dst, n, fuel, CreateCost(decls, typ, 0, depth), CopyCost(decls, VAtom(b), depth));
  }

  /**
    push_back: the array is evaluated first, then the value. A fitting value that is no part of the array is appended,
    as a copy, exactly when the limit allows; nothing but the array changes.
   */
  lemma PushRule(arith: Arith, ev: Ev, st: State, arr: Expr, item: Expr, fuel: nat, st1: State, st2: State, dst: Ref,
                 elem: Kind, adt: Option<Name>, vs: seq<MqlValues.Value>, n: Node, v: MqlValues.Value, depth: nat,
                 decls: Decls)
    requires ev(st, arr) == Some((st1, At(dst))) && ev(st1, item) == Some((st2, n))
    requires Tidy(st2, decls) && Fine(st2, decls, dst) && Denotes(st2.heap, dst, VArr(elem, adt, vs))
    requires Stands(st2, n, v) && NodeFine(st2, decls, n) && dst !in MqlBinding.Made(st2, n, v) && fuel > 0
    requires HasType(decls, v, ItemType(elem, adt)) && Within(v, fuel - 1) && depth >= Left(st2.budget)
    ensures var r := Step(arith, ev, st, PushBack(arr, item), fuel);
      && r.Some? && r.value.1 == Empty
      && OnlyIn(st2.heap, r.value.0.heap, Foot(st2.heap, dst, VArr(elem, adt, vs)))
      && (Affordable(Plus(CreateCost(decls, ItemType(elem, adt), 0, depth), CopyCost(decls, v, depth)), st2.budget) ==>
            Denotes(r.value.0.heap, dst, VArr(elem, adt, vs + [v])))
  {
    IsPushable(st2, dst, elem, adt, vs, n, v, decls);
    ItemTaken(st2, dst, elem, adt, vs, n, v, fuel, decls);
    ItemTakenIff(st2, dst, elem, adt, vs, n, v, fuel, depth, decls);
    FitsAsItem(st2, dst, elem, adt, vs, n, v, decls);
    PushIs(arith, ev, st, arr, item, fuel, st1, st2, dst, n);
  }

  lemma FitsAsItem(st: State, dst: Ref, elem: Kind, adt: Option<Name>, vs: seq<MqlValues.Value>, n: Node,
                   v: MqlValues.Value, decls: Decls)
    requires Pushable(st, dst, elem, adt, vs, n, v, decls) && HasType(decls, v, ItemType(elem, adt))
    requires Regular(decls, VArr(elem, adt, vs))
    ensures FitsElement(st, st.heap[dst].cell, n)
  {}

  lemma PushIs(arith: Arith, ev: Ev, st: State, arr: Expr, item: Expr, fuel: nat, st1: State, st2: State, dst: Ref,
               n: Node)
    requires ev(st, arr) == Some((st1, At(dst))) && ev(st1, item) == Some((st2, n))
    requires HasTop(st2) && fuel > 0 && dst in st2.heap && FitsElement(st2, st2.heap[dst].cell, n)
    ensures Step(arith, ev, st, PushBack(arr, item), fuel) ==
      Some((UpdateItem(st2, Top(st2), dst, n, fuel).0, Empty))
  {}

  /** pop_back drops the last item of an array that has one, and changes nothing else. */
  lemma PopRule(arith: Arith, ev: Ev, st: State, arr: Expr, fuel: nat, st1: State, dst: Ref, elem: Kind,
                adt: Option<Name>, vs: seq<MqlValues.Value>)
    requires ev(st, arr) == Some((st1, At(dst))) && Denotes(st1.heap, dst, VArr(elem, adt, vs))
    requires Separate(st1.heap, dst, VArr(elem, adt, vs))
    ensures var r := Step(arith, ev, st, PopBack(arr), fuel);
      && r.Some? && r.value.1 == Empty && OnlyIn(st1.heap, r.value.0.heap, {dst})
      && Denotes(r.value.0.heap, dst, VArr(elem, adt, if vs == [] then [] else vs[..|vs| - 1]))
  {
    if vs != [] {
      var st2 := Shortened(st1, dst);
      forall i | 0 <= i < |vs| - 1 ensures Denotes(st2.heap, st1.heap[dst].cell.items[i], vs[i]) {
        Framed(st1.heap, st2.heap, st1.heap[dst].cell.items[i], vs[i]);
      }
    }
  }

  // ---------------------------------------------------------------- array_union and array_intersect

  /** The arguments are evaluated in order; the result is the one that UnionReturns and IntersectReturns describe. */
  lemma ArraysRule(arith: Arith, ev: Ev, st: State, first: Expr, second: Expr, fuel: nat, st1: State, st2: State,
                   a: Ref, b: Ref)
    requires ev(st, first) == Some((st1, At(a))) && ev(st1, second) == Some((st2, At(b))) && HasTop(st2)
    ensures var (st3, o) := UnionNodes(st2, Top(st2), a, b, fuel);
      Step(arith, ev, st, ArrayUnion(first, second), fuel) == Some((st3, if o.Some? then At(o.value) else Empty))
    ensures var (st3, o) := IntersectNodes(st2, Top(st2), a, b, fuel);
      Step(arith, ev, st, ArrayIntersect(first, second), fuel) == Some((st3, if o.Some? then At(o.value) else Empty))
  {}

  // ---------------------------------------------------------------- lists of initial values

  /** What a list is made of, none of it a part of the array. */
  ghost predicate Givable(st: State, dst: Ref, ns: seq<Node>, vs: seq<MqlValues.Value>, decls: Decls) {
    |ns| == |vs| && forall i :: 0 <= i < |ns| ==>
      Stands(st, ns[i], vs[i]) && Regular(decls, vs[i]) && dst !in MqlBinding.Made(st, ns[i], vs[i])
  }

  lemma {:induction false} ListTaken(st: State, dst: Ref, elem: Kind, adt: Option<Name>, ns: seq<Node>,
                                     vs: seq<MqlValues.Value>, fuel: nat, decls: Decls)
    requires Inv(st) && Uniform(st.tables, decls) && fuel > 0 && Givable(st, dst, ns, vs, decls)
    requires Denotes(st.heap, dst, VArr(elem, adt, [])) && Separate(st.heap, dst, VArr(elem, adt, []))
    ensures Copied(st, UpdateItems(st, Top(st), dst, ns, fuel), dst, VArr(elem, adt, []), VArr(elem, adt, vs))
    decreases |ns|
  {
    if ns == [] {
      NoItemTaken(st, dst, elem, adt);
      assert UpdateItems(st, Top(st), dst, ns, fuel) == (st, true) && vs == [];
    } else {
      var n := |ns| - 1;
      ListTaken(st, dst, elem, adt, ns[..n], vs[..n], fuel, decls);
      var r1 := UpdateItems(st, Top(st), dst, ns[..n], fuel);
      NextTaken(st, r1, Top(st), dst, elem, adt, ns[n], vs[..n], vs[n], fuel, decls);
      assert vs == vs[..n] + [vs[n]];
      ItemsTakenIs(st, Top(st), dst, ns, fuel);
    }
  }

  lemma NextTaken(st: State, r1: (State, bool), t: nat, dst: Ref, elem: Kind, adt: Option<Name>, n: Node,
                  vs: seq<MqlValues.Value>, v: MqlValues.Value, fuel: nat, decls: Decls)
    requires Inv(st) && t == Top(st) && Uniform(st.tables, decls) && fuel > 0
    requires Denotes(st.heap, dst, VArr(elem, adt, [])) && Copied(st, r1, dst, VArr(elem, adt, []), VArr(elem, adt, vs))
    requires Stands(st, n, v) && Regular(decls, v) && dst !in MqlBinding.Made(st, n, v)
    ensures Copied(st, if !r1.1 then (r1.0, false) else UpdateItem(r1.0, t, dst, n, fuel), dst, VArr(elem, adt, []),
                   VArr(elem, adt, vs + [v]))
  {
    if r1.1 { LastTaken(st, r1.0, dst, elem, adt, n, vs, v, fuel, decls); }
  }

  lemma NoItemTaken(st: State, dst: Ref, elem: Kind, adt: Option<Name>)
    requires Inv(st) && Denotes(st.heap, dst, VArr(elem, adt, [])) && Separate(st.heap, dst, VArr(elem, adt, []))
    ensures Copied(st, (st, true), dst, VArr(elem, adt, []), VArr(elem, adt, []))
  {}

  lemma ItemsTakenIs(st: State, t: nat, dst: Ref, ns: seq<Node>, fuel: nat)
    requires t < |st.tables| && fuel > 0 && ns != []
    ensures var (st1, ok) := UpdateItems(st, t, dst, ns[..|ns| - 1], fuel);
      UpdateItems(st, t, dst, ns, fuel) == if !ok then (st1, false) else UpdateItem(st1, t, dst, ns[|ns| - 1], fuel)
  {
    var n := |ns| - 1;
    var r1 := UpdateItems(st, t, dst, ns[..n], fuel);
  }

  lemma LastTaken(st: State, st1: State, dst: Ref, elem: Kind, adt: Option<Name>, n: Node, vs: seq<MqlValues.Value>,
                  v: MqlValues.Value, fuel: nat, decls: Decls)
    requires Inv(st) && Uniform(st.tables, decls) && fuel > 0
    requires Denotes(st.heap, dst, VArr(elem, adt, []))
    requires Stands(st, n, v) && Regular(decls, v) && dst !in MqlBinding.Made(st, n, v)
    requires Copied(st, (st1, true), dst, VArr(elem, adt, []), VArr(elem, adt, vs))
    ensures Copied(st, UpdateItem(st1, Top(st1), dst, n, fuel), dst, VArr(elem, adt, []), VArr(elem, adt, vs + [v]))
  {
    StillPushable(st, st1, dst, elem, adt, n, vs, v, decls);
    ItemTaken(st1, dst, elem, adt, vs, n, v, fuel, decls);
    CopiedThen(st, st1, UpdateItem(st1, Top(st1), dst, n, fuel), dst, VArr(elem, adt, []), VArr(elem, adt, vs),
               VArr(elem, adt, vs + [v]));
  }

  lemma StillPushable(st: State, st1: State, dst: Ref, elem: Kind, adt: Option<Name>, n: Node,
                      vs: seq<MqlValues.Value>, v: MqlValues.Value, decls: Decls)
    requires Inv(st) && Uniform(st.tables, decls) && Denotes(st.heap, dst, VArr(elem, adt, []))
    requires Stands(st, n, v) && Regular(decls, v) && dst !in MqlBinding.Made(st, n, v)
    requires Copied(st, (st1, true), dst, VArr(elem, adt, []), VArr(elem, adt, vs))
    ensures Pushable(st1, dst, elem, adt, vs, n, v, decls)
  {
    if n.At? { Framed(st.heap, st1.heap, n.r, v); }
  }

  /** int x[] = {e, e, ...}: a new array with the values of the expressions, in their order. */
  lemma ArrayInitRule(arith: Arith, ev: Ev, st: State, typ: Type, name: Name, es: seq<Expr>, fuel: nat, st1: State,
                      ns: seq<Node>, vs: seq<MqlValues.Value>, decls: Decls)
    requires EvalList(ev, st, es) == Some((st1, ns)) && Tidy(st1, decls) && name !in decls && typ.kind == ArrayT
    requires AllStand(st1, ns, vs, decls)
    ensures var r := Step(arith, ev, st, NewVarInit(typ, name, List(es)), fuel);
      && r.Some?
      && (r.value.1 != Empty ==>
            && OnlyMore(st1, r.value.0) && r.value.1 == At(r.value.0.tables[Top(r.value.0)].names[name].r)
            && Received(st1, r.value.0, name, VArr(typ.elem, if typ.elem == StructT then Some(typ.adt) else None, vs)))
  {
    VariableIsNew(st1, typ, 0, name, decls);
    ListInitIs(arith, ev, st, typ, name, es, fuel, st1, ns);
    var (st2, m) := VariableCreate(st1, typ, 0, name);
    if m != Empty && fuel > 0 {
      var d := VariableMade(st1, typ, 0, name, decls);
      NewArrayTakes(st1, st2, typ, name, m.r, d, ns, vs, fuel, decls);
    }
  }

  lemma NewArrayTakes(st1: State, st2: State, typ: Type, name: Name, r: Ref, d: MqlValues.Value, ns: seq<Node>,
                      vs: seq<MqlValues.Value>, fuel: nat, decls: Decls)
    requires Tidy(st1, decls) && Tidy(st2, decls) && OnlyMore(st1, st2) && AllStand(st1, ns, vs, decls) && fuel > 0
    requires Tree(st1.heap, st2.heap, r, d, {}) && HasType(decls, d, typ) && d.VArr? && d.items == []
    requires name in st2.tables[Top(st2)].names && st2.tables[Top(st2)].names[name] == Var(r)
    ensures var u := Update(st2, Top(st2), r, Listed(ns), fuel);
      && u.0.tables == st2.tables && OnlyMore(st1, u.0)
      && (u.1 ==> Received(st1, u.0, name, VArr(d.elem, d.elemAdt, vs)))
  {
    ArrayGivable(st1, st2, r, d, ns, vs, decls);
    ListTaken(st2, r, d.elem, d.elemAdt, ns, vs, fuel, decls);
    TakesList(st2, r, d, ns, fuel);
    DenotesOne(st2.heap, r, d, ValueOf(st2, r));
    AssignedIsReceived(st1, st2, name, r, VArr(d.elem, d.elemAdt, vs), Update(st2, Top(st2), r, Listed(ns), fuel),
                       decls);
  }

  lemma ArrayGivable(st1: State, st2: State, r: Ref, d: MqlValues.Value, ns: seq<Node>, vs: seq<MqlValues.Value>,
                     decls: Decls)
    requires Tidy(st1, decls) && Tidy(st2, decls) && OnlyMore(st1, st2) && AllStand(st1, ns, vs, decls)
    requires r !in st1.heap
    ensures Givable(st2, r, ns, vs, decls)
  {
    forall i | 0 <= i < |ns|
      ensures Stands(st2, ns[i], vs[i]) && Regular(decls, vs[i]) && r !in MqlBinding.Made(st2, ns[i], vs[i])
    {
      StandsStill(st1, st2, ns[i], vs[i]);
      if ns[i].At? { FineIsRegular(st1, decls, ns[i].r, vs[i]); }
    }
  }

  /** An array without items has nothing to clear. */
  lemma TakesList(st: State, r: Ref, d: MqlValues.Value, ns: seq<Node>, fuel: nat)
    requires st.tables != [] && Denotes(st.heap, r, d) && d.VArr? && d.items == [] && fuel > 0
    ensures Update(st, Top(st), r, Listed(ns), fuel) == UpdateItems(st, Top(st), r, ns, fuel)
  {
    assert st.heap[r := st.heap[r]] == st.heap;
    assert Clear(st, r) == st;
  }

  lemma ListInitIs(arith: Arith, ev: Ev, st: State, typ: Type, name: Name, es: seq<Expr>, fuel: nat, st1: State,
                    ns: seq<Node>)
    requires EvalList(ev, st, es) == Some((st1, ns))
    ensures var (st2, m) := VariableCreate(st1, typ, 0, name);
      Step(arith, ev, st, NewVarInit(typ, name, List(es)), fuel) ==
        if m == Empty then Some((st2, Empty))
        else
          var u := UpdateHere(st2, m, Listed(ns), fuel);
          Some((u.0, if u.1 then m else Empty))
  {}

  // ---------------------------------------------------------------- structs

  /** In order of declaration; of two fields with one name the later one counts. */
  ghost predicate InOrder(decl: seq<FieldDecl>, vs: seq<MqlValues.Value>, x: map<Name, MqlValues.Value>) {
    |decl| == |vs| && forall i :: 0 <= i < |decl| && (forall j :: i < j < |decl| ==> decl[j].name != decl[i].name) ==>
      decl[i].name in x && x[decl[i].name] == vs[i]
  }

  /** A record with regular parts, a tree. */
  ghost predicate Fillable(st: State, dst: Ref, adt: Name, w: map<Name, MqlValues.Value>, decls: Decls) {
    && Inv(st) && Uniform(st.tables, decls) && Denotes(st.heap, dst, VRec(adt, w))
    && Separate(st.heap, dst, VRec(adt, w)) && forall k :: k in w ==> Regular(decls, w[k])
  }

  ghost predicate Apart(st: State, dst: Ref, u: MqlValues.Value, n: Node, v: MqlValues.Value, decls: Decls)
    requires Denotes(st.heap, dst, u)
  {
    Stands(st, n, v) && Regular(decls, v) && Foot(st.heap, dst, u) !! MqlBinding.Made(st, n, v)
  }

  /** A field takes a copy of the value. */
  lemma FieldTaken(st: State, dst: Ref, adt: Name, w: map<Name, MqlValues.Value>, k: Name, n: Node, v: MqlValues.Value,
                   fuel: nat, decls: Decls)
    requires Fillable(st, dst, adt, w, decls) && k in w && Apart(st, dst, VRec(adt, w), n, v, decls) && fuel > 0
    ensures Copied(st, UpdateField(st, Top(st), dst, k, n, fuel), dst, VRec(adt, w), VRec(adt, w[k := v]))
  {
    FootOfField(st.heap, dst, adt, w, k);
    var d := st.heap[dst].cell.fields[k];
    if n.At? {
      UpdateCopies(st, Top(st), d, w[k], n.r, v, fuel - 1, decls);
    } else {
      BasicCopied(st, Top(st), d, w[k], n.b, fuel - 1);
    }
    PartCopied(st, UpdateField(st, Top(st), dst, k, n, fuel), dst, adt, w, k, d, v);
  }

  ghost predicate AllApart(st: State, dst: Ref, u: MqlValues.Value, ns: seq<Node>, vs: seq<MqlValues.Value>,
                           decls: Decls)
    requires Denotes(st.heap, dst, u)
  {
    |ns| == |vs| && forall i :: 0 <= i < |ns| ==> Apart(st, dst, u, ns[i], vs[i], decls)
  }

  lemma AllApartFront(st: State, dst: Ref, u: MqlValues.Value, ns: seq<Node>, vs: seq<MqlValues.Value>, decls: Decls)
    requires Denotes(st.heap, dst, u) && AllApart(st, dst, u, ns, vs, decls) && ns != []
    ensures AllApart(st, dst, u, ns[..|ns| - 1], vs[..|vs| - 1], decls)
  {}

  /** The record has taken the values vs; if it failed half-way, only the record has changed. */
  ghost predicate Took(st: State, r: (State, bool), dst: Ref, adt: Name, w: map<Name, MqlValues.Value>,
                       decl: seq<FieldDecl>, vs: seq<MqlValues.Value>, x: map<Name, MqlValues.Value>, decls: Decls)
    requires Denotes(st.heap, dst, VRec(adt, w))
  {
    && Copied(st, r, dst, VRec(adt, w), VRec(adt, x))
    && x.Keys == w.Keys && InOrder(decl, vs, x) && forall k :: k in x ==> Regular(decls, x[k])
  }

  lemma {:induction false} FieldsTaken(st: State, dst: Ref, adt: Name, w: map<Name, MqlValues.Value>,
                                       decl: seq<FieldDecl>, ns: seq<Node>, vs: seq<MqlValues.Value>, fuel: nat,
                                       decls: Decls)
    returns (x: map<Name, MqlValues.Value>)
    requires Fillable(st, dst, adt, w, decls) && AllApart(st, dst, VRec(adt, w), ns, vs, decls) && fuel > 0
    requires |decl| == |ns| && FieldNames(decl) <= w.Keys
    ensures Took(st, UpdateFields(st, Top(st), dst, decl, ns, fuel), dst, adt, w, decl, vs, x, decls)
    decreases |decl|
  {
    x := w;
    if decl == [] {
      NothingTaken(st, dst, adt, w, decls);
      assert UpdateFields(st, Top(st), dst, decl, ns, fuel) == (st, true) && vs == [];
    } else {
      var n := |decl| - 1;
      FieldNamesStep(decl);
      AllApartFront(st, dst, VRec(adt, w), ns, vs, decls);
      x := FieldsTaken(st, dst, adt, w, decl[..n], ns[..n], vs[..n], fuel, decls);
      var r1 := UpdateFields(st, Top(st), dst, decl[..n], ns[..n], fuel);
      assert Apart(st, dst, VRec(adt, w), ns[n], vs[n], decls);
      x := NextFieldTaken(st, r1, dst, adt, w, decl, ns[n], vs, x, fuel, decls);
      UpdateFieldsIs(st, dst, decl, ns, fuel);
    }
  }

  lemma UpdateFieldsIs(st: State, dst: Ref, decl: seq<FieldDecl>, ns: seq<Node>, fuel: nat)
    requires st.tables != [] && fuel > 0 && |decl| == |ns| && decl != []
    ensures var n := |decl| - 1;
      var r1 := UpdateFields(st, Top(st), dst, decl[..n], ns[..n], fuel);
      UpdateFields(st, Top(st), dst, decl, ns, fuel) ==
        if !r1.1 then (r1.0, false) else UpdateField(r1.0, Top(r1.0), dst, decl[n].name, ns[n], fuel)
  {}

  lemma NothingTaken(st: State, dst: Ref, adt: Name, w: map<Name, MqlValues.Value>, decls: Decls)
    requires Fillable(st, dst, adt, w, decls)
    ensures Took(st, (st, true), dst, adt, w, [], [], w, decls)
  {}

  lemma NextFieldTaken(st: State, r1: (State, bool), dst: Ref, adt: Name, w: map<Name, MqlValues.Value>,
                       decl: seq<FieldDecl>, n: Node, vs: seq<MqlValues.Value>, x: map<Name, MqlValues.Value>,
                       fuel: nat, decls: Decls)
    returns (y: map<Name, MqlValues.Value>)
    requires Fillable(st, dst, adt, w, decls) && decl != [] && |vs| == |decl| && fuel > 0
    requires decl[|decl| - 1].name in w && Apart(st, dst, VRec(adt, w), n, vs[|vs| - 1], decls)
    requires Took(st, r1, dst, adt, w, decl[..|decl| - 1], vs[..|vs| - 1], x, decls)
    ensures var r := if !r1.1 then (r1.0, false) else UpdateField(r1.0, Top(r1.0), dst, decl[|decl| - 1].name, n, fuel);
      Took(st, r, dst, adt, w, decl, vs, y, decls)
  {
    var k, v := decl[|decl| - 1].name, vs[|vs| - 1];
    if r1.1 { LastFieldTaken(st, r1.0, dst, adt, w, x, k, n, v, fuel, decls); }
    y := x[k := v];
    var r := if !r1.1 then (r1.0, false) else UpdateField(r1.0, Top(r1.0), dst, k, n, fuel);
    TookThen(st, r, dst, adt, w, decl, vs, x, decls);
  }

  lemma TookThen(st: State, r: (State, bool), dst: Ref, adt: Name, w: map<Name, MqlValues.Value>, decl: seq<FieldDecl>,
                 vs: seq<MqlValues.Value>, x: map<Name, MqlValues.Value>, decls: Decls)
    requires decl != [] && |vs| == |decl| && decl[|decl| - 1].name in w && x.Keys == w.Keys
    requires InOrder(decl[..|decl| - 1], vs[..|vs| - 1], x) && Regular(decls, vs[|vs| - 1])
    requires Denotes(st.heap, dst, VRec(adt, w)) && forall k :: k in x ==> Regular(decls, x[k])
    requires Copied(st, r, dst, VRec(adt, w), VRec(adt, x[decl[|decl| - 1].name := vs[|vs| - 1]]))
    ensures Took(st, r, dst, adt, w, decl, vs, x[decl[|decl| - 1].name := vs[|vs| - 1]], decls)
  {
    InOrderThen(decl, vs, x);
  }

  lemma InOrderThen(decl: seq<FieldDecl>, vs: seq<MqlValues.Value>, x: map<Name, MqlValues.Value>)
    requires decl != [] && |decl| == |vs| && InOrder(decl[..|decl| - 1], vs[..|vs| - 1], x)
    ensures InOrder(decl, vs, x[decl[|decl| - 1].name := vs[|vs| - 1]])
  {
    var n := |decl| - 1;
    var y := x[decl[n].name := vs[n]];
    forall i | 0 <= i < |decl| && forall j :: i < j < |decl| ==> decl[j].name != decl[i].name
      ensures decl[i].name in y && y[decl[i].name] == vs[i]
    {
      if i < n {
        assert decl[..n][i] == decl[i] && vs[..n][i] == vs[i] && decl[n].name != decl[i].name;
        assert forall j :: i < j < n ==> decl[..n][j] == decl[j];
      }
    }
  }

  lemma ApartStays(st: State, st1: State, dst: Ref, u: MqlValues.Value, u1: MqlValues.Value, n: Node,
                   v: MqlValues.Value, decls: Decls)
    requires Denotes(st.heap, dst, u) && Apart(st, dst, u, n, v, decls) && Copied(st, (st1, true), dst, u, u1)
    ensures Apart(st1, dst, u1, n, v, decls)
  {
    if n.At? { StillApart(st, st1, dst, u, u1, n.r, v); }
  }

  lemma LastFieldTaken(st: State, st1: State, dst: Ref, adt: Name, w: map<Name, MqlValues.Value>,
                       x: map<Name, MqlValues.Value>, k: Name, n: Node, v: MqlValues.Value, fuel: nat, decls: Decls)
    requires Fillable(st, dst, adt, w, decls) && Apart(st, dst, VRec(adt, w), n, v, decls) && fuel > 0
    requires Copied(st, (st1, true), dst, VRec(adt, w), VRec(adt, x)) && k in x
    requires forall l :: l in x ==> Regular(decls, x[l])
    ensures Copied(st, UpdateField(st1, Top(st1), dst, k, n, fuel), dst, VRec(adt, w), VRec(adt, x[k := v]))
  {
    ApartStays(st, st1, dst, VRec(adt, w), VRec(adt, x), n, v, decls);
    assert Fillable(st1, dst, adt, x, decls);
    FieldTaken(st1, dst, adt, x, k, n, v, fuel, decls);
    CopiedThen(st, st1, UpdateField(st1, Top(st1), dst, k, n, fuel), dst, VRec(adt, w), VRec(adt, x),
               VRec(adt, x[k := v]));
  }

  /**
    A struct declared with a list of initial values: there must be one for each declared field, and each field takes its
    own.
   */
  lemma StructInitRule(arith: Arith, ev: Ev, st: State, typ: Type, name: Name, es: seq<Expr>, fuel: nat, st1: State,
                       ns: seq<Node>, vs: seq<MqlValues.Value>, decls: Decls)
    returns (x: map<Name, MqlValues.Value>)
    requires EvalList(ev, st, es) == Some((st1, ns)) && Tidy(st1, decls) && name !in decls && typ.kind == StructT
    requires AllStand(st1, ns, vs, decls)
    ensures var r := Step(arith, ev, st, NewVarInit(typ, name, List(es)), fuel);
      && r.Some?
      && (r.value.1 != Empty ==>
            && OnlyMore(st1, r.value.0) && r.value.1 == At(r.value.0.tables[Top(r.value.0)].names[name].r)
            && Received(st1, r.value.0, name, VRec(typ.adt, x))
            && typ.adt in decls && x.Keys == FieldNames(decls[typ.adt]) && InOrder(decls[typ.adt], vs, x))
  {
    x := map[];
    VariableIsNew(st1, typ, 0, name, decls);
    ListInitIs(arith, ev, st, typ, name, es, fuel, st1, ns);
    var (st2, m) := VariableCreate(st1, typ, 0, name);
    if m != Empty && fuel > 0 {
      var d := VariableMade(st1, typ, 0, name, decls);
      x := NewStructTakes(st1, st2, typ, name, m.r, d, ns, vs, fuel, decls);
    }
  }

  lemma NewStructTakes(st1: State, st2: State, typ: Type, name: Name, r: Ref, d: MqlValues.Value, ns: seq<Node>,
                       vs: seq<MqlValues.Value>, fuel: nat, decls: Decls)
    returns (x: map<Name, MqlValues.Value>)
    requires Tidy(st1, decls) && Tidy(st2, decls) && OnlyMore(st1, st2) && AllStand(st1, ns, vs, decls) && fuel > 0
    requires Tree(st1.heap, st2.heap, r, d, {}) && HasType(decls, d, typ) && typ.kind == StructT
    requires name in st2.tables[Top(st2)].names && st2.tables[Top(st2)].names[name] == Var(r)
    ensures var u := Update(st2, Top(st2), r, Listed(ns), fuel);
      && u.0.tables == st2.tables
      && (u.1 ==>
            && OnlyMore(st1, u.0) && Received(st1, u.0, name, VRec(typ.adt, x))
            && typ.adt in decls && x.Keys == FieldNames(decls[typ.adt]) && InOrder(decls[typ.adt], vs, x))
  {
    x := map[];
    var decl := decls[typ.adt];
    StructIs(st2, r, d, ns, typ, fuel, decls);
    if |ns| == |decl| {
      StructFillable(st1, st2, r, d, typ, ns, vs, decls);
      x := FieldsTaken(st2, r, typ.adt, d.fields, decl, ns, vs, fuel, decls);
      DenotesOne(st2.heap, r, d, ValueOf(st2, r));
      AssignedIsReceived(st1, st2, name, r, VRec(typ.adt, x), UpdateFields(st2, Top(st2), r, decl, ns, fuel), decls);
    }
  }

  lemma StructIs(st: State, r: Ref, d: MqlValues.Value, ns: seq<Node>, typ: Type, fuel: nat, decls: Decls)
    requires Tidy(st, decls) && Denotes(st.heap, r, d) && HasType(decls, d, typ) && typ.kind == StructT && fuel > 0
    ensures Update(st, Top(st), r, Listed(ns), fuel) ==
      if |ns| == |decls[typ.adt]| then UpdateFields(st, Top(st), r, decls[typ.adt], ns, fuel) else (st, false)
  {
    assert StructIn(st.tables, Top(st), typ.adt) == Some(decls[typ.adt]);
  }

  lemma StructFillable(st1: State, st2: State, r: Ref, d: MqlValues.Value, typ: Type, ns: seq<Node>,
                       vs: seq<MqlValues.Value>, decls: Decls)
    requires Tidy(st1, decls) && Tidy(st2, decls) && OnlyMore(st1, st2) && AllStand(st1, ns, vs, decls)
    requires Tree(st1.heap, st2.heap, r, d, {}) && HasType(decls, d, typ) && typ.kind == StructT
    ensures Fillable(st2, r, typ.adt, d.fields, decls) && AllApart(st2, r, d, ns, vs, decls)
  {
    forall k | k in d.fields ensures Regular(decls, d.fields[k]) {
      TypedIsRegular(decls, d.fields[k], FieldType(decls[typ.adt], k));
    }
    forall i | 0 <= i < |ns| ensures Apart(st2, r, d, ns[i], vs[i], decls) {
      StandsStill(st1, st2, ns[i], vs[i]);
      if ns[i].At? { FineIsRegular(st1, decls, ns[i].r, vs[i]); }
    }
  }
}
