/** What array_union and array_intersect return, on the heap: duplicate-free arrays of new nodes, or nothing. */
module MqlUnion {
  import opened Base
  import opened MqlState
  import opened MqlUpdate
  import opened MqlValues
  import opened MqlCopy
  import opened MqlAssign
  import opened MqlCosts
  import opened MqlArrays

  // ---------------------------------------------------------------- lists of values

  predicate Wanted(v: Value, filter: Option<seq<Value>>) {
    filter.Some? ==> v in filter.value
  }

  function WithValue(acc: seq<Value>, v: Value): seq<Value> {
    if v in acc then acc else acc + [v]
  }

  /** acc and then the wanted values of xs in order, each one that is not there yet. */
  function Merged(acc: seq<Value>, xs: seq<Value>, filter: Option<seq<Value>>): (m: seq<Value>)
    ensures |acc| <= |m| && m[..|acc|] == acc
  {
    if xs == [] then acc
    else
      var m := Merged(acc, xs[..|xs| - 1], filter);
      if Wanted(xs[|xs| - 1], filter) then WithValue(m, xs[|xs| - 1]) else m
  }

  /** Each value once, and exactly those of acc and the wanted ones of xs. */
  lemma {:induction false} MergedIsUnion(acc: seq<Value>, xs: seq<Value>, filter: Option<seq<Value>>)
    requires Distinct(acc)
    ensures Distinct(Merged(acc, xs, filter))
    ensures forall v :: v in Merged(acc, xs, filter) <==> v in acc || (v in xs && Wanted(v, filter))
  {
    if xs != [] {
      var n := |xs| - 1;
      MergedIsUnion(acc, xs[..n], filter);
      assert forall v :: v in xs <==> v in xs[..n] || v == xs[n];
      var m := Merged(acc, xs[..n], filter);
      assert forall v :: v in WithValue(m, xs[n]) <==> v in m || v == xs[n];
    }
  }

  // ---------------------------------------------------------------- what it takes

  function TypeOf(v: Value): Type {
    match v
    case VAtom(b) => Type(KindOf(b), "", VoidT)
    case VArr(elem, adt, _) => Type(ArrayT, if adt.Some? then adt.value else "", elem)
    case VRec(adt, _) => Type(StructT, adt, VoidT)
  }

  /** A new node for v, and what is copied into it; arrays are not copied. */
  function NodeCost(decls: Decls, v: Value, depth: nat): Option<nat> {
    if v.VArr? then None else Plus(CreateCost(decls, TypeOf(v), 0, depth), CopyCost(decls, v, depth))
  }

  function ListCost(decls: Decls, vs: seq<Value>, depth: nat): Option<nat> {
    if vs == [] then Some(0) else Plus(ListCost(decls, vs[..|vs| - 1], depth), NodeCost(decls, vs[|vs| - 1], depth))
  }

  lemma ListCostOneMore(decls: Decls, vs: seq<Value>, v: Value, depth: nat)
    ensures ListCost(decls, vs + [v], depth) == Plus(ListCost(decls, vs, depth), NodeCost(decls, v, depth))
  {
    assert (vs + [v])[..|vs + [v]| - 1] == vs;
  }

  // ---------------------------------------------------------------- one value

  /** Parts are allocated after the whole, so the nesting of a value is less than the number of nodes. */
  lemma {:induction false} NestingBounded(st: State, r: Ref, v: Value, n: nat)
    requires Inv(st) && Denotes(st.heap, r, v) && n + r >= st.next
    ensures Within(v, n)
    decreases v
  {
    assert ObjOk(st.heap, r, st.heap[r]);
    match v
    case VAtom(_) =>
    case VArr(_, _, vs) =>
      forall i | 0 <= i < |vs| ensures Within(vs[i], n - 1) {
        assert st.heap[r].cell.items[i] in Children(st.heap[r].cell);
        NestingBounded(st, st.heap[r].cell.items[i], vs[i], n - 1);
      }
    case VRec(_, fs) =>
      forall k | k in fs ensures Within(fs[k], n - 1) {
        assert st.heap[r].cell.fields[k] in Children(st.heap[r].cell);
        NestingBounded(st, st.heap[r].cell.fields[k], fs[k], n - 1);
      }
  }

  lemma EqualIsEquality(st: State, a: Ref, b: Ref, v: Value, w: Value, decls: Decls)
    requires Inv(st) && Denotes(st.heap, a, v) && Denotes(st.heap, b, w) && Regular(decls, v) && Regular(decls, w)
    ensures Equal(st, a, b) <==> v == w
  {
    WellFormedFrom(decls, v);
    WellFormedFrom(decls, w);
    NestingBounded(st, a, v, st.next);
    ADTEqualIsValueEquality(st.heap, a, b, v, w, st.next);
  }

  ghost predicate DenoteAll(heap: Heap, xs: seq<Ref>, vs: seq<Value>) {
    |xs| == |vs| && forall i :: 0 <= i < |xs| ==> Denotes(heap, xs[i], vs[i])
  }

  ghost predicate AllRegular(decls: Decls, vs: seq<Value>) {
    forall i :: 0 <= i < |vs| ==> Regular(decls, vs[i])
  }

  lemma AmongIsMembership(st: State, x: Ref, v: Value, items: seq<Ref>, vs: seq<Value>, decls: Decls)
    requires Inv(st) && Denotes(st.heap, x, v) && Regular(decls, v)
    requires DenoteAll(st.heap, items, vs) && AllRegular(decls, vs)
    ensures Among(st, x, items) <==> v in vs
  {
    forall i | 0 <= i < |items| ensures Equal(st, x, items[i]) <==> v == vs[i] {
      EqualIsEquality(st, x, items[i], v, vs[i], decls);
    }
    if v in vs {
      var i :| 0 <= i < |vs| && vs[i] == v;
      assert Equal(st, x, items[i]);
    }
  }

  /** ADTCreateAndCopy makes a new node that stands for the same value, or fails for want of nodes. */
  ghost predicate CopyMade(st: State, r: (State, Option<Ref>), v: Value, cost: Option<nat>) {
    && OnlyIn(st.heap, r.0.heap, {}) && (r.1.Some? ==> Tree(st.heap, r.0.heap, r.1.value, v, {}))
    && Paid(st.budget, r, cost)
  }

  lemma CopyNodeMakes(st: State, t: nat, ret: Ref, src: Ref, v: Value, fuel: nat, depth: nat, decls: Decls)
    requires Inv(st) && t < |st.tables| && Uniform(st.tables, decls) && ret in st.heap
    requires Denotes(st.heap, src, v) && Regular(decls, v) && Within(v, fuel) && depth >= Left(st.budget)
    ensures CopyMade(st, CopyNode(st, t, ret, src, fuel), v, NodeCost(decls, v, depth))
  {
    if !v.VArr? {
      var typ, root := TypeOf(v), st.heap[ret].root;
      assert CopyType(st.heap[src].cell) == typ;
      var d := CreateMakes(st, t, root, ret, typ, 0, decls);
      CreateDecided(st, t, root, ret, typ, 0, depth, decls);
      CreateOk(st, t, root, ret, typ, 0);
      var (st1, c) := Create(st, t, root, ret, typ, 0);
      if c.Some? {
        CopyIntoNew(st, st1, t, c.value, d, src, v, typ, fuel, depth, decls);
        var (st2, ok) := Update(st1, t, c.value, At(src), fuel);
        PaidBoth(st.budget, (st1, c), CreateCost(decls, typ, 0, depth), (st2, ok), CopyCost(decls, v, depth));
      }
    }
  }

  lemma CopyIntoNew(st: State, st1: State, t: nat, c: Ref, d: Value, src: Ref, v: Value, typ: Type, fuel: nat,
                    depth: nat, decls: Decls)
    requires Inv(st1) && t < |st1.tables| && st1.tables == st.tables && Uniform(st.tables, decls) && Regular(decls, v)
    requires Made(st, (st1, Some(c)), decls, typ, d) && Denotes(st.heap, src, v) && !v.VArr? && typ == TypeOf(v)
    requires Within(v, fuel) && depth >= Left(st1.budget)
    ensures var r := Update(st1, t, c, At(src), fuel);
      && OnlyIn(st.heap, r.0.heap, {}) && (r.1 ==> Tree(st.heap, r.0.heap, c, v, {}))
      && PaidFor(st1.budget, r, CopyCost(decls, v, depth))
  {
    NewElementReady(st, st1, t, c, typ, d, src, v, decls);
    UpdateCopies(st1, t, c, d, src, v, fuel, decls);
    AssignmentDecided(st1, t, c, d, src, v, typ, fuel, depth, decls);
    var r, f := Update(st1, t, c, At(src), fuel), Foot(st1.heap, c, d);
    OnlyInThen(st.heap, st1.heap, r.0.heap, {}, f);
    if r.1 { TreeThen(st.heap, st1.heap, r.0.heap, c, v, {}, f); }
  }

  // ---------------------------------------------------------------- one list after the other

  /** Array ret stands for acc, and the nodes in xs for vs, apart from it. */
  ghost predicate Gathering(st: State, t: nat, ret: Ref, elem: Kind, adt: Option<Name>, acc: seq<Value>, decls: Decls) {
    && Collecting(st, t, ret, ret) && Uniform(st.tables, decls)
    && Denotes(st.heap, ret, VArr(elem, adt, acc)) && Separate(st.heap, ret, VArr(elem, adt, acc))
      && AllRegular(decls, acc)
  }

  /** Nodes allocated before array ret. */
  ghost predicate Sources(st: State, ret: Ref, xs: seq<Ref>, vs: seq<Value>, decls: Decls) {
    DenoteAll(st.heap, xs, vs) && AllRegular(decls, vs)
    && forall i :: 0 <= i < |xs| && Denotes(st.heap, xs[i], vs[i]) ==>
      forall c :: c in Foot(st.heap, xs[i], vs[i]) ==> c < ret
  }

  /** The array has grown from acc to m, and nothing else has changed. */
  ghost predicate Gathered(st: State, r: (State, bool), t: nat, ret: Ref, elem: Kind, adt: Option<Name>,
                           acc: seq<Value>, m: seq<Value>, cost: Option<nat>)
    requires Denotes(st.heap, ret, VArr(elem, adt, acc))
  {
    && Touched(st, r.0, t, ret, ret) && r.0.tables == st.tables
    && OnlyIn(st.heap, r.0.heap, Foot(st.heap, ret, VArr(elem, adt, acc)))
    && (r.1 ==> Tree(st.heap, r.0.heap, ret, VArr(elem, adt, m), Foot(st.heap, ret, VArr(elem, adt, acc))))
    && PaidFor(st.budget, r, cost)
  }

  lemma AddUniqueGathers(st: State, t: nat, ret: Ref, elem: Kind, adt: Option<Name>, acc: seq<Value>, src: Ref,
                         v: Value, fuel: nat, depth: nat, decls: Decls)
    requires Gathering(st, t, ret, elem, adt, acc, decls)
    requires Denotes(st.heap, src, v) && Regular(decls, v) && Within(v, fuel) && depth >= Left(st.budget)
    ensures Gathered(st, AddUnique(st, t, ret, src, fuel), t, ret, elem, adt, acc, WithValue(acc, v),
                     if v in acc then Some(0) else NodeCost(decls, v, depth))
  {
    AddUniqueOk(st, t, ret, ret, src, fuel);
    AmongIsMembership(st, src, v, st.heap[ret].cell.items, acc, decls);
    if v !in acc { AddNewGathers(st, t, ret, elem, adt, acc, src, v, fuel, depth, decls); }
  }

  lemma AddNewGathers(st: State, t: nat, ret: Ref, elem: Kind, adt: Option<Name>, acc: seq<Value>, src: Ref, v: Value,
                      fuel: nat, depth: nat, decls: Decls)
    requires Gathering(st, t, ret, elem, adt, acc, decls) && !Among(st, src, st.heap[ret].cell.items)
    requires Denotes(st.heap, src, v) && Regular(decls, v) && Within(v, fuel) && depth >= Left(st.budget)
    requires Touched(st, AddUnique(st, t, ret, src, fuel).0, t, ret, ret)
    ensures Gathered(st, AddUnique(st, t, ret, src, fuel), t, ret, elem, adt, acc, acc + [v], NodeCost(decls, v, depth))
  {
    CopyNodeMakes(st, t, ret, src, v, fuel, depth, decls);
    var (st1, c) := CopyNode(st, t, ret, src, fuel);
    assert st1.heap[ret].cell == st.heap[ret].cell;
    if c.Some? { AppendGathers(st, st1, ret, elem, adt, acc, c.value, v); }
  }

  lemma AppendGathers(st: State, st1: State, ret: Ref, elem: Kind, adt: Option<Name>, acc: seq<Value>, c: Ref, v: Value)
    requires Denotes(st.heap, ret, VArr(elem, adt, acc)) && Separate(st.heap, ret, VArr(elem, adt, acc))
    requires OnlyIn(st.heap, st1.heap, {}) && Tree(st.heap, st1.heap, c, v, {})
    ensures IsArray(st1, ret)
    ensures var f, st2 := Foot(st.heap, ret, VArr(elem, adt, acc)), Push(st1, ret, c);
      OnlyIn(st.heap, st2.heap, f) && Tree(st.heap, st2.heap, ret, VArr(elem, adt, acc + [v]), f)
  {
    assert st1.heap[ret].cell == st.heap[ret].cell;
    ItemAppended(st.heap, st1.heap, ret, elem, adt, acc, c, v);
    OnlySelf(st, st1, Push(st1, ret, c), ret, Foot(st.heap, ret, VArr(elem, adt, acc)));
  }

  lemma SourcesStay(st: State, st': State, t: nat, root: Ref, ret: Ref, xs: seq<Ref>, vs: seq<Value>, decls: Decls)
    requires Sources(st, ret, xs, vs, decls) && Touched(st, st', t, root, ret)
    ensures Sources(st', ret, xs, vs, decls)
  {
    forall i | 0 <= i < |xs|
      ensures Denotes(st'.heap, xs[i], vs[i]) && Foot(st'.heap, xs[i], vs[i]) == Foot(st.heap, xs[i], vs[i])
    {
      Framed(st.heap, st'.heap, xs[i], vs[i]);
    }
  }

  lemma {:induction false} MergedRegular(decls: Decls, acc: seq<Value>, vs: seq<Value>, filter: Option<seq<Value>>)
    requires AllRegular(decls, acc) && AllRegular(decls, vs)
    ensures AllRegular(decls, Merged(acc, vs, filter))
  {
    if vs != [] { MergedRegular(decls, acc, vs[..|vs| - 1], filter); }
  }

  lemma GatheringStays(st: State, st1: State, t: nat, ret: Ref, elem: Kind, adt: Option<Name>, acc: seq<Value>,
                       m: seq<Value>, cost: Option<nat>, decls: Decls)
    requires Gathering(st, t, ret, elem, adt, acc, decls) && AllRegular(decls, m)
    requires Gathered(st, (st1, true), t, ret, elem, adt, acc, m, cost)
    ensures Gathering(st1, t, ret, elem, adt, m, decls)
  {
    CollectingStays(st, st1, t, ret, ret);
  }

  lemma GatheredThen(st: State, r1: (State, bool), r2: (State, bool), t: nat, ret: Ref, elem: Kind, adt: Option<Name>,
                     acc: seq<Value>, m1: seq<Value>, c1: Option<nat>, m2: seq<Value>, c2: Option<nat>)
    requires Denotes(st.heap, ret, VArr(elem, adt, acc)) && Gathered(st, r1, t, ret, elem, adt, acc, m1, c1) && r1.1
    requires Denotes(r1.0.heap, ret, VArr(elem, adt, m1)) && Gathered(r1.0, r2, t, ret, elem, adt, m1, m2, c2)
    ensures Gathered(st, r2, t, ret, elem, adt, acc, m2, Plus(c1, c2))
  {
    var f, g := Foot(st.heap, ret, VArr(elem, adt, acc)), Foot(r1.0.heap, ret, VArr(elem, adt, m1));
    TouchedThen(st, r1.0, r2.0, t, ret, ret);
    OnlyInThen(st.heap, r1.0.heap, r2.0.heap, f, g);
    if r2.1 { TreeThen(st.heap, r1.0.heap, r2.0.heap, ret, VArr(elem, adt, m2), f, g); }
    PaidForThen(st.budget, r1, c1, r2, c2);
  }

  lemma GatheredFailed(st: State, r1: (State, bool), t: nat, ret: Ref, elem: Kind, adt: Option<Name>, acc: seq<Value>,
                       m1: seq<Value>, c1: Option<nat>, m2: seq<Value>, c2: Option<nat>)
    requires Denotes(st.heap, ret, VArr(elem, adt, acc)) && Gathered(st, r1, t, ret, elem, adt, acc, m1, c1) && !r1.1
    ensures Gathered(st, r1, t, ret, elem, adt, acc, m2, Plus(c1, c2))
  {}

  /** The filter's nodes and the values they stand for. */
  ghost predicate FilterOk(st: State, ret: Ref, nodes: Option<seq<Ref>>, values: Option<seq<Value>>, decls: Decls) {
    (nodes.Some? <==> values.Some?) && (nodes.Some? ==> Sources(st, ret, nodes.value, values.value, decls))
  }

  /** What the values added to acc cost. */
  function AddedCost(decls: Decls, acc: seq<Value>, vs: seq<Value>, filter: Option<seq<Value>>,
                     depth: nat): Option<nat> {
    ListCost(decls, Merged(acc, vs, filter)[|acc|..], depth)
  }

  lemma AddFilteredGathers(st: State, t: nat, ret: Ref, elem: Kind, adt: Option<Name>, acc: seq<Value>, x: Ref,
                           v: Value, nodes: Option<seq<Ref>>, values: Option<seq<Value>>, fuel: nat, depth: nat,
                           decls: Decls)
    requires Gathering(st, t, ret, elem, adt, acc, decls) && FilterOk(st, ret, nodes, values, decls)
    requires Denotes(st.heap, x, v) && Regular(decls, v) && Within(v, fuel) && depth >= Left(st.budget)
    ensures Gathered(st, AddFiltered(st, t, ret, x, nodes, fuel), t, ret, elem, adt, acc,
                     if Wanted(v, values) then WithValue(acc, v) else acc,
                     if Wanted(v, values) && v !in acc then NodeCost(decls, v, depth) else Some(0))
  {
    if nodes.Some? { AmongIsMembership(st, x, v, nodes.value, values.value, decls); }
    if Wanted(v, values) {
      AddUniqueGathers(st, t, ret, elem, adt, acc, x, v, fuel, depth, decls);
    } else {
      TouchedSame(st, t, ret, ret);
    }
  }

  lemma {:induction false} AddEachGathers(st: State, t: nat, ret: Ref, elem: Kind, adt: Option<Name>, acc: seq<Value>,
                                          xs: seq<Ref>, vs: seq<Value>, nodes: Option<seq<Ref>>,
                                          values: Option<seq<Value>>, fuel: nat, depth: nat, decls: Decls)
    requires Gathering(st, t, ret, elem, adt, acc, decls) && FilterOk(st, ret, nodes, values, decls)
    requires Sources(st, ret, xs, vs, decls) && (forall v :: v in vs ==> Within(v, fuel)) && depth >= Left(st.budget)
    ensures Gathered(st, AddEach(st, t, ret, xs, nodes, fuel), t, ret, elem, adt, acc, Merged(acc, vs, values),
                     AddedCost(decls, acc, vs, values, depth))
    decreases |xs|
  {
    if xs == [] {
      TouchedSame(st, t, ret, ret);
    } else {
      var n := |xs| - 1;
      AddEachGathers(st, t, ret, elem, adt, acc, xs[..n], vs[..n], nodes, values, fuel, depth, decls);
      LastGathers(st, AddEach(st, t, ret, xs[..n], nodes, fuel), t, ret, elem, adt, acc, xs, vs, nodes, values, fuel,
                  depth, decls);
    }
  }

  /** What the last value of vs costs after the others. */
  function LastCost(decls: Decls, acc: seq<Value>, vs: seq<Value>, filter: Option<seq<Value>>, depth: nat): Option<nat>
    requires vs != []
  {
    var v := vs[|vs| - 1];
    if Wanted(v, filter) && v !in Merged(acc, vs[..|vs| - 1], filter) then NodeCost(decls, v, depth) else Some(0)
  }

  lemma AddedCostStep(decls: Decls, acc: seq<Value>, vs: seq<Value>, filter: Option<seq<Value>>, depth: nat)
    requires vs != []
    ensures AddedCost(decls, acc, vs, filter, depth)
         == Plus(AddedCost(decls, acc, vs[..|vs| - 1], filter, depth), LastCost(decls, acc, vs, filter, depth))
  {
    var m1, v := Merged(acc, vs[..|vs| - 1], filter), vs[|vs| - 1];
    if Wanted(v, filter) && v !in m1 {
      assert (m1 + [v])[|acc|..] == m1[|acc|..] + [v];
      ListCostOneMore(decls, m1[|acc|..], v, depth);
    }
  }

  lemma AddEachStep(st: State, t: nat, ret: Ref, xs: seq<Ref>, filter: Option<seq<Ref>>, fuel: nat)
    requires t < |st.tables| && xs != []
    ensures var n, (st1, ok) := |xs| - 1, AddEach(st, t, ret, xs[..|xs| - 1], filter, fuel);
      AddEach(st, t, ret, xs, filter, fuel) == if ok then AddFiltered(st1, t, ret, xs[n], filter, fuel)
        else (st1, false)
  {}

  lemma LastGathers(st: State, r1: (State, bool), t: nat, ret: Ref, elem: Kind, adt: Option<Name>, acc: seq<Value>,
                    xs: seq<Ref>, vs: seq<Value>, nodes: Option<seq<Ref>>, values: Option<seq<Value>>, fuel: nat,
                    depth: nat, decls: Decls)
    requires Gathering(st, t, ret, elem, adt, acc, decls) && FilterOk(st, ret, nodes, values, decls) && xs != []
    requires Sources(st, ret, xs, vs, decls) && (forall v :: v in vs ==> Within(v, fuel)) && depth >= Left(st.budget)
    requires r1 == AddEach(st, t, ret, xs[..|xs| - 1], nodes, fuel)
    requires Gathered(st, r1, t, ret, elem, adt, acc, Merged(acc, vs[..|xs| - 1], values),
                      AddedCost(decls, acc, vs[..|xs| - 1], values, depth))
    ensures Gathered(st, AddEach(st, t, ret, xs, nodes, fuel), t, ret, elem, adt, acc, Merged(acc, vs, values),
                     AddedCost(decls, acc, vs, values, depth))
  {
    var n := |xs| - 1;
    var m1, m := Merged(acc, vs[..n], values), Merged(acc, vs, values);
    var c1, c2 := AddedCost(decls, acc, vs[..n], values, depth), LastCost(decls, acc, vs, values, depth);
    AddedCostStep(decls, acc, vs, values, depth);
    if r1.1 {
      NextGathers(st, r1.0, t, ret, elem, adt, acc, m1, c1, xs[n], vs[n], nodes, values, fuel, depth, decls, vs[..n]);
      AddEachStep(st, t, ret, xs, nodes, fuel);
      GatheredThen(st, r1, AddFiltered(r1.0, t, ret, xs[n], nodes, fuel), t, ret, elem, adt, acc, m1, c1, m, c2);
    } else {
      GatheredFailed(st, r1, t, ret, elem, adt, acc, m1, c1, m, c2);
    }
  }

  /** The next value, from the state the others have led to. */
  lemma NextGathers(st: State, st1: State, t: nat, ret: Ref, elem: Kind, adt: Option<Name>, acc: seq<Value>,
                    m1: seq<Value>, c1: Option<nat>, x: Ref, v: Value, nodes: Option<seq<Ref>>,
                    values: Option<seq<Value>>, fuel: nat, depth: nat, decls: Decls, vs: seq<Value>)
    requires Gathering(st, t, ret, elem, adt, acc, decls) && FilterOk(st, ret, nodes, values, decls)
    requires Sources(st, ret, [x], [v], decls) && Within(v, fuel) && depth >= Left(st1.budget)
    requires m1 == Merged(acc, vs, values) && AllRegular(decls, vs)
    requires Gathered(st, (st1, true), t, ret, elem, adt, acc, m1, c1)
    ensures Denotes(st1.heap, ret, VArr(elem, adt, m1))
    ensures Gathered(st1, AddFiltered(st1, t, ret, x, nodes, fuel), t, ret, elem, adt, m1,
                     if Wanted(v, values) then WithValue(m1, v) else m1,
                     if Wanted(v, values) && v !in m1 then NodeCost(decls, v, depth) else Some(0))
  {
    MergedRegular(decls, acc, vs, values);
    GatheringStays(st, st1, t, ret, elem, adt, acc, m1, c1, decls);
    SourcesStay(st, st1, t, ret, ret, [x], [v], decls);
    assert Denotes(st1.heap, [x][0], [v][0]) && Regular(decls, [v][0]);
    if nodes.Some? { SourcesStay(st, st1, t, ret, ret, nodes.value, values.value, decls); }
    AddFilteredGathers(st1, t, ret, elem, adt, m1, x, v, nodes, values, fuel, depth, decls);
  }

  // ---------------------------------------------------------------- the two operations

  /** Both are arrays, of the same struct if the first is one of structs, and that struct is declared. */
  predicate Joinable(decls: Decls, x: Value, y: Value) {
    x.VArr? && y.VArr? && (x.elem == StructT ==> x.elemAdt == y.elemAdt && x.elemAdt.Some? && x.elemAdt.value in decls)
  }

  function Joined(xs: seq<Value>, ys: seq<Value>): seq<Value> {
    Merged(Merged([], xs, None), ys, None)
  }

  function Common(xs: seq<Value>, ys: seq<Value>): seq<Value> {
    Merged([], xs, Some(ys))
  }

  lemma JoinedIsUnion(xs: seq<Value>, ys: seq<Value>)
    ensures Distinct(Joined(xs, ys)) && Elements(Joined(xs, ys)) == Elements(xs) + Elements(ys)
  {
    MergedIsUnion([], xs, None);
    MergedIsUnion(Merged([], xs, None), ys, None);
  }

  lemma CommonIsIntersection(xs: seq<Value>, ys: seq<Value>)
    ensures Distinct(Common(xs, ys)) && Elements(Common(xs, ys)) == Elements(xs) * Elements(ys)
  {
    MergedIsUnion([], xs, Some(ys));
  }

  /**
    No node that was there has changed; on success the result is made of new nodes, and no two of its items are equal.
   */
  ghost predicate Returns(st: State, r: (State, Option<Ref>), x: Value, zs: seq<Value>)
    requires x.VArr?
  {
    && Inv(r.0) && r.0.tables == st.tables && OnlyIn(st.heap, r.0.heap, {})
    && (r.1.Some? ==>
          && Tree(st.heap, r.0.heap, r.1.value, VArr(x.elem, x.elemAdt, zs), {})
          && NoTwoEqual(r.0, r.0.heap[r.1.value].cell.items))
  }

  ghost predicate NoTwoEqual(st: State, items: seq<Ref>) {
    forall i, j :: 0 <= i < j < |items| ==> !Equal(st, items[i], items[j])
  }

  lemma DistinctItems(st: State, ret: Ref, elem: Kind, adt: Option<Name>, zs: seq<Value>, decls: Decls)
    requires Inv(st) && Denotes(st.heap, ret, VArr(elem, adt, zs)) && Distinct(zs) && AllRegular(decls, zs)
    ensures NoTwoEqual(st, st.heap[ret].cell.items)
  {
    var items := st.heap[ret].cell.items;
    forall i, j | 0 <= i < j < |items| ensures !Equal(st, items[i], items[j]) {
      EqualIsEquality(st, items[i], items[j], zs[i], zs[j], decls);
    }
  }

  lemma ItemsAreSources(st: State, st1: State, a: Ref, x: Value, decls: Decls)
    requires Inv(st) && Denotes(st.heap, a, x) && x.VArr? && Regular(decls, x)
    requires forall r :: r in st.heap ==> r in st1.heap && st1.heap[r] == st.heap[r]
    ensures Sources(st1, st.next, st.heap[a].cell.items, x.items, decls)
    ensures forall v :: v in x.items ==> Within(v, st.next)
  {
    var items := st.heap[a].cell.items;
    forall i | 0 <= i < |items|
      ensures Denotes(st1.heap, items[i], x.items[i]) && Within(x.items[i], st.next)
      ensures Foot(st1.heap, items[i], x.items[i]) == Foot(st.heap, items[i], x.items[i])
    {
      Framed(st.heap, st1.heap, items[i], x.items[i]);
      NestingBounded(st, items[i], x.items[i], st.next);
    }
  }

  lemma {:induction false} WithinMore(v: Value, n: nat, m: nat)
    requires Within(v, n) && n <= m
    ensures Within(v, m)
    decreases v
  {
    match v
    case VAtom(_) =>
    case VArr(_, _, vs) => forall i | 0 <= i < |vs| ensures Within(vs[i], m - 1) { WithinMore(vs[i], n - 1, m - 1); }
    case VRec(_, fs) => forall k | k in fs ensures Within(fs[k], m - 1) { WithinMore(fs[k], n - 1, m - 1); }
  }

  /** From the new array on. */
  ghost predicate Begun(st: State, st1: State, t: nat, x: Value, decls: Decls)
    requires x.VArr?
  {
    && st.next !in st.heap && st1.budget == st.budget - 1 && st1.tables == st.tables && OnlyIn(st.heap, st1.heap, {})
    && (forall r :: r in st.heap ==> r in st1.heap && st1.heap[r] == st.heap[r])
    && Gathering(st1, t, st.next, x.elem, x.elemAdt, [], decls)
    && Foot(st1.heap, st.next, VArr(x.elem, x.elemAdt, [])) == {st.next}
  }

  /** The new array is made exactly when the struct is declared and one more node is allowed. */
  lemma NewArrayGathers(st: State, t: nat, a: Ref, x: Value, decls: Decls)
    requires Inv(st) && t < |st.tables| && Uniform(st.tables, decls) && Denotes(st.heap, a, x) && x.VArr?
      && Regular(decls, x)
    ensures var (st1, ret) := NewArray(st, t, a);
      && Inv(st1) && OnlyIn(st.heap, st1.heap, {})
      && (ret.Some? <==> (x.elem == StructT ==> x.elemAdt.value in decls) && st.budget > 0)
      && (ret.Some? ==> ret == Some(st.next) && Begun(st, st1, t, x, decls))
  {
    NewArrayIs(st, t, a);
    NewArrayOk(st, t, a);
    var typ := CopyType(st.heap[a].cell);
    assert StructIn(st.tables, t, typ.adt) == if typ.adt in decls then Some(decls[typ.adt]) else None;
  }

  lemma ReturnsFrom(st: State, st1: State, r: (State, bool), t: nat, x: Value, zs: seq<Value>, cost: Option<nat>,
                    decls: Decls)
    requires x.VArr? && st.next !in st.heap && OnlyIn(st.heap, st1.heap, {}) && st1.tables == st.tables
    requires Denotes(st1.heap, st.next, VArr(x.elem, x.elemAdt, []))
    requires Foot(st1.heap, st.next, VArr(x.elem, x.elemAdt, [])) == {st.next}
    requires Gathered(st1, r, t, st.next, x.elem, x.elemAdt, [], zs, cost) && Distinct(zs) && AllRegular(decls, zs)
    ensures Returns(st, (r.0, if r.1 then Some(st.next) else None), x, zs)
  {
    var f := {st.next};
    OnlyInThen(st.heap, st1.heap, r.0.heap, {}, f);
    if r.1 {
      TreeThen(st.heap, st1.heap, r.0.heap, st.next, VArr(x.elem, x.elemAdt, zs), {}, f);
      DistinctItems(r.0, st.next, x.elem, x.elemAdt, zs, decls);
    }
  }

  /**
    array_union of any two values: both arguments, and everything else that was there, stay as they are. It succeeds
    exactly when both are arrays of a declared element type that agree and the limit allows a node for the array and the
    copies of the values it will hold, none of which may be an array itself; the result then stands for each value of
    either array, once.
   */
  lemma UnionReturns(st: State, t: nat, a: Ref, x: Value, b: Ref, y: Value, fuel: nat, depth: nat, decls: Decls)
    requires Inv(st) && t < |st.tables| && Uniform(st.tables, decls) && fuel >= st.next && depth >= Left(st.budget)
    requires Denotes(st.heap, a, x) && Regular(decls, x) && Denotes(st.heap, b, y) && Regular(decls, y)
    ensures var r := UnionNodes(st, t, a, b, fuel);
      && (r.1.Some? <==> (Joinable(decls, x, y)
                          && Affordable(Plus(Some(1), ListCost(decls, Joined(x.items, y.items), depth)), st.budget)))
      && (x.VArr? && y.VArr? ==> Returns(st, r, x, Joined(x.items, y.items)))
  {
    if Compatible(st, a, b) {
      NewArrayGathers(st, t, a, x, decls);
      var (st1, ret) := NewArray(st, t, a);
      if ret.Some? { JoinReturns(st, st1, t, a, x, b, y, fuel, depth, decls); }
    }
  }

  lemma JoinReturns(st: State, st1: State, t: nat, a: Ref, x: Value, b: Ref, y: Value, fuel: nat, depth: nat,
                    decls: Decls)
    requires Inv(st) && Denotes(st.heap, a, x) && Regular(decls, x) && Denotes(st.heap, b, y) && Regular(decls, y)
    requires x.VArr? && y.VArr? && Begun(st, st1, t, x, decls) && fuel >= st.next && depth >= Left(st1.budget)
    ensures var r, zs := AddBoth(st1, t, st.next, st.heap[a].cell.items, st.heap[b].cell.items, fuel),
      Joined(x.items, y.items);
      && PaidFor(st1.budget, r, ListCost(decls, zs, depth))
      && Returns(st, (r.0, if r.1 then Some(st.next) else None), x, zs)
  {
    ItemsAreSources(st, st1, a, x, decls);
    ItemsAreSources(st, st1, b, y, decls);
    var xs, ys, zs := st.heap[a].cell.items, st.heap[b].cell.items, Joined(x.items, y.items);
    forall v | v in x.items || v in y.items ensures Within(v, fuel) { WithinMore(v, st.next, fuel); }
    BothGather(st1, t, st.next, x.elem, x.elemAdt, xs, x.items, ys, y.items, fuel, depth, decls);
    ReturnsFrom(st, st1, AddBoth(st1, t, st.next, xs, ys, fuel), t, x, zs, ListCost(decls, zs, depth), decls);
  }

  lemma {:induction false} MergedCost(decls: Decls, acc: seq<Value>, vs: seq<Value>, filter: Option<seq<Value>>,
                                      depth: nat)
    ensures ListCost(decls, Merged(acc, vs, filter), depth)
         == Plus(ListCost(decls, acc, depth), AddedCost(decls, acc, vs, filter, depth))
    decreases |vs|
  {
    if vs != [] {
      MergedCost(decls, acc, vs[..|vs| - 1], filter, depth);
      AddedCostStep(decls, acc, vs, filter, depth);
      MergedCostStep(decls, acc, vs, filter, depth);
      PlusAssoc(ListCost(decls, acc, depth), AddedCost(decls, acc, vs[..|vs| - 1], filter, depth),
                LastCost(decls, acc, vs, filter, depth));
    }
  }

  lemma PlusAssoc(a: Option<nat>, b: Option<nat>, c: Option<nat>)
    ensures Plus(Plus(a, b), c) == Plus(a, Plus(b, c))
  {}

  lemma MergedCostStep(decls: Decls, acc: seq<Value>, vs: seq<Value>, filter: Option<seq<Value>>, depth: nat)
    requires vs != []
    ensures ListCost(decls, Merged(acc, vs, filter), depth)
         == Plus(ListCost(decls, Merged(acc, vs[..|vs| - 1], filter), depth), LastCost(decls, acc, vs, filter, depth))
  {
    var m1, v := Merged(acc, vs[..|vs| - 1], filter), vs[|vs| - 1];
    if Wanted(v, filter) && v !in m1 { ListCostOneMore(decls, m1, v, depth); }
  }

  lemma BothGather(st: State, t: nat, ret: Ref, elem: Kind, adt: Option<Name>, xs: seq<Ref>, vs: seq<Value>,
                   ys: seq<Ref>, ws: seq<Value>, fuel: nat, depth: nat, decls: Decls)
    requires Gathering(st, t, ret, elem, adt, [], decls) && depth >= Left(st.budget)
    requires Sources(st, ret, xs, vs, decls) && Sources(st, ret, ys, ws, decls)
    requires forall v :: v in vs || v in ws ==> Within(v, fuel)
    ensures Gathered(st, AddBoth(st, t, ret, xs, ys, fuel), t, ret, elem, adt, [], Joined(vs, ws),
                     ListCost(decls, Joined(vs, ws), depth))
    ensures Distinct(Joined(vs, ws)) && AllRegular(decls, Joined(vs, ws))
  {
    AddEachGathers(st, t, ret, elem, adt, [], xs, vs, None, None, fuel, depth, decls);
    var r1, m1, m2 := AddEach(st, t, ret, xs, None, fuel), Merged([], vs, None), Joined(vs, ws);
    var c1, c2 := ListCost(decls, m1, depth), AddedCost(decls, m1, ws, None, depth);
    assert m1[0..] == m1;
    MergedCost(decls, m1, ws, None, depth);
    MergedRegular(decls, [], vs, None);
    MergedRegular(decls, m1, ws, None);
    JoinedIsUnion(vs, ws);
    if r1.1 {
      GatheringStays(st, r1.0, t, ret, elem, adt, [], m1, c1, decls);
      SourcesStay(st, r1.0, t, ret, ret, ys, ws, decls);
      AddEachGathers(r1.0, t, ret, elem, adt, m1, ys, ws, None, None, fuel, depth, decls);
      GatheredThen(st, r1, AddEach(r1.0, t, ret, ys, None, fuel), t, ret, elem, adt, [], m1, c1, m2, c2);
    } else {
      GatheredFailed(st, r1, t, ret, elem, adt, [], m1, c1, m2, c2);
    }
  }

  /** array_intersect likewise, with the values both arrays have. */
  lemma IntersectReturns(st: State, t: nat, a: Ref, x: Value, b: Ref, y: Value, fuel: nat, depth: nat, decls: Decls)
    requires Inv(st) && t < |st.tables| && Uniform(st.tables, decls) && fuel >= st.next && depth >= Left(st.budget)
    requires Denotes(st.heap, a, x) && Regular(decls, x) && Denotes(st.heap, b, y) && Regular(decls, y)
    ensures var r := IntersectNodes(st, t, a, b, fuel);
      && (r.1.Some? <==> (Joinable(decls, x, y)
                          && Affordable(Plus(Some(1), ListCost(decls, Common(x.items, y.items), depth)), st.budget)))
      && (x.VArr? && y.VArr? ==> Returns(st, r, x, Common(x.items, y.items)))
  {
    if Compatible(st, a, b) {
      NewArrayGathers(st, t, a, x, decls);
      var (st1, ret) := NewArray(st, t, a);
      if ret.Some? { CommonReturns(st, st1, t, a, x, b, y, fuel, depth, decls); }
    }
  }

  lemma CommonReturns(st: State, st1: State, t: nat, a: Ref, x: Value, b: Ref, y: Value, fuel: nat, depth: nat,
                      decls: Decls)
    requires Inv(st) && Denotes(st.heap, a, x) && Regular(decls, x) && Denotes(st.heap, b, y) && Regular(decls, y)
    requires x.VArr? && y.VArr? && Begun(st, st1, t, x, decls) && fuel >= st.next && depth >= Left(st1.budget)
    ensures var xs, ys, zs := st.heap[a].cell.items, st.heap[b].cell.items, Common(x.items, y.items);
      var r := AddEach(st1, t, st.next, xs, Some(ys), fuel);
      && PaidFor(st1.budget, r, ListCost(decls, zs, depth))
      && Returns(st, (r.0, if r.1 then Some(st.next) else None), x, zs)
  {
    ItemsAreSources(st, st1, a, x, decls);
    ItemsAreSources(st, st1, b, y, decls);
    var xs, ys, zs := st.heap[a].cell.items, st.heap[b].cell.items, Common(x.items, y.items);
    forall v | v in x.items ensures Within(v, fuel) { WithinMore(v, st.next, fuel); }
    AddEachGathers(st1, t, st.next, x.elem, x.elemAdt, [], xs, x.items, Some(ys), Some(y.items), fuel, depth, decls);
    assert zs[0..] == zs;
    MergedRegular(decls, [], x.items, Some(y.items));
    CommonIsIntersection(x.items, y.items);
    ReturnsFrom(st, st1, AddEach(st1, t, st.next, xs, Some(ys), fuel), t, x, zs, ListCost(decls, zs, depth), decls);
  }
}
