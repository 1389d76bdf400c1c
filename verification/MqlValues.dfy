/** The value a node stands for, and ADTEqual as it walks the heap. */
module MqlValues {
  import opened Base
  import opened MqlState

  /** What a node stands for, independent of where it is kept. */
  datatype Value =
    | VAtom(b: Basic)
    | VArr(elem: Kind, elemAdt: Option<Name>, items: seq<Value>)
    | VRec(adt: Name, fields: map<Name, Value>)

  /** Node r of the heap stands for v. */
  ghost predicate Denotes(heap: map<Ref, Obj>, r: Ref, v: Value)
    decreases v
  {
    r in heap &&
    match v
    case VAtom(b) => heap[r].cell == Atom(b)
    case VArr(elem, adt, vs) =>
      && heap[r].cell.Arr? && heap[r].cell.elem == elem && heap[r].cell.elemAdt == adt
      && |heap[r].cell.items| == |vs|
      && forall i :: 0 <= i < |vs| ==> Denotes(heap, heap[r].cell.items[i], vs[i])
    case VRec(adt, fs) =>
      && heap[r].cell.Rec? && heap[r].cell.adt == adt && heap[r].cell.fields.Keys == fs.Keys
      && forall k :: k in fs ==> Denotes(heap, heap[r].cell.fields[k], fs[k])
  }

  /** The struct name an array carries says something only when its elements are structs. */
  ghost predicate WellFormed(v: Value) {
    match v
    case VAtom(_) => true
    case VArr(elem, adt, vs) => (elem == StructT <==> adt.Some?) && forall i :: 0 <= i < |vs| ==> WellFormed(vs[i])
    case VRec(_, fs) => forall k :: k in fs ==> WellFormed(fs[k])
  }

  lemma {:induction false} DenotesOne(heap: map<Ref, Obj>, r: Ref, v: Value, w: Value)
    requires Denotes(heap, r, v) && Denotes(heap, r, w)
    ensures v == w
    decreases v
  {
    match v
    case VAtom(_) =>
    case VArr(_, _, vs) =>
      forall i | 0 <= i < |vs|
        ensures vs[i] == w.items[i]
      {
        DenotesOne(heap, heap[r].cell.items[i], vs[i], w.items[i]);
      }
    case VRec(_, fs) =>
      forall k | k in fs ensures fs[k] == w.fields[k] { DenotesOne(heap, heap[r].cell.fields[k], fs[k], w.fields[k]); }
      assert fs == w.fields;
  }

  // ---------------------------------------------------------------- ADTEqual

  /** A bound on the nesting of v. */
  ghost predicate Within(v: Value, n: nat) {
    match v
    case VAtom(_) => n > 0
    case VArr(_, _, vs) => n > 0 && forall i :: 0 <= i < |vs| ==> Within(vs[i], n - 1)
    case VRec(_, fs) => n > 0 && forall k :: k in fs ==> Within(fs[k], n - 1)
  }

  /** ADTEqual on two nodes; depth bounds the walk. */
  predicate ADTEqual(heap: map<Ref, Obj>, a: Ref, b: Ref, depth: nat)
    decreases depth, 1
  {
    depth > 0 && a in heap && b in heap &&
    match (heap[a].cell, heap[b].cell)
    case (Atom(x), Atom(y)) => x == y
    case (Arr(elem, adt, xs, _), Arr(elem', adt', ys, _)) =>
      elem == elem' && (elem == StructT ==> adt == adt') && |xs| == |ys| && ItemsEqual(heap, xs, ys, depth - 1)
    case (Rec(adt, xs), Rec(adt', ys)) => adt == adt' && |xs| == |ys| && FieldsEqual(heap, xs, ys, depth - 1)
    case _ => false
  }

  predicate ItemsEqual(heap: map<Ref, Obj>, xs: seq<Ref>, ys: seq<Ref>, depth: nat)
    requires |xs| == |ys|
    decreases depth, 2, |xs|
  {
    forall i :: 0 <= i < |xs| ==> ADTEqual(heap, xs[i], ys[i], depth)
  }

  /** Every field of the first is in the second and equal there; that the sizes agree was tested before. */
  predicate FieldsEqual(heap: map<Ref, Obj>, xs: map<Name, Ref>, ys: map<Name, Ref>, depth: nat)
    decreases depth, 2, 0
  {
    forall k :: k in xs ==> k in ys && ADTEqual(heap, xs[k], ys[k], depth)
  }

  /** The pointer walk decides equality of values, so on well-formed values it is an equivalence. */
  lemma {:induction false} ADTEqualIsValueEquality(heap: map<Ref, Obj>, a: Ref, b: Ref, v: Value, w: Value, depth: nat)
    requires Denotes(heap, a, v) && Denotes(heap, b, w) && WellFormed(v) && WellFormed(w) && Within(v, depth)
    ensures ADTEqual(heap, a, b, depth) <==> v == w
    decreases depth, 1
  {
    match v
    case VAtom(_) =>
    case VArr(elem, adt, vs) =>
      if w.VArr? && elem == w.elem && adt == w.elemAdt && |vs| == |w.items| {
        var xs, ys := heap[a].cell.items, heap[b].cell.items;
        forall i | 0 <= i < |vs| ensures ADTEqual(heap, xs[i], ys[i], depth - 1) <==> vs[i] == w.items[i] {
          ADTEqualIsValueEquality(heap, xs[i], ys[i], vs[i], w.items[i], depth - 1);
        }
        assert ItemsEqual(heap, xs, ys, depth - 1) <==> vs == w.items;
      }
    case VRec(adt, fs) =>
      if w.VRec? && adt == w.adt {
        FieldsDecide(heap, a, b, fs, w.fields, depth);
      }
  }

  lemma {:induction false} FieldsDecide(heap: map<Ref, Obj>, a: Ref, b: Ref, fs: map<Name, Value>, gs: map<Name, Value>,
                                        depth: nat)
    requires a in heap && heap[a].cell.Rec? && heap[a].cell.fields.Keys == fs.Keys
    requires b in heap && heap[b].cell.Rec? && heap[b].cell.fields.Keys == gs.Keys && depth > 0
    requires forall k :: k in fs ==>
      Denotes(heap, heap[a].cell.fields[k], fs[k]) && WellFormed(fs[k]) && Within(fs[k], depth - 1)
    requires forall k :: k in gs ==> Denotes(heap, heap[b].cell.fields[k], gs[k]) && WellFormed(gs[k])
    ensures var xs, ys := heap[a].cell.fields, heap[b].cell.fields;
      |xs| == |ys| && FieldsEqual(heap, xs, ys, depth - 1) <==> fs == gs
    decreases depth, 0
  {
    var xs, ys := heap[a].cell.fields, heap[b].cell.fields;
    assert |xs| == |xs.Keys| == |fs.Keys| == |fs| && |ys| == |ys.Keys| == |gs.Keys| == |gs|;
    forall k | k in fs && k in gs ensures ADTEqual(heap, xs[k], ys[k], depth - 1) <==> fs[k] == gs[k] {
      ADTEqualIsValueEquality(heap, xs[k], ys[k], fs[k], gs[k], depth - 1);
    }
    if |xs| == |ys| && FieldsEqual(heap, xs, ys, depth - 1) {
      assert fs.Keys <= gs.Keys;
      SubsetFull(fs.Keys, gs.Keys);
      assert fs == gs;
    }
  }

  /**
    What comparing the fields says without the test of the map sizes before it: that every field of the first struct is
    in the second with an equal value. So it is the sizes that make the comparison symmetric.
   */
  lemma {:induction false} FieldsEqualIsInclusion(heap: map<Ref, Obj>, a: Ref, b: Ref, v: Value, w: Value, depth: nat)
    requires Denotes(heap, a, v) && Denotes(heap, b, w) && WellFormed(v) && WellFormed(w) && v.VRec? && w.VRec?
    requires Within(v, depth)
    ensures FieldsEqual(heap, heap[a].cell.fields, heap[b].cell.fields, depth - 1)
      <==> forall k :: k in v.fields ==> k in w.fields && v.fields[k] == w.fields[k]
    ensures FieldsEqual(heap, heap[a].cell.fields, heap[b].cell.fields, depth - 1) ==>
      (|v.fields| == |w.fields| <==> v.fields == w.fields)
  {
    var xs, ys := heap[a].cell.fields, heap[b].cell.fields;
    forall k | k in v.fields && k in w.fields
      ensures ADTEqual(heap, xs[k], ys[k], depth - 1) <==> v.fields[k] == w.fields[k]
    {
      ADTEqualIsValueEquality(heap, xs[k], ys[k], v.fields[k], w.fields[k], depth - 1);
    }
    if FieldsEqual(heap, xs, ys, depth - 1) {
      assert v.fields.Keys <= w.fields.Keys;
      assert |v.fields| == |v.fields.Keys| && |w.fields| == |w.fields.Keys|;
      if |v.fields| == |w.fields| { SubsetFull(v.fields.Keys, w.fields.Keys); }
    }
  }
}
