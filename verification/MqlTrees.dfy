/** Nodes as they occur: in every state the interpreter can reach each node stands for a value, as a tree of its own. */
module MqlTrees {
  import opened Base
  import opened MqlState
  import opened MqlUpdate
  import opened MqlValues
  import opened MqlCopy
  import opened MqlAssign
  import opened MqlEval
  import opened MqlScope
  import opened MqlCalls

  lemma PartsAfter(st: State, r: Ref)
    requires Inv(st) && r in st.heap
    ensures var cell := st.heap[r].cell;
      && (cell.Arr? ==> forall i :: 0 <= i < |cell.items| ==> PartOf(st.heap, cell.items[i], r, st.heap[r]))
      && (cell.Rec? ==> forall k :: k in cell.fields ==> PartOf(st.heap, cell.fields[k], r, st.heap[r]))
      && SlotsOk(cell) && r < st.next
  {
    var cell := st.heap[r].cell;
    assert ObjOk(st.heap, r, st.heap[r]);
    if cell.Arr? { assert forall i :: 0 <= i < |cell.items| ==> cell.items[i] in Children(cell); }
    if cell.Rec? { assert forall k :: k in cell.fields ==> cell.fields[k] in Children(cell); }
  }

  /** The value node r stands for. */
  ghost function ValueOf(st: State, r: Ref): (v: Value)
    requires Inv(st) && r in st.heap
    ensures Denotes(st.heap, r, v)
    decreases st.next - r, 0
  {
    PartsAfter(st, r);
    match st.heap[r].cell
    case Atom(b) => VAtom(b)
    case Arr(elem, adt, items, _) =>
      VArr(elem, adt, seq(|items|, i requires 0 <= i < |items| && r < items[i] && items[i] in st.heap =>
                                     PartValue(st, r, items[i])))
    case Rec(adt, fields) => VRec(adt, map k | k in fields :: PartValue(st, r, fields[k]))
  }

  ghost function PartValue(st: State, r: Ref, c: Ref): (v: Value)
    requires Inv(st) && r in st.heap && r < c && c in st.heap
    ensures Denotes(st.heap, c, v)
    decreases st.next - r - 1, 1
  {
    PartsAfter(st, c);
    ValueOf(st, c)
  }

  // ---------------------------------------------------------------- the nodes of a value

  /** All nodes of a value were allocated with or after its first one, in its place. */
  lemma {:induction false} FootPlace(st: State, r: Ref, v: Value)
    requires Inv(st) && Denotes(st.heap, r, v)
    ensures forall x :: x in Foot(st.heap, r, v) ==>
      r <= x && x in st.heap && st.heap[x].root == st.heap[r].root && st.heap[x].table == st.heap[r].table
    decreases v
  {
    PartsAfter(st, r);
    match v
    case VAtom(_) =>
    case VArr(_, _, vs) =>
      forall i | 0 <= i < |vs|
        ensures forall x :: x in Foot(st.heap, st.heap[r].cell.items[i], vs[i]) ==>
          r <= x && x in st.heap && st.heap[x].root == st.heap[r].root && st.heap[x].table == st.heap[r].table
      {
        FootPlace(st, st.heap[r].cell.items[i], vs[i]);
      }
    case VRec(_, fs) =>
      forall k | k in fs
        ensures forall x :: x in Foot(st.heap, st.heap[r].cell.fields[k], fs[k]) ==>
          r <= x && x in st.heap && st.heap[x].root == st.heap[r].root && st.heap[x].table == st.heap[r].table
      {
        FootPlace(st, st.heap[r].cell.fields[k], fs[k]);
      }
  }

  /** Every node of a value but the first belongs to another of its nodes. */
  lemma {:induction false} FootUp(st: State, r: Ref, v: Value, x: Ref)
    requires Inv(st) && Denotes(st.heap, r, v) && x in Foot(st.heap, r, v) && x != r
    ensures st.heap[x].parent in Foot(st.heap, r, v) && st.heap[x].parent < x
    decreases v
  {
    PartsAfter(st, r);
    match v
    case VAtom(_) =>
    case VArr(_, _, vs) =>
      var i :| 0 <= i < |vs| && x in Foot(st.heap, st.heap[r].cell.items[i], vs[i]);
      if x != st.heap[r].cell.items[i] { FootUp(st, st.heap[r].cell.items[i], vs[i], x); }
    case VRec(_, fs) =>
      var k :| k in fs && x in Foot(st.heap, st.heap[r].cell.fields[k], fs[k]);
      if x != st.heap[r].cell.fields[k] { FootUp(st, st.heap[r].cell.fields[k], fs[k], x); }
  }

  /** Two parts of one node have no node in common: going up from it one would meet one part inside the other. */
  lemma {:induction false} PartsApart(st: State, r: Ref, c: Ref, v: Value, d: Ref, w: Value, x: Ref)
    requires Inv(st) && r in st.heap && PartOf(st.heap, c, r, st.heap[r]) && PartOf(st.heap, d, r, st.heap[r]) && c != d
    requires Denotes(st.heap, c, v) && Denotes(st.heap, d, w)
    ensures !(x in Foot(st.heap, c, v) && x in Foot(st.heap, d, w))
    decreases x
  {
    if x in Foot(st.heap, c, v) && x in Foot(st.heap, d, w) {
      if x == c {
        FootUp(st, d, w, c);
        FootPlace(st, d, w);
      } else if x == d {
        FootUp(st, c, v, d);
        FootPlace(st, c, v);
      } else {
        FootUp(st, c, v, x);
        FootUp(st, d, w, x);
        PartsApart(st, r, c, v, d, w, st.heap[x].parent);
      }
    }
  }

  lemma FeetOfParts(st: State, r: Ref, c: Ref, v: Value, d: Ref, w: Value)
    requires Inv(st) && r in st.heap && PartOf(st.heap, c, r, st.heap[r]) && PartOf(st.heap, d, r, st.heap[r]) && c != d
    requires Denotes(st.heap, c, v) && Denotes(st.heap, d, w)
    ensures Foot(st.heap, c, v) !! Foot(st.heap, d, w)
  {
    forall x | x in Foot(st.heap, c, v) ensures x !in Foot(st.heap, d, w) { PartsApart(st, r, c, v, d, w, x); }
  }

  /** Every value is a tree. */
  lemma {:induction false} ValuesAreTrees(st: State, r: Ref, v: Value)
    requires Inv(st) && Denotes(st.heap, r, v)
    ensures Separate(st.heap, r, v)
    decreases v
  {
    PartsAfter(st, r);
    match v
    case VAtom(_) =>
    case VArr(elem, adt, vs) =>
      var items := st.heap[r].cell.items;
      forall i | 0 <= i < |vs| ensures r !in Foot(st.heap, items[i], vs[i]) && Separate(st.heap, items[i], vs[i]) {
        FootPlace(st, items[i], vs[i]);
        ValuesAreTrees(st, items[i], vs[i]);
      }
      forall i, j | 0 <= i < j < |vs| ensures Foot(st.heap, items[i], vs[i]) !! Foot(st.heap, items[j], vs[j]) {
        FeetOfParts(st, r, items[i], vs[i], items[j], vs[j]);
      }
      ArrSeparate(st.heap, r, elem, adt, vs);
    case VRec(adt, fs) =>
      var fields := st.heap[r].cell.fields;
      forall k | k in fs ensures r !in Foot(st.heap, fields[k], fs[k]) && Separate(st.heap, fields[k], fs[k]) {
        FootPlace(st, fields[k], fs[k]);
        ValuesAreTrees(st, fields[k], fs[k]);
      }
      forall k, l | k in fs && l in fs && k != l
        ensures Foot(st.heap, fields[k], fs[k]) !! Foot(st.heap, fields[l], fs[l])
      {
        FeetOfParts(st, r, fields[k], fs[k], fields[l], fs[l]);
      }
      RecSeparate(st.heap, r, adt, fs);
  }
}
