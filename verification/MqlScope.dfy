/** What evaluation leaves alone: the scope stack, and every node of a table the current scope cannot see. */
module MqlScope {
  import opened Base
  import opened MqlState
  import opened MqlUpdate
  import opened MqlArrays
  import opened MqlEval

  ghost predicate SamePrevs(a: seq<Table>, b: seq<Table>) {
    |a| == |b| && forall i :: 0 <= i < |a| ==> a[i].prev == b[i].prev
  }

  lemma {:induction false} SameChain(a: seq<Table>, b: seq<Table>, i: nat)
    requires SamePrevs(a, b) && i < |a|
    ensures Chain(a, i) == Chain(b, i)
    decreases i
  {
    if a[i].prev.Some? && a[i].prev.value < i { SameChain(a, b, a[i].prev.value); }
  }

  lemma {:induction false} ChainBelow(tables: seq<Table>, i: nat)
    requires i < |tables|
    ensures forall j :: j in Chain(tables, i) ==> j <= i
    decreases i
  {
    if tables[i].prev.Some? && tables[i].prev.value < i { ChainBelow(tables, tables[i].prev.value); }
  }

  /** Only the last table may gain names, and its new variables are new nodes. */
  ghost predicate NamesKept(st: State, st': State)
    requires HasTop(st)
  {
    && SamePrevs(st.tables, st'.tables)
    && (forall i :: 0 <= i < Top(st) ==> st'.tables[i].names == st.tables[i].names)
    && (forall x :: x in st.tables[Top(st)].names ==>
          x in st'.tables[Top(st)].names && st'.tables[Top(st)].names[x] == st.tables[Top(st)].names[x])
    && (forall x :: (x in st'.tables[Top(st)].names && x !in st.tables[Top(st)].names
                     && st'.tables[Top(st)].names[x].Var?) ==> st'.tables[Top(st)].names[x].r >= st.next)
  }

  /** Nodes stay where they are; those of tables outside the scope stay as they are; new ones appear only inside. */
  ghost predicate HeapKept(st: State, st': State, scope: set<nat>) {
    && st'.next >= st.next
    && (forall r :: r in st.heap ==> r in st'.heap && SamePlace(st.heap[r], st'.heap[r]))
    && (forall r :: r in st.heap && st.heap[r].table !in scope ==> st'.heap[r] == st.heap[r])
    && (forall r :: r in st'.heap && r !in st.heap ==> st'.heap[r].table in scope && r >= st.next)
  }

  /** The invariant of a running program. */
  ghost predicate Sound(st: State) {
    Inv(st) && Roots(st)
  }

  ghost predicate Kept(st: State, st': State)
    requires HasTop(st)
  {
    Sound(st') && NamesKept(st, st') && HeapKept(st, st', Chain(st.tables, Top(st)))
  }

  /** Every node mentioned is allocated in a table of the scope. */
  ghost predicate InScope(st: State, n: Node, scope: set<nat>) {
    match n
    case At(r) => r in st.heap && st.heap[r].table in scope
    case Listed(items) => forall i :: 0 <= i < |items| ==> InScope(st, items[i], scope)
    case _ => true
  }

  ghost predicate AllInScope(st: State, items: seq<Node>, scope: set<nat>) {
    forall i :: 0 <= i < |items| ==> InScope(st, items[i], scope)
  }

  ghost predicate Good(st: State, r: (State, Node))
    requires HasTop(st)
  {
    Kept(st, r.0) && InScope(r.0, r.1, Chain(st.tables, Top(st)))
  }

  /** What an evaluator promises. */
  ghost predicate Contract(ev: Ev) {
    forall st, e :: Sound(st) && ev(st, e).Some? ==> Good(st, ev(st, e).value)
  }

  // ---------------------------------------------------------------- composing steps

  lemma HeapKeptThen(a: State, b: State, c: State, scope: set<nat>)
    requires HeapKept(a, b, scope) && HeapKept(b, c, scope)
    ensures HeapKept(a, c, scope)
  {
    forall r | r in a.heap ensures SamePlace(a.heap[r], c.heap[r]) {
      SamePlaceThen(a.heap[r], b.heap[r], c.heap[r]);
    }
  }

  lemma NamesKeptThen(a: State, b: State, c: State)
    requires HasTop(a) && HasTop(b) && NamesKept(a, b) && NamesKept(b, c) && b.next >= a.next
    ensures NamesKept(a, c)
  {}

  lemma KeptThen(a: State, b: State, c: State)
    requires Sound(a) && Kept(a, b) && Kept(b, c)
    ensures Kept(a, c)
  {
    SameChain(a.tables, b.tables, Top(a));
    NamesKeptThen(a, b, c);
    HeapKeptThen(a, b, c, Chain(a.tables, Top(a)));
  }

  lemma KeptSame(st: State)
    requires Sound(st)
    ensures Kept(st, st)
  {}

  lemma {:induction false} InScopeStays(a: State, b: State, n: Node, scope: set<nat>)
    requires InScope(a, n, scope) && forall r :: r in a.heap ==> r in b.heap && b.heap[r].table == a.heap[r].table
    ensures InScope(b, n, scope)
  {
    match n
    case Listed(items) =>
      forall i | 0 <= i < |items| ensures InScope(b, items[i], scope) { InScopeStays(a, b, items[i], scope); }
    case _ =>
  }

  /** A later step keeps what an earlier one found. */
  lemma GoodThen(a: State, b: State, r: (State, Node))
    requires Sound(a) && Kept(a, b) && Good(b, r)
    ensures Good(a, r)
  {
    KeptThen(a, b, r.0);
    SameChain(a.tables, b.tables, Top(a));
  }

  lemma ScopeStays(a: State, b: State, c: State, n: Node)
    requires Sound(a) && Good(a, (b, n)) && Kept(b, c)
    ensures InScope(c, n, Chain(a.tables, Top(a)))
    ensures Chain(b.tables, Top(b)) == Chain(a.tables, Top(a))
  {
    SameChain(a.tables, b.tables, Top(a));
    InScopeStays(b, c, n, Chain(a.tables, Top(a)));
  }

  // ---------------------------------------------------------------- the current table

  lemma FindOk(st: State, name: Name)
    requires Inv(st)
    ensures InScope(st, AsNode(Find(st, name)), Chain(st.tables, Top(st)))
  {
    LookupInChain(st.tables, Top(st), name);
    var e := Find(st, name);
    if e.Some? {
      var j: nat :| Holds(st.tables, Top(st), j, name);
    }
  }

  lemma TouchedKept(st: State, st': State, tab: nat, root: Ref, low: Ref)
    requires Sound(st) && Touched(st, st', tab, root, low) && tab in Chain(st.tables, Top(st))
    requires root in st.heap && st.heap[root].root == root && st.heap[root].table == tab
    ensures Kept(st, st')
  {
    RootsStay(st, st', tab, root);
    forall r | r in st.heap && st.heap[r].root == root ensures st.heap[r].table == tab {
      assert RootOk(st.heap, st.heap[r]);
    }
  }

  /** A new node for the current table; everything added is part of it. */
  ghost predicate CreatedHere(st: State, r: (State, Node))
    requires HasTop(st)
  {
    && Good(st, r) && r.0.tables == st.tables && OnlyAdds(st, r.0, Top(st), st.next)
    && (r.1 == Empty || (r.1 == At(st.next) && st.next in r.0.heap && st.next !in st.heap))
  }

  lemma CreateHereOk(st: State, typ: Type, size: int)
    requires Sound(st)
    ensures CreatedHere(st, CreateHere(st, typ, size))
  {
    CreateRooted(st, Top(st), typ, size);
    CollectedHere(st, Create(st, Top(st), st.next, st.next, typ, size));
  }

  lemma CollectedHere(st: State, r: (State, Option<Ref>))
    requires Sound(st) && Collected(st, r, Top(st))
    ensures CreatedHere(st, (r.0, if r.1.Some? then At(r.1.value) else Empty))
  {
    AddsIsTouched(st, r.0, Top(st), st.next, st.next);
    RootsStay(st, r.0, Top(st), st.next);
  }

  lemma CombinedOk(st: State, a: Node, b: Node, common: bool, fuel: nat)
    requires Sound(st)
    ensures Good(st, Combined(st, a, b, common, fuel))
  {
    KeptSame(st);
    if a.At? && b.At? {
      UnionOk(st, Top(st), a.r, b.r, fuel);
      IntersectOk(st, Top(st), a.r, b.r, fuel);
      CollectedHere(st, if common then IntersectNodes(st, Top(st), a.r, b.r, fuel)
                    else UnionNodes(st, Top(st), a.r, b.r, fuel));
    }
  }

  /** If a creation allocates anything, it begins with the node the rest is part of. */
  lemma CreateRooted(st: State, t: nat, typ: Type, size: int)
    requires Inv(st) && t < |st.tables|
    ensures Collected(st, Create(st, t, st.next, st.next, typ, size), t)
  {
    CreateOk(st, t, st.next, st.next, typ, size);
    if st.budget > 0 {
      if typ.kind == StructT {
        var decl := StructDecl(st, t, typ.adt);
        if decl.Some? && decl.value != [] {
          AllocateOk(st, Rec(typ.adt, map[]), t, st.next, st.next);
          CreateFieldsOk(Allocate(st, Rec(typ.adt, map[]), t, st.next, st.next), t, st.next, st.next, decl.value);
        }
      } else if typ.kind == ArrayT {
        if size >= 0 && !(typ.elem == StructT && StructDecl(st, t, typ.adt).None?) {
          AllocateOk(st, EmptyArray(typ, t), t, st.next, st.next);
          CreateItemsOk(Allocate(st, EmptyArray(typ, t), t, st.next, st.next), t, st.next, st.next,
                        Type(typ.elem, typ.adt, VoidT), size);
        }
      }
    }
  }

  lemma UpdateHereOk(st: State, dst: Node, src: Node, fuel: nat)
    requires Sound(st) && InScope(st, dst, Chain(st.tables, Top(st))) && Live(st, src)
    ensures Kept(st, UpdateHere(st, dst, src, fuel).0)
  {
    KeptSame(st);
    if dst.At? {
      var o := st.heap[dst.r];
      assert RootOk(st.heap, o);
      UpdateOk(st, Top(st), dst.r, src, fuel, o.table, o.root);
      TouchedKept(st, Update(st, Top(st), dst.r, src, fuel).0, o.table, o.root, dst.r);
    }
  }

  lemma {:induction false} InScopeLive(st: State, n: Node, scope: set<nat>)
    requires InScope(st, n, scope)
    ensures Live(st, n)
  {
    match n
    case Listed(items) => forall i | 0 <= i < |items| ensures Live(st, items[i]) { InScopeLive(st, items[i], scope); }
    case _ =>
  }

  lemma DeclaredOk(st: State, name: Name, entry: Entry)
    requires Sound(st)
    requires entry.Var? ==> entry.r in st.heap && st.heap[entry.r].table == Top(st) && st.heap[entry.r].root == entry.r
    ensures Sound(Declared(st, name, entry)) && SamePrevs(st.tables, Declared(st, name, entry).tables)
    ensures Declared(st, name, entry).heap == st.heap && Declared(st, name, entry).next == st.next
    ensures !entry.Var? ==> Kept(st, Declared(st, name, entry))
  {}

  lemma VariableCreateOk(st: State, typ: Type, size: int, name: Name)
    requires Sound(st)
    ensures Good(st, VariableCreate(st, typ, size, name))
  {
    CreateHereOk(st, typ, size);
    var (st1, n) := CreateHere(st, typ, size);
    if n.At? && name !in st1.tables[Top(st1)].names {
      DeclaredOk(st1, name, Var(n.r));
    }
  }

  lemma VariableAssignOk(st: State, name: Name, src: Node, fuel: nat)
    requires Sound(st) && Live(st, src)
    ensures Kept(st, VariableAssign(st, name, src, fuel).0)
  {
    FindOk(st, name);
    UpdateHereOk(st, AsNode(Find(st, name)), src, fuel);
  }
}
