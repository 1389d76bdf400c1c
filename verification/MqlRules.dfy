/**
  The meaning of the language: what each construct does, in terms of the values nodes stand for. The evaluator one level
  further down is any function, so that the rules hold at every depth.
 */
module MqlRules {
  import opened Base
  import opened Wire
  import opened MqlState
  import opened MqlUpdate
  import opened MqlEval
  import opened MqlScope
  import opened MqlCalls
  import opened MqlValues
  import opened MqlCopy
  import opened MqlAssign
  import opened MqlCosts
  import opened MqlTrees
  import opened MqlTidy
  import opened MqlRuns
  import opened MqlDefaults
  import opened MqlBinding

  // ---------------------------------------------------------------- names

  /** Of the tables a lookup from table i can reach, j is the innermost that has the name. */
  ghost predicate Nearest(tables: seq<Table>, i: nat, name: Name, j: nat)
    requires i < |tables|
  {
    && j in Chain(tables, i) && j < |tables| && name in tables[j].names
    && forall k :: k in Chain(tables, i) && j < k < |tables| ==> name !in tables[k].names
  }

  /** From a table a lookup can reach the one it continues at, and no others. */
  lemma {:induction false} ChainContinues(tables: seq<Table>, i: nat)
    requires i < |tables|
    ensures i in Chain(tables, i)
    ensures forall j :: j in Chain(tables, i) && j < |tables| && tables[j].prev.Some? && tables[j].prev.value < j ==>
      tables[j].prev.value in Chain(tables, i)
    ensures forall p :: p in Chain(tables, i) && p != i ==>
      exists j :: j in Chain(tables, i) && p < j < |tables| && tables[j].prev == Some(p)
    decreases i
  {
    if tables[i].prev.Some? && tables[i].prev.value < i {
      ChainContinues(tables, tables[i].prev.value);
    }
  }

  /** A lookup finds the innermost declaration, and fails exactly when there is none. */
  lemma {:induction false} LookupFindsNearest(tables: seq<Table>, i: nat, name: Name)
    requires i < |tables|
    ensures forall j: nat :: Nearest(tables, i, name, j) ==> Lookup(tables, i, name) == Some(tables[j].names[name])
    ensures Lookup(tables, i, name).Some? ==> exists j: nat :: Nearest(tables, i, name, j)
    decreases i
  {
    ChainBelow(tables, i);
    if name in tables[i].names {
      assert Nearest(tables, i, name, i);
    } else if tables[i].prev.Some? && tables[i].prev.value < i {
      var p := tables[i].prev.value;
      LookupFindsNearest(tables, p, name);
      ChainBelow(tables, p);
      forall j: nat | Nearest(tables, i, name, j) ensures Lookup(tables, i, name) == Some(tables[j].names[name]) {
        assert Nearest(tables, p, name, j);
      }
      if Lookup(tables, p, name).Some? {
        var j: nat :| Nearest(tables, p, name, j);
        assert Nearest(tables, i, name, j);
      }
    }
  }

  /** A name stands for the innermost variable of that name. */
  lemma NameRule(arith: Arith, ev: Ev, st: State, name: Name, fuel: nat, j: nat)
    requires Sound(st) && Nearest(st.tables, Top(st), name, j)
    ensures var r := Step(arith, ev, st, VarRef(name), fuel);
      var entry := st.tables[j].names[name];
      && r.Some? && r.value.0 == st
      && (entry.Var? ==> r.value.1 == At(entry.r))
      && (!entry.Var? ==> r.value.1 == Other)
  {
    LookupFindsNearest(st.tables, Top(st), name);
  }

  // ---------------------------------------------------------------- parts and operators

  /** a[i] is the node of item i, or nothing when there is no such item. The index is evaluated before the array. */
  lemma ElemRule(arith: Arith, ev: Ev, st: State, base: Expr, index: Expr, fuel: nat, st1: State, st2: State,
                 access: Node, arr: Node, i: int32, elem: Kind, adt: Option<Name>, vs: seq<MqlValues.Value>)
    requires ev(st, index) == Some((st1, access)) && ev(st1, base) == Some((st2, arr))
    requires Stands(st2, access, VAtom(I(i))) && Stands(st2, arr, VArr(elem, adt, vs))
    ensures var r := Step(arith, ev, st, Expr.Elem(base, index), fuel);
      && r.Some? && r.value.0 == st2
      && (if 0 <= i < |vs| then Stands(st2, r.value.1, vs[i]) && r.value.1.At? else r.value.1 == Empty)
  {}

  /** r.f is the node of that field, or nothing when there is no such field. */
  lemma FieldRule(arith: Arith, ev: Ev, st: State, base: Expr, field: Name, fuel: nat, st1: State, rec: Node, adt: Name,
                  fs: map<Name, MqlValues.Value>)
    requires ev(st, base) == Some((st1, rec)) && Stands(st1, rec, VRec(adt, fs))
    ensures var r := Step(arith, ev, st, FieldRef(base, field), fuel);
      && r.Some? && r.value.0 == st1
      && (if field in fs then Stands(st1, r.value.1, fs[field]) && r.value.1.At? else r.value.1 == Empty)
  {}

  /** An operator is applied to the values its operands stand for once both are evaluated, the right one first. */
  lemma BinRule(arith: Arith, ev: Ev, st: State, op: nat, left: Expr, right: Expr, fuel: nat, st1: State, st2: State,
                l: Node, r: Node, a: Basic, b: Basic)
    requires ev(st, right) == Some((st1, r)) && ev(st1, left) == Some((st2, l))
    requires Stands(st2, l, VAtom(a)) && Stands(st2, r, VAtom(b))
    ensures Step(arith, ev, st, Bin(op, left, right), fuel) ==
      Some((st2, if arith(op, a, b).Some? then Node.Value(arith(op, a, b).value) else Empty))
  {}

  // ---------------------------------------------------------------- assignment

  /** Everything outside the target's own nodes is as it was. */
  ghost predicate OnlyTarget(st: State, st': State, dst: Ref)
    requires Inv(st) && dst in st.heap
  {
    st'.tables == st.tables && OnlyIn(st.heap, st'.heap, Foot(st.heap, dst, ValueOf(st, dst)))
  }

  /**
    left = right, with sides that have no node in common. Nothing outside the target changes; if the assignment yields
    its target the target stands for what the right side stood for, and otherwise it yields nothing.
   */
  lemma AssignRule(arith: Arith, ev: Ev, st: State, left: Expr, right: Expr, fuel: nat, st1: State, st2: State,
                   dst: Ref, r: Node, v: MqlValues.Value, decls: Decls)
    requires ev(st, right) == Some((st1, r)) && ev(st1, left) == Some((st2, At(dst)))
    requires Tidy(st2, decls) && dst in st2.heap && Fine(st2, decls, dst)
    requires Stands(st2, r, v) && NodeFine(st2, decls, r)
      && Foot(st2.heap, dst, ValueOf(st2, dst)) !! MqlBinding.Made(st2, r, v)
    ensures var res := Step(arith, ev, st, Assign(left, right), fuel);
      && res.Some? && OnlyTarget(st2, res.value.0, dst)
      && (res.value.1 == At(dst) ==> Denotes(res.value.0.heap, dst, v))
      && (res.value.1 != At(dst) ==> res.value.1 == Empty)
  {
    AssignIs(arith, ev, st, left, right, fuel, st1, st2, dst, r);
    AssignStands(st2, dst, r, v, fuel, decls);
  }

  lemma AssignIs(arith: Arith, ev: Ev, st: State, left: Expr, right: Expr, fuel: nat, st1: State, st2: State, dst: Ref,
                 r: Node)
    requires ev(st, right) == Some((st1, r)) && ev(st1, left) == Some((st2, At(dst))) && r != Empty && HasTop(st2)
    ensures var u := Update(st2, Top(st2), dst, r, fuel);
      Step(arith, ev, st, Assign(left, right), fuel) == Some((u.0, if u.1 then At(dst) else Empty))
  {}

  /** It does yield its target when both sides are of one type and the limit allows the copy. */
  lemma AssignSucceeds(arith: Arith, ev: Ev, st: State, left: Expr, right: Expr, fuel: nat, st1: State, st2: State,
                       dst: Ref, r: Node, v: MqlValues.Value, typ: Type, depth: nat, decls: Decls)
    requires ev(st, right) == Some((st1, r)) && ev(st1, left) == Some((st2, At(dst)))
    requires Tidy(st2, decls) && dst in st2.heap && Fine(st2, decls, dst)
    requires Stands(st2, r, v) && NodeFine(st2, decls, r)
      && Foot(st2.heap, dst, ValueOf(st2, dst)) !! MqlBinding.Made(st2, r, v)
    requires HasType(decls, ValueOf(st2, dst), typ) && HasType(decls, v, typ) && Within(v, fuel)
    requires depth >= Left(st2.budget)
    ensures Step(arith, ev, st, Assign(left, right), fuel).Some?
    ensures Step(arith, ev, st, Assign(left, right), fuel).value.1 == At(dst)
      <==> Affordable(CopyCost(decls, v, depth), st2.budget)
  {
    AssignIs(arith, ev, st, left, right, fuel, st1, st2, dst, r);
    UpdateSucceeds(st2, dst, r, v, typ, fuel, depth, decls);
  }

  lemma UpdateSucceeds(st: State, dst: Ref, n: Node, v: MqlValues.Value, typ: Type, fuel: nat, depth: nat,
                       decls: Decls)
    requires Tidy(st, decls) && dst in st.heap && Fine(st, decls, dst) && Stands(st, n, v) && NodeFine(st, decls, n)
    requires Foot(st.heap, dst, ValueOf(st, dst)) !! MqlBinding.Made(st, n, v)
    requires HasType(decls, ValueOf(st, dst), typ) && HasType(decls, v, typ) && Within(v, fuel)
    requires depth >= Left(st.budget)
    ensures PaidFor(st.budget, Update(st, Top(st), dst, n, fuel), CopyCost(decls, v, depth))
  {
    var u := ValueOf(st, dst);
    if n.At? {
      FineIsRegular(st, decls, dst, u);
      FineIsRegular(st, decls, n.r, v);
      ValuesAreTrees(st, dst, u);
      AssignmentDecided(st, Top(st), dst, u, n.r, v, typ, fuel, depth, decls);
    } else {
      BasicTaken(st, Top(st), dst, u, n, v, typ, fuel, decls);
    }
  }

  /** Two variables have no node in common. */
  lemma VariablesApart(st: State, r: Ref, q: Ref)
    requires Inv(st) && r in st.heap && q in st.heap && st.heap[r].root != st.heap[q].root
    ensures Foot(st.heap, r, ValueOf(st, r)) !! Foot(st.heap, q, ValueOf(st, q))
  {
    FootPlace(st, r, ValueOf(st, r));
    FootPlace(st, q, ValueOf(st, q));
  }

  // ---------------------------------------------------------------- declarations

  /** A new variable of the current table that stands for the default value of the type and is made of new nodes. */
  ghost predicate NewDefault(st: State, r: (State, Node), name: Name, typ: Type, size: int, d: MqlValues.Value,
                             decls: Decls) {
    && OnlyMore(st, r.0) && Received(st, r.0, name, d) && r.1 == At(r.0.tables[Top(r.0)].names[name].r)
    && HasType(decls, d, typ) && Initial(d) && (typ.kind == ArrayT ==> d.VArr? && |d.items| == size)
  }

  /**
    A declaration without initial value yields nothing when the name is in use, the type has no default value or the
    limit does not allow its nodes; otherwise there is a new variable, and nothing that was there changes.
   */
  lemma NewVarRule(arith: Arith, ev: Ev, st: State, typ: Type, name: Name, size: Expr, fuel: nat, depth: nat,
                   decls: Decls)
    returns (d: MqlValues.Value)
    requires Tidy(st, decls) && name !in decls && typ.kind != ArrayT && depth >= Left(st.budget)
    ensures var r := Step(arith, ev, st, NewVar(typ, name, size), fuel);
      && r.Some?
      && (r.value.1 == Empty <==>
            name in st.tables[Top(st)].names || !Affordable(CreateCost(decls, typ, 0, depth), st.budget))
      && (r.value.1 != Empty ==> NewDefault(st, r.value, name, typ, 0, d, decls))
  {
    d := DeclaredDefault(st, typ, 0, name, depth, decls);
  }

  /** The size of an array is evaluated first; it must be an integer, and is the number of items. */
  lemma NewArrayRule(arith: Arith, ev: Ev, st: State, typ: Type, name: Name, size: Expr, fuel: nat, st1: State,
                     n: Node, i: int32, depth: nat, decls: Decls)
    returns (d: MqlValues.Value)
    requires ev(st, size) == Some((st1, n)) && Stands(st1, n, VAtom(I(i))) && typ.kind == ArrayT
    requires Tidy(st1, decls) && name !in decls && depth >= Left(st1.budget)
    ensures var r := Step(arith, ev, st, NewVar(typ, name, size), fuel);
      && r.Some?
      && (r.value.1 == Empty <==>
            name in st1.tables[Top(st1)].names || !Affordable(CreateCost(decls, typ, i, depth), st1.budget))
      && (r.value.1 != Empty ==> NewDefault(st1, r.value, name, typ, i, d, decls))
  {
    d := DeclaredDefault(st1, typ, i, name, depth, decls);
  }

  lemma DeclaredDefault(st: State, typ: Type, size: int, name: Name, depth: nat, decls: Decls)
    returns (d: MqlValues.Value)
    requires Tidy(st, decls) && name !in decls && depth >= Left(st.budget)
    ensures var r := VariableCreate(st, typ, size, name);
      && (r.1 == Empty <==>
            name in st.tables[Top(st)].names || !Affordable(CreateCost(decls, typ, size, depth), st.budget))
      && (r.1 != Empty ==> NewDefault(st, r, name, typ, size, d, decls))
  {
    CreateDecided(st, Top(st), st.next, st.next, typ, size, depth, decls);
    d := VAtom(I(0));
    if name !in st.tables[Top(st)].names {
      d := VariableMade(st, typ, size, name, decls);
      VariableCreateIs(st, typ, size, name);
    }
  }

  /**
    A declaration with an initial value: the value is evaluated first; on success the new variable stands for it and
    shares no node with anything that was there.
   */
  lemma NewVarInitRule(arith: Arith, ev: Ev, st: State, typ: Type, name: Name, e: Expr, fuel: nat, st1: State, n: Node,
                       v: MqlValues.Value, decls: Decls)
    requires ev(st, e) == Some((st1, n)) && Tidy(st1, decls) && name !in decls
    requires Stands(st1, n, v) && NodeFine(st1, decls, n)
    ensures var r := Step(arith, ev, st, NewVarInit(typ, name, One(e)), fuel);
      && r.Some?
      && (r.value.1 != Empty ==>
            && OnlyMore(st1, r.value.0) && Received(st1, r.value.0, name, v)
            && r.value.1 == At(r.value.0.tables[Top(r.value.0)].names[name].r))
  {
    VariableIsNew(st1, typ, 0, name, decls);
    NewVarInitIs(arith, ev, st, typ, name, e, fuel, st1, n);
    InitReceives(st1, typ, name, n, v, fuel, decls);
  }

  lemma InitReceives(st: State, typ: Type, name: Name, n: Node, v: MqlValues.Value, fuel: nat, decls: Decls)
    requires Tidy(st, decls) && name !in decls && Stands(st, n, v) && NodeFine(st, decls, n)
    ensures var (st1, m) := VariableCreate(st, typ, 0, name);
      var u := UpdateHere(st1, m, n, fuel);
      m != Empty && u.1 ==>
        OnlyMore(st, u.0) && Received(st, u.0, name, v) && m == At(u.0.tables[Top(u.0)].names[name].r)
  {
    VariableIsNew(st, typ, 0, name, decls);
    ParamReceives(st, Formal(typ, name), n, v, fuel, decls);
    if VariableCreate(st, typ, 0, name).1 != Empty { InitIsParam(st, typ, name, n, fuel); }
  }

  lemma InitIsParam(st: State, typ: Type, name: Name, n: Node, fuel: nat)
    requires Inv(st) && name !in st.tables[Top(st)].names
    requires var (st1, m) := VariableCreate(st, typ, 0, name);
      && m.At? && HasTop(st1) && name in st1.tables[Top(st1)].names && st1.tables[Top(st1)].names[name] == Var(m.r)
    ensures var (st1, m) := VariableCreate(st, typ, 0, name);
      && AssignParam(st, Formal(typ, name), n, fuel) == UpdateHere(st1, m, n, fuel)
      && UpdateHere(st1, m, n, fuel).0.tables == st1.tables
  {
    AssignParamIs(st, Formal(typ, name), n, fuel);
  }

  /** Of a fitting initial value and a name not in use, the limit decides. */
  lemma NewVarInitSucceeds(arith: Arith, ev: Ev, st: State, typ: Type, name: Name, e: Expr, fuel: nat, st1: State,
                           n: Node, v: MqlValues.Value, depth: nat, decls: Decls)
    requires ev(st, e) == Some((st1, n)) && Tidy(st1, decls) && Stands(st1, n, v) && NodeFine(st1, decls, n)
    requires MqlBinding.Fits(decls, Formal(typ, name), v, fuel) && name !in st1.tables[Top(st1)].names
      && depth >= Left(st1.budget)
    ensures var r := Step(arith, ev, st, NewVarInit(typ, name, One(e)), fuel);
      r.Some? && (r.value.1 != Empty <==> Affordable(ParamCost(decls, typ, v, depth), st1.budget))
  {
    NewVarInitIs(arith, ev, st, typ, name, e, fuel, st1, n);
    ParamDecided(st1, Formal(typ, name), n, v, fuel, depth, decls);
    VariableIsNew(st1, typ, 0, name, decls);
    if VariableCreate(st1, typ, 0, name).1 != Empty { InitIsParam(st1, typ, name, n, fuel); }
  }

  lemma NewVarInitIs(arith: Arith, ev: Ev, st: State, typ: Type, name: Name, e: Expr, fuel: nat, st1: State, n: Node)
    requires ev(st, e) == Some((st1, n)) && n != Empty
    ensures var (st2, m) := VariableCreate(st1, typ, 0, name);
      Step(arith, ev, st, NewVarInit(typ, name, One(e)), fuel) ==
        if m == Empty then Some((st2, Empty))
        else
          var u := UpdateHere(st2, m, n, fuel);
          Some((u.0, if u.1 then m else Empty))
  {}

  // ---------------------------------------------------------------- statements

  /** The branch is chosen by the value of the condition; break, continue and return pass through, no value does. */
  lemma IfRule(arith: Arith, ev: Ev, st: State, cond: Expr, yes: Expr, no: Expr, fuel: nat, st1: State, c: Node,
               i: int32, st2: State, n: Node)
    requires ev(st, cond) == Some((st1, c)) && Stands(st1, c, VAtom(I(i)))
    requires ev(st1, if i == 0 then no else yes) == Some((st2, n))
    ensures Step(arith, ev, st, If(cond, yes, no), fuel) ==
      Some((st2, if n in {BreakTok, ContinueTok, ReturnTok} then n else Empty))
  {}

  /** A condition that is no integer selects neither branch. */
  lemma IfNeither(arith: Arith, ev: Ev, st: State, cond: Expr, yes: Expr, no: Expr, fuel: nat, st1: State, c: Node)
    requires ev(st, cond) == Some((st1, c)) && forall i: int32 :: !Stands(st1, c, VAtom(I(i)))
    ensures Step(arith, ev, st, If(cond, yes, no), fuel) == Some((st1, Empty))
  {
    if IntOf(st1, c).Some? { assert Stands(st1, c, VAtom(I(IntOf(st1, c).value))); }
  }

  /** Statements in sequence: the second one (as the parser nests them) runs unless the first breaks off. */
  lemma SeqRule(arith: Arith, ev: Ev, st: State, left: Expr, right: Expr, fuel: nat, st1: State, n: Node, st2: State,
                m: Node)
    requires ev(st, right) == Some((st1, n)) && ev(st1, left) == Some((st2, m))
    ensures Step(arith, ev, st, Seq(left, right), fuel) ==
      if n in {BreakTok, ContinueTok, ReturnTok} then Some((st1, n))
      else Some((st2, if m in {BreakTok, ContinueTok, ReturnTok} then m else Empty))
  {}

  /**
    A block runs its body with a new last table, which sees the current one. Afterwards the table is gone, and with it
    the nodes it allocated; every other value is what the body made it.
   */
  lemma BlockRule(arith: Arith, ev: Ev, st: State, body: Expr, fuel: nat, inner: State, st1: State, n: Node, r: Ref,
                  v: MqlValues.Value)
    requires HasTop(st) && inner.tables == st.tables + [Table(map[], Some(Top(st)))]
    requires inner.heap == st.heap && inner.next == st.next && inner.budget == st.budget
    requires ev(inner, body) == Some((st1, n)) && Inv(st1)
    ensures var res := Step(arith, ev, st, Block(body), fuel);
      && res.Some?
      && res.value.0.tables == st1.tables[..|st1.tables| - 1]
      && res.value.1 == (if n in {BreakTok, ContinueTok, ReturnTok} then n else Empty)
      && (Denotes(st1.heap, r, v) && st1.heap[r].table != Top(st1) ==> Denotes(res.value.0.heap, r, v))
      && (r in st1.heap && st1.heap[r].table == Top(st1) ==> r !in res.value.0.heap)
  {
    assert inner == PushTable(st, Top(st));
    if Denotes(st1.heap, r, v) && st1.heap[r].table != Top(st1) { ValueStays(st1, r, v); }
  }

  /** A condition holds when it is an integer other than zero. */
  ghost predicate Holds(st: State, n: Node) {
    exists i: int32 :: i != 0 && Stands(st, n, VAtom(I(i)))
  }

  lemma HoldsIs(st: State, n: Node)
    ensures Holds(st, n) <==> IntOf(st, n).Some? && IntOf(st, n).value != 0
  {
    if IntOf(st, n).Some? && IntOf(st, n).value != 0 { assert Stands(st, n, VAtom(I(IntOf(st, n).value))); }
  }

  /** The condition holds at s, the body runs to its end or to a continue, and so does the step of a for loop. */
  ghost predicate Turn(ev: Ev, cond: Expr, body: Expr, step: Option<Expr>, s: State, t: State) {
    exists s1, c, s2, n ::
      && ev(s, cond) == Some((s1, c)) && Holds(s1, c)
      && ev(s1, body) == Some((s2, n)) && n != BreakTok && n != ReturnTok
      && match step
         case None => t == s2
         case Some(e) => ev(s2, e).Some? && t == ev(s2, e).value.0
  }

  /** At s the loop ends in t: the condition does not hold, or the body breaks off or returns. */
  ghost predicate Ends(ev: Ev, cond: Expr, body: Expr, s: State, t: State, n: Node) {
    exists s1, c :: ev(s, cond) == Some((s1, c)) &&
      if Holds(s1, c) then
        (ev(s1, body) == Some((t, BreakTok)) && n == Empty) || (ev(s1, body) == Some((t, ReturnTok)) && n == ReturnTok)
      else t == s1 && n == Empty
  }

  /** The states at the beginning of each turn. */
  ghost predicate IsLoop(ev: Ev, cond: Expr, body: Expr, step: Option<Expr>, states: seq<State>, t: State, n: Node) {
    && states != [] && Ends(ev, cond, body, states[|states| - 1], t, n)
    && forall i :: 0 <= i < |states| - 1 ==> Turn(ev, cond, body, step, states[i], states[i + 1])
  }

  lemma TurnIs(ev: Ev, cond: Expr, body: Expr, step: Option<Expr>, s: State, t: State, fuel: nat)
    requires Turn(ev, cond, body, step, s, t) && fuel > 0
    ensures EvalLoop(ev, s, cond, body, step, fuel) == EvalLoop(ev, t, cond, body, step, fuel - 1)
  {
    var (s1, c) := ev(s, cond).value;
    HoldsIs(s1, c);
  }

  lemma EndIs(ev: Ev, cond: Expr, body: Expr, step: Option<Expr>, s: State, t: State, n: Node, fuel: nat)
    requires Ends(ev, cond, body, s, t, n) && fuel > 0
    ensures EvalLoop(ev, s, cond, body, step, fuel) == Some((t, n))
  {
    var (s1, c) := ev(s, cond).value;
    HoldsIs(s1, c);
  }

  /** A loop that comes to an end does so here or takes a turn. */
  lemma TurnOrEnd(ev: Ev, cond: Expr, body: Expr, step: Option<Expr>, s: State, fuel: nat)
    returns (next: Option<State>)
    requires EvalLoop(ev, s, cond, body, step, fuel).Some?
    ensures var r := EvalLoop(ev, s, cond, body, step, fuel);
      && (next.None? ==> Ends(ev, cond, body, s, r.value.0, r.value.1))
      && (next.Some? ==> Turn(ev, cond, body, step, s, next.value))
      && (next.Some? ==> fuel > 0 && EvalLoop(ev, next.value, cond, body, step, fuel - 1) == r)
  {
    var (s1, c) := ev(s, cond).value;
    HoldsIs(s1, c);
    next := None;
    if Holds(s1, c) {
      var (s2, m) := ev(s1, body).value;
      if m != ReturnTok && m != BreakTok {
        next := Stepped(ev, s2, step);
        assert Turn(ev, cond, body, step, s, next.value);
        TurnIs(ev, cond, body, step, s, next.value, fuel);
      }
    }
  }

  lemma {:induction false} LoopTakesTurns(ev: Ev, st: State, cond: Expr, body: Expr, step: Option<Expr>, fuel: nat)
    returns (states: seq<State>)
    requires EvalLoop(ev, st, cond, body, step, fuel).Some?
    ensures var (t, n) := EvalLoop(ev, st, cond, body, step, fuel).value;
      IsLoop(ev, cond, body, step, states, t, n) && states[0] == st && |states| <= fuel + 1
    decreases fuel
  {
    var next := TurnOrEnd(ev, cond, body, step, st, fuel);
    states := [st];
    if next.Some? {
      var rest := LoopTakesTurns(ev, next.value, cond, body, step, fuel - 1);
      states := [st] + rest;
      assert states[|states| - 1] == rest[|rest| - 1];
    }
  }

  lemma {:induction false} TurnsAreLoop(ev: Ev, cond: Expr, body: Expr, step: Option<Expr>, states: seq<State>,
                                        t: State, n: Node, fuel: nat)
    requires IsLoop(ev, cond, body, step, states, t, n) && |states| <= fuel
    ensures EvalLoop(ev, states[0], cond, body, step, fuel) == Some((t, n))
    decreases fuel
  {
    if |states| > 1 {
      assert Turn(ev, cond, body, step, states[0], states[0 + 1]);
      TurnIs(ev, cond, body, step, states[0], states[1], fuel);
      assert states[1..][|states| - 2] == states[|states| - 1];
      TurnsAreLoop(ev, cond, body, step, states[1..], t, n, fuel - 1);
    } else {
      EndIs(ev, cond, body, step, states[0], t, n, fuel);
    }
  }

  /**
    while and for loops are what they unfold to: any number of turns, each begun with a condition that holds, and an
    end. Conversely a loop that ends within the bound on turns does so here.
   */
  lemma LoopRule(arith: Arith, ev: Ev, st: State, cond: Expr, body: Expr, fuel: nat, t: State, n: Node)
    ensures Step(arith, ev, st, While(cond, body), fuel) == Some((t, n)) ==>
      exists states :: IsLoop(ev, cond, body, None, states, t, n) && states[0] == st
    ensures forall states :: IsLoop(ev, cond, body, None, states, t, n) && states[0] == st && |states| <= fuel ==>
      Step(arith, ev, st, While(cond, body), fuel) == Some((t, n))
  {
    if Step(arith, ev, st, While(cond, body), fuel) == Some((t, n)) {
      var states := LoopTakesTurns(ev, st, cond, body, None, fuel);
    }
    forall states | IsLoop(ev, cond, body, None, states, t, n) && states[0] == st && |states| <= fuel
      ensures Step(arith, ev, st, While(cond, body), fuel) == Some((t, n))
    {
      TurnsAreLoop(ev, cond, body, None, states, t, n, fuel);
    }
  }

  /** A for loop runs its start once, and its step once at the end of every turn. */
  lemma ForRule(arith: Arith, ev: Ev, st: State, start: Expr, cond: Expr, step: Expr, body: Expr, fuel: nat, st1: State,
                m: Node, t: State, n: Node)
    requires ev(st, start) == Some((st1, m))
    ensures Step(arith, ev, st, For(start, cond, step, body), fuel) == Some((t, n)) ==>
      exists states :: IsLoop(ev, cond, body, Some(step), states, t, n) && states[0] == st1
    ensures forall states ::
      IsLoop(ev, cond, body, Some(step), states, t, n) && states[0] == st1 && |states| <= fuel ==>
        Step(arith, ev, st, For(start, cond, step, body), fuel) == Some((t, n))
  {
    if Step(arith, ev, st, For(start, cond, step, body), fuel) == Some((t, n)) {
      var states := LoopTakesTurns(ev, st1, cond, body, Some(step), fuel);
    }
    forall states | IsLoop(ev, cond, body, Some(step), states, t, n) && states[0] == st1 && |states| <= fuel
      ensures Step(arith, ev, st, For(start, cond, step, body), fuel) == Some((t, n))
    {
      TurnsAreLoop(ev, cond, body, Some(step), states, t, n, fuel);
    }
  }

  // ---------------------------------------------------------------- calls

  /** A function is declared under a name not in use in the current table, or not at all. */
  lemma DeclareRule(arith: Arith, ev: Ev, st: State, name: Name, f: Function, fuel: nat)
    requires Sound(st)
    ensures var r := Step(arith, ev, st, Declare(name, f), fuel);
      && r.Some? && r.value.1 == Empty && OnlyMore(st, r.value.0) && r.value.0.heap == st.heap
      && Nearest(r.value.0.tables, Top(r.value.0), name, Top(r.value.0))
      && (name !in st.tables[Top(st)].names ==> r.value.0.tables[Top(r.value.0)].names[name] == Func(f))
  {
    ChainBelow(Declared(st, name, Func(f)).tables, Top(st));
  }

  /** A name that stands for a function calls it; any other name yields nothing. */
  lemma CallRule(arith: Arith, ev: Ev, st: State, name: Name, args: seq<Expr>, fuel: nat, j: nat)
    requires Sound(st) && Nearest(st.tables, Top(st), name, j)
    ensures Step(arith, ev, st, Call(name, args), fuel) ==
      match st.tables[j].names[name]
      case Func(f) => ev(st, Invoke(f, args))
      case _ => Some((st, Empty))
  {
    LookupFindsNearest(st.tables, Top(st), name);
  }

  /** The expressions are evaluated one after the other, each in the state the one before left. */
  ghost predicate InTurn(ev: Ev, es: seq<Expr>, states: seq<State>, ns: seq<Node>) {
    && |states| == |es| + 1 && |ns| == |es|
    && forall i :: 0 <= i < |es| ==> ev(states[i], es[i]) == Some((states[i + 1], ns[i]))
  }

  lemma {:induction false} ListRule(ev: Ev, st: State, es: seq<Expr>, states: seq<State>, ns: seq<Node>)
    requires InTurn(ev, es, states, ns) && states[0] == st
    ensures EvalList(ev, st, es) == Some((states[|es|], ns))
    decreases |es|
  {
    if es != [] {
      var n := |es| - 1;
      assert InTurn(ev, es[..n], states[..n + 1], ns[..n]);
      ListRule(ev, st, es[..n], states[..n + 1], ns[..n]);
      assert ns == ns[..n] + [ns[n]];
    }
  }

  /**
    The return value takes a copy of what the expression yields and the statement ends the function, even when the
    assignment fails; it does not fail for a value of the function's type as long as the limit allows the copy.
   */
  lemma ReturnRule(arith: Arith, ev: Ev, st: State, e: Expr, fuel: nat, st1: State, n: Node, v: MqlValues.Value, j: nat,
                   ret: Ref, typ: Type, depth: nat, decls: Decls)
    requires ev(st, e) == Some((st1, n)) && Tidy(st1, decls) && Stands(st1, n, v) && NodeFine(st1, decls, n)
    requires Nearest(st1.tables, Top(st1), RETURN_STRING, j) && st1.tables[j].names[RETURN_STRING] == Var(ret)
    requires ret in st1.heap && Foot(st1.heap, ret, ValueOf(st1, ret)) !! MqlBinding.Made(st1, n, v)
    requires HasType(decls, ValueOf(st1, ret), typ) && HasType(decls, v, typ) && Within(v, fuel)
    requires depth >= Left(st1.budget)
    ensures var r := Step(arith, ev, st, Return(e), fuel);
      && r.Some? && r.value.1 == ReturnTok && OnlyTarget(st1, r.value.0, ret)
      && (Affordable(CopyCost(decls, v, depth), st1.budget) ==> Denotes(r.value.0.heap, ret, v))
  {
    LookupFindsNearest(st1.tables, Top(st1), RETURN_STRING);
    assert EntryFine(st1, decls, RETURN_STRING, st1.tables[j].names[RETURN_STRING]);
    AssignStands(st1, ret, n, v, fuel, decls);
    UpdateSucceeds(st1, ret, n, v, typ, fuel, depth, decls);
    ReturnIs(arith, ev, st, e, fuel, st1, n, ret);
  }

  lemma ReturnIs(arith: Arith, ev: Ev, st: State, e: Expr, fuel: nat, st1: State, n: Node, ret: Ref)
    requires ev(st, e) == Some((st1, n)) && HasTop(st1) && n != Empty
    requires Lookup(st1.tables, Top(st1), RETURN_STRING) == Some(Var(ret))
    ensures Step(arith, ev, st, Return(e), fuel) == Some((Update(st1, Top(st1), ret, n, fuel).0, ReturnTok))
  {}

  /** Where the body begins, the function's return value is a default of its type, in the function's own table. */
  lemma ReturnValueReady(ev: Ev, st: State, f: Function, actual: seq<Node>, vs: seq<MqlValues.Value>, fuel: nat,
                         decls: Decls)
    returns (d: MqlValues.Value)
    requires Tidy(st, decls) && PlainFunction(decls, f) && AllStand(st, actual, vs, decls)
    requires |f.formals| == |actual| && forall i :: 0 <= i < |f.formals| ==> f.formals[i].name != RETURN_STRING
    ensures var (st1, ret) := WithReturn(PushTable(st, 0), f);
      var (st2, bound) := Entered(st1, f, actual, fuel);
      bound && ret.At? ==>
        Received(st, st2, RETURN_STRING, d) && ret == At(st2.tables[Top(st2)].names[RETURN_STRING].r)
          && HasType(decls, d, f.typ) && Initial(d)
  {
    var st0 := PushTable(st, 0);
    PushTidy(st, 0, decls);
    ReturnIsNew(st0, f, decls);
    var (st1, ret) := WithReturn(st0, f);
    AllStandStill(st, st0, actual, vs, decls);
    AllStandStill(st0, st1, actual, vs, decls);
    d := VAtom(I(0));
    if ret.At? {
      d := VariableMade(st0, f.typ, 0, RETURN_STRING, decls);
      ParamsReceive(st1, f.formals, actual, vs, fuel, decls);
      if Entered(st1, f, actual, fuel).1 && f.formals != [] {
        ReceivedStays(st0, st1, Entered(st1, f, actual, fuel).0, RETURN_STRING, d);
      }
    }
  }
}
