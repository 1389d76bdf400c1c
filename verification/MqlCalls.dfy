/** Every program keeps the scope discipline, at every depth of recursion; and calls are by value. */
module MqlCalls {
  import opened Base
  import opened MqlState
  import opened MqlUpdate
  import opened MqlEval
  import opened MqlScope

  function Scope(st: State): set<nat>
    requires HasTop(st)
  {
    Chain(st.tables, Top(st))
  }

  lemma Use(ev: Ev, st: State, e: Expr)
    requires Contract(ev) && Sound(st) && ev(st, e).Some?
    ensures Good(st, ev(st, e).value)
  {}

  ghost predicate GoodOutcome(st: State, r: Outcome)
    requires HasTop(st)
  {
    r.Some? ==> Good(st, r.value)
  }

  // ---------------------------------------------------------------- expressions

  lemma PartInScope(st: State, r: Ref, c: Ref, scope: set<nat>)
    requires Sound(st) && r in st.heap && st.heap[r].table in scope && c in Children(st.heap[r].cell)
    ensures InScope(st, At(c), scope)
  {
    assert ObjOk(st.heap, r, st.heap[r]);
  }

  lemma ElemOk(ev: Ev, st: State, base: Expr, index: Expr)
    requires Contract(ev) && Sound(st)
    ensures GoodOutcome(st, EvalElem(ev, st, base, index))
  {
    if ev(st, index).Some? {
      Use(ev, st, index);
      var (st1, access) := ev(st, index).value;
      if ev(st1, base).Some? {
        Use(ev, st1, base);
        var (st2, arr) := ev(st1, base).value;
        GoodThen(st, st1, (st2, arr));
        var n := ElemOf(st2, arr, IntOf(st2, access));
        if n.At? { PartInScope(st2, arr.r, n.r, Scope(st)); }
      }
    }
  }

  lemma FieldOk(ev: Ev, st: State, base: Expr, field: Name)
    requires Contract(ev) && Sound(st)
    ensures GoodOutcome(st, EvalField(ev, st, base, field))
  {
    if ev(st, base).Some? {
      Use(ev, st, base);
      var (st1, rec) := ev(st, base).value;
      var n := FieldOf(st1, rec, field);
      if n.At? { PartInScope(st1, rec.r, n.r, Scope(st)); }
    }
  }

  /** Two evaluations in a row, and what both found is still there. */
  lemma BothOk(ev: Ev, st: State, first: Expr, second: Expr)
    requires Contract(ev) && Sound(st) && ev(st, first).Some?
    ensures Good(st, ev(st, first).value)
    ensures var st1 := ev(st, first).value.0;
      ev(st1, second).Some? ==>
        (Good(st, ev(st1, second).value) && InScope(ev(st1, second).value.0, ev(st, first).value.1, Scope(st)))
  {
    Use(ev, st, first);
    var (st1, n) := ev(st, first).value;
    if ev(st1, second).Some? {
      Use(ev, st1, second);
      GoodThen(st, st1, ev(st1, second).value);
      ScopeStays(st, st1, ev(st1, second).value.0, n);
    }
  }

  lemma BinOk(arith: Arith, ev: Ev, st: State, op: nat, left: Expr, right: Expr)
    requires Contract(ev) && Sound(st)
    ensures GoodOutcome(st, EvalBin(arith, ev, st, op, left, right))
  {
    if ev(st, right).Some? { BothOk(ev, st, right, left); }
  }

  lemma AssignOk(ev: Ev, st: State, left: Expr, right: Expr, fuel: nat)
    requires Contract(ev) && Sound(st)
    ensures GoodOutcome(st, EvalAssign(ev, st, left, right, fuel))
  {
    if ev(st, right).Some? {
      BothOk(ev, st, right, left);
      var (st1, r) := ev(st, right).value;
      if ev(st1, left).Some? {
        var (st2, l) := ev(st1, left).value;
        AssignedOk(st, st2, l, r, fuel);
      }
    }
  }

  lemma AssignedOk(st: State, st2: State, l: Node, r: Node, fuel: nat)
    requires Sound(st) && Good(st, (st2, l)) && InScope(st2, r, Scope(st))
    ensures Good(st, (UpdateHere(st2, l, r, fuel).0, l))
  {
    SameChain(st.tables, st2.tables, Top(st));
    InScopeLive(st2, r, Scope(st));
    UpdateHereOk(st2, l, r, fuel);
    var st3 := UpdateHere(st2, l, r, fuel).0;
    KeptThen(st, st2, st3);
    InScopeStays(st2, st3, l, Scope(st));
  }

  lemma NewVarOk(ev: Ev, st: State, typ: Type, name: Name, size: Expr)
    requires Contract(ev) && Sound(st)
    ensures GoodOutcome(st, EvalNewVar(ev, st, typ, name, size))
  {
    if typ.kind != ArrayT {
      VariableCreateOk(st, typ, 0, name);
    } else if ev(st, size).Some? {
      Use(ev, st, size);
      var (st1, n) := ev(st, size).value;
      var i := IntOf(st1, n);
      if i.Some? {
        VariableCreateOk(st1, typ, i.value, name);
        GoodThen(st, st1, VariableCreate(st1, typ, i.value, name));
      }
    }
  }

  ghost predicate GoodList(st: State, r: Option<(State, seq<Node>)>)
    requires HasTop(st)
  {
    r.Some? ==> Kept(st, r.value.0) && AllInScope(r.value.0, r.value.1, Scope(st))
  }

  lemma {:induction false} ListOk(ev: Ev, st: State, es: seq<Expr>)
    requires Contract(ev) && Sound(st)
    ensures GoodList(st, EvalList(ev, st, es))
  {
    if es == [] {
      KeptSame(st);
    } else {
      ListOk(ev, st, es[..|es| - 1]);
      var front := EvalList(ev, st, es[..|es| - 1]);
      if front.Some? {
        var (st1, ns) := front.value;
        if ev(st1, es[|es| - 1]).Some? {
          Use(ev, st1, es[|es| - 1]);
          var (st2, n) := ev(st1, es[|es| - 1]).value;
          OneMoreInList(st, st1, ns, st2, n);
        }
      }
    }
  }

  lemma OneMoreInList(st: State, st1: State, ns: seq<Node>, st2: State, n: Node)
    requires Sound(st) && Kept(st, st1) && AllInScope(st1, ns, Scope(st)) && Good(st1, (st2, n))
    ensures Kept(st, st2) && AllInScope(st2, ns + [n], Scope(st))
  {
    GoodThen(st, st1, (st2, n));
    forall i | 0 <= i < |ns| ensures InScope(st2, ns[i], Scope(st)) { InScopeStays(st1, st2, ns[i], Scope(st)); }
  }

  lemma InitOk(ev: Ev, st: State, init: Init)
    requires Contract(ev) && Sound(st)
    ensures GoodOutcome(st, EvalInit(ev, st, init))
  {
    match init
    case One(e) => if ev(st, e).Some? { Use(ev, st, e); }
    case List(es) => ListOk(ev, st, es);
  }

  lemma NewVarInitOk(ev: Ev, st: State, typ: Type, name: Name, init: Init, fuel: nat)
    requires Contract(ev) && Sound(st)
    ensures GoodOutcome(st, EvalNewVarInit(ev, st, typ, name, init, fuel))
  {
    InitOk(ev, st, init);
    if EvalInit(ev, st, init).Some? {
      var (st1, v) := EvalInit(ev, st, init).value;
      VariableCreateOk(st1, typ, 0, name);
      var (st2, n) := VariableCreate(st1, typ, 0, name);
      GoodThen(st, st1, (st2, n));
      InScopeStays(st1, st2, v, Scope(st));
      AssignedOk(st, st2, n, v, fuel);
    }
  }

  // ---------------------------------------------------------------- statements

  lemma SeqOk(ev: Ev, st: State, left: Expr, right: Expr)
    requires Contract(ev) && Sound(st)
    ensures GoodOutcome(st, EvalSeq(ev, st, left, right))
  {
    if ev(st, right).Some? { BothOk(ev, st, right, left); }
  }

  lemma IfOk(ev: Ev, st: State, cond: Expr, yes: Expr, no: Expr)
    requires Contract(ev) && Sound(st)
    ensures GoodOutcome(st, EvalIf(ev, st, cond, yes, no))
  {
    if ev(st, cond).Some? {
      var i := IntOf(ev(st, cond).value.0, ev(st, cond).value.1);
      BothOk(ev, st, cond, if i.Some? && i.value != 0 then yes else no);
    }
  }

  lemma SteppedOk(ev: Ev, st: State, step: Option<Expr>)
    requires Contract(ev) && Sound(st)
    ensures Stepped(ev, st, step).Some? ==> Kept(st, Stepped(ev, st, step).value)
  {
    KeptSame(st);
    if step.Some? && ev(st, step.value).Some? { Use(ev, st, step.value); }
  }

  lemma {:induction false} LoopOk(ev: Ev, st: State, cond: Expr, body: Expr, step: Option<Expr>, fuel: nat)
    requires Contract(ev) && Sound(st)
    ensures GoodOutcome(st, EvalLoop(ev, st, cond, body, step, fuel))
    decreases fuel, 1
  {
    if ev(st, cond).Some? {
      BothOk(ev, st, cond, body);
      var (st1, c) := ev(st, cond).value;
      if fuel > 0 && ev(st1, body).Some? {
        var (st2, n) := ev(st1, body).value;
        AfterTurnOk(ev, st2, n, cond, body, step, fuel);
        var r := AfterTurn(ev, st2, n, cond, body, step, fuel);
        if r.Some? { GoodThen(st, st2, r.value); }
      }
    }
  }

  lemma {:induction false} AfterTurnOk(ev: Ev, st: State, n: Node, cond: Expr, body: Expr, step: Option<Expr>,
                                       fuel: nat)
    requires Contract(ev) && Sound(st) && fuel > 0
    ensures GoodOutcome(st, AfterTurn(ev, st, n, cond, body, step, fuel))
    decreases fuel, 0
  {
    KeptSame(st);
    SteppedOk(ev, st, step);
    var next := Stepped(ev, st, step);
    if n != ReturnTok && n != BreakTok && next.Some? {
      LoopOk(ev, next.value, cond, body, step, fuel - 1);
      OutcomeThen(st, next.value, EvalLoop(ev, next.value, cond, body, step, fuel - 1));
    }
  }

  lemma OutcomeThen(st: State, st1: State, r: Outcome)
    requires Sound(st) && Kept(st, st1) && GoodOutcome(st1, r)
    ensures GoodOutcome(st, r)
  {
    if r.Some? { GoodThen(st, st1, r.value); }
  }

  lemma ForOk(ev: Ev, st: State, start: Expr, cond: Expr, step: Expr, body: Expr, fuel: nat)
    requires Contract(ev) && Sound(st)
    ensures GoodOutcome(st, EvalFor(ev, st, start, cond, step, body, fuel))
  {
    if ev(st, start).Some? {
      Use(ev, st, start);
      var st1 := ev(st, start).value.0;
      LoopOk(ev, st1, cond, body, Some(step), fuel);
      if EvalLoop(ev, st1, cond, body, Some(step), fuel).Some? {
        GoodThen(st, st1, EvalLoop(ev, st1, cond, body, Some(step), fuel).value);
      }
    }
  }

  lemma ReturnOk(ev: Ev, st: State, e: Expr, fuel: nat)
    requires Contract(ev) && Sound(st)
    ensures GoodOutcome(st, EvalReturn(ev, st, e, fuel))
  {
    if ev(st, e).Some? {
      Use(ev, st, e);
      var (st1, n) := ev(st, e).value;
      InScopeLive(st1, n, Scope(st));
      VariableAssignOk(st1, RETURN_STRING, n, fuel);
      KeptThen(st, st1, VariableAssign(st1, RETURN_STRING, n, fuel).0);
    }
  }

  // ---------------------------------------------------------------- arrays

  lemma TouchOk(st: State, st2: State, st3: State, r: Ref)
    requires Sound(st) && Kept(st, st2) && r in st2.heap && st2.heap[r].table in Scope(st)
    requires Touched(st2, st3, st2.heap[r].table, st2.heap[r].root, r)
    ensures Kept(st, st3)
  {
    SameChain(st.tables, st2.tables, Top(st));
    assert RootOk(st2.heap, st2.heap[r]);
    TouchedKept(st2, st3, st2.heap[r].table, st2.heap[r].root, r);
    KeptThen(st, st2, st3);
  }

  lemma PushedOk(st: State, st2: State, r: Ref, n: Node, fuel: nat)
    requires Sound(st) && Kept(st, st2) && r in st2.heap && st2.heap[r].table in Scope(st) && Live(st2, n) && fuel > 0
    ensures Kept(st, UpdateItem(st2, Top(st2), r, n, fuel).0)
  {
    UpdateItemOk(st2, Top(st2), r, n, fuel, st2.heap[r].table, st2.heap[r].root);
    TouchOk(st, st2, UpdateItem(st2, Top(st2), r, n, fuel).0, r);
  }

  lemma PushBackOk(ev: Ev, st: State, arr: Expr, item: Expr, fuel: nat)
    requires Contract(ev) && Sound(st)
    ensures GoodOutcome(st, EvalPushBack(ev, st, arr, item, fuel))
  {
    if ev(st, arr).Some? {
      BothOk(ev, st, arr, item);
      var (st1, a) := ev(st, arr).value;
      if ev(st1, item).Some? {
        var (st2, n) := ev(st1, item).value;
        if fuel > 0 && a.At? {
          InScopeLive(st2, n, Scope(st));
          PushedOk(st, st2, a.r, n, fuel);
        }
      }
    }
  }

  lemma PopBackOk(ev: Ev, st: State, arr: Expr)
    requires Contract(ev) && Sound(st)
    ensures GoodOutcome(st, EvalPopBack(ev, st, arr))
  {
    if ev(st, arr).Some? {
      Use(ev, st, arr);
      var (st1, a) := ev(st, arr).value;
      if a.At? && st1.heap[a.r].cell.Arr? && st1.heap[a.r].cell.items != [] {
        var items := st1.heap[a.r].cell.items;
        assert ObjOk(st1.heap, a.r, st1.heap[a.r]);
        SetCellOk(st1, a.r, st1.heap[a.r].cell.(items := items[..|items| - 1]));
        TouchOk(st, st1, Shortened(st1, a.r), a.r);
      }
    }
  }

  lemma ArraysOk(ev: Ev, st: State, first: Expr, second: Expr, common: bool, fuel: nat)
    requires Contract(ev) && Sound(st)
    ensures GoodOutcome(st, EvalArrays(ev, st, first, second, common, fuel))
  {
    if ev(st, first).Some? {
      BothOk(ev, st, first, second);
      var (st1, a) := ev(st, first).value;
      if ev(st1, second).Some? {
        var (st2, b) := ev(st1, second).value;
        CombinedOk(st2, a, b, common, fuel);
        GoodThen(st, st2, Combined(st2, a, b, common, fuel));
      }
    }
  }

  // ---------------------------------------------------------------- tables come and go

  lemma {:induction false} ChainOfLonger(tables: seq<Table>, last: Table, i: nat)
    requires i < |tables|
    ensures Chain(tables + [last], i) == Chain(tables, i)
    decreases i
  {
    if tables[i].prev.Some? && tables[i].prev.value < i { ChainOfLonger(tables, last, tables[i].prev.value); }
  }

  lemma PushTableOk(st: State, prev: nat)
    requires Sound(st) && prev <= Top(st)
    ensures Sound(PushTable(st, prev)) && Top(PushTable(st, prev)) == |st.tables|
    ensures Scope(PushTable(st, prev)) == {|st.tables|} + Chain(st.tables, prev)
  {
    ChainOfLonger(st.tables, Table(map[], Some(prev)), prev);
  }

  /** Back at st's table: the same scope stack, and nothing outside the given tables has changed. */
  ghost predicate Returned(st: State, st': State, scope: set<nat>) {
    Sound(st') && st'.tables == st.tables && HeapKept(st, st', scope)
  }

  lemma PoppedHeap(st: State)
    requires Sound(st) && |st.tables| > 1
    ensures HeapOk(PopTable(st)) && Roots(PopTable(st))
  {
    var st' := PopTable(st);
    forall r | r in st'.heap
      ensures r < st'.next && st'.heap[r].table < |st'.tables| && ObjOk(st'.heap, r, st'.heap[r])
        && RootOk(st'.heap, st'.heap[r])
    {
      assert ObjOk(st.heap, r, st.heap[r]) && RootOk(st.heap, st.heap[r]);
    }
  }

  lemma PoppedNames(st: State)
    requires Sound(st) && |st.tables| > 1
    ensures NamesOk(PopTable(st)) && StackOk(PopTable(st).tables)
  {
    var st' := PopTable(st);
    forall i, x | 0 <= i < |st'.tables| && x in st'.tables[i].names && st'.tables[i].names[x].Var?
      ensures var r := st'.tables[i].names[x].r; r in st'.heap && st'.heap[r].table == i && st'.heap[r].root == r
    {
      assert st.tables[i] == st'.tables[i];
    }
  }

  lemma PoppedKept(st: State, prev: nat, st2: State, scope: set<nat>)
    requires Sound(st) && |st2.tables| == |st.tables| + 1 && HeapKept(PushTable(st, prev), st2, scope)
    ensures HeapKept(st, PopTable(st2), scope - {|st.tables|})
  {}

  /** Removing the table a scope ran in removes its nodes and nothing that is still referred to. */
  lemma PopTableOk(st: State, prev: nat, st2: State, scope: set<nat>)
    requires Sound(st) && prev <= Top(st) && Sound(st2)
    requires NamesKept(PushTable(st, prev), st2) && HeapKept(PushTable(st, prev), st2, scope)
    ensures Returned(st, PopTable(st2), scope - {|st.tables|})
  {
    PoppedTables(st, prev, st2);
    PoppedHeap(st2);
    PoppedNames(st2);
    PoppedKept(st, prev, st2, scope);
  }

  lemma PoppedTables(st: State, prev: nat, st2: State)
    requires HasTop(st) && HasTop(st2) && NamesKept(PushTable(st, prev), st2)
    ensures PopTable(st2).tables == st.tables
  {
    var a, b := st.tables, PopTable(st2).tables;
    forall i | 0 <= i < |a| ensures a[i] == b[i] {
      assert PushTable(st, prev).tables[i] == a[i];
    }
  }

  lemma ReturnedKept(st: State, st': State)
    requires Sound(st) && Returned(st, st', Scope(st))
    ensures Kept(st, st')
  {}

  lemma BlockLeft(st: State, st2: State)
    requires Sound(st) && Kept(PushTable(st, Top(st)), st2)
    ensures HasTop(st2) && Kept(st, PopTable(st2))
  {
    PushTableOk(st, Top(st));
    ChainBelow(st.tables, Top(st));
    var st1 := PushTable(st, Top(st));
    PopTableOk(st, Top(st), st2, Scope(st1));
    assert Scope(st1) - {|st.tables|} == Scope(st);
    ReturnedKept(st, PopTable(st2));
  }

  lemma BlockOk(ev: Ev, st: State, body: Expr)
    requires Contract(ev) && Sound(st)
    ensures GoodOutcome(st, EvalBlock(ev, st, body))
  {
    PushTableOk(st, Top(st));
    var st1 := PushTable(st, Top(st));
    if ev(st1, body).Some? {
      Use(ev, st1, body);
      var (st2, n) := ev(st1, body).value;
      BlockLeft(st, st2);
      PassedOk(st, PopTable(st2), n);
    }
  }

  lemma PassedOk(st: State, st': State, n: Node)
    requires Sound(st) && Kept(st, st')
    ensures GoodOutcome(st, Passed(st', n))
  {}

  // ---------------------------------------------------------------- calls

  lemma {:induction false} ParamsOk(st: State, formals: seq<Formal>, actual: seq<Node>, fuel: nat)
    requires Sound(st) && |formals| == |actual| && AllLive(st, actual)
    ensures Kept(st, AssignParams(st, formals, actual, fuel).0)
    decreases |formals|
  {
    KeptSame(st);
    if formals != [] {
      var n := |formals| - 1;
      ParamsOk(st, formals[..n], actual[..n], fuel);
      var (st1, ok) := AssignParams(st, formals[..n], actual[..n], fuel);
      if ok {
        LiveStays(st, st1, actual[n]);
        ParamOk(st1, formals[n], actual[n], fuel);
        KeptThen(st, st1, AssignParam(st1, formals[n], actual[n], fuel).0);
      }
    }
  }

  lemma ParamOk(st: State, formal: Formal, actual: Node, fuel: nat)
    requires Sound(st) && Live(st, actual)
    ensures Kept(st, AssignParam(st, formal, actual, fuel).0)
  {
    VariableCreateOk(st, formal.typ, 0, formal.name);
    var (st1, n) := VariableCreate(st, formal.typ, 0, formal.name);
    if n != Empty {
      LiveStays(st, st1, actual);
      VariableAssignOk(st1, formal.name, actual, fuel);
      KeptThen(st, st1, VariableAssign(st1, formal.name, actual, fuel).0);
    }
  }

  lemma BodyOk(ev: Ev, st: State, f: Function, actual: seq<Node>, fuel: nat)
    requires Contract(ev) && Sound(st) && AllLive(st, actual)
    ensures RunBody(ev, st, f, actual, fuel).Some? ==>
      var (st', n, ret) := RunBody(ev, st, f, actual, fuel).value; Kept(st, st') && Live(st', ret)
  {
    KeptSame(st);
    VariableCreateOk(st, f.typ, 0, RETURN_STRING);
    var (st1, ret) := if f.typ.kind == VoidT then (st, Other) else VariableCreate(st, f.typ, 0, RETURN_STRING);
    InScopeLive(st1, ret, Scope(st));
    AllLiveStay(st, st1, actual);
    BodyAfterReturn(ev, st, st1, ret, f, actual, fuel);
  }

  lemma BodyAfterReturn(ev: Ev, st: State, st1: State, ret: Node, f: Function, actual: seq<Node>, fuel: nat)
    requires Contract(ev) && Sound(st) && Kept(st, st1) && Live(st1, ret) && AllLive(st1, actual)
    requires (st1, ret) == if f.typ.kind == VoidT then (st, Other) else VariableCreate(st, f.typ, 0, RETURN_STRING)
    ensures RunBody(ev, st, f, actual, fuel).Some? ==>
      var (st', n, ret') := RunBody(ev, st, f, actual, fuel).value; Kept(st, st') && Live(st', ret')
  {
    KeptSame(st1);
    if |f.formals| == |actual| { ParamsOk(st1, f.formals, actual, fuel); }
    var (st2, ok) := if f.formals == [] then (st1, true)
                     else if |f.formals| != |actual| then (st1, false)
                     else AssignParams(st1, f.formals, actual, fuel);
    KeptThen(st, st1, st2);
    LiveStays(st1, st2, ret);
    if ok && ev(st2, f.body).Some? {
      Use(ev, st2, f.body);
      var st3 := ev(st2, f.body).value.0;
      KeptThen(st, st2, st3);
      LiveStays(st2, st3, ret);
    }
  }

  /** The node for the result is the caller's, and no variable. */
  ghost predicate TmpOk(st: State, tmp: Node)
    requires HasTop(st)
  {
    tmp.At? ==>
      && tmp.r in st.heap && st.heap[tmp.r].table == Top(st) && st.heap[tmp.r].root == tmp.r
      && forall i, x :: 0 <= i < |st.tables| && x in st.tables[i].names ==> st.tables[i].names[x] != Var(tmp.r)
  }

  /** What a call may change: globals, and the node for its result. */
  ghost predicate CallChanges(st: State, st': State, tmp: Node) {
    forall r :: r in st.heap && st.heap[r].table != 0 && !(tmp.At? && st.heap[r].root == tmp.r) ==>
      r in st'.heap && st'.heap[r] == st.heap[r]
  }

  /** The result copied into the caller's node, while the function's table is still there. */
  lemma CopyOutOk(st: State, st1: State, st2: State, tmp: Node, ret: Node, fuel: nat)
    requires Sound(st) && TmpOk(st, tmp) && tmp.At? && st1 == PushTable(st, 0)
    requires Kept(st1, st2) && Live(st2, ret)
    ensures var st3 := Update(st2, Top(st), tmp.r, ret, fuel).0;
      && Sound(st3) && NamesKept(st1, st3) && HeapKept(st1, st3, {|st.tables|, 0, Top(st)})
      && forall r :: r in st.heap && st.heap[r].table != 0 && st.heap[r].root != tmp.r ==>
           r in st3.heap && st3.heap[r] == st.heap[r]
  {
    PushTableOk(st, 0);
    assert SamePlace(st1.heap[tmp.r], st2.heap[tmp.r]);
    UpdateOk(st2, Top(st), tmp.r, ret, fuel, Top(st), tmp.r);
    var st3 := Update(st2, Top(st), tmp.r, ret, fuel).0;
    RootsStay(st2, st3, Top(st), tmp.r);
    CopiedOut(st1, st2, st3, |st.tables|, Top(st), tmp.r);
  }

  lemma CopiedOut(st1: State, st2: State, st3: State, n: nat, top: nat, root: Ref)
    requires HeapKept(st1, st2, {n, 0}) && OnlyRoot(st2, st3, top, root) && Roots(st2)
    requires root in st2.heap && st2.heap[root].root == root && st2.heap[root].table == top
    ensures HeapKept(st1, st3, {n, 0, top})
    ensures forall r ::
      r in st1.heap && st1.heap[r].table != n && st1.heap[r].table != 0 && st1.heap[r].root != root ==>
        r in st3.heap && st3.heap[r] == st1.heap[r]
  {
    forall r | r in st1.heap ensures SamePlace(st1.heap[r], st3.heap[r]) {
      SamePlaceThen(st1.heap[r], st2.heap[r], st3.heap[r]);
    }
    forall r | r in st1.heap && st1.heap[r].table !in {n, 0, top} ensures st3.heap[r] == st1.heap[r] {
      assert st2.heap[r] == st1.heap[r] && RootOk(st2.heap, st2.heap[r]);
    }
  }

  // ---------------------------------------------------------------- the call theorem

  /** What is promised of everything from the evaluated arguments on. */
  ghost predicate ByValue(st: State, r: (State, Node), tmp: Node) {
    && Sound(r.0) && r.0.tables == st.tables
    && CallChanges(st, r.0, tmp)
    && (r.1 == Empty || (tmp.At? && r.1 == tmp))
  }

  /** Leaving the function's table. */
  lemma CallLeft(st: State, st0: State, st2: State, tmp: Node)
    requires Sound(st) && TmpOk(st, tmp) && st0 == PushTable(st, 0) && Sound(st2) && NamesKept(st0, st2)
    requires HeapKept(st0, st2, if tmp.At? then {|st.tables|, 0, Top(st)} else {|st.tables|, 0})
    requires CallChanges(st, st2, tmp)
    ensures HasTop(st2) && Sound(PopTable(st2)) && PopTable(st2).tables == st.tables
    ensures CallChanges(st, PopTable(st2), tmp) && Kept(st, PopTable(st2))
  {
    var scope := if tmp.At? then {|st.tables|, 0, Top(st)} else {|st.tables|, 0};
    PopTableOk(st, 0, st2, scope);
    GlobalInScope(st.tables, Top(st));
    ScopeGrows(st, PopTable(st2), scope - {|st.tables|});
  }

  /** Copying the result out and leaving, after a body that kept everything. */
  lemma AfterBody(st: State, st1: State, tmp: Node, ret: Node, fuel: nat)
    requires Sound(st) && TmpOk(st, tmp) && Kept(PushTable(st, 0), st1) && Live(st1, ret)
    ensures var st2 := if tmp.At? && Top(st) < |st1.tables| then Update(st1, Top(st), tmp.r, ret, fuel).0 else st1;
      && HasTop(st2) && Sound(PopTable(st2)) && PopTable(st2).tables == st.tables
      && CallChanges(st, PopTable(st2), tmp) && Kept(st, PopTable(st2))
  {
    PushTableOk(st, 0);
    var st0 := PushTable(st, 0);
    if tmp.At? {
      CopyOutOk(st, st0, st1, tmp, ret, fuel);
      CallLeft(st, st0, Update(st1, Top(st), tmp.r, ret, fuel).0, tmp);
    } else {
      CallLeft(st, st0, st1, tmp);
    }
  }

  lemma PerformOk(ev: Ev, st: State, f: Function, tmp: Node, actual: seq<Node>, fuel: nat)
    requires Contract(ev) && Sound(st) && TmpOk(st, tmp) && AllLive(st, actual)
    ensures var r := Perform(ev, st, f, tmp, actual, fuel);
      r.Some? ==> ByValue(st, r.value, tmp) && Kept(st, r.value.0)
  {
    PushTableOk(st, 0);
    var st0 := PushTable(st, 0);
    AllLiveStay(st, st0, actual);
    BodyOk(ev, st0, f, actual, fuel);
    if RunBody(ev, st0, f, actual, fuel).Some? {
      var (st1, n, ret) := RunBody(ev, st0, f, actual, fuel).value;
      AfterBody(st, st1, tmp, ret, fuel);
    }
  }

  lemma {:induction false} GlobalInScope(tables: seq<Table>, i: nat)
    requires StackOk(tables) && i < |tables|
    ensures 0 in Chain(tables, i)
    decreases i
  {
    if i > 0 { GlobalInScope(tables, tables[i].prev.value); }
  }

  lemma ScopeGrows(st: State, st': State, scope: set<nat>)
    requires Sound(st) && Returned(st, st', scope) && scope <= Scope(st)
    ensures Kept(st, st')
  {}

  lemma PrepareOk(ev: Ev, st: State, f: Function, args: seq<Expr>)
    requires Contract(ev) && Sound(st)
    ensures Prepare(ev, st, f, args).Some? ==>
      var (st', tmp, actual) := Prepare(ev, st, f, args).value;
      && Kept(st, st') && TmpOk(st', tmp) && AllLive(st', actual)
      && (tmp.At? ==> tmp.r !in st.heap)
  {
    KeptSame(st);
    CreateHereOk(st, f.typ, 0);
    var (st1, tmp) := if f.typ.kind == VoidT then (st, Other) else CreateHere(st, f.typ, 0);
    ListOk(ev, st1, args);
    if EvalList(ev, st1, args).Some? {
      var (st2, actual) := EvalList(ev, st1, args).value;
      KeptThen(st, st1, st2);
      forall i | 0 <= i < |actual| ensures Live(st2, actual[i]) { InScopeLive(st2, actual[i], Scope(st1)); }
      TmpStays(st, st1, st2, tmp);
    }
  }

  lemma TmpStays(st: State, st1: State, st2: State, tmp: Node)
    requires Sound(st) && Sound(st1) && Kept(st1, st2) && st1.tables == st.tables
    requires tmp.At? ==> tmp.r == st.next && tmp.r !in st.heap && tmp.r in st1.heap
    requires tmp.At? ==> st1.heap[tmp.r].table == Top(st) && st1.heap[tmp.r].root == tmp.r
    ensures TmpOk(st2, tmp)
  {
    if tmp.At? {
      assert SamePlace(st1.heap[tmp.r], st2.heap[tmp.r]);
      forall i, x | 0 <= i < |st2.tables| && x in st2.tables[i].names ensures st2.tables[i].names[x] != Var(tmp.r) {
        if st2.tables[i].names[x].Var? && x in st1.tables[i].names { assert st1.tables[i].names[x].r in st.heap; }
      }
    }
  }

  lemma InvokeOk(ev: Ev, st: State, f: Function, args: seq<Expr>, fuel: nat)
    requires Contract(ev) && Sound(st)
    ensures GoodOutcome(st, EvalInvoke(ev, st, f, args, fuel))
    ensures EvalInvoke(ev, st, f, args, fuel).Some? ==> !IsToken(EvalInvoke(ev, st, f, args, fuel).value.1)
  {
    PrepareOk(ev, st, f, args);
    if Prepare(ev, st, f, args).Some? {
      var (st1, tmp, actual) := Prepare(ev, st, f, args).value;
      PerformOk(ev, st1, f, tmp, actual, fuel);
      var r := Perform(ev, st1, f, tmp, actual, fuel);
      if r.Some? {
        ResultInScope(st1, r.value, tmp);
        GoodThen(st, st1, r.value);
      }
    }
  }

  lemma ResultInScope(st: State, r: (State, Node), tmp: Node)
    requires Sound(st) && TmpOk(st, tmp) && ByValue(st, r, tmp) && Kept(st, r.0)
    ensures Good(st, r)
  {
    if r.1.At? { assert SamePlace(st.heap[tmp.r], r.0.heap[tmp.r]); }
  }

  // ---------------------------------------------------------------- every program

  lemma LeafOk(st: State, n: Node)
    requires Sound(st) && (n == Empty || n.Value? || IsToken(n))
    ensures Good(st, (st, n))
  {
    KeptSame(st);
  }

  lemma DeclareOk(st: State, name: Name, entry: Entry)
    requires Sound(st) && !entry.Var?
    ensures Good(st, (Declared(st, name, entry), Empty))
  {
    DeclaredOk(st, name, entry);
  }

  lemma VarRefOk(st: State, name: Name)
    requires Sound(st)
    ensures Good(st, (st, AsNode(Find(st, name))))
  {
    KeptSame(st);
    FindOk(st, name);
  }

  lemma CallOk(ev: Ev, st: State, name: Name, args: seq<Expr>)
    requires Contract(ev) && Sound(st)
    ensures forall f :: ev(st, Invoke(f, args)).Some? ==> Good(st, ev(st, Invoke(f, args)).value)
  {
    forall f | ev(st, Invoke(f, args)).Some? ensures Good(st, ev(st, Invoke(f, args)).value) {
      Use(ev, st, Invoke(f, args));
    }
  }

  predicate IsStatement(e: Expr) {
    e.Seq? || e.Block? || e.If? || e.While? || e.For? || e.Break? || e.Continue? || e.Declare? || e.Return?
      || e.DefStruct?
  }

  lemma StatementOk(arith: Arith, ev: Ev, st: State, e: Expr, fuel: nat)
    requires Contract(ev) && Sound(st) && IsStatement(e)
    ensures GoodOutcome(st, Step(arith, ev, st, e, fuel))
  {
    if e.Seq? { SeqOk(ev, st, e.left, e.right); }
    else if e.Block? { BlockOk(ev, st, e.body); }
    else if e.If? { IfOk(ev, st, e.cond, e.yes, e.no); }
    else if e.While? { LoopOk(ev, st, e.cond, e.body, None, fuel); }
    else if e.For? { ForOk(ev, st, e.start, e.cond, e.step, e.body, fuel); }
    else if e.Declare? { DeclareOk(st, e.name, Func(e.f)); }
    else if e.Return? { ReturnOk(ev, st, e.e, fuel); }
    else if e.DefStruct? { DeclareOk(st, e.name, Struct(e.fields)); }
    else { LeafOk(st, if e.Break? then BreakTok else ContinueTok); }
  }

  lemma ExpressionOk(arith: Arith, ev: Ev, st: State, e: Expr, fuel: nat)
    requires Contract(ev) && Sound(st) && !IsStatement(e)
    ensures GoodOutcome(st, Step(arith, ev, st, e, fuel))
  {
    if e.Elem? { ElemOk(ev, st, e.base, e.index); }
    else if e.FieldRef? { FieldOk(ev, st, e.base, e.field); }
    else if e.NewVar? { NewVarOk(ev, st, e.typ, e.name, e.size); }
    else if e.NewVarInit? { NewVarInitOk(ev, st, e.typ, e.name, e.init, fuel); }
    else if e.Bin? { BinOk(arith, ev, st, e.op, e.left, e.right); }
    else if e.Assign? { AssignOk(ev, st, e.left, e.right, fuel); }
    else if e.Invoke? { InvokeOk(ev, st, e.f, e.args, fuel); }
    else if e.PushBack? { PushBackOk(ev, st, e.arr, e.item, fuel); }
    else if e.PopBack? { PopBackOk(ev, st, e.arr); }
    else if e.ArrayUnion? || e.ArrayIntersect? { ArraysOk(ev, st, e.first, e.second, e.ArrayIntersect?, fuel); }
    else if e.VarRef? { VarRefOk(st, e.name); }
    else if e.Call? { CallOk(ev, st, e.name, e.args); LeafOk(st, Empty); }
    else { LeafOk(st, if e.Const? then Value(e.b) else Empty); }
  }

  lemma StepOk(arith: Arith, ev: Ev, st: State, e: Expr, fuel: nat)
    requires Contract(ev) && Sound(st)
    ensures GoodOutcome(st, Step(arith, ev, st, e, fuel))
  {
    if IsStatement(e) { StatementOk(arith, ev, st, e, fuel); } else { ExpressionOk(arith, ev, st, e, fuel); }
  }

  lemma {:induction false} BelowMeetsContract(arith: Arith, fuel: nat, depth: nat)
    ensures Contract(Below(arith, fuel, depth))
    decreases depth, 1
  {
    var ev := Below(arith, fuel, depth);
    forall st, e | Sound(st) && ev(st, e).Some? ensures Good(st, ev(st, e).value) {
      assert ev(st, e) == Eval(arith, fuel, depth, st, e);
      EvalKeepsScopes(arith, fuel, depth, st, e);
    }
  }

  /**
    Evaluation, of any program at any depth of recursion: the scope stack is as before, only its last table may have
    gained names, every node outside the tables the current scope can see is untouched, and a node that is returned
    lives in one of those tables.
   */
  lemma {:induction false} EvalKeepsScopes(arith: Arith, fuel: nat, depth: nat, st: State, e: Expr)
    requires Sound(st)
    ensures GoodOutcome(st, Eval(arith, fuel, depth, st, e))
    decreases depth, 0
  {
    if depth == 0 {
      LeafOk(st, Empty);
    } else {
      BelowMeetsContract(arith, fuel, depth - 1);
      StepOk(arith, Below(arith, fuel, depth - 1), st, e, fuel);
    }
  }

  /**
    Calls are by value. Once its arguments are evaluated, a call of any function at any depth returns with exactly the
    scope stack it started with and nothing declared in it; every variable of every scope but the global one keeps all
    its nodes as they were; and it yields the caller's own result node or nothing, never break, continue or return.
   */
  lemma CallsAreByValue(arith: Arith, fuel: nat, depth: nat, st: State, f: Function, tmp: Node, actual: seq<Node>)
    requires Sound(st) && TmpOk(st, tmp) && AllLive(st, actual)
    requires Perform(Below(arith, fuel, depth), st, f, tmp, actual, fuel).Some?
    ensures var (st', n) := Perform(Below(arith, fuel, depth), st, f, tmp, actual, fuel).value;
      && Sound(st') && st'.tables == st.tables
      && (forall i, x :: 0 < i < |st.tables| && x in st.tables[i].names && st.tables[i].names[x].Var? ==>
            SameVariable(st, st', st.tables[i].names[x].r))
      && (n == Empty || (tmp.At? && n == tmp && n.r in st'.heap && st'.heap[n.r].table == Top(st)))
      && !IsToken(n)
  {
    BelowMeetsContract(arith, fuel, depth);
    PerformOk(Below(arith, fuel, depth), st, f, tmp, actual, fuel);
    var (st', n) := Perform(Below(arith, fuel, depth), st, f, tmp, actual, fuel).value;
    forall i, x | 0 < i < |st.tables| && x in st.tables[i].names && st.tables[i].names[x].Var?
      ensures SameVariable(st, st', st.tables[i].names[x].r)
    {
      VariableUntouched(st, st', tmp, i, x);
    }
    if n.At? { assert SamePlace(st.heap[tmp.r], st'.heap[tmp.r]); }
  }

  /** All nodes of variable r are as they were. */
  ghost predicate SameVariable(st: State, st': State, r: Ref) {
    forall c :: c in st.heap && st.heap[c].root == r ==> c in st'.heap && st'.heap[c] == st.heap[c]
  }

  lemma VariableUntouched(st: State, st': State, tmp: Node, i: nat, x: Name)
    requires Sound(st) && TmpOk(st, tmp) && CallChanges(st, st', tmp)
    requires 0 < i < |st.tables| && x in st.tables[i].names && st.tables[i].names[x].Var?
    ensures SameVariable(st, st', st.tables[i].names[x].r)
  {
    var r := st.tables[i].names[x].r;
    forall c | c in st.heap && st.heap[c].root == r ensures c in st'.heap && st'.heap[c] == st.heap[c] {
      assert RootOk(st.heap, st.heap[c]);
    }
  }

  // ---------------------------------------------------------------- variables share nothing

  /** A way from a node down to one of its parts. */
  ghost predicate Path(st: State, p: seq<Ref>) {
    p != [] && p[0] in st.heap
    && forall i :: 0 <= i < |p| - 1 ==> p[i] in st.heap && p[i + 1] in Children(st.heap[p[i]].cell)
  }

  lemma {:induction false} PathStaysInVariable(st: State, p: seq<Ref>, k: nat)
    requires Inv(st) && Path(st, p) && k < |p|
    ensures p[k] in st.heap && st.heap[p[k]].root == st.heap[p[0]].root && st.heap[p[k]].table == st.heap[p[0]].table
  {
    if k > 0 {
      PathStaysInVariable(st, p, k - 1);
      assert p[k - 1 + 1] in Children(st.heap[p[k - 1]].cell) && ObjOk(st.heap, p[k - 1], st.heap[p[k - 1]]);
    }
  }

  /** No node can be reached from two different variables. */
  lemma VariablesShareNothing(st: State, i: nat, x: Name, j: nat, y: Name, p: seq<Ref>, q: seq<Ref>)
    requires Sound(st) && Path(st, p) && Path(st, q)
    requires i < |st.tables| && x in st.tables[i].names && st.tables[i].names[x] == Var(p[0])
    requires j < |st.tables| && y in st.tables[j].names && st.tables[j].names[y] == Var(q[0])
    requires p[|p| - 1] == q[|q| - 1]
    ensures p[0] == q[0]
  {
    PathStaysInVariable(st, p, |p| - 1);
    PathStaysInVariable(st, q, |q| - 1);
  }
}
