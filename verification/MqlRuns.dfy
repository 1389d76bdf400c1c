/**
  Whole runs: as long as a program does not define structs or declare their names, every variable of every scope
  stands for a regular value, a tree that shares no node with another variable. What is proved about assignment, about
  calls and about the array operations therefore applies wherever they occur.
 */
module MqlRuns {
  import opened Base
  import opened MqlState
  import opened MqlUpdate
  import opened MqlValues
  import opened MqlCopy
  import opened MqlAssign
  import opened MqlArrays
  import opened MqlEval
  import opened MqlScope
  import opened MqlCalls
  import opened MqlTrees
  import opened MqlTidy

  // ---------------------------------------------------------------- programs

  /** No struct is defined, and nothing declared that has the name of one. */
  predicate Plain(decls: Decls, e: Expr)
    decreases e
  {
    match e
    case Nothing => true
    case Const(_) => true
    case VarRef(_) => true
    case Elem(base, index) => Plain(decls, base) && Plain(decls, index)
    case FieldRef(base, _) => Plain(decls, base)
    case NewVar(_, name, size) => name !in decls && Plain(decls, size)
    case NewVarInit(_, name, init) => name !in decls && PlainInit(decls, init)
    case Seq(left, right) => Plain(decls, left) && Plain(decls, right)
    case Block(body) => Plain(decls, body)
    case Bin(_, left, right) => Plain(decls, left) && Plain(decls, right)
    case Assign(left, right) => Plain(decls, left) && Plain(decls, right)
    case If(cond, yes, no) => Plain(decls, cond) && Plain(decls, yes) && Plain(decls, no)
    case While(cond, body) => Plain(decls, cond) && Plain(decls, body)
    case For(start, cond, step, body) => Plain(decls, start) && Plain(decls, cond) && Plain(decls, step)
      && Plain(decls, body)
    case Break => true
    case Continue => true
    case Declare(name, f) => name !in decls && PlainFunction(decls, f)
    case Call(_, args) => forall i :: 0 <= i < |args| ==> Plain(decls, args[i])
    case Invoke(f, args) => PlainFunction(decls, f) && forall i :: 0 <= i < |args| ==> Plain(decls, args[i])
    case Return(e1) => Plain(decls, e1)
    case DefStruct(_, _) => false
    case PushBack(arr, item) => Plain(decls, arr) && Plain(decls, item)
    case PopBack(arr) => Plain(decls, arr)
    case ArrayUnion(first, second) => Plain(decls, first) && Plain(decls, second)
    case ArrayIntersect(first, second) => Plain(decls, first) && Plain(decls, second)
  }

  predicate PlainInit(decls: Decls, init: Init)
    decreases init
  {
    match init
    case One(e) => Plain(decls, e)
    case List(es) => forall i :: 0 <= i < |es| ==> Plain(decls, es[i])
  }

  predicate PlainFunction(decls: Decls, f: Function)
    decreases f
  {
    (forall i :: 0 <= i < |f.formals| ==> f.formals[i].name !in decls) && Plain(decls, f.body)
  }

  ghost predicate AllPlain(decls: Decls, es: seq<Expr>) {
    forall i :: 0 <= i < |es| ==> Plain(decls, es[i])
  }

  // ---------------------------------------------------------------- states

  ghost predicate EntryFine(st: State, decls: Decls, name: Name, entry: Entry) {
    match entry
    case Var(r) => name !in decls && Fine(st, decls, r)
    case Func(f) => name !in decls && PlainFunction(decls, f)
    case Struct(_) => true
  }

  ghost predicate NamesFine(st: State, decls: Decls) {
    forall i, x :: 0 <= i < |st.tables| && x in st.tables[i].names ==> EntryFine(st, decls, x, st.tables[i].names[x])
  }

  /** Struct names mean the same everywhere, and every variable holds a regular value. */
  ghost predicate Tidy(st: State, decls: Decls) {
    Sound(st) && Uniform(st.tables, decls) && RETURN_STRING !in decls && NamesFine(st, decls)
  }

  ghost predicate NodeFine(st: State, decls: Decls, n: Node) {
    n.At? ==> Fine(st, decls, n.r)
  }

  ghost predicate StaysTidy(st: State, st': State, decls: Decls) {
    Tidy(st', decls) && KeepsTypes(st, st', decls)
  }

  ghost predicate TidyResult(st: State, r: (State, Node), decls: Decls) {
    StaysTidy(st, r.0, decls) && NodeFine(r.0, decls, r.1)
  }

  ghost predicate TidyOutcome(st: State, r: Outcome, decls: Decls) {
    r.Some? ==> TidyResult(st, r.value, decls)
  }

  /** What an evaluator promises besides its Contract. */
  ghost predicate TidyContract(ev: Ev, decls: Decls) {
    forall st, e :: Tidy(st, decls) && Plain(decls, e) ==> TidyOutcome(st, ev(st, e), decls)
  }

  lemma UseTidy(ev: Ev, st: State, e: Expr, decls: Decls)
    requires Contract(ev) && TidyContract(ev, decls) && Tidy(st, decls) && Plain(decls, e) && ev(st, e).Some?
    ensures TidyResult(st, ev(st, e).value, decls) && Good(st, ev(st, e).value)
  {
    assert TidyOutcome(st, ev(st, e), decls);
    Use(ev, st, e);
  }

  // ---------------------------------------------------------------- composing steps

  lemma TidySame(st: State, decls: Decls)
    requires Tidy(st, decls)
    ensures StaysTidy(st, st, decls)
  {}

  lemma TidyThen(a: State, b: State, c: State, decls: Decls)
    requires StaysTidy(a, b, decls) && StaysTidy(b, c, decls)
    ensures StaysTidy(a, c, decls)
  {
    KeepsThen(a, b, c, decls);
  }

  lemma ResultThen(a: State, b: State, r: (State, Node), decls: Decls)
    requires StaysTidy(a, b, decls) && TidyResult(b, r, decls)
    ensures TidyResult(a, r, decls)
  {
    TidyThen(a, b, r.0, decls);
  }

  /** The tables are as they were. */
  lemma SameTables(st: State, st': State, decls: Decls)
    requires Tidy(st, decls) && Sound(st') && st'.tables == st.tables && KeepsTypes(st, st', decls)
    ensures StaysTidy(st, st', decls)
  {
    forall i, x | 0 <= i < |st'.tables| && x in st'.tables[i].names
      ensures EntryFine(st', decls, x, st'.tables[i].names[x])
    {
      assert EntryFine(st, decls, x, st.tables[i].names[x]);
    }
  }

  /** Two evaluations in a row. */
  lemma BothTidy(ev: Ev, st: State, first: Expr, second: Expr, decls: Decls)
    requires Contract(ev) && TidyContract(ev, decls) && Tidy(st, decls) && Plain(decls, first) && Plain(decls, second)
    requires ev(st, first).Some?
    ensures TidyResult(st, ev(st, first).value, decls) && Good(st, ev(st, first).value)
    ensures var (st1, n) := ev(st, first).value;
      ev(st1, second).Some? ==>
        && TidyResult(st, ev(st1, second).value, decls) && Good(st, ev(st1, second).value)
        && NodeFine(ev(st1, second).value.0, decls, n) && InScope(ev(st1, second).value.0, n, Scope(st))
  {
    UseTidy(ev, st, first, decls);
    BothOk(ev, st, first, second);
    var (st1, n) := ev(st, first).value;
    if ev(st1, second).Some? {
      UseTidy(ev, st1, second, decls);
      ResultThen(st, st1, ev(st1, second).value, decls);
    }
  }

  // ---------------------------------------------------------------- expressions

  lemma VarRefTidy(st: State, name: Name, decls: Decls)
    requires Tidy(st, decls)
    ensures TidyResult(st, (st, AsNode(Find(st, name))), decls)
  {
    TidySame(st, decls);
    LookupInChain(st.tables, Top(st), name);
    if Find(st, name).Some? {
      var j: nat :| Holds(st.tables, Top(st), j, name);
      assert EntryFine(st, decls, name, st.tables[j].names[name]);
    }
  }

  lemma ElemTidy(ev: Ev, st: State, base: Expr, index: Expr, decls: Decls)
    requires Contract(ev) && TidyContract(ev, decls) && Tidy(st, decls) && Plain(decls, base) && Plain(decls, index)
    ensures TidyOutcome(st, EvalElem(ev, st, base, index), decls)
  {
    if ev(st, index).Some? { BothTidy(ev, st, index, base, decls); }
  }

  lemma FieldTidy(ev: Ev, st: State, base: Expr, field: Name, decls: Decls)
    requires Contract(ev) && TidyContract(ev, decls) && Tidy(st, decls) && Plain(decls, base)
    ensures TidyOutcome(st, EvalField(ev, st, base, field), decls)
  {
    if ev(st, base).Some? {
      UseTidy(ev, st, base, decls);
      var (st1, rec) := ev(st, base).value;
      if FieldOf(st1, rec, field).At? { PartFine(st1, decls, rec.r, field); }
    }
  }

  lemma PartFine(st: State, decls: Decls, r: Ref, field: Name)
    requires Fine(st, decls, r) && st.heap[r].cell.Rec? && field in st.heap[r].cell.fields
    ensures Fine(st, decls, st.heap[r].cell.fields[field])
  {
    var cell := st.heap[r].cell;
    assert Is(st, decls, r, Type(StructT, cell.adt, VoidT));
    IsFine(st, decls, cell.fields[field], FieldType(decls[cell.adt], field));
  }

  lemma BinTidy(arith: Arith, ev: Ev, st: State, op: nat, left: Expr, right: Expr, decls: Decls)
    requires Contract(ev) && TidyContract(ev, decls) && Tidy(st, decls) && Plain(decls, left) && Plain(decls, right)
    ensures TidyOutcome(st, EvalBin(arith, ev, st, op, left, right), decls)
  {
    if ev(st, right).Some? { BothTidy(ev, st, right, left, decls); }
  }

  /** Assignment, successful or not. */
  lemma UpdateTidy(st: State, dst: Node, src: Node, fuel: nat, decls: Decls)
    requires Tidy(st, decls) && InScope(st, dst, Scope(st)) && Live(st, src)
    ensures StaysTidy(st, UpdateHere(st, dst, src, fuel).0, decls)
  {
    UpdateHereOk(st, dst, src, fuel);
    if dst.At? {
      UpdateKeeps(st, Top(st), dst.r, src, fuel, decls);
      SameTables(st, UpdateHere(st, dst, src, fuel).0, decls);
    } else {
      TidySame(st, decls);
    }
  }

  lemma AssignTidy(ev: Ev, st: State, left: Expr, right: Expr, fuel: nat, decls: Decls)
    requires Contract(ev) && TidyContract(ev, decls) && Tidy(st, decls) && Plain(decls, left) && Plain(decls, right)
    ensures TidyOutcome(st, EvalAssign(ev, st, left, right, fuel), decls)
  {
    if ev(st, right).Some? {
      BothTidy(ev, st, right, left, decls);
      var (st1, r) := ev(st, right).value;
      if ev(st1, left).Some? {
        var (st2, l) := ev(st1, left).value;
        AssignedTidy(st, st2, l, r, fuel, decls);
        AssignIs(ev, st, left, right, fuel, st1, r, st2, l);
      }
    }
  }

  lemma AssignIs(ev: Ev, st: State, left: Expr, right: Expr, fuel: nat, st1: State, r: Node, st2: State, l: Node)
    requires ev(st, right) == Some((st1, r)) && ev(st1, left) == Some((st2, l))
    ensures EvalAssign(ev, st, left, right, fuel) ==
      if r == Empty || l == Empty then Some((st2, Empty))
      else Some((UpdateHere(st2, l, r, fuel).0, if UpdateHere(st2, l, r, fuel).1 then l else Empty))
  {}

  lemma AssignedTidy(st: State, st2: State, l: Node, r: Node, fuel: nat, decls: Decls)
    requires Tidy(st, decls) && TidyResult(st, (st2, l), decls) && Good(st, (st2, l)) && InScope(st2, r, Scope(st))
    ensures TidyResult(st, (UpdateHere(st2, l, r, fuel).0, l), decls)
  {
    SameChain(st.tables, st2.tables, Top(st));
    InScopeLive(st2, r, Scope(st));
    UpdateTidy(st2, l, r, fuel, decls);
    TidyThen(st, st2, UpdateHere(st2, l, r, fuel).0, decls);
  }

  // ---------------------------------------------------------------- declarations

  lemma CreateTidy(st: State, typ: Type, size: int, decls: Decls)
    requires Tidy(st, decls)
    ensures TidyResult(st, CreateHere(st, typ, size), decls)
  {
    CreateHereOk(st, typ, size);
    CreateTyped(st, Top(st), st.next, st.next, typ, size, decls);
    var (st1, n) := CreateHere(st, typ, size);
    SameTables(st, st1, decls);
    if n.At? { IsFine(st1, decls, n.r, typ); }
  }

  lemma {:induction false} LookupOther(tables: seq<Table>, i: nat, top: nat, t: Table, name: Name)
    requires i <= top < |tables| && t.prev == tables[top].prev
    requires name in tables[top].names <==> name in t.names
    requires name in tables[top].names ==> t.names[name] == tables[top].names[name]
    ensures Lookup(tables[top := t], i, name) == Lookup(tables, i, name)
    decreases i
  {
    if name !in tables[i].names && tables[i].prev.Some? && tables[i].prev.value < i {
      LookupOther(tables, tables[i].prev.value, top, t, name);
    }
  }

  /** A new name that is no struct's. */
  lemma DeclaredTidy(st: State, name: Name, entry: Entry, decls: Decls)
    requires Tidy(st, decls) && name !in decls && !entry.Struct? && EntryFine(st, decls, name, entry)
    requires entry.Var? ==> entry.r in st.heap && st.heap[entry.r].table == Top(st) && st.heap[entry.r].root == entry.r
    ensures StaysTidy(st, Declared(st, name, entry), decls)
  {
    DeclaredOk(st, name, entry);
    var st' := Declared(st, name, entry);
    AddsKeep(st, st', decls);
    DeclaredUniform(st, name, entry, decls);
    forall i, x | 0 <= i < |st'.tables| && x in st'.tables[i].names
      ensures EntryFine(st', decls, x, st'.tables[i].names[x])
    {
      assert EntryFine(st, decls, x, st'.tables[i].names[x]);
    }
  }

  lemma DeclaredUniform(st: State, name: Name, entry: Entry, decls: Decls)
    requires HasTop(st) && Uniform(st.tables, decls) && name !in decls && !entry.Struct?
    ensures Uniform(Declared(st, name, entry).tables, decls)
  {
    if name !in st.tables[Top(st)].names {
      var top := st.tables[Top(st)];
      var t := top.(names := top.names[name := entry]);
      var ts := st.tables[Top(st) := t];
      forall i, adt | 0 <= i < |ts| ensures StructIn(ts, i, adt) == if adt in decls then Some(decls[adt]) else None {
        assert StructIn(st.tables, i, adt) == if adt in decls then Some(decls[adt]) else None;
        if adt != name {
          LookupOther(st.tables, i, Top(st), t, adt);
        } else {
          ShadowedLookup(st.tables, i, Top(st), t, name, entry);
        }
      }
    }
  }

  lemma {:induction false} ShadowedLookup(tables: seq<Table>, i: nat, top: nat, t: Table, name: Name, entry: Entry)
    requires i <= top < |tables| && t.prev == tables[top].prev && t.names == tables[top].names[name := entry]
    ensures Lookup(tables[top := t], i, name) == Lookup(tables, i, name)
      || Lookup(tables[top := t], i, name) == Some(entry)
    decreases i
  {
    if i < top && name !in tables[i].names && tables[i].prev.Some? && tables[i].prev.value < i {
      ShadowedLookup(tables, tables[i].prev.value, top, t, name, entry);
    }
  }

  lemma VariableCreateTidy(st: State, typ: Type, size: int, name: Name, decls: Decls)
    requires Tidy(st, decls) && name !in decls
    ensures TidyResult(st, VariableCreate(st, typ, size, name), decls)
  {
    CreateTidy(st, typ, size, decls);
    CreateHereOk(st, typ, size);
    var (st1, n) := CreateHere(st, typ, size);
    if n.At? && name !in st1.tables[Top(st1)].names {
      DeclaredTidy(st1, name, Var(n.r), decls);
      TidyThen(st, st1, Declared(st1, name, Var(n.r)), decls);
    }
  }

  lemma NewVarTidy(ev: Ev, st: State, typ: Type, name: Name, size: Expr, decls: Decls)
    requires Contract(ev) && TidyContract(ev, decls) && Tidy(st, decls) && name !in decls && Plain(decls, size)
    ensures TidyOutcome(st, EvalNewVar(ev, st, typ, name, size), decls)
  {
    if typ.kind != ArrayT {
      VariableCreateTidy(st, typ, 0, name, decls);
    } else if ev(st, size).Some? {
      UseTidy(ev, st, size, decls);
      var (st1, n) := ev(st, size).value;
      var i := IntOf(st1, n);
      if i.Some? {
        VariableCreateTidy(st1, typ, i.value, name, decls);
        ResultThen(st, st1, VariableCreate(st1, typ, i.value, name), decls);
      }
    }
  }

  lemma {:induction false} ListTidy(ev: Ev, st: State, es: seq<Expr>, decls: Decls)
    requires Contract(ev) && TidyContract(ev, decls) && Tidy(st, decls) && AllPlain(decls, es)
    ensures EvalList(ev, st, es).Some? ==> StaysTidy(st, EvalList(ev, st, es).value.0, decls)
  {
    if es == [] {
      TidySame(st, decls);
    } else {
      var front, last := es[..|es| - 1], es[|es| - 1];
      ListTidy(ev, st, front, decls);
      if EvalList(ev, st, front).Some? {
        var st1 := EvalList(ev, st, front).value.0;
        if ev(st1, last).Some? {
          UseTidy(ev, st1, last, decls);
          TidyThen(st, st1, ev(st1, last).value.0, decls);
        }
      }
    }
  }

  lemma InitTidy(ev: Ev, st: State, init: Init, decls: Decls)
    requires Contract(ev) && TidyContract(ev, decls) && Tidy(st, decls) && PlainInit(decls, init)
    ensures EvalInit(ev, st, init).Some? ==> StaysTidy(st, EvalInit(ev, st, init).value.0, decls)
  {
    match init
    case One(e) => if ev(st, e).Some? { UseTidy(ev, st, e, decls); }
    case List(es) => ListTidy(ev, st, es, decls);
  }

  lemma NewVarInitTidy(ev: Ev, st: State, typ: Type, name: Name, init: Init, fuel: nat, decls: Decls)
    requires Contract(ev) && TidyContract(ev, decls) && Tidy(st, decls) && name !in decls && PlainInit(decls, init)
    ensures TidyOutcome(st, EvalNewVarInit(ev, st, typ, name, init, fuel), decls)
  {
    InitOk(ev, st, init);
    InitTidy(ev, st, init, decls);
    if EvalInit(ev, st, init).Some? {
      var (st1, v) := EvalInit(ev, st, init).value;
      InScopeLive(st1, v, Scope(st));
      if v != Empty {
        InitialisedTidy(st1, v, typ, name, fuel, decls);
        var (st2, n) := VariableCreate(st1, typ, 0, name);
        TidyThen(st, st1, UpdateHere(st2, n, v, fuel).0, decls);
      }
    }
  }

  /** A variable created and then assigned to. */
  lemma InitialisedTidy(st: State, v: Node, typ: Type, name: Name, fuel: nat, decls: Decls)
    requires Tidy(st, decls) && name !in decls && Live(st, v)
    ensures var (st1, n) := VariableCreate(st, typ, 0, name);
      var st2 := UpdateHere(st1, n, v, fuel).0;
      StaysTidy(st, st2, decls) && NodeFine(st2, decls, n)
  {
    VariableCreateTidy(st, typ, 0, name, decls);
    VariableCreateOk(st, typ, 0, name);
    var (st1, n) := VariableCreate(st, typ, 0, name);
    SameChain(st.tables, st1.tables, Top(st));
    LiveStays(st, st1, v);
    UpdateTidy(st1, n, v, fuel, decls);
    TidyThen(st, st1, UpdateHere(st1, n, v, fuel).0, decls);
  }

  // ---------------------------------------------------------------- statements

  lemma SeqTidy(ev: Ev, st: State, left: Expr, right: Expr, decls: Decls)
    requires Contract(ev) && TidyContract(ev, decls) && Tidy(st, decls) && Plain(decls, left) && Plain(decls, right)
    ensures TidyOutcome(st, EvalSeq(ev, st, left, right), decls)
  {
    if ev(st, right).Some? { BothTidy(ev, st, right, left, decls); }
  }

  lemma IfTidy(ev: Ev, st: State, cond: Expr, yes: Expr, no: Expr, decls: Decls)
    requires Contract(ev) && TidyContract(ev, decls) && Tidy(st, decls)
    requires Plain(decls, cond) && Plain(decls, yes) && Plain(decls, no)
    ensures TidyOutcome(st, EvalIf(ev, st, cond, yes, no), decls)
  {
    if ev(st, cond).Some? {
      var (st1, c) := ev(st, cond).value;
      var i := IntOf(st1, c);
      UseTidy(ev, st, cond, decls);
      if i.Some? {
        var branch := if i.value != 0 then yes else no;
        BranchTidy(ev, st, st1, branch, decls);
        IfIs(ev, st, cond, yes, no, st1, branch);
      }
    }
  }

  lemma IfIs(ev: Ev, st: State, cond: Expr, yes: Expr, no: Expr, st1: State, branch: Expr)
    requires ev(st, cond).Some? && ev(st, cond).value.0 == st1 && IntOf(st1, ev(st, cond).value.1).Some?
    requires branch == if IntOf(st1, ev(st, cond).value.1).value != 0 then yes else no
    ensures EvalIf(ev, st, cond, yes, no)
         == if ev(st1, branch).None? then None else Passed(ev(st1, branch).value.0, ev(st1, branch).value.1)
  {}

  lemma BranchTidy(ev: Ev, st: State, st1: State, e: Expr, decls: Decls)
    requires Contract(ev) && TidyContract(ev, decls) && StaysTidy(st, st1, decls) && Plain(decls, e)
    ensures ev(st1, e).Some? ==>
      TidyOutcome(st, Passed(ev(st1, e).value.0, ev(st1, e).value.1), decls)
  {
    if ev(st1, e).Some? {
      UseTidy(ev, st1, e, decls);
      TidyThen(st, st1, ev(st1, e).value.0, decls);
    }
  }

  lemma SteppedTidy(ev: Ev, st: State, step: Option<Expr>, decls: Decls)
    requires Contract(ev) && TidyContract(ev, decls) && Tidy(st, decls) && (step.Some? ==> Plain(decls, step.value))
    ensures Stepped(ev, st, step).Some? ==> StaysTidy(st, Stepped(ev, st, step).value, decls)
  {
    TidySame(st, decls);
    if step.Some? && ev(st, step.value).Some? { UseTidy(ev, st, step.value, decls); }
  }

  lemma {:induction false} LoopTidy(ev: Ev, st: State, cond: Expr, body: Expr, step: Option<Expr>, fuel: nat,
                                    decls: Decls)
    requires Contract(ev) && TidyContract(ev, decls) && Tidy(st, decls)
    requires Plain(decls, cond) && Plain(decls, body) && (step.Some? ==> Plain(decls, step.value))
    ensures TidyOutcome(st, EvalLoop(ev, st, cond, body, step, fuel), decls)
    decreases fuel, 1
  {
    if ev(st, cond).Some? {
      BothTidy(ev, st, cond, body, decls);
      var (st1, c) := ev(st, cond).value;
      if fuel > 0 && ev(st1, body).Some? {
        var (st2, n) := ev(st1, body).value;
        AfterTurnTidy(ev, st2, n, cond, body, step, fuel, decls);
        OutcomeThenTidy(st, st2, AfterTurn(ev, st2, n, cond, body, step, fuel), decls);
      }
    }
  }

  lemma {:induction false} AfterTurnTidy(ev: Ev, st: State, n: Node, cond: Expr, body: Expr, step: Option<Expr>,
                                         fuel: nat, decls: Decls)
    requires Contract(ev) && TidyContract(ev, decls) && Tidy(st, decls) && fuel > 0
    requires Plain(decls, cond) && Plain(decls, body) && (step.Some? ==> Plain(decls, step.value))
    ensures TidyOutcome(st, AfterTurn(ev, st, n, cond, body, step, fuel), decls)
    decreases fuel, 0
  {
    TidySame(st, decls);
    SteppedTidy(ev, st, step, decls);
    var next := Stepped(ev, st, step);
    if n != ReturnTok && n != BreakTok && next.Some? {
      LoopTidy(ev, next.value, cond, body, step, fuel - 1, decls);
      OutcomeThenTidy(st, next.value, EvalLoop(ev, next.value, cond, body, step, fuel - 1), decls);
    }
  }

  lemma OutcomeThenTidy(st: State, st1: State, r: Outcome, decls: Decls)
    requires StaysTidy(st, st1, decls) && TidyOutcome(st1, r, decls)
    ensures TidyOutcome(st, r, decls)
  {
    if r.Some? { ResultThen(st, st1, r.value, decls); }
  }

  lemma ForTidy(ev: Ev, st: State, start: Expr, cond: Expr, step: Expr, body: Expr, fuel: nat, decls: Decls)
    requires Contract(ev) && TidyContract(ev, decls) && Tidy(st, decls)
    requires Plain(decls, start) && Plain(decls, cond) && Plain(decls, step) && Plain(decls, body)
    ensures TidyOutcome(st, EvalFor(ev, st, start, cond, step, body, fuel), decls)
  {
    if ev(st, start).Some? {
      UseTidy(ev, st, start, decls);
      var st1 := ev(st, start).value.0;
      LoopTidy(ev, st1, cond, body, Some(step), fuel, decls);
      OutcomeThenTidy(st, st1, EvalLoop(ev, st1, cond, body, Some(step), fuel), decls);
    }
  }

  lemma AssignByNameTidy(st: State, name: Name, src: Node, fuel: nat, decls: Decls)
    requires Tidy(st, decls) && Live(st, src)
    ensures StaysTidy(st, VariableAssign(st, name, src, fuel).0, decls)
  {
    FindOk(st, name);
    UpdateTidy(st, AsNode(Find(st, name)), src, fuel, decls);
  }

  lemma ReturnTidy(ev: Ev, st: State, e: Expr, fuel: nat, decls: Decls)
    requires Contract(ev) && TidyContract(ev, decls) && Tidy(st, decls) && Plain(decls, e)
    ensures TidyOutcome(st, EvalReturn(ev, st, e, fuel), decls)
  {
    if ev(st, e).Some? {
      UseTidy(ev, st, e, decls);
      var (st1, n) := ev(st, e).value;
      InScopeLive(st1, n, Scope(st));
      AssignByNameTidy(st1, RETURN_STRING, n, fuel, decls);
      TidyThen(st, st1, VariableAssign(st1, RETURN_STRING, n, fuel).0, decls);
    }
  }

  // ---------------------------------------------------------------- arrays

  lemma PushBackTidy(ev: Ev, st: State, arr: Expr, item: Expr, fuel: nat, decls: Decls)
    requires Contract(ev) && TidyContract(ev, decls) && Tidy(st, decls) && Plain(decls, arr) && Plain(decls, item)
    ensures TidyOutcome(st, EvalPushBack(ev, st, arr, item, fuel), decls)
  {
    if ev(st, arr).Some? {
      BothTidy(ev, st, arr, item, decls);
      var (st1, a) := ev(st, arr).value;
      if ev(st1, item).Some? {
        var (st2, n) := ev(st1, item).value;
        PushBackIs(ev, st, arr, item, fuel, st1, a, st2, n);
        if fuel > 0 && a.At? { PushedLater(st, st2, a, n, fuel, decls); }
      }
    }
  }

  lemma PushBackIs(ev: Ev, st: State, arr: Expr, item: Expr, fuel: nat, st1: State, a: Node, st2: State, n: Node)
    requires ev(st, arr) == Some((st1, a)) && ev(st1, item) == Some((st2, n)) && HasTop(st2)
    ensures EvalPushBack(ev, st, arr, item, fuel) ==
      if fuel == 0 || !a.At? || a.r !in st2.heap || !FitsElement(st2, st2.heap[a.r].cell, n) then Some((st2, Empty))
      else Some((UpdateItem(st2, Top(st2), a.r, n, fuel).0, Empty))
  {}

  lemma PushedLater(st: State, st2: State, a: Node, n: Node, fuel: nat, decls: Decls)
    requires HasTop(st) && StaysTidy(st, st2, decls) && a.At? && a.r in st2.heap && InScope(st2, n, Scope(st))
      && fuel > 0
    ensures StaysTidy(st, UpdateItem(st2, Top(st2), a.r, n, fuel).0, decls)
  {
    InScopeLive(st2, n, Scope(st));
    PushedTidy(st2, a.r, n, fuel, decls);
    TidyThen(st, st2, UpdateItem(st2, Top(st2), a.r, n, fuel).0, decls);
  }

  lemma PushedTidy(st: State, r: Ref, n: Node, fuel: nat, decls: Decls)
    requires Tidy(st, decls) && r in st.heap && Live(st, n) && fuel > 0
    ensures StaysTidy(st, UpdateItem(st, Top(st), r, n, fuel).0, decls)
  {
    UpdateItemOk(st, Top(st), r, n, fuel, st.heap[r].table, st.heap[r].root);
    var st' := UpdateItem(st, Top(st), r, n, fuel).0;
    TouchedRoots(st, st', r);
    UpdateItemKeeps(st, Top(st), r, n, fuel, decls);
    SameTables(st, st', decls);
  }

  lemma TouchedRoots(st: State, st': State, r: Ref)
    requires Sound(st) && r in st.heap && Touched(st, st', st.heap[r].table, st.heap[r].root, r)
    ensures Sound(st')
  {
    assert RootOk(st.heap, st.heap[r]);
    assert SamePlace(st.heap[st.heap[r].root], st'.heap[st.heap[r].root]);
    RootsStay(st, st', st.heap[r].table, st.heap[r].root);
  }

  lemma PopBackTidy(ev: Ev, st: State, arr: Expr, decls: Decls)
    requires Contract(ev) && TidyContract(ev, decls) && Tidy(st, decls) && Plain(decls, arr)
    ensures TidyOutcome(st, EvalPopBack(ev, st, arr), decls)
  {
    if ev(st, arr).Some? {
      UseTidy(ev, st, arr, decls);
      var (st1, a) := ev(st, arr).value;
      if a.At? {
        ShortenedTidy(st1, a.r, decls);
        TidyThen(st, st1, Shortened(st1, a.r), decls);
      }
    }
  }

  lemma ShortenedTidy(st: State, r: Ref, decls: Decls)
    requires Tidy(st, decls) && r in st.heap
    ensures StaysTidy(st, Shortened(st, r), decls)
  {
    TidySame(st, decls);
    if st.heap[r].cell.Arr? && st.heap[r].cell.items != [] {
      ShortenedTouches(st, r);
      TouchedRoots(st, Shortened(st, r), r);
      ShortenedKeeps(st, r, decls);
      SameTables(st, Shortened(st, r), decls);
    }
  }

  lemma ShortenedKeeps(st: State, r: Ref, decls: Decls)
    requires r in st.heap && st.heap[r].cell.Arr? && st.heap[r].cell.items != []
    ensures KeepsTypes(st, Shortened(st, r), decls)
  {
    var items := st.heap[r].cell.items;
    CellKeeps(st, r, st.heap[r].cell.(items := items[..|items| - 1]), decls);
  }

  lemma ShortenedTouches(st: State, r: Ref)
    requires Inv(st) && r in st.heap && st.heap[r].cell.Arr? && st.heap[r].cell.items != []
    ensures Touched(st, Shortened(st, r), st.heap[r].table, st.heap[r].root, r)
  {
    var items := st.heap[r].cell.items;
    assert ObjOk(st.heap, r, st.heap[r]);
    SetCellOk(st, r, st.heap[r].cell.(items := items[..|items| - 1]));
  }

  lemma CombinedTidy(st: State, a: Node, b: Node, common: bool, fuel: nat, decls: Decls)
    requires Tidy(st, decls)
    ensures TidyResult(st, Combined(st, a, b, common, fuel), decls)
  {
    TidySame(st, decls);
    if a.At? && b.At? {
      CombinedOk(st, a, b, common, fuel);
      UnionOk(st, Top(st), a.r, b.r, fuel);
      IntersectOk(st, Top(st), a.r, b.r, fuel);
      UnionFine(st, Top(st), a.r, b.r, fuel, decls);
      IntersectFine(st, Top(st), a.r, b.r, fuel, decls);
      var st' := Combined(st, a, b, common, fuel).0;
      AddsKeep(st, st', decls);
      SameTables(st, st', decls);
    }
  }

  lemma ArraysTidy(ev: Ev, st: State, first: Expr, second: Expr, common: bool, fuel: nat, decls: Decls)
    requires Contract(ev) && TidyContract(ev, decls) && Tidy(st, decls) && Plain(decls, first) && Plain(decls, second)
    ensures TidyOutcome(st, EvalArrays(ev, st, first, second, common, fuel), decls)
  {
    if ev(st, first).Some? {
      BothTidy(ev, st, first, second, decls);
      var (st1, a) := ev(st, first).value;
      if ev(st1, second).Some? {
        var (st2, b) := ev(st1, second).value;
        CombinedTidy(st2, a, b, common, fuel, decls);
        ResultThen(st, st2, Combined(st2, a, b, common, fuel), decls);
      }
    }
  }

  // ---------------------------------------------------------------- tables come and go

  lemma {:induction false} LookupLonger(tables: seq<Table>, last: Table, i: nat, name: Name)
    requires i < |tables|
    ensures Lookup(tables + [last], i, name) == Lookup(tables, i, name)
    decreases i
  {
    if name !in tables[i].names && tables[i].prev.Some? && tables[i].prev.value < i {
      LookupLonger(tables, last, tables[i].prev.value, name);
    }
  }

  lemma PushTidy(st: State, prev: nat, decls: Decls)
    requires Tidy(st, decls) && prev <= Top(st)
    ensures StaysTidy(st, PushTable(st, prev), decls)
  {
    PushTableOk(st, prev);
    var last, st' := Table(map[], Some(prev)), PushTable(st, prev);
    AddsKeep(st, st', decls);
    forall i, adt | 0 <= i < |st'.tables|
      ensures StructIn(st'.tables, i, adt) == if adt in decls then Some(decls[adt]) else None
    {
      LookupLonger(st.tables, last, if i < |st.tables| then i else prev, adt);
      assert StructIn(st.tables, if i < |st.tables| then i else prev, adt)
          == if adt in decls then Some(decls[adt]) else None;
    }
    forall i, x | 0 <= i < |st'.tables| && x in st'.tables[i].names
      ensures EntryFine(st', decls, x, st'.tables[i].names[x])
    {
      assert EntryFine(st, decls, x, st.tables[i].names[x]);
    }
  }

  /** What survives the removal of a table is what it was. */
  lemma {:induction false} IsPopped(st: State, decls: Decls, r: Ref, typ: Type)
    requires Inv(st) && r in PopTable(st).heap && Is(st, decls, r, typ)
    ensures Is(PopTable(st), decls, r, typ)
    decreases Above(st, r)
  {
    PartsAfter(st, r);
    match st.heap[r].cell
    case Atom(_) =>
    case Arr(elem, adt, items, _) =>
      forall i | 0 <= i < |items|
        ensures PartPlace(PopTable(st), r, items[i]) && Is(PopTable(st), decls, items[i], ItemType(elem, adt))
      {
        assert PartPlace(st, r, items[i]);
        IsPopped(st, decls, items[i], ItemType(elem, adt));
      }
    case Rec(adt, fields) =>
      forall k | k in fields
        ensures PartPlace(PopTable(st), r, fields[k]) && Is(PopTable(st), decls, fields[k], FieldType(decls[adt], k))
      {
        assert PartPlace(st, r, fields[k]);
        IsPopped(st, decls, fields[k], FieldType(decls[adt], k));
      }
  }

  lemma {:induction false} FinePopped(st: State, decls: Decls, r: Ref)
    requires Inv(st) && r in PopTable(st).heap && Fine(st, decls, r)
    ensures Fine(PopTable(st), decls, r)
    decreases Above(st, r)
  {
    PartsAfter(st, r);
    match st.heap[r].cell
    case Atom(_) =>
    case Arr(_, _, items, _) =>
      forall i | 0 <= i < |items| ensures PartPlace(PopTable(st), r, items[i]) && Fine(PopTable(st), decls, items[i]) {
        assert PartPlace(st, r, items[i]);
        FinePopped(st, decls, items[i]);
      }
    case Rec(adt, _) => IsPopped(st, decls, r, Type(StructT, adt, VoidT));
  }

  /** From a state to one with the same tables, by way of one with a table more. */
  lemma PopTidy(st: State, prev: nat, st2: State, scope: set<nat>, decls: Decls)
    requires Tidy(st, decls) && prev <= Top(st) && StaysTidy(PushTable(st, prev), st2, decls)
    requires NamesKept(PushTable(st, prev), st2) && HeapKept(PushTable(st, prev), st2, scope)
    ensures StaysTidy(st, PopTable(st2), decls)
  {
    PushTidy(st, prev, decls);
    PopTableOk(st, prev, st2, scope);
    KeepsThen(st, PushTable(st, prev), st2, decls);
    var st' := PopTable(st2);
    forall r, typ | Is(st, decls, r, typ) ensures Is(st', decls, r, typ) {
      assert r in PushTable(st, prev).heap && SamePlace(st.heap[r], st2.heap[r]);
      IsPopped(st2, decls, r, typ);
    }
    forall r | Fine(st, decls, r) ensures Fine(st', decls, r) {
      assert r in PushTable(st, prev).heap && SamePlace(st.heap[r], st2.heap[r]);
      FinePopped(st2, decls, r);
    }
    SameTables(st, st', decls);
  }

  lemma BlockTidy(ev: Ev, st: State, body: Expr, decls: Decls)
    requires Contract(ev) && TidyContract(ev, decls) && Tidy(st, decls) && Plain(decls, body)
    ensures TidyOutcome(st, EvalBlock(ev, st, body), decls)
  {
    PushTidy(st, Top(st), decls);
    var st1 := PushTable(st, Top(st));
    var r := ev(st1, body);
    if r.Some? {
      UseTidy(ev, st1, body, decls);
      BlockLeftTidy(st, r.value.0, decls);
    }
    BlockIs(ev, st, body, r);
  }

  lemma BlockLeftTidy(st: State, st2: State, decls: Decls)
    requires Tidy(st, decls) && StaysTidy(PushTable(st, Top(st)), st2, decls) && Kept(PushTable(st, Top(st)), st2)
    ensures HasTop(st2) && StaysTidy(st, PopTable(st2), decls)
  {
    PopTidy(st, Top(st), st2, Scope(PushTable(st, Top(st))), decls);
  }

  lemma BlockIs(ev: Ev, st: State, body: Expr, r: Outcome)
    requires HasTop(st) && ev(PushTable(st, Top(st)), body) == r && (r.Some? ==> HasTop(r.value.0))
    ensures EvalBlock(ev, st, body) == if r.None? then None else Passed(PopTable(r.value.0), r.value.1)
  {}

  // ---------------------------------------------------------------- calls

  lemma {:induction false} ParamsTidy(st: State, formals: seq<Formal>, actual: seq<Node>, fuel: nat, decls: Decls)
    requires Tidy(st, decls) && |formals| == |actual| && AllLive(st, actual)
    requires forall i :: 0 <= i < |formals| ==> formals[i].name !in decls
    ensures StaysTidy(st, AssignParams(st, formals, actual, fuel).0, decls)
    decreases |formals|
  {
    TidySame(st, decls);
    if formals != [] {
      var n := |formals| - 1;
      ParamsTidy(st, formals[..n], actual[..n], fuel, decls);
      ParamsOk(st, formals[..n], actual[..n], fuel);
      var (st1, ok) := AssignParams(st, formals[..n], actual[..n], fuel);
      if ok {
        LiveStays(st, st1, actual[n]);
        ParamTidy(st1, formals[n], actual[n], fuel, decls);
        TidyThen(st, st1, AssignParam(st1, formals[n], actual[n], fuel).0, decls);
      }
    }
  }

  lemma ParamTidy(st: State, formal: Formal, actual: Node, fuel: nat, decls: Decls)
    requires Tidy(st, decls) && Live(st, actual) && formal.name !in decls
    ensures StaysTidy(st, AssignParam(st, formal, actual, fuel).0, decls)
  {
    VariableCreateTidy(st, formal.typ, 0, formal.name, decls);
    VariableCreateOk(st, formal.typ, 0, formal.name);
    var (st1, n) := VariableCreate(st, formal.typ, 0, formal.name);
    if n != Empty {
      LiveStays(st, st1, actual);
      AssignByNameTidy(st1, formal.name, actual, fuel, decls);
      TidyThen(st, st1, VariableAssign(st1, formal.name, actual, fuel).0, decls);
    }
  }

  /** What RunBody does once there is a return variable. */
  function Entered(st1: State, f: Function, actual: seq<Node>, fuel: nat): (State, bool) {
    if f.formals == [] then (st1, true)
    else if |f.formals| != |actual| then (st1, false)
    else AssignParams(st1, f.formals, actual, fuel)
  }

  function WithReturn(st: State, f: Function): (State, Node) {
    if f.typ.kind == VoidT then (st, Other) else VariableCreate(st, f.typ, 0, RETURN_STRING)
  }

  lemma BodyIs(ev: Ev, st: State, f: Function, actual: seq<Node>, fuel: nat)
    ensures var (st1, ret) := WithReturn(st, f);
      var (st2, ok) := Entered(st1, f, actual, fuel);
      RunBody(ev, st, f, actual, fuel) ==
        if !ok then Some((st2, Empty, ret))
        else if ev(st2, f.body).None? then None
        else Some((ev(st2, f.body).value.0, ev(st2, f.body).value.1, ret))
  {}

  lemma BodyTidy(ev: Ev, st: State, f: Function, actual: seq<Node>, fuel: nat, decls: Decls)
    requires Contract(ev) && TidyContract(ev, decls) && Tidy(st, decls) && AllLive(st, actual)
      && PlainFunction(decls, f)
    ensures RunBody(ev, st, f, actual, fuel).Some? ==> StaysTidy(st, RunBody(ev, st, f, actual, fuel).value.0, decls)
  {
    BodyIs(ev, st, f, actual, fuel);
    WithReturnTidy(st, f, decls);
    var st1 := WithReturn(st, f).0;
    AllLiveStay(st, st1, actual);
    EnteredTidy(ev, st1, f, actual, fuel, decls);
    if RunBody(ev, st, f, actual, fuel).Some? { TidyThen(st, st1, RunBody(ev, st, f, actual, fuel).value.0, decls); }
  }

  lemma WithReturnTidy(st: State, f: Function, decls: Decls)
    requires Tidy(st, decls)
    ensures StaysTidy(st, WithReturn(st, f).0, decls) && Kept(st, WithReturn(st, f).0)
  {
    TidySame(st, decls);
    KeptSame(st);
    VariableCreateTidy(st, f.typ, 0, RETURN_STRING, decls);
    VariableCreateOk(st, f.typ, 0, RETURN_STRING);
  }

  lemma EnteredTidy(ev: Ev, st1: State, f: Function, actual: seq<Node>, fuel: nat, decls: Decls)
    requires Contract(ev) && TidyContract(ev, decls) && Tidy(st1, decls) && AllLive(st1, actual)
      && PlainFunction(decls, f)
    ensures var (st2, ok) := Entered(st1, f, actual, fuel);
      StaysTidy(st1, st2, decls) && (ok && ev(st2, f.body).Some? ==> StaysTidy(st1, ev(st2, f.body).value.0, decls))
  {
    TidySame(st1, decls);
    if |f.formals| == |actual| { ParamsTidy(st1, f.formals, actual, fuel, decls); }
    var (st2, ok) := Entered(st1, f, actual, fuel);
    if ok && ev(st2, f.body).Some? {
      UseTidy(ev, st2, f.body, decls);
      TidyThen(st1, st2, ev(st2, f.body).value.0, decls);
    }
  }

  lemma PerformTidy(ev: Ev, st: State, f: Function, tmp: Node, actual: seq<Node>, fuel: nat, decls: Decls)
    requires Contract(ev) && TidyContract(ev, decls) && Tidy(st, decls) && TmpOk(st, tmp) && AllLive(st, actual)
    requires PlainFunction(decls, f) && NodeFine(st, decls, tmp)
    ensures TidyOutcome(st, Perform(ev, st, f, tmp, actual, fuel), decls)
  {
    var st0 := PushTable(st, 0);
    RunTidy(ev, st, f, actual, fuel, decls);
    PerformIs(ev, st, f, tmp, actual, fuel);
    if RunBody(ev, st0, f, actual, fuel).Some? {
      var (st1, n, ret) := RunBody(ev, st0, f, actual, fuel).value;
      LeaveTidy(st, st0, st1, n, tmp, ret, fuel, decls);
    }
  }

  /** What is left of a call once the body has ended. */
  function Leave(st: State, st1: State, n: Node, tmp: Node, ret: Node, fuel: nat): (State, Node)
    requires HasTop(st)
  {
    var st2 := if tmp.At? && Top(st) < |st1.tables| then Update(st1, Top(st), tmp.r, ret, fuel).0 else st1;
    (if HasTop(st2) then PopTable(st2) else st2, CallResult(n, tmp))
  }

  lemma PerformIs(ev: Ev, st: State, f: Function, tmp: Node, actual: seq<Node>, fuel: nat)
    requires HasTop(st)
    ensures var body := RunBody(ev, PushTable(st, 0), f, actual, fuel);
      Perform(ev, st, f, tmp, actual, fuel) ==
        if body.None? then None else Some(Leave(st, body.value.0, body.value.1, tmp, body.value.2, fuel))
  {}

  lemma RunTidy(ev: Ev, st: State, f: Function, actual: seq<Node>, fuel: nat, decls: Decls)
    requires Contract(ev) && TidyContract(ev, decls) && Tidy(st, decls) && AllLive(st, actual)
      && PlainFunction(decls, f)
    ensures var st0 := PushTable(st, 0);
      RunBody(ev, st0, f, actual, fuel).Some? ==>
        var (st1, n, ret) := RunBody(ev, st0, f, actual, fuel).value;
        StaysTidy(st0, st1, decls) && Kept(st0, st1) && Live(st1, ret)
  {
    PushTidy(st, 0, decls);
    PushTableOk(st, 0);
    AllLiveStay(st, PushTable(st, 0), actual);
    BodyTidy(ev, PushTable(st, 0), f, actual, fuel, decls);
    BodyOk(ev, PushTable(st, 0), f, actual, fuel);
  }

  /** The result copied out, if there is one, and the function's table removed. */
  lemma LeaveTidy(st: State, st0: State, st1: State, n: Node, tmp: Node, ret: Node, fuel: nat, decls: Decls)
    requires Tidy(st, decls) && TmpOk(st, tmp) && st0 == PushTable(st, 0) && Kept(st0, st1) && Live(st1, ret)
    requires StaysTidy(st0, st1, decls) && NodeFine(st, decls, tmp)
    ensures TidyResult(st, Leave(st, st1, n, tmp, ret, fuel), decls)
  {
    if tmp.At? { LeaveWithResult(st, st0, st1, tmp, ret, fuel, decls); } else { LeaveWithout(st, st0, st1, decls); }
  }

  lemma LeaveWithout(st: State, st0: State, st1: State, decls: Decls)
    requires Tidy(st, decls) && st0 == PushTable(st, 0) && Kept(st0, st1) && StaysTidy(st0, st1, decls)
    ensures HasTop(st1) && StaysTidy(st, PopTable(st1), decls)
  {
    PopTidy(st, 0, st1, Scope(st0), decls);
  }

  lemma LeaveWithResult(st: State, st0: State, st1: State, tmp: Node, ret: Node, fuel: nat, decls: Decls)
    requires Tidy(st, decls) && TmpOk(st, tmp) && tmp.At? && st0 == PushTable(st, 0) && Kept(st0, st1) && Live(st1, ret)
    requires StaysTidy(st0, st1, decls)
    ensures Top(st) < |st1.tables|
    ensures var st2 := Update(st1, Top(st), tmp.r, ret, fuel).0; HasTop(st2) && StaysTidy(st, PopTable(st2), decls)
  {
    CopyOutBoth(st, st0, st1, tmp, ret, fuel, decls);
    LeaveCopied(st, st0, Update(st1, Top(st), tmp.r, ret, fuel).0, decls);
  }

  lemma LeaveCopied(st: State, st0: State, st2: State, decls: Decls)
    requires Tidy(st, decls) && HasTop(st) && st0 == PushTable(st, 0) && StaysTidy(st0, st2, decls)
    requires NamesKept(st0, st2) && HeapKept(st0, st2, {|st.tables|, 0, Top(st)})
    ensures HasTop(st2) && StaysTidy(st, PopTable(st2), decls)
  {
    PopTidy(st, 0, st2, {|st.tables|, 0, Top(st)}, decls);
  }

  lemma CopyOutBoth(st: State, st0: State, st1: State, tmp: Node, ret: Node, fuel: nat, decls: Decls)
    requires Tidy(st, decls) && TmpOk(st, tmp) && tmp.At? && st0 == PushTable(st, 0) && Kept(st0, st1) && Live(st1, ret)
    requires StaysTidy(st0, st1, decls)
    ensures Top(st) < |st1.tables| && HasTop(st0)
    ensures var st2 := Update(st1, Top(st), tmp.r, ret, fuel).0;
      NamesKept(st0, st2) && HeapKept(st0, st2, {|st.tables|, 0, Top(st)}) && StaysTidy(st0, st2, decls)
  {
    CopyOutOk(st, st0, st1, tmp, ret, fuel);
    CopyOutTidy(st, st0, st1, tmp, ret, fuel, decls);
  }

  lemma CopyOutTidy(st: State, st0: State, st1: State, tmp: Node, ret: Node, fuel: nat, decls: Decls)
    requires Tidy(st, decls) && TmpOk(st, tmp) && tmp.At? && st0 == PushTable(st, 0) && Kept(st0, st1) && Live(st1, ret)
    requires StaysTidy(st0, st1, decls) && Sound(Update(st1, Top(st), tmp.r, ret, fuel).0)
    ensures StaysTidy(st0, Update(st1, Top(st), tmp.r, ret, fuel).0, decls)
  {
    var st2 := Update(st1, Top(st), tmp.r, ret, fuel).0;
    UpdateKeeps(st1, Top(st), tmp.r, ret, fuel, decls);
    SameTables(st1, st2, decls);
    TidyThen(st0, st1, st2, decls);
  }

  lemma InvokeTidy(ev: Ev, st: State, f: Function, args: seq<Expr>, fuel: nat, decls: Decls)
    requires Contract(ev) && TidyContract(ev, decls) && Tidy(st, decls) && PlainFunction(decls, f)
      && AllPlain(decls, args)
    ensures TidyOutcome(st, EvalInvoke(ev, st, f, args, fuel), decls)
  {
    PrepareOk(ev, st, f, args);
    PrepareTidy(ev, st, f, args, decls);
    if Prepare(ev, st, f, args).Some? {
      var (st1, tmp, actual) := Prepare(ev, st, f, args).value;
      PerformTidy(ev, st1, f, tmp, actual, fuel, decls);
      OutcomeThenTidy(st, st1, Perform(ev, st1, f, tmp, actual, fuel), decls);
    }
  }

  lemma PrepareTidy(ev: Ev, st: State, f: Function, args: seq<Expr>, decls: Decls)
    requires Contract(ev) && TidyContract(ev, decls) && Tidy(st, decls) && AllPlain(decls, args)
    ensures Prepare(ev, st, f, args).Some? ==>
      var (st', tmp, actual) := Prepare(ev, st, f, args).value; StaysTidy(st, st', decls) && NodeFine(st', decls, tmp)
  {
    TidySame(st, decls);
    CreateTidy(st, f.typ, 0, decls);
    var (st1, tmp) := if f.typ.kind == VoidT then (st, Other) else CreateHere(st, f.typ, 0);
    ListTidy(ev, st1, args, decls);
    if EvalList(ev, st1, args).Some? { TidyThen(st, st1, EvalList(ev, st1, args).value.0, decls); }
  }

  lemma CallTidy(ev: Ev, st: State, name: Name, args: seq<Expr>, decls: Decls)
    requires Contract(ev) && TidyContract(ev, decls) && Tidy(st, decls) && AllPlain(decls, args)
    ensures Find(st, name).Some? && Find(st, name).value.Func? ==>
      TidyOutcome(st, ev(st, Invoke(Find(st, name).value.f, args)), decls)
  {
    LookupInChain(st.tables, Top(st), name);
    if Find(st, name).Some? && Find(st, name).value.Func? {
      var j: nat :| Holds(st.tables, Top(st), j, name);
      assert EntryFine(st, decls, name, st.tables[j].names[name]);
      var e := Invoke(Find(st, name).value.f, args);
      assert Plain(decls, e);
      if ev(st, e).Some? { UseTidy(ev, st, e, decls); }
    }
  }

  // ---------------------------------------------------------------- every program

  lemma StatementTidy(arith: Arith, ev: Ev, st: State, e: Expr, fuel: nat, decls: Decls)
    requires Contract(ev) && TidyContract(ev, decls) && Tidy(st, decls) && Plain(decls, e) && IsStatement(e)
    ensures TidyOutcome(st, Step(arith, ev, st, e, fuel), decls)
  {
    if e.Seq? { SeqTidy(ev, st, e.left, e.right, decls); }
    else if e.Block? { BlockTidy(ev, st, e.body, decls); }
    else if e.If? { IfTidy(ev, st, e.cond, e.yes, e.no, decls); }
    else if e.While? { LoopTidy(ev, st, e.cond, e.body, None, fuel, decls); }
    else if e.For? { ForTidy(ev, st, e.start, e.cond, e.step, e.body, fuel, decls); }
    else if e.Declare? { DeclaredTidy(st, e.name, Func(e.f), decls); }
    else if e.Return? { ReturnTidy(ev, st, e.e, fuel, decls); }
    else { TidySame(st, decls); }
  }

  lemma ExpressionTidy(arith: Arith, ev: Ev, st: State, e: Expr, fuel: nat, decls: Decls)
    requires Contract(ev) && TidyContract(ev, decls) && Tidy(st, decls) && Plain(decls, e) && !IsStatement(e)
    ensures TidyOutcome(st, Step(arith, ev, st, e, fuel), decls)
  {
    if e.Elem? { ElemTidy(ev, st, e.base, e.index, decls); }
    else if e.FieldRef? { FieldTidy(ev, st, e.base, e.field, decls); }
    else if e.NewVar? { NewVarTidy(ev, st, e.typ, e.name, e.size, decls); }
    else if e.NewVarInit? { NewVarInitTidy(ev, st, e.typ, e.name, e.init, fuel, decls); }
    else if e.Bin? { BinTidy(arith, ev, st, e.op, e.left, e.right, decls); }
    else if e.Assign? { AssignTidy(ev, st, e.left, e.right, fuel, decls); }
    else if e.Invoke? { InvokeTidy(ev, st, e.f, e.args, fuel, decls); }
    else if e.PushBack? { PushBackTidy(ev, st, e.arr, e.item, fuel, decls); }
    else if e.PopBack? { PopBackTidy(ev, st, e.arr, decls); }
    else if e.ArrayUnion? || e.ArrayIntersect? {
      ArraysTidy(ev, st, e.first, e.second, e.ArrayIntersect?, fuel, decls);
    }
    else if e.VarRef? { VarRefTidy(st, e.name, decls); }
    else if e.Call? { CallTidy(ev, st, e.name, e.args, decls); TidySame(st, decls); }
    else { TidySame(st, decls); }
  }

  lemma {:induction false} BelowStaysTidy(arith: Arith, fuel: nat, depth: nat, decls: Decls)
    ensures TidyContract(Below(arith, fuel, depth), decls)
    decreases depth, 1
  {
    var ev := Below(arith, fuel, depth);
    forall st, e | Tidy(st, decls) && Plain(decls, e) ensures TidyOutcome(st, ev(st, e), decls) {
      assert ev(st, e) == Eval(arith, fuel, depth, st, e);
      EvalStaysTidy(arith, fuel, depth, st, e, decls);
    }
  }

  /**
    Evaluation of any program that leaves the struct names alone, at any depth of recursion: every variable of every
    scope still stands for a regular value, whatever type a node was of it still is, and a node that is returned stands
    for a regular value.
   */
  lemma {:induction false} EvalStaysTidy(arith: Arith, fuel: nat, depth: nat, st: State, e: Expr, decls: Decls)
    requires Tidy(st, decls) && Plain(decls, e)
    ensures TidyOutcome(st, Eval(arith, fuel, depth, st, e), decls)
    decreases depth, 0
  {
    if depth == 0 {
      TidySame(st, decls);
    } else {
      BelowMeetsContract(arith, fuel, depth - 1);
      BelowStaysTidy(arith, fuel, depth - 1, decls);
      LevelTidy(arith, fuel, depth, st, e, decls);
    }
  }

  lemma LevelTidy(arith: Arith, fuel: nat, depth: nat, st: State, e: Expr, decls: Decls)
    requires depth > 0 && Tidy(st, decls) && Plain(decls, e)
    requires Contract(Below(arith, fuel, depth - 1)) && TidyContract(Below(arith, fuel, depth - 1), decls)
    ensures TidyOutcome(st, Eval(arith, fuel, depth, st, e), decls)
  {
    StepTidy(arith, Below(arith, fuel, depth - 1), st, e, fuel, decls);
  }

  lemma StepTidy(arith: Arith, ev: Ev, st: State, e: Expr, fuel: nat, decls: Decls)
    requires Contract(ev) && TidyContract(ev, decls) && Tidy(st, decls) && Plain(decls, e)
    ensures TidyOutcome(st, Step(arith, ev, st, e, fuel), decls)
  {
    if IsStatement(e) {
      StatementTidy(arith, ev, st, e, fuel, decls);
    } else {
      ExpressionTidy(arith, ev, st, e, fuel, decls);
    }
  }

  /** Struct definitions alone make a state to begin with. */
  lemma DefinitionsAreTidy(st: State, decls: Decls)
    requires st.tables == [Table(map adt | adt in decls :: Struct(decls[adt]), None)] && st.heap == map[]
    requires RETURN_STRING !in decls
    ensures Tidy(st, decls)
  {
    forall i, adt | 0 <= i < |st.tables|
      ensures StructIn(st.tables, i, adt) == if adt in decls then Some(decls[adt]) else None
    {
      assert Lookup(st.tables, 0, adt) == if adt in decls then Some(Struct(decls[adt])) else None;
    }
  }

  /**
    What a run can assign. In every state a run leads to, any two different variables are ready for an assignment
    between them, so that AssignmentCopies and AssignmentDecided apply to it.
   */
  lemma VariablesReady(arith: Arith, fuel: nat, depth: nat, st: State, e: Expr, decls: Decls, r: Ref, q: Ref)
    requires Tidy(st, decls) && Plain(decls, e) && Eval(arith, fuel, depth, st, e).Some?
    requires var st' := Eval(arith, fuel, depth, st, e).value.0; IsVariable(st', r) && IsVariable(st', q) && r != q
    ensures var st' := Eval(arith, fuel, depth, st, e).value.0;
      && Inv(st') && r in st'.heap && q in st'.heap && HasTop(st')
      && Ready(st', Top(st'), r, ValueOf(st', r), q, ValueOf(st', q), decls)
  {
    EvalStaysTidy(arith, fuel, depth, st, e, decls);
    var st' := Eval(arith, fuel, depth, st, e).value.0;
    VariableValue(st', r, decls);
    VariableValue(st', q, decls);
    FootPlace(st', r, ValueOf(st', r));
    FootPlace(st', q, ValueOf(st', q));
    ValuesAreTrees(st', r, ValueOf(st', r));
  }

  ghost predicate IsVariable(st: State, r: Ref) {
    exists i, x :: 0 <= i < |st.tables| && x in st.tables[i].names && st.tables[i].names[x] == Var(r)
  }

  lemma VariableValue(st: State, r: Ref, decls: Decls)
    requires Tidy(st, decls) && IsVariable(st, r)
    ensures r in st.heap && st.heap[r].root == r && Regular(decls, ValueOf(st, r))
  {
    var i, x :| 0 <= i < |st.tables| && x in st.tables[i].names && st.tables[i].names[x] == Var(r);
    assert EntryFine(st, decls, x, st.tables[i].names[x]);
    FineIsRegular(st, decls, r, ValueOf(st, r));
  }

  // ---------------------------------------------------------------- what a call returns

  lemma ReturnDeclared(st: State, f: Function)
    requires Sound(st)
    ensures var (st1, ret) := WithReturn(st, f);
      && Kept(st, st1)
      && (ret.At? ==> ret.r !in st.heap && RETURN_STRING in st1.tables[Top(st1)].names
                      && st1.tables[Top(st1)].names[RETURN_STRING] == Var(ret.r))
  {
    KeptSame(st);
    VariableCreateOk(st, f.typ, 0, RETURN_STRING);
    CreateHereOk(st, f.typ, 0);
  }

  /** The return variable is one of the function's own. */
  lemma ReturnVariable(ev: Ev, st: State, f: Function, actual: seq<Node>, fuel: nat)
    requires Contract(ev) && Sound(st) && AllLive(st, actual)
    ensures RunBody(ev, st, f, actual, fuel).Some? ==>
      var (st', n, ret) := RunBody(ev, st, f, actual, fuel).value;
      ret.At? ==> ret.r !in st.heap && IsVariable(st', ret.r)
  {
    BodyIs(ev, st, f, actual, fuel);
    ReturnDeclared(st, f);
    var (st1, ret) := WithReturn(st, f);
    AllLiveStay(st, st1, actual);
    EnteredKeeps(ev, st1, f, actual, fuel);
    if ret.At? && RunBody(ev, st, f, actual, fuel).Some? {
      var st' := RunBody(ev, st, f, actual, fuel).value.0;
      assert st'.tables[Top(st1)].names[RETURN_STRING] == Var(ret.r);
    }
  }

  lemma EnteredKeeps(ev: Ev, st1: State, f: Function, actual: seq<Node>, fuel: nat)
    requires Contract(ev) && Sound(st1) && AllLive(st1, actual)
    ensures var (st2, ok) := Entered(st1, f, actual, fuel);
      Kept(st1, st2) && (ok && ev(st2, f.body).Some? ==> Kept(st1, ev(st2, f.body).value.0))
  {
    KeptSame(st1);
    if |f.formals| == |actual| { ParamsOk(st1, f.formals, actual, fuel); }
    var (st2, ok) := Entered(st1, f, actual, fuel);
    if ok && ev(st2, f.body).Some? {
      Use(ev, st2, f.body);
      KeptThen(st1, st2, ev(st2, f.body).value.0);
    }
  }

  /** A value whose nodes are in a table that stays is what it was after another table has gone. */
  lemma ValueStays(st: State, r: Ref, v: Value)
    requires Inv(st) && HasTop(st) && Denotes(st.heap, r, v) && st.heap[r].table != Top(st)
    ensures Denotes(PopTable(st).heap, r, v)
  {
    FootPlace(st, r, v);
    Framed(st.heap, PopTable(st).heap, r, v);
  }

  /** What is copied out is what the return variable holds. */
  lemma CopiedOutIs(st: State, st1: State, tmp: Ref, ret: Ref, fuel: nat, decls: Decls)
    requires Tidy(st1, decls) && HasTop(st) && Top(st) < Top(st1) && tmp in st1.heap && IsVariable(st1, ret)
      && tmp != ret
    requires st1.heap[tmp].table == Top(st) && st1.heap[tmp].root == tmp && Fine(st1, decls, tmp)
    requires ret in st1.heap && Update(st1, Top(st), tmp, At(ret), fuel).1
    ensures var st2 := Update(st1, Top(st), tmp, At(ret), fuel).0;
      Inv(st2) && Denotes(PopTable(st2).heap, tmp, ValueOf(st1, ret))
  {
    var u, v := ValueOf(st1, tmp), ValueOf(st1, ret);
    FineIsRegular(st1, decls, tmp, u);
    VariableValue(st1, ret, decls);
    FootPlace(st1, tmp, u);
    FootPlace(st1, ret, v);
    ValuesAreTrees(st1, tmp, u);
    UpdateCopies(st1, Top(st), tmp, u, ret, v, fuel, decls);
    UpdateOk(st1, Top(st), tmp, At(ret), fuel, Top(st), tmp);
    var st2 := Update(st1, Top(st), tmp, At(ret), fuel).0;
    assert SamePlace(st1.heap[tmp], st2.heap[tmp]);
    ValueStays(st2, tmp, v);
  }

  /**
    What a call returns. If copying out succeeds, the caller's result node stands for exactly the value the function's
    return variable had when its body ended, although that variable and all of its nodes are gone by then.
   */
  lemma CallReturnsItsResult(arith: Arith, fuel: nat, depth: nat, st: State, f: Function, tmp: Node, actual: seq<Node>,
                             decls: Decls)
    requires Tidy(st, decls) && TmpOk(st, tmp) && tmp.At? && Fine(st, decls, tmp.r) && AllLive(st, actual)
    requires PlainFunction(decls, f) && RunBody(Below(arith, fuel, depth), PushTable(st, 0), f, actual, fuel).Some?
    requires var (st1, n, ret) := RunBody(Below(arith, fuel, depth), PushTable(st, 0), f, actual, fuel).value;
      ret.At? && Top(st) < |st1.tables| && Update(st1, Top(st), tmp.r, ret, fuel).1
    ensures var (st1, n, ret) := RunBody(Below(arith, fuel, depth), PushTable(st, 0), f, actual, fuel).value;
      var r := Perform(Below(arith, fuel, depth), st, f, tmp, actual, fuel);
      && Inv(st1) && ret.r in st1.heap && r.Some?
      && Denotes(r.value.0.heap, tmp.r, ValueOf(st1, ret.r))
      && (r.value.1 == tmp <==> n != BreakTok && n != ContinueTok)
  {
    var ev, st0 := Below(arith, fuel, depth), PushTable(st, 0);
    BelowMeetsContract(arith, fuel, depth);
    BelowStaysTidy(arith, fuel, depth, decls);
    RunTidy(ev, st, f, actual, fuel, decls);
    PushTableOk(st, 0);
    AllLiveStay(st, st0, actual);
    ReturnVariable(ev, st0, f, actual, fuel);
    var (st1, n, ret) := RunBody(ev, st0, f, actual, fuel).value;
    PushTidy(st, 0, decls);
    VariableValue(st1, ret.r, decls);
    assert SamePlace(st0.heap[tmp.r], st1.heap[tmp.r]);
    CopiedOutIs(st, st1, tmp.r, ret.r, fuel, decls);
    PerformIs(ev, st, f, tmp, actual, fuel);
  }
}
