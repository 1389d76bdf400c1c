/** eval as it runs, on the tables and nodes of a ParserState; each method does what its function in MqlEval says. */
module ParserEvals {
  import opened Base
  import opened MqlState
  import opened MqlUpdate
  import opened MqlEval
  import opened MqlScope
  import opened MqlCalls
  import opened ParserStates
  import opened ParserArrays

  /**
    Arithmetic, the bound on loops, and the levels of recursion left: what an evaluation is given besides the state.
   */
  datatype Limits = Limits(arith: Arith, fuel: nat, depth: nat)
  {
    /** The evaluator these limits describe. */
    function Ev(): Ev {
      Below(arith, fuel, depth)
    }
  }

  lemma EvKeeps(lim: Limits, st: State, e: Expr)
    requires Sound(st) && lim.Ev()(st, e).Some?
    ensures Good(st, lim.Ev()(st, e).value)
    ensures Contract(lim.Ev())
  {
    BelowMeetsContract(lim.arith, lim.fuel, lim.depth);
    Use(lim.Ev(), st, e);
  }

  lemma EvIsEval(lim: Limits, st: State, e: Expr)
    ensures lim.Ev()(st, e) == Eval(lim.arith, lim.fuel, lim.depth, st, e)
    ensures lim.depth > 0 ==>
      lim.Ev()(st, e) == Step(lim.arith, lim.(depth := lim.depth - 1).Ev(), st, e, lim.fuel)
  {}

  /** One node of the program. The run must be one in which no loop exhausts its bound. */
  method EvalNode(ps: ParserState, lim: Limits, e: Expr) returns (n: Node)
    requires Sound(ps.S()) && lim.Ev()(ps.S(), e).Some?
    modifies ps
    ensures Sound(ps.S()) && Some((ps.S(), n)) == lim.Ev()(old(ps.S()), e)
    decreases lim.depth, 2, 0
  {
    ghost var st := ps.S();
    EvKeeps(lim, st, e);
    EvIsEval(lim, st, e);
    if lim.depth == 0 {
      return Empty;
    }
    n := EvalStep(ps, lim.(depth := lim.depth - 1), e);
  }

  method EvalStep(ps: ParserState, lim: Limits, e: Expr) returns (n: Node)
    requires Sound(ps.S()) && Step(lim.arith, lim.Ev(), ps.S(), e, lim.fuel).Some?
    modifies ps
    ensures Some((ps.S(), n)) == Step(lim.arith, lim.Ev(), old(ps.S()), e, lim.fuel)
    decreases lim.depth, 4, 1
  {
    if IsStatement(e) {
      n := EvalStatement(ps, lim, e);
    } else {
      n := EvalExpression(ps, lim, e);
    }
  }

  method EvalStatement(ps: ParserState, lim: Limits, e: Expr) returns (n: Node)
    requires Sound(ps.S()) && IsStatement(e) && Step(lim.arith, lim.Ev(), ps.S(), e, lim.fuel).Some?
    modifies ps
    ensures Some((ps.S(), n)) == Step(lim.arith, lim.Ev(), old(ps.S()), e, lim.fuel)
    decreases lim.depth, 4, 0
  {
    if e.Seq? {
      n := RunSeq(ps, lim, e.left, e.right);
    } else if e.Block? {
      n := RunBlock(ps, lim, e.body);
    } else if e.If? {
      n := RunIf(ps, lim, e.cond, e.yes, e.no);
    } else if e.While? {
      n := RunLoop(ps, lim, e.cond, e.body, None);
    } else if e.For? {
      EvKeeps(lim, ps.S(), e.start);
      var _ := EvalNode(ps, lim, e.start);
      n := RunLoop(ps, lim, e.cond, e.body, Some(e.step));
    } else if e.Declare? {
      var _ := ps.InsertName(e.name, Func(e.f));
      n := Empty;
    } else if e.DefStruct? {
      var _ := ps.InsertName(e.name, Struct(e.fields));
      n := Empty;
    } else if e.Return? {
      var v := EvalNode(ps, lim, e.e);
      if v != Empty {
        var _ := AssignByName(ps, RETURN_STRING, v, lim.fuel);
      }
      n := ReturnTok;
    } else {
      n := if e.Break? then BreakTok else ContinueTok;
    }
  }

  method RunSeq(ps: ParserState, lim: Limits, left: Expr, right: Expr) returns (n: Node)
    requires Sound(ps.S()) && EvalSeq(lim.Ev(), ps.S(), left, right).Some?
    modifies ps
    ensures Some((ps.S(), n)) == EvalSeq(lim.Ev(), old(ps.S()), left, right)
    decreases lim.depth, 3, 0
  {
    n := EvalNode(ps, lim, right);
    if !IsToken(n) {
      n := EvalNode(ps, lim, left);
      n := if IsToken(n) then n else Empty;
    }
  }

  method RunBlock(ps: ParserState, lim: Limits, body: Expr) returns (n: Node)
    requires Sound(ps.S()) && EvalBlock(lim.Ev(), ps.S(), body).Some?
    modifies ps
    ensures Some((ps.S(), n)) == EvalBlock(lim.Ev(), old(ps.S()), body)
    decreases lim.depth, 3, 0
  {
    PushTableOk(ps.S(), Top(ps.S()));
    ps.NewContext();
    n := EvalNode(ps, lim, body);
    ps.RemoveVarTable();
    n := if IsToken(n) then n else Empty;
  }

  method RunIf(ps: ParserState, lim: Limits, cond: Expr, yes: Expr, no: Expr) returns (n: Node)
    requires Sound(ps.S()) && EvalIf(lim.Ev(), ps.S(), cond, yes, no).Some?
    modifies ps
    ensures Some((ps.S(), n)) == EvalIf(lim.Ev(), old(ps.S()), cond, yes, no)
    decreases lim.depth, 3, 0
  {
    n := EvalNode(ps, lim, cond);
    var i := IntegerOf(ps, n);
    if i.None? {
      return Empty;
    }
    n := EvalNode(ps, lim, if i.value != 0 then yes else no);
    n := if IsToken(n) then n else Empty;
  }

  method IntegerOf(ps: ParserState, n: Node) returns (i: Option<int>)
    ensures i == IntOf(ps.S(), n)
  {
    var b := BasicValue(ps, n);
    i := if b.Some? && b.value.I? then Some(b.value.i) else None;
  }

  method BasicValue(ps: ParserState, n: Node) returns (b: Option<Basic>)
    ensures b == BasicOf(ps.S(), n)
  {
    b := if n.Value? then Some(n.b)
         else if n.At? && n.r in ps.nodes && ps.nodes[n.r].cell.Atom? then Some(ps.nodes[n.r].cell.b)
         else None;
  }

  /** The loop of while and for. */
  method RunLoop(ps: ParserState, lim: Limits, cond: Expr, body: Expr, step: Option<Expr>) returns (n: Node)
    requires Sound(ps.S()) && EvalLoop(lim.Ev(), ps.S(), cond, body, step, lim.fuel).Some?
    modifies ps
    ensures Some((ps.S(), n)) == EvalLoop(lim.Ev(), old(ps.S()), cond, body, step, lim.fuel)
    decreases lim.depth, 3, 1
  {
    ghost var whole := EvalLoop(lim.Ev(), ps.S(), cond, body, step, lim.fuel);
    ghost var turns := lim.fuel;
    var done := false;
    n := Empty;
    while !done
      invariant done ==> Some((ps.S(), n)) == whole
      invariant !done ==> Sound(ps.S()) && EvalLoop(lim.Ev(), ps.S(), cond, body, step, turns) == whole
      decreases if done then 0 else turns + 1
    {
      done, n := RunTurn(ps, lim, cond, body, step, turns);
      if !done {
        turns := turns - 1;
      }
    }
  }

  /** The condition and one turn; done when the loop is over. */
  method RunTurn(ps: ParserState, lim: Limits, cond: Expr, body: Expr, step: Option<Expr>, ghost turns: nat)
    returns (done: bool, n: Node)
    requires Sound(ps.S()) && EvalLoop(lim.Ev(), ps.S(), cond, body, step, turns).Some?
    modifies ps
    ensures done ==> Some((ps.S(), n)) == EvalLoop(lim.Ev(), old(ps.S()), cond, body, step, turns)
    ensures !done ==> turns > 0 && Sound(ps.S())
    ensures !done ==>
      EvalLoop(lim.Ev(), old(ps.S()), cond, body, step, turns) ==
        EvalLoop(lim.Ev(), ps.S(), cond, body, step, turns - 1)
    decreases lim.depth, 3, 0
  {
    ghost var st := ps.S();
    var c := EvalNode(ps, lim, cond);
    var i := IntegerOf(ps, c);
    if i.None? || i.value == 0 {
      return true, Empty;
    }
    ghost var st1 := ps.S();
    TurnUnfolds(lim.Ev(), st, cond, body, step, turns, st1, c);
    n := EvalNode(ps, lim, body);
    if n == ReturnTok {
      return true, n;
    } else if n == BreakTok {
      return true, Empty;
    }
    if step.Some? {
      var _ := EvalNode(ps, lim, step.value);
    }
    done := false;
  }

  lemma TurnUnfolds(ev: Ev, st: State, cond: Expr, body: Expr, step: Option<Expr>, turns: nat, st1: State, c: Node)
    requires ev(st, cond) == Some((st1, c)) && IntOf(st1, c).Some? && IntOf(st1, c).value != 0
    requires EvalLoop(ev, st, cond, body, step, turns).Some?
    ensures turns > 0 && ev(st1, body).Some?
    ensures EvalLoop(ev, st, cond, body, step, turns)
         == AfterTurn(ev, ev(st1, body).value.0, ev(st1, body).value.1, cond, body, step, turns)
  {}

  // ---------------------------------------------------------------- expressions

  method EvalExpression(ps: ParserState, lim: Limits, e: Expr) returns (n: Node)
    requires Sound(ps.S()) && !IsStatement(e) && Step(lim.arith, lim.Ev(), ps.S(), e, lim.fuel).Some?
    modifies ps
    ensures Some((ps.S(), n)) == Step(lim.arith, lim.Ev(), old(ps.S()), e, lim.fuel)
    decreases lim.depth, 4, 0
  {
    n := Empty;
    if e.Const? {
      n := Value(e.b);
    } else if e.VarRef? {
      n := NamedNode(ps, e.name);
    } else if e.Elem? {
      var access := EvalNode(ps, lim, e.index);
      var arr := EvalNode(ps, lim, e.base);
      var i := IntegerOf(ps, access);
      if arr.At? && arr.r in ps.nodes && ps.nodes[arr.r].cell.Arr? && i.Some?
         && 0 <= i.value < |ps.nodes[arr.r].cell.items| {
        n := At(ps.nodes[arr.r].cell.items[i.value]);
      }
    } else if e.FieldRef? {
      var rec := EvalNode(ps, lim, e.base);
      if rec.At? && rec.r in ps.nodes && ps.nodes[rec.r].cell.Rec? && e.field in ps.nodes[rec.r].cell.fields {
        n := At(ps.nodes[rec.r].cell.fields[e.field]);
      }
    } else if e.Bin? {
      n := RunBin(ps, lim, e.op, e.left, e.right);
    } else if e.Assign? {
      n := RunAssign(ps, lim, e.left, e.right);
    } else {
      n := EvalAction(ps, lim, e);
    }
  }

  predicate IsAction(e: Expr) {
    e.NewVar? || e.NewVarInit? || e.Call? || e.Invoke? || e.PushBack? || e.PopBack? || e.ArrayUnion?
    || e.ArrayIntersect? || e.Nothing?
  }

  method EvalAction(ps: ParserState, lim: Limits, e: Expr) returns (n: Node)
    requires Sound(ps.S()) && IsAction(e) && Step(lim.arith, lim.Ev(), ps.S(), e, lim.fuel).Some?
    modifies ps
    ensures Some((ps.S(), n)) == Step(lim.arith, lim.Ev(), old(ps.S()), e, lim.fuel)
    decreases lim.depth, 3, 5
  {
    n := Empty;
    if e.NewVar? {
      n := RunNewVar(ps, lim, e.typ, e.name, e.size);
    } else if e.NewVarInit? {
      n := RunNewVarInit(ps, lim, e.typ, e.name, e.init);
    } else if e.Call? {
      var f := ps.LookupFrom(|ps.varTable| - 1, e.name);
      if f.Some? && f.value.Func? {
        n := EvalNode(ps, lim, Invoke(f.value.f, e.args));
      }
    } else if e.Invoke? {
      n := RunInvoke(ps, lim, e.f, e.args);
    } else if e.PushBack? {
      RunPushBack(ps, lim, e.arr, e.item);
    } else if e.PopBack? {
      var a := EvalNode(ps, lim, e.arr);
      if a.At? && a.r in ps.nodes && ps.nodes[a.r].cell.Arr? && ps.nodes[a.r].cell.items != [] {
        var cell := ps.nodes[a.r].cell;
        ps.nodes := ps.nodes[a.r := ps.nodes[a.r].(cell := cell.(items := cell.items[..|cell.items| - 1]))];
      }
    } else if e.ArrayUnion? || e.ArrayIntersect? {
      n := RunArrays(ps, lim, e.first, e.second, e.ArrayIntersect?);
    }
  }

  method NamedNode(ps: ParserState, name: Name) returns (n: Node)
    requires Sound(ps.S())
    ensures n == AsNode(Find(ps.S(), name))
  {
    var e := ps.LookupFrom(|ps.varTable| - 1, name);
    n := AsNode(e);
  }

  method RunBin(ps: ParserState, lim: Limits, op: nat, left: Expr, right: Expr) returns (n: Node)
    requires Sound(ps.S()) && EvalBin(lim.arith, lim.Ev(), ps.S(), op, left, right).Some?
    modifies ps
    ensures Some((ps.S(), n)) == EvalBin(lim.arith, lim.Ev(), old(ps.S()), op, left, right)
    decreases lim.depth, 3, 0
  {
    var r := EvalNode(ps, lim, right);
    var l := EvalNode(ps, lim, left);
    var a := BasicValue(ps, l);
    var b := BasicValue(ps, r);
    var v := if a.Some? && b.Some? then lim.arith(op, a.value, b.value) else None;
    n := if v.Some? then Value(v.value) else Empty;
  }

  /** updateADT as the current table calls it. */
  method UpdateFromTop(ps: ParserState, dst: Node, src: Node, fuel: nat) returns (ok: bool)
    requires Sound(ps.S())
    modifies ps
    ensures (ps.S(), ok) == UpdateHere(old(ps.S()), dst, src, fuel)
  {
    if !dst.At? {
      return false;
    }
    ok := ps.UpdateADT(|ps.varTable| - 1, dst.r, src, fuel);
  }

  method AssignByName(ps: ParserState, name: Name, src: Node, fuel: nat) returns (ok: bool)
    requires Sound(ps.S())
    modifies ps
    ensures (ps.S(), ok) == VariableAssign(old(ps.S()), name, src, fuel)
  {
    var dst := NamedNode(ps, name);
    ok := UpdateFromTop(ps, dst, src, fuel);
  }

  method RunAssign(ps: ParserState, lim: Limits, left: Expr, right: Expr) returns (n: Node)
    requires Sound(ps.S()) && EvalAssign(lim.Ev(), ps.S(), left, right, lim.fuel).Some?
    modifies ps
    ensures Some((ps.S(), n)) == EvalAssign(lim.Ev(), old(ps.S()), left, right, lim.fuel)
    decreases lim.depth, 3, 0
  {
    var r := EvalNode(ps, lim, right);
    var l := EvalNode(ps, lim, left);
    if r == Empty || l == Empty {
      return Empty;
    }
    var ok := UpdateFromTop(ps, l, r, lim.fuel);
    n := if ok then l else Empty;
  }

  method CreateNode(ps: ParserState, typ: Type, size: int) returns (n: Node)
    requires Sound(ps.S())
    modifies ps
    ensures (ps.S(), n) == CreateHere(old(ps.S()), typ, size)
  {
    var r := ps.ASTCreate(|ps.varTable| - 1, ps.next, ps.next, typ, size);
    n := if r.Some? then At(r.value) else Empty;
  }

  /** variable_create. */
  method CreateVariable(ps: ParserState, typ: Type, size: int, name: Name) returns (n: Node)
    requires Sound(ps.S())
    modifies ps
    ensures (ps.S(), n) == VariableCreate(old(ps.S()), typ, size, name)
  {
    n := CreateNode(ps, typ, size);
    if n.At? {
      var ret := ps.InsertName(name, Var(n.r));
      if ret == -1 {
        n := Empty;
      }
    }
  }

  method RunNewVar(ps: ParserState, lim: Limits, typ: Type, name: Name, size: Expr) returns (n: Node)
    requires Sound(ps.S()) && EvalNewVar(lim.Ev(), ps.S(), typ, name, size).Some?
    modifies ps
    ensures Some((ps.S(), n)) == EvalNewVar(lim.Ev(), old(ps.S()), typ, name, size)
    decreases lim.depth, 3, 0
  {
    var arraySize := 0;
    if typ.kind == ArrayT {
      n := EvalNode(ps, lim, size);
      var i := IntegerOf(ps, n);
      if i.None? {
        return Empty;
      }
      arraySize := i.value;
    }
    n := CreateVariable(ps, typ, arraySize, name);
  }

  /** A list of expressions, in order. */
  method RunList(ps: ParserState, lim: Limits, es: seq<Expr>) returns (ns: seq<Node>)
    requires Sound(ps.S()) && EvalList(lim.Ev(), ps.S(), es).Some?
    modifies ps
    ensures Sound(ps.S()) && Some((ps.S(), ns)) == EvalList(lim.Ev(), old(ps.S()), es)
    decreases lim.depth, 3, 0
  {
    ghost var st := ps.S();
    ns := [];
    var i := 0;
    assert es[..0] == [];
    while i < |es|
      invariant i <= |es| && Sound(ps.S())
      invariant Some((ps.S(), ns)) == EvalList(lim.Ev(), st, es[..i])
    {
      assert es[..i + 1][..i] == es[..i];
      ListGoesOn(lim.Ev(), st, es, i + 1);
      var n := EvalNode(ps, lim, es[i]);
      ns := ns + [n];
      i := i + 1;
    }
    assert es[..i] == es;
  }

  /** A list that is evaluated to the end is evaluated up to every point. */
  lemma {:induction false} ListGoesOn(ev: Ev, st: State, es: seq<Expr>, i: nat)
    requires i <= |es| && EvalList(ev, st, es).Some?
    ensures EvalList(ev, st, es[..i]).Some?
    decreases |es|
  {
    if i == |es| {
      assert es[..i] == es;
    } else {
      assert es[..|es| - 1][..i] == es[..i];
      ListGoesOn(ev, st, es[..|es| - 1], i);
    }
  }

  method RunNewVarInit(ps: ParserState, lim: Limits, typ: Type, name: Name, init: Init) returns (n: Node)
    requires Sound(ps.S()) && EvalNewVarInit(lim.Ev(), ps.S(), typ, name, init, lim.fuel).Some?
    modifies ps
    ensures Some((ps.S(), n)) == EvalNewVarInit(lim.Ev(), old(ps.S()), typ, name, init, lim.fuel)
    decreases lim.depth, 3, 1
  {
    var v;
    if init.List? {
      var ns := RunList(ps, lim, init.es);
      v := Listed(ns);
    } else {
      v := EvalNode(ps, lim, init.e);
    }
    if v == Empty {
      return Empty;
    }
    VariableCreateOk(ps.S(), typ, 0, name);
    n := CreateVariable(ps, typ, 0, name);
    var ok := UpdateFromTop(ps, n, v, lim.fuel);
    n := if ok then n else Empty;
  }

  method RunPushBack(ps: ParserState, lim: Limits, arr: Expr, item: Expr)
    requires Sound(ps.S()) && EvalPushBack(lim.Ev(), ps.S(), arr, item, lim.fuel).Some?
    modifies ps
    ensures Some((ps.S(), Empty)) == EvalPushBack(lim.Ev(), old(ps.S()), arr, item, lim.fuel)
    decreases lim.depth, 3, 0
  {
    var a := EvalNode(ps, lim, arr);
    var n := EvalNode(ps, lim, item);
    if lim.fuel == 0 || !a.At? || a.r !in ps.nodes || !ps.nodes[a.r].cell.Arr? {
      return;
    }
    var st := State(ps.varTable, ps.nodes, ps.next, ps.budget);
    if FitsElement(st, ps.nodes[a.r].cell, n) {
      var _ := ps.AppendItem(|ps.varTable| - 1, a.r, n, lim.fuel);
    }
  }

  /** array_union and array_intersect. */
  method RunArrays(ps: ParserState, lim: Limits, first: Expr, second: Expr, common: bool) returns (n: Node)
    requires Sound(ps.S()) && EvalArrays(lim.Ev(), ps.S(), first, second, common, lim.fuel).Some?
    modifies ps
    ensures Some((ps.S(), n)) == EvalArrays(lim.Ev(), old(ps.S()), first, second, common, lim.fuel)
    decreases lim.depth, 3, 0
  {
    var a := EvalNode(ps, lim, first);
    var b := EvalNode(ps, lim, second);
    if !a.At? || !b.At? {
      return Empty;
    }
    var ret;
    if common {
      ret := ArrayIntersectOf(ps, |ps.varTable| - 1, a.r, b.r, lim.fuel);
    } else {
      ret := ArrayUnionOf(ps, |ps.varTable| - 1, a.r, b.r, lim.fuel);
    }
    n := if ret.Some? then At(ret.value) else Empty;
  }

  // ---------------------------------------------------------------- calls

  method BindParam(ps: ParserState, formal: Formal, actual: Node, fuel: nat) returns (ok: bool)
    requires Sound(ps.S())
    modifies ps
    ensures (ps.S(), ok) == AssignParam(old(ps.S()), formal, actual, fuel)
  {
    VariableCreateOk(ps.S(), formal.typ, 0, formal.name);
    var n := CreateVariable(ps, formal.typ, 0, formal.name);
    if n == Empty {
      return false;
    }
    ok := AssignByName(ps, formal.name, actual, fuel);
  }

  /** param_list_assign. */
  method BindParams(ps: ParserState, formals: seq<Formal>, actual: seq<Node>, fuel: nat) returns (ok: bool)
    requires Sound(ps.S()) && |formals| == |actual| && AllLive(ps.S(), actual)
    modifies ps
    ensures (ps.S(), ok) == AssignParams(old(ps.S()), formals, actual, fuel)
  {
    ghost var st := ps.S();
    ok := true;
    var i := 0;
    assert formals[..0] == [] && actual[..0] == [];
    KeptSame(st);
    while i < |formals| && ok
      invariant i <= |formals| && Sound(ps.S())
      invariant (ps.S(), ok) == AssignParams(st, formals[..i], actual[..i], fuel)
    {
      assert formals[..i + 1][..i] == formals[..i] && actual[..i + 1][..i] == actual[..i];
      ParamsOk(st, formals[..i + 1], actual[..i + 1], fuel);
      ok := BindParam(ps, formals[i], actual[i], fuel);
      i := i + 1;
    }
    ParamsStop(st, formals, actual, fuel, i);
  }

  lemma {:induction false} ParamsStop(st: State, formals: seq<Formal>, actual: seq<Node>, fuel: nat, i: nat)
    requires |formals| == |actual| && i <= |formals|
    requires i == |formals| || !AssignParams(st, formals[..i], actual[..i], fuel).1
    ensures AssignParams(st, formals, actual, fuel) == AssignParams(st, formals[..i], actual[..i], fuel)
    decreases |formals|
  {
    if i == |formals| {
      assert formals[..i] == formals && actual[..i] == actual;
    } else {
      var n := |formals| - 1;
      assert formals[..n][..i] == formals[..i] && actual[..n][..i] == actual[..i];
      ParamsStop(st, formals[..n], actual[..n], fuel, i);
    }
  }

  method RunFunction(ps: ParserState, lim: Limits, f: Function, actual: seq<Node>) returns (n: Node, ret: Node)
    requires Sound(ps.S()) && AllLive(ps.S(), actual) && RunBody(lim.Ev(), ps.S(), f, actual, lim.fuel).Some?
    modifies ps
    ensures Some((ps.S(), n, ret)) == RunBody(lim.Ev(), old(ps.S()), f, actual, lim.fuel)
    decreases lim.depth, 3, 0
  {
    ghost var st := ps.S();
    VariableCreateOk(st, f.typ, 0, RETURN_STRING);
    ret := Other;
    if f.typ.kind != VoidT {
      ret := CreateVariable(ps, f.typ, 0, RETURN_STRING);
    }
    AllLiveStay(st, ps.S(), actual);
    var ok := f.formals == [];
    if f.formals != [] && |f.formals| == |actual| {
      ParamsOk(ps.S(), f.formals, actual, lim.fuel);
      ok := BindParams(ps, f.formals, actual, lim.fuel);
    }
    n := Empty;
    if ok {
      n := EvalNode(ps, lim, f.body);
    }
  }

  /** The call case. */
  method RunInvoke(ps: ParserState, lim: Limits, f: Function, args: seq<Expr>) returns (n: Node)
    requires Sound(ps.S()) && EvalInvoke(lim.Ev(), ps.S(), f, args, lim.fuel).Some?
    modifies ps
    ensures Some((ps.S(), n)) == EvalInvoke(lim.Ev(), old(ps.S()), f, args, lim.fuel)
    decreases lim.depth, 3, 2
  {
    ghost var st := ps.S();
    BelowMeetsContract(lim.arith, lim.fuel, lim.depth);
    PrepareOk(lim.Ev(), st, f, args);
    CreateHereOk(st, f.typ, 0);
    var tmp := Other;
    if f.typ.kind != VoidT {
      tmp := CreateNode(ps, f.typ, 0);
    }
    var actual := RunList(ps, lim, args);
    n := RunPerform(ps, lim, f, tmp, actual);
  }

  method RunPerform(ps: ParserState, lim: Limits, f: Function, tmp: Node, actual: seq<Node>) returns (n: Node)
    requires Sound(ps.S()) && AllLive(ps.S(), actual) && Perform(lim.Ev(), ps.S(), f, tmp, actual, lim.fuel).Some?
    modifies ps
    ensures Some((ps.S(), n)) == Perform(lim.Ev(), old(ps.S()), f, tmp, actual, lim.fuel)
    decreases lim.depth, 3, 1
  {
    ghost var st := ps.S();
    PushTableOk(st, 0);
    BelowMeetsContract(lim.arith, lim.fuel, lim.depth);
    AllLiveStay(st, PushTable(st, 0), actual);
    BodyOk(lim.Ev(), PushTable(st, 0), f, actual, lim.fuel);
    var oldTable := ps.NewVarTable();
    var ret;
    n, ret := RunFunction(ps, lim, f, actual);
    if tmp.At? {
      var _ := ps.UpdateADT(oldTable, tmp.r, ret, lim.fuel);
    }
    ps.RemoveVarTable();
    n := CallResult(n, tmp);
  }
}
