/**
  eval: expressions, statements, scopes, loops and calls. Each case is written over the evaluator one level further
  down; Eval ties the knot. Arithmetic on basic values is a parameter.
 */
module MqlEval {
  import opened Base
  import opened MqlState
  import opened MqlUpdate
  import opened MqlArrays

  const MAX_RECURSE_COUNT: nat := 1000

  /** The symbol a return value is kept under; no program can spell it. */
  const RETURN_STRING: Name := "$RETURN_VALUE$"

  type Arith = (nat, Basic, Basic) -> Option<Basic>

  /** The evaluator one level further down; None means that a loop used up its bound. */
  type Ev = (State, Expr) -> Option<(State, Node)>

  type Outcome = Option<(State, Node)>

  predicate IsToken(n: Node) {
    n == BreakTok || n == ContinueTok || n == ReturnTok
  }

  /** A statement passes break, continue and return on and is worth nothing otherwise. */
  function Passed(st: State, n: Node): Outcome {
    Some((st, if IsToken(n) then n else Empty))
  }

  predicate HasTop(st: State) {
    st.tables != []
  }

  // ---------------------------------------------------------------- the current table

  function Find(st: State, name: Name): Option<Entry> {
    if HasTop(st) then Lookup(st.tables, Top(st), name) else None
  }

  function AsNode(e: Option<Entry>): Node {
    match e
    case None => Empty
    case Some(Var(r)) => At(r)
    case _ => Other
  }

  function CreateHere(st: State, typ: Type, size: int): (State, Node) {
    if !HasTop(st) then (st, Empty)
    else
      var (st1, o) := Create(st, Top(st), st.next, st.next, typ, size);
      (st1, if o.Some? then At(o.value) else Empty)
  }

  function UpdateHere(st: State, dst: Node, src: Node, fuel: nat): (State, bool) {
    if HasTop(st) && dst.At? then Update(st, Top(st), dst.r, src, fuel) else (st, false)
  }

  /** A name can be declared once in a table. */
  function Declared(st: State, name: Name, entry: Entry): State {
    if !HasTop(st) || name in st.tables[Top(st)].names then st
    else
      var top := st.tables[Top(st)];
      st.(tables := st.tables[Top(st) := top.(names := top.names[name := entry])])
  }

  function VariableCreate(st: State, typ: Type, size: int, name: Name): (State, Node) {
    var (st1, n) := CreateHere(st, typ, size);
    if !n.At? || !HasTop(st1) || name in st1.tables[Top(st1)].names then (st1, Empty)
    else (Declared(st1, name, Var(n.r)), n)
  }

  /** variable_assign: the variable is looked up by name. */
  function VariableAssign(st: State, name: Name, src: Node, fuel: nat): (State, bool) {
    UpdateHere(st, AsNode(Find(st, name)), src, fuel)
  }

  function PushTable(st: State, prev: nat): State {
    st.(tables := st.tables + [Table(map[], Some(prev))])
  }

  /** The last table goes, and every node it allocated. */
  function PopTable(st: State): State
    requires HasTop(st)
  {
    var kept := map r | r in st.heap && st.heap[r].table != Top(st) :: st.heap[r];
    State(st.tables[..Top(st)], kept, st.next, st.budget + |st.heap.Keys - kept.Keys|)
  }

  // ---------------------------------------------------------------- expressions

  function IntOf(st: State, n: Node): Option<int> {
    match BasicOf(st, n)
    case Some(I(i)) => Some(i)
    case _ => None
  }

  /** The index first, then the array. */
  function EvalElem(ev: Ev, st: State, base: Expr, index: Expr): Outcome {
    match ev(st, index)
    case None => None
    case Some((st1, access)) =>
      match ev(st1, base)
      case None => None
      case Some((st2, arr)) => Some((st2, ElemOf(st2, arr, IntOf(st2, access))))
  }

  function ElemOf(st: State, arr: Node, index: Option<int>): Node {
    if arr.At? && arr.r in st.heap && st.heap[arr.r].cell.Arr? && index.Some?
       && 0 <= index.value < |st.heap[arr.r].cell.items| then At(st.heap[arr.r].cell.items[index.value])
    else Empty
  }

  function EvalField(ev: Ev, st: State, base: Expr, field: Name): Outcome {
    match ev(st, base)
    case None => None
    case Some((st1, rec)) => Some((st1, FieldOf(st1, rec, field)))
  }

  function FieldOf(st: State, rec: Node, field: Name): Node {
    if rec.At? && rec.r in st.heap && st.heap[rec.r].cell.Rec? && field in st.heap[rec.r].cell.fields
    then At(st.heap[rec.r].cell.fields[field]) else Empty
  }

  /** The right operand first. */
  function EvalBin(arith: Arith, ev: Ev, st: State, op: nat, left: Expr, right: Expr): Outcome {
    match ev(st, right)
    case None => None
    case Some((st1, r)) =>
      match ev(st1, left)
      case None => None
      case Some((st2, l)) =>
        var a, b := BasicOf(st2, l), BasicOf(st2, r);
        var v := if a.Some? && b.Some? then arith(op, a.value, b.value) else None;
        Some((st2, if v.Some? then Value(v.value) else Empty))
  }

  /** The right side first; the left side must be a node of the heap. */
  function EvalAssign(ev: Ev, st: State, left: Expr, right: Expr, fuel: nat): Outcome {
    match ev(st, right)
    case None => None
    case Some((st1, r)) =>
      match ev(st1, left)
      case None => None
      case Some((st2, l)) =>
        if r == Empty || l == Empty then Some((st2, Empty))
        else
          var (st3, ok) := UpdateHere(st2, l, r, fuel);
          Some((st3, if ok then l else Empty))
  }

  // ---------------------------------------------------------------- declarations

  function EvalNewVar(ev: Ev, st: State, typ: Type, name: Name, size: Expr): Outcome {
    if typ.kind != ArrayT then Some(VariableCreate(st, typ, 0, name))
    else
      match ev(st, size)
      case None => None
      case Some((st1, n)) =>
        var i := IntOf(st1, n);
        if i.None? then Some((st1, Empty)) else Some(VariableCreate(st1, typ, i.value, name))
  }

  function EvalList(ev: Ev, st: State, es: seq<Expr>): Option<(State, seq<Node>)> {
    if es == [] then Some((st, []))
    else
      match EvalList(ev, st, es[..|es| - 1])
      case None => None
      case Some((st1, ns)) =>
        match ev(st1, es[|es| - 1])
        case None => None
        case Some((st2, n)) => Some((st2, ns + [n]))
  }

  function EvalInit(ev: Ev, st: State, init: Init): Outcome {
    match init
    case One(e) => ev(st, e)
    case List(es) =>
      match EvalList(ev, st, es)
      case None => None
      case Some((st1, ns)) => Some((st1, Listed(ns)))
  }

  /** The initial value is evaluated before the variable exists. */
  function EvalNewVarInit(ev: Ev, st: State, typ: Type, name: Name, init: Init, fuel: nat): Outcome {
    match EvalInit(ev, st, init)
    case None => None
    case Some((st1, v)) =>
      if v == Empty then Some((st1, Empty))
      else
        var (st2, n) := VariableCreate(st1, typ, 0, name);
        var (st3, ok) := UpdateHere(st2, n, v, fuel);
        Some((st3, if ok then n else Empty))
  }

  // ---------------------------------------------------------------- statements

  /** The right statement runs first. */
  function EvalSeq(ev: Ev, st: State, left: Expr, right: Expr): Outcome {
    match ev(st, right)
    case None => None
    case Some((st1, n)) =>
      if IsToken(n) then Some((st1, n))
      else
        match ev(st1, left)
        case None => None
        case Some((st2, m)) => Passed(st2, m)
  }

  function EvalBlock(ev: Ev, st: State, body: Expr): Outcome {
    if !HasTop(st) then Some((st, Empty))
    else
      match ev(PushTable(st, Top(st)), body)
      case None => None
      case Some((st1, n)) => if HasTop(st1) then Passed(PopTable(st1), n) else Some((st1, Empty))
  }

  function EvalIf(ev: Ev, st: State, cond: Expr, yes: Expr, no: Expr): Outcome {
    match ev(st, cond)
    case None => None
    case Some((st1, c)) =>
      var i := IntOf(st1, c);
      if i.None? then Some((st1, Empty))
      else
        match ev(st1, if i.value != 0 then yes else no)
        case None => None
        case Some((st2, n)) => Passed(st2, n)
  }

  /** while (cond) body; fuel bounds the number of turns. In a for loop, step runs before the condition's next test. */
  function EvalLoop(ev: Ev, st: State, cond: Expr, body: Expr, step: Option<Expr>, fuel: nat): Outcome
    decreases fuel, 1
  {
    match ev(st, cond)
    case None => None
    case Some((st1, c)) =>
      var i := IntOf(st1, c);
      if i.None? || i.value == 0 then Some((st1, Empty))
      else if fuel == 0 then None
      else
        match ev(st1, body)
        case None => None
        case Some((st2, n)) => AfterTurn(ev, st2, n, cond, body, step, fuel)
  }

  /** A continue has done its work by now. */
  function AfterTurn(ev: Ev, st: State, n: Node, cond: Expr, body: Expr, step: Option<Expr>, fuel: nat): Outcome
    requires fuel > 0
    decreases fuel, 0
  {
    if n == ReturnTok then Some((st, n))
    else if n == BreakTok then Some((st, Empty))
    else
      match Stepped(ev, st, step)
      case None => None
      case Some(st1) => EvalLoop(ev, st1, cond, body, step, fuel - 1)
  }

  function Stepped(ev: Ev, st: State, step: Option<Expr>): Option<State> {
    match step
    case None => Some(st)
    case Some(e) =>
      match ev(st, e)
      case None => None
      case Some((st1, _)) => Some(st1)
  }

  function EvalFor(ev: Ev, st: State, start: Expr, cond: Expr, step: Expr, body: Expr, fuel: nat): Outcome {
    match ev(st, start)
    case None => None
    case Some((st1, _)) => EvalLoop(ev, st1, cond, body, Some(step), fuel)
  }

  /** A failed assignment to the return value goes unnoticed. */
  function EvalReturn(ev: Ev, st: State, e: Expr, fuel: nat): Outcome {
    match ev(st, e)
    case None => None
    case Some((st1, n)) =>
      if n == Empty then Some((st1, ReturnTok))
      else Some((VariableAssign(st1, RETURN_STRING, n, fuel).0, ReturnTok))
  }

  // ---------------------------------------------------------------- arrays

  predicate FitsElement(st: State, arr: Cell, item: Node) {
    arr.Arr? &&
    if arr.elem == StructT then
      item.At? && item.r in st.heap && st.heap[item.r].cell.Rec? && arr.elemAdt == Some(st.heap[item.r].cell.adt)
    else if arr.elem == ArrayT then item.At? && item.r in st.heap && st.heap[item.r].cell.Arr?
    else
      var b := BasicOf(st, item);
      b.Some?
      && (match arr.elem case IntT => b.value.I? case DoubleT => b.value.D? case StringT => b.value.S? case _ => false)
  }

  function EvalPushBack(ev: Ev, st: State, arr: Expr, item: Expr, fuel: nat): Outcome {
    match ev(st, arr)
    case None => None
    case Some((st1, a)) =>
      match ev(st1, item)
      case None => None
      case Some((st2, n)) =>
        if !HasTop(st2) || fuel == 0 || !a.At? || a.r !in st2.heap || !FitsElement(st2, st2.heap[a.r].cell, n)
        then Some((st2, Empty))
        else Some((UpdateItem(st2, Top(st2), a.r, n, fuel).0, Empty))
  }

  function EvalPopBack(ev: Ev, st: State, arr: Expr): Outcome {
    match ev(st, arr)
    case None => None
    case Some((st1, a)) => Some((if a.At? then Shortened(st1, a.r) else st1, Empty))
  }

  function Shortened(st: State, r: Ref): State {
    if r in st.heap && st.heap[r].cell.Arr? && st.heap[r].cell.items != [] then
      var items := st.heap[r].cell.items;
      SetCell(st, r, st.heap[r].cell.(items := items[..|items| - 1]))
    else st
  }

  /** array_union, or array_intersect for the common values only. The first argument first. */
  function EvalArrays(ev: Ev, st: State, first: Expr, second: Expr, common: bool, fuel: nat): Outcome {
    match ev(st, first)
    case None => None
    case Some((st1, a)) =>
      match ev(st1, second)
      case None => None
      case Some((st2, b)) => Some(Combined(st2, a, b, common, fuel))
  }

  function Combined(st: State, a: Node, b: Node, common: bool, fuel: nat): (State, Node) {
    if !HasTop(st) || !a.At? || !b.At? then (st, Empty)
    else
      var (st1, o) := if common then IntersectNodes(st, Top(st), a.r, b.r, fuel)
        else UnionNodes(st, Top(st), a.r, b.r, fuel);
      (st1, if o.Some? then At(o.value) else Empty)
  }

  // ---------------------------------------------------------------- calls

  /** Before the call proper: a node for the result in the caller's table, and the arguments. */
  function Prepare(ev: Ev, st: State, f: Function, args: seq<Expr>): Option<(State, Node, seq<Node>)> {
    var (st1, tmp) := if f.typ.kind == VoidT then (st, Other) else CreateHere(st, f.typ, 0);
    match EvalList(ev, st1, args)
    case None => None
    case Some((st2, actual)) => Some((st2, tmp, actual))
  }

  /** param_list_assign: each formal parameter becomes a variable and gets a copy of the argument. */
  function AssignParams(st: State, formals: seq<Formal>, actual: seq<Node>, fuel: nat): (State, bool)
    requires |formals| == |actual|
    decreases |formals|
  {
    if formals == [] then (st, true)
    else
      var n := |formals| - 1;
      var (st1, ok) := AssignParams(st, formals[..n], actual[..n], fuel);
      if !ok then (st1, false) else AssignParam(st1, formals[n], actual[n], fuel)
  }

  function AssignParam(st: State, formal: Formal, actual: Node, fuel: nat): (State, bool) {
    var (st1, n) := VariableCreate(st, formal.typ, 0, formal.name);
    if n == Empty then (st1, false) else VariableAssign(st1, formal.name, actual, fuel)
  }

  /** The function's own table: the return value, the parameters, the body. */
  function RunBody(ev: Ev, st: State, f: Function, actual: seq<Node>, fuel: nat): Option<(State, Node, Node)> {
    var (st1, ret) := if f.typ.kind == VoidT then (st, Other) else VariableCreate(st, f.typ, 0, RETURN_STRING);
    var (st2, ok) := if f.formals == [] then (st1, true)
                     else if |f.formals| != |actual| then (st1, false)
                     else AssignParams(st1, f.formals, actual, fuel);
    if !ok then Some((st2, Empty, ret))
    else
      match ev(st2, f.body)
      case None => None
      case Some((st3, n)) => Some((st3, n, ret))
  }

  /**
    From the evaluated arguments to the end: a new table that sees only the globals, the body, the result copied out.
   */
  function Perform(ev: Ev, st: State, f: Function, tmp: Node, actual: seq<Node>, fuel: nat): Outcome {
    if !HasTop(st) then Some((st, Empty))
    else
      match RunBody(ev, PushTable(st, 0), f, actual, fuel)
      case None => None
      case Some((st1, n, ret)) =>
        var st2 := if tmp.At? && Top(st) < |st1.tables| then Update(st1, Top(st), tmp.r, ret, fuel).0 else st1;
        Some((if HasTop(st2) then PopTable(st2) else st2, CallResult(n, tmp)))
  }

  /** Break and continue are errors here, and no token leaves a call. */
  function CallResult(n: Node, tmp: Node): Node {
    if n == ContinueTok || n == BreakTok || !tmp.At? then Empty else tmp
  }

  function EvalInvoke(ev: Ev, st: State, f: Function, args: seq<Expr>, fuel: nat): Outcome {
    match Prepare(ev, st, f, args)
    case None => None
    case Some((st1, tmp, actual)) => Perform(ev, st1, f, tmp, actual, fuel)
  }

  // ---------------------------------------------------------------- eval

  function Step(arith: Arith, ev: Ev, st: State, e: Expr, fuel: nat): Outcome {
    match e
    case Nothing => Some((st, Empty))
    case Const(b) => Some((st, Value(b)))
    case VarRef(name) => Some((st, AsNode(Find(st, name))))
    case Elem(base, index) => EvalElem(ev, st, base, index)
    case FieldRef(base, field) => EvalField(ev, st, base, field)
    case NewVar(typ, name, size) => EvalNewVar(ev, st, typ, name, size)
    case NewVarInit(typ, name, init) => EvalNewVarInit(ev, st, typ, name, init, fuel)
    case Seq(left, right) => EvalSeq(ev, st, left, right)
    case Block(body) => EvalBlock(ev, st, body)
    case Bin(op, left, right) => EvalBin(arith, ev, st, op, left, right)
    case Assign(left, right) => EvalAssign(ev, st, left, right, fuel)
    case If(cond, yes, no) => EvalIf(ev, st, cond, yes, no)
    case While(cond, body) => EvalLoop(ev, st, cond, body, None, fuel)
    case For(start, cond, step, body) => EvalFor(ev, st, start, cond, step, body, fuel)
    case Break => Some((st, BreakTok))
    case Continue => Some((st, ContinueTok))
    case Declare(name, f) => Some((Declared(st, name, Func(f)), Empty))
    case Call(name, args) =>
      (match Find(st, name)
       case Some(Func(f)) => ev(st, Invoke(f, args))
       case _ => Some((st, Empty)))
    case Invoke(f, args) => EvalInvoke(ev, st, f, args, fuel)
    case Return(e1) => EvalReturn(ev, st, e1, fuel)
    case DefStruct(name, fields) => Some((Declared(st, name, Struct(fields)), Empty))
    case PushBack(arr, item) => EvalPushBack(ev, st, arr, item, fuel)
    case PopBack(arr) => EvalPopBack(ev, st, arr)
    case ArrayUnion(first, second) => EvalArrays(ev, st, first, second, false, fuel)
    case ArrayIntersect(first, second) => EvalArrays(ev, st, first, second, true, fuel)
  }

  /** depth is how many levels of recursion are left; beyond the last everything is Empty. */
  function Eval(arith: Arith, fuel: nat, depth: nat, st: State, e: Expr): Outcome
    decreases depth, 0
  {
    if depth == 0 then Some((st, Empty))
    else Step(arith, Below(arith, fuel, depth - 1), st, e, fuel)
  }

  function Below(arith: Arith, fuel: nat, depth: nat): Ev
    decreases depth, 1
  {
    (st: State, e: Expr) => Eval(arith, fuel, depth, st, e)
  }

  /** eval as the program starts it. */
  function Run(arith: Arith, fuel: nat, st: State, e: Expr): Outcome {
    Eval(arith, fuel, MAX_RECURSE_COUNT + 1, st, e)
  }
}
