/** Parameters: each one is a variable of the function's own table and holds the value of its own argument. */
module MqlBinding {
  import opened Base
  import opened MqlState
  import opened MqlUpdate
  import opened MqlEval
  import opened MqlScope
  import opened MqlCalls
  import opened MqlValues
  import opened MqlCopy
  import opened MqlAssign
  import opened MqlTrees
  import opened MqlTidy
  import opened MqlRuns
  import opened MqlCosts
  import opened MqlDefaults

  /** What the result of an expression stands for. */
  ghost predicate Stands(st: State, n: Node, v: MqlValues.Value) {
    match n
    case At(r) => Denotes(st.heap, r, v)
    case Value(b) => v == VAtom(b)
    case _ => false
  }

  /** The nodes it is made of. */
  ghost function Made(st: State, n: Node, v: MqlValues.Value): set<Ref>
    requires Stands(st, n, v)
  {
    if n.At? then Foot(st.heap, n.r, v) else {}
  }

  lemma StandsStill(st: State, st': State, n: Node, v: MqlValues.Value)
    requires Stands(st, n, v) && OnlyIn(st.heap, st'.heap, {})
    ensures Stands(st', n, v) && Made(st', n, v) == Made(st, n, v) <= st.heap.Keys
  {
    if n.At? { Framed(st.heap, st'.heap, n.r, v); }
  }

  /** Assignment from a node or from a basic value: only the target changes, and on success it stands for the value. */
  lemma AssignStands(st: State, dst: Ref, n: Node, v: MqlValues.Value, fuel: nat, decls: Decls)
    requires Tidy(st, decls) && dst in st.heap && Fine(st, decls, dst) && Stands(st, n, v) && NodeFine(st, decls, n)
    requires Foot(st.heap, dst, ValueOf(st, dst)) !! Made(st, n, v)
    ensures Copied(st, Update(st, Top(st), dst, n, fuel), dst, ValueOf(st, dst), v)
  {
    var u := ValueOf(st, dst);
    FineIsRegular(st, decls, dst, u);
    ValuesAreTrees(st, dst, u);
    if n.At? {
      FineIsRegular(st, decls, n.r, v);
      UpdateCopies(st, Top(st), dst, u, n.r, v, fuel, decls);
    } else {
      UpdateInv(st, Top(st), dst, n, fuel);
    }
  }

  // ---------------------------------------------------------------- one parameter

  /** name is a variable of the last table that stands for v and is made of nodes that st does not have. */
  ghost predicate Received(st: State, st': State, name: Name, v: MqlValues.Value) {
    && st'.tables != [] && name in st'.tables[Top(st')].names && st'.tables[Top(st')].names[name].Var?
    && var r := st'.tables[Top(st')].names[name].r;
      Denotes(st'.heap, r, v) && forall c :: c in Foot(st'.heap, r, v) ==> c !in st.heap
  }

  /** Nothing that was there has changed, and names have only been added to the last table. */
  ghost predicate OnlyMore(st: State, st': State) {
    && OnlyIn(st.heap, st'.heap, {}) && st.tables != [] && |st'.tables| == |st.tables|
    && forall x :: x in st.tables[Top(st)].names ==>
         x in st'.tables[Top(st')].names && st'.tables[Top(st')].names[x] == st.tables[Top(st)].names[x]
  }

  lemma ReceivedStays(st: State, a: State, b: State, name: Name, v: MqlValues.Value)
    requires Received(st, a, name, v) && OnlyMore(a, b)
    ensures Received(st, b, name, v)
  {
    var r := a.tables[Top(a)].names[name].r;
    Framed(a.heap, b.heap, r, v);
  }

  lemma OnlyMoreThen(a: State, b: State, c: State)
    requires OnlyMore(a, b) && OnlyMore(b, c)
    ensures OnlyMore(a, c)
  {}

  lemma VariableCreateIs(st: State, typ: Type, size: int, name: Name)
    requires HasTop(st) && name !in st.tables[Top(st)].names
    ensures var (st1, o) := Create(st, Top(st), st.next, st.next, typ, size);
      VariableCreate(st, typ, size, name) ==
        if o.Some? then (Declared(st1, name, Var(o.value)), At(o.value)) else (st1, Empty)
  {}

  /** A new variable is a node of its own; nothing else changes. */
  lemma VariableIsNew(st: State, typ: Type, size: int, name: Name, decls: Decls)
    requires Tidy(st, decls) && name !in decls
    ensures var (st1, n) := VariableCreate(st, typ, size, name);
      && OnlyMore(st, st1)
      && (n != Empty ==>
            && n.At? && n.r in st1.heap && Fine(st1, decls, n.r) && Tidy(st1, decls)
            && name in st1.tables[Top(st1)].names && st1.tables[Top(st1)].names[name] == Var(n.r)
            && forall c :: c in Foot(st1.heap, n.r, ValueOf(st1, n.r)) ==> c !in st.heap)
  {
    CreateHereOk(st, typ, size);
    VariableCreateTidy(st, typ, size, name, decls);
    var (st1, n) := VariableCreate(st, typ, size, name);
    if n != Empty { FootIsNew(st, st1, n.r); }
  }

  /** It stands for the default value of its type; an array has the number of items asked for. */
  lemma VariableMade(st: State, typ: Type, size: int, name: Name, decls: Decls) returns (d: MqlValues.Value)
    requires Tidy(st, decls) && name !in decls && name !in st.tables[Top(st)].names
    ensures var (st1, n) := VariableCreate(st, typ, size, name);
      n != Empty ==>
        && n.At? && Tidy(st1, decls) && OnlyMore(st, st1)
        && name in st1.tables[Top(st1)].names && st1.tables[Top(st1)].names[name] == Var(n.r)
        && Tree(st.heap, st1.heap, n.r, d, {}) && HasType(decls, d, typ) && Initial(d)
        && (typ.kind == ArrayT ==> d.VArr? && |d.items| == size)
  {
    d := CreateMakesDefault(st, Top(st), st.next, st.next, typ, size, decls);
    VariableCreateIs(st, typ, size, name);
    VariableIsNew(st, typ, size, name, decls);
  }

  lemma FootIsNew(st: State, st1: State, r: Ref)
    requires Inv(st) && Inv(st1) && r in st1.heap && r >= st.next
    ensures forall c :: c in Foot(st1.heap, r, ValueOf(st1, r)) ==> c !in st.heap
  {
    FootPlace(st1, r, ValueOf(st1, r));
  }

  lemma ParamReceives(st: State, formal: Formal, actual: Node, v: MqlValues.Value, fuel: nat, decls: Decls)
    requires Tidy(st, decls) && formal.name !in decls && Stands(st, actual, v) && NodeFine(st, decls, actual)
    ensures var (st', ok) := AssignParam(st, formal, actual, fuel);
      ok ==> OnlyMore(st, st') && Received(st, st', formal.name, v)
  {
    VariableIsNew(st, formal.typ, 0, formal.name, decls);
    var (st1, n) := VariableCreate(st, formal.typ, 0, formal.name);
    if n != Empty {
      StandsStill(st, st1, actual, v);
      if actual.At? {
        FineIsRegular(st, decls, actual.r, v);
        FineIsRegular(st1, decls, actual.r, v);
      }
      AssignStands(st1, n.r, actual, v, fuel, decls);
      AssignParamIs(st, formal, actual, fuel);
      AssignedIsReceived(st, st1, formal.name, n.r, v, Update(st1, Top(st1), n.r, actual, fuel), decls);
    }
  }

  lemma AssignParamIs(st: State, formal: Formal, actual: Node, fuel: nat)
    requires var (st1, n) := VariableCreate(st, formal.typ, 0, formal.name);
      n.At? && HasTop(st1) && formal.name in st1.tables[Top(st1)].names
      && st1.tables[Top(st1)].names[formal.name] == Var(n.r)
    ensures var (st1, n) := VariableCreate(st, formal.typ, 0, formal.name);
      AssignParam(st, formal, actual, fuel) == Update(st1, Top(st1), n.r, actual, fuel)
  {}

  lemma AssignedIsReceived(st: State, st1: State, name: Name, r: Ref, v: MqlValues.Value, res: (State, bool),
                           decls: Decls)
    requires OnlyMore(st, st1) && Inv(st1) && r in st1.heap && Copied(st1, res, r, ValueOf(st1, r), v)
    requires name in st1.tables[Top(st1)].names && st1.tables[Top(st1)].names[name] == Var(r)
    requires forall c :: c in Foot(st1.heap, r, ValueOf(st1, r)) ==> c !in st.heap
    ensures OnlyMore(st, res.0) && (res.1 ==> Received(st, res.0, name, v))
  {
    var f := Foot(st1.heap, r, ValueOf(st1, r));
    OnlyInThen(st.heap, st1.heap, res.0.heap, {}, f);
    if res.1 { TreeThen(st.heap, st1.heap, res.0.heap, r, v, {}, f); }
  }

  // ---------------------------------------------------------------- all parameters

  ghost predicate AllStand(st: State, ns: seq<Node>, vs: seq<MqlValues.Value>, decls: Decls) {
    |ns| == |vs| && forall i :: 0 <= i < |ns| ==> Stands(st, ns[i], vs[i]) && NodeFine(st, decls, ns[i])
  }

  ghost predicate AllReceived(st: State, st': State, formals: seq<Formal>, vs: seq<MqlValues.Value>) {
    |formals| == |vs| && forall i :: 0 <= i < |formals| ==> Received(st, st', formals[i].name, vs[i])
  }

  lemma AllStandStill(st: State, st': State, ns: seq<Node>, vs: seq<MqlValues.Value>, decls: Decls)
    requires AllStand(st, ns, vs, decls) && OnlyIn(st.heap, st'.heap, {}) && Inv(st) && Inv(st')
    ensures AllStand(st', ns, vs, decls)
  {
    forall i | 0 <= i < |ns| ensures Stands(st', ns[i], vs[i]) && NodeFine(st', decls, ns[i]) {
      StandsStill(st, st', ns[i], vs[i]);
      if ns[i].At? {
        FineIsRegular(st, decls, ns[i].r, vs[i]);
        FineIsRegular(st', decls, ns[i].r, vs[i]);
      }
    }
  }

  lemma AllStandLive(st: State, ns: seq<Node>, vs: seq<MqlValues.Value>, decls: Decls)
    requires AllStand(st, ns, vs, decls)
    ensures AllLive(st, ns)
  {
    forall i | 0 <= i < |ns| ensures Live(st, ns[i]) {
      assert Stands(st, ns[i], vs[i]);
    }
  }

  lemma {:induction false} ParamsReceive(st: State, formals: seq<Formal>, actual: seq<Node>,
                                         vs: seq<MqlValues.Value>, fuel: nat, decls: Decls)
    requires Tidy(st, decls) && |formals| == |actual| && AllStand(st, actual, vs, decls)
    requires forall i :: 0 <= i < |formals| ==> formals[i].name !in decls
    ensures var (st', ok) := AssignParams(st, formals, actual, fuel);
      ok ==> OnlyMore(st, st') && AllReceived(st, st', formals, vs)
    decreases |formals|
  {
    if formals != [] {
      var n := |formals| - 1;
      ParamsReceive(st, formals[..n], actual[..n], vs[..n], fuel, decls);
      AllStandLive(st, actual, vs, decls);
      ParamsTidy(st, formals[..n], actual[..n], fuel, decls);
      var (st1, ok) := AssignParams(st, formals[..n], actual[..n], fuel);
      if ok { LastReceives(st, st1, formals, actual, vs, fuel, decls); }
    }
  }

  lemma LastReceives(st: State, st1: State, formals: seq<Formal>, actual: seq<Node>, vs: seq<MqlValues.Value>,
                     fuel: nat, decls: Decls)
    requires Tidy(st, decls) && Tidy(st1, decls) && |formals| == |actual| && AllStand(st, actual, vs, decls)
    requires formals != [] && formals[|formals| - 1].name !in decls && OnlyMore(st, st1)
    requires AllReceived(st, st1, formals[..|formals| - 1], vs[..|formals| - 1])
    ensures var n := |formals| - 1;
      var (st2, ok) := AssignParam(st1, formals[n], actual[n], fuel);
      ok ==> OnlyMore(st, st2) && AllReceived(st, st2, formals, vs)
  {
    var n := |formals| - 1;
    AllStandStill(st, st1, actual, vs, decls);
    ParamReceives(st1, formals[n], actual[n], vs[n], fuel, decls);
    var (st2, ok) := AssignParam(st1, formals[n], actual[n], fuel);
    if ok {
      OnlyMoreThen(st, st1, st2);
      forall i | 0 <= i < |formals| ensures Received(st, st2, formals[i].name, vs[i]) {
        if i < n {
          assert Received(st, st1, formals[..n][i].name, vs[..n][i]);
          ReceivedStays(st, st1, st2, formals[i].name, vs[i]);
        }
      }
    }
  }

  // ---------------------------------------------------------------- the call

  lemma ReturnIsNew(st: State, f: Function, decls: Decls)
    requires Tidy(st, decls)
    ensures Tidy(WithReturn(st, f).0, decls) && OnlyMore(st, WithReturn(st, f).0)
  {
    VariableCreateTidy(st, f.typ, 0, RETURN_STRING, decls);
    VariableIsNew(st, f.typ, 0, RETURN_STRING, decls);
  }

  /**
    What a function's body starts with. Unless there are too few or too many arguments, a name occurs twice or a
    parameter cannot take its argument, in which case the body is not run, the body is run in a state where each formal
    parameter names a variable of the function's own table; that variable stands for the value its argument stood for
    when all arguments had been evaluated, and shares no node with it or anything else of the caller's.
   */
  lemma BodySeesArguments(ev: Ev, st: State, f: Function, actual: seq<Node>, vs: seq<MqlValues.Value>, fuel: nat,
                          decls: Decls)
    returns (st2: State, bound: bool)
    requires Tidy(st, decls) && PlainFunction(decls, f) && AllStand(st, actual, vs, decls)
    requires forall i :: 0 <= i < |f.formals| ==> f.formals[i].name != RETURN_STRING
    ensures bound <==> (f.formals == [] || (|f.formals| == |actual|
                        && AssignParams(WithReturn(PushTable(st, 0), f).0, f.formals, actual, fuel).1))
    ensures !bound ==>
      var r := RunBody(ev, PushTable(st, 0), f, actual, fuel); r.Some? && r.value.0 == st2 && r.value.1 == Empty
    ensures bound ==>
      && |st2.tables| == |st.tables| + 1
      && (f.formals != [] ==> |f.formals| == |actual| && AllReceived(st, st2, f.formals, vs))
      && (ev(st2, f.body).None? ==> RunBody(ev, PushTable(st, 0), f, actual, fuel) == None)
      && (ev(st2, f.body).Some? ==>
            var r := RunBody(ev, PushTable(st, 0), f, actual, fuel);
            r.Some? && r.value.0 == ev(st2, f.body).value.0 && r.value.1 == ev(st2, f.body).value.1)
  {
    var st0 := PushTable(st, 0);
    PushTidy(st, 0, decls);
    BodyIs(ev, st0, f, actual, fuel);
    AllStandStill(st, st0, actual, vs, decls);
    ReturnIsNew(st0, f, decls);
    var st1 := WithReturn(st0, f).0;
    AllStandStill(st0, st1, actual, vs, decls);
    if |f.formals| == |actual| {
      ParamsReceive(st1, f.formals, actual, vs, fuel, decls);
    }
    st2, bound := Entered(st1, f, actual, fuel).0, Entered(st1, f, actual, fuel).1;
  }

  // ---------------------------------------------------------------- when binding succeeds

  /** What giving a parameter its argument takes: the variable and the copy. */
  function ParamCost(decls: Decls, typ: Type, v: MqlValues.Value, depth: nat): Option<nat> {
    Plus(CreateCost(decls, typ, 0, depth), CopyCost(decls, v, depth))
  }

  function ParamsCost(decls: Decls, formals: seq<Formal>, vs: seq<MqlValues.Value>, depth: nat): Option<nat>
    requires |formals| == |vs|
  {
    if formals == [] then Some(0)
    else
      var n := |formals| - 1;
      Plus(ParamsCost(decls, formals[..n], vs[..n], depth), ParamCost(decls, formals[n].typ, vs[n], depth))
  }

  /** The argument is of the parameter's type and not too deeply nested. */
  ghost predicate Fits(decls: Decls, formal: Formal, v: MqlValues.Value, fuel: nat) {
    formal.name !in decls && HasType(decls, v, formal.typ) && Within(v, fuel)
  }

  /** A parameter with a name of its own and a fitting argument is bound exactly when the limit allows. */
  lemma ParamDecided(st: State, formal: Formal, actual: Node, v: MqlValues.Value, fuel: nat, depth: nat, decls: Decls)
    requires Tidy(st, decls) && Stands(st, actual, v) && NodeFine(st, decls, actual) && Fits(decls, formal, v, fuel)
    requires formal.name !in st.tables[Top(st)].names && depth >= Left(st.budget)
    ensures PaidFor(st.budget, AssignParam(st, formal, actual, fuel), ParamCost(decls, formal.typ, v, depth))
  {
    var r := Create(st, Top(st), st.next, st.next, formal.typ, 0);
    CreateDecided(st, Top(st), st.next, st.next, formal.typ, 0, depth, decls);
    VariableCreateIs(st, formal.typ, 0, formal.name);
    if r.1.Some? { NewParamDecided(st, r.0, r.1.value, formal, actual, v, fuel, depth, decls); }
  }

  lemma NewParamDecided(st: State, made: State, o: Ref, formal: Formal, actual: Node, v: MqlValues.Value, fuel: nat,
                        depth: nat, decls: Decls)
    requires Tidy(st, decls) && Stands(st, actual, v) && NodeFine(st, decls, actual) && Fits(decls, formal, v, fuel)
    requires formal.name !in st.tables[Top(st)].names && depth >= Left(st.budget)
    requires (made, Some(o)) == Create(st, Top(st), st.next, st.next, formal.typ, 0)
    requires Paid(st.budget, (made, Some(o)), CreateCost(decls, formal.typ, 0, depth))
    ensures PaidFor(st.budget, AssignParam(st, formal, actual, fuel), ParamCost(decls, formal.typ, v, depth))
  {
    var d := VariableMade(st, formal.typ, 0, formal.name, decls);
    VariableCreateIs(st, formal.typ, 0, formal.name);
    AssignParamIs(st, formal, actual, fuel);
    var st1 := Declared(made, formal.name, Var(o));
    CopyDecidedHere(st, st1, o, d, actual, v, formal.typ, fuel, depth, decls);
    PaidBoth(st.budget, (made, Some(o)), CreateCost(decls, formal.typ, 0, depth),
             Update(st1, Top(st1), o, actual, fuel), CopyCost(decls, v, depth));
  }

  lemma CopyDecidedHere(st: State, st1: State, r: Ref, d: MqlValues.Value, actual: Node, v: MqlValues.Value, typ: Type,
                        fuel: nat, depth: nat, decls: Decls)
    requires Tidy(st, decls) && Tidy(st1, decls) && OnlyIn(st.heap, st1.heap, {}) && depth >= Left(st1.budget)
    requires Tree(st.heap, st1.heap, r, d, {}) && HasType(decls, d, typ) && HasType(decls, v, typ) && Within(v, fuel)
    requires Stands(st, actual, v) && NodeFine(st, decls, actual)
    ensures PaidFor(st1.budget, Update(st1, Top(st1), r, actual, fuel), CopyCost(decls, v, depth))
  {
    if actual.At? {
      NewTargetReady(st, st1, r, d, actual.r, v, typ, decls);
      AssignmentDecided(st1, Top(st1), r, d, actual.r, v, typ, fuel, depth, decls);
    } else {
      BasicTaken(st1, Top(st1), r, d, actual, v, typ, fuel, decls);
    }
  }

  lemma NewTargetReady(st: State, st1: State, r: Ref, d: MqlValues.Value, q: Ref, v: MqlValues.Value, typ: Type,
                       decls: Decls)
    requires Tidy(st, decls) && Tidy(st1, decls) && OnlyIn(st.heap, st1.heap, {})
    requires Tree(st.heap, st1.heap, r, d, {}) && HasType(decls, d, typ) && Denotes(st.heap, q, v) && Fine(st, decls, q)
    ensures Ready(st1, Top(st1), r, d, q, v, decls)
  {
    TypedIsRegular(decls, d, typ);
    StandsStill(st, st1, At(q), v);
    FineIsRegular(st, decls, q, v);
  }

  /** A basic value costs nothing. */
  lemma BasicTaken(st: State, t: nat, r: Ref, d: MqlValues.Value, n: Node, v: MqlValues.Value, typ: Type, fuel: nat,
                   decls: Decls)
    requires t < |st.tables| && Denotes(st.heap, r, d) && n.Value? && v == VAtom(n.b) && fuel > 0
    requires HasType(decls, d, typ) && HasType(decls, v, typ)
    ensures Update(st, t, r, n, fuel) == (SetCell(st, r, Atom(n.b)), true)
  {}

  lemma {:induction false} NamesAfter(st: State, formals: seq<Formal>, actual: seq<Node>, fuel: nat)
    requires HasTop(st) && |formals| == |actual|
    ensures var st' := AssignParams(st, formals, actual, fuel).0;
      |st'.tables| == |st.tables|
      && forall x :: x in st'.tables[Top(st')].names && x !in st.tables[Top(st)].names ==>
           exists i :: 0 <= i < |formals| && formals[i].name == x
    decreases |formals|
  {
    if formals != [] {
      var n := |formals| - 1;
      NamesAfter(st, formals[..n], actual[..n], fuel);
      var (st1, ok) := AssignParams(st, formals[..n], actual[..n], fuel);
      if ok { NameAfter(st1, formals[n], actual[n], fuel); }
      assert forall i :: 0 <= i < n ==> formals[..n][i] == formals[i];
    }
  }

  lemma NameAfter(st: State, formal: Formal, actual: Node, fuel: nat)
    requires HasTop(st)
    ensures var st' := AssignParam(st, formal, actual, fuel).0;
      |st'.tables| == |st.tables|
      && st'.tables[Top(st')].names.Keys <= st.tables[Top(st)].names.Keys + {formal.name}
  {}

  /** No name twice, and none in use in the table. */
  ghost predicate NewNames(st: State, formals: seq<Formal>)
    requires HasTop(st)
  {
    && (forall i :: 0 <= i < |formals| ==> formals[i].name !in st.tables[Top(st)].names)
    && forall i, j :: 0 <= i < j < |formals| ==> formals[i].name != formals[j].name
  }

  /**
    Parameters with new names and fitting arguments are bound exactly when the limit allows the nodes they and the
    copies take.
   */
  lemma {:induction false} ParamsDecided(st: State, formals: seq<Formal>, actual: seq<Node>,
                                         vs: seq<MqlValues.Value>, fuel: nat, depth: nat, decls: Decls)
    requires Tidy(st, decls) && |formals| == |actual| && AllStand(st, actual, vs, decls) && NewNames(st, formals)
    requires (forall i :: 0 <= i < |formals| ==> Fits(decls, formals[i], vs[i], fuel)) && depth >= Left(st.budget)
    ensures PaidFor(st.budget, AssignParams(st, formals, actual, fuel), ParamsCost(decls, formals, vs, depth))
    decreases |formals|
  {
    if formals != [] {
      var n := |formals| - 1;
      FrontFits(st, formals, actual, vs, fuel, decls);
      ParamsDecided(st, formals[..n], actual[..n], vs[..n], fuel, depth, decls);
      var r1 := AssignParams(st, formals[..n], actual[..n], fuel);
      LessLeft(st.budget, r1, ParamsCost(decls, formals[..n], vs[..n], depth), depth);
      if r1.1 { LastDecided(st, r1.0, formals, actual, vs, fuel, depth, decls); }
      PaidForThen(st.budget, r1, ParamsCost(decls, formals[..n], vs[..n], depth),
                  if r1.1 then AssignParam(r1.0, formals[n], actual[n], fuel) else r1,
                  ParamCost(decls, formals[n].typ, vs[n], depth));
    }
  }

  lemma FrontFits(st: State, formals: seq<Formal>, actual: seq<Node>, vs: seq<MqlValues.Value>, fuel: nat, decls: Decls)
    requires |formals| == |actual| && AllStand(st, actual, vs, decls) && HasTop(st) && NewNames(st, formals)
    requires (forall i :: 0 <= i < |formals| ==> Fits(decls, formals[i], vs[i], fuel)) && formals != []
    ensures var n := |formals| - 1;
      && AllStand(st, actual[..n], vs[..n], decls) && NewNames(st, formals[..n])
      && forall i :: 0 <= i < n ==> Fits(decls, formals[..n][i], vs[..n][i], fuel)
  {}

  lemma LastDecided(st: State, st1: State, formals: seq<Formal>, actual: seq<Node>, vs: seq<MqlValues.Value>,
                    fuel: nat, depth: nat, decls: Decls)
    requires Tidy(st, decls) && |formals| == |actual| && AllStand(st, actual, vs, decls) && NewNames(st, formals)
    requires (forall i :: 0 <= i < |formals| ==> Fits(decls, formals[i], vs[i], fuel)) && formals != []
    requires (st1, true) == AssignParams(st, formals[..|formals| - 1], actual[..|formals| - 1], fuel)
    requires depth >= Left(st1.budget)
    ensures var n := |formals| - 1;
      PaidFor(st1.budget, AssignParam(st1, formals[n], actual[n], fuel), ParamCost(decls, formals[n].typ, vs[n], depth))
  {
    var n := |formals| - 1;
    assert forall i :: 0 <= i < n ==> formals[..n][i] == formals[i] && vs[..n][i] == vs[i];
    AllStandLive(st, actual, vs, decls);
    ParamsTidy(st, formals[..n], actual[..n], fuel, decls);
    ParamsReceive(st, formals[..n], actual[..n], vs[..n], fuel, decls);
    NamesAfter(st, formals[..n], actual[..n], fuel);
    AllStandStill(st, st1, actual, vs, decls);
    ParamDecided(st1, formals[n], actual[n], vs[n], fuel, depth, decls);
  }
}
