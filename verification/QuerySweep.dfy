/** The timeout sweep: every query due at its start is timed out exactly once, whatever the others do meanwhile. */
module QuerySweep {
  import opened Base
  import opened TimerIndex
  import opened QueryTableModel

  /** The timeout of one query of the list: its handler runs, then it is deleted or listed anew. */
  function TimeOutOne(st: Table, k: QueryId, o: ObjectNumber, handler: Script): Option<Table> {
    var r := Exec(st, k, o, handler);
    if r.None? then None else UpdateTimeout(r.value, k, o)
  }

  /** One step after the other for the queries of a list. */
  function ForEach(step: (Table, QueryId) -> Option<Table>, st: Table, list: seq<QueryId>): Option<Table>
    decreases |list|
  {
    if list == [] then Some(st)
    else
      var r := step(st, list[0]);
      if r.None? then None else ForEach(step, r.value, list[1..])
  }

  /** The pointers a list of queries stands for when it is made. */
  function PointersTo(st: Table): Pointers {
    map k | k in st.queries :: st.queries[k].number
  }

  function Stepper(ptrs: Pointers, handlers: QueryId -> Script): (Table, QueryId) -> Option<Table> {
    (st: Table, k: QueryId) => if k in ptrs then TimeOutOne(st, k, ptrs[k], handlers(k)) else None
  }

  function Sweep(st: Table, list: seq<QueryId>, handlers: QueryId -> Script): Option<Table> {
    ForEach(Stepper(PointersTo(st), handlers), st, list)
  }

  /** Timeout handlers may insert queries but notify nobody. */
  predicate InsertsOnly(script: Script) {
    match script
    case Return => true
    case SetDeadline(_, next) => InsertsOnly(next)
    case Finish(next) => InsertsOnly(next)
    case Insert(_, _, next) => InsertsOnly(next)
    case Notify(_, _, _) => false
  }

  function Inserted(script: Script): set<QueryId> {
    match script
    case Return => {}
    case SetDeadline(_, next) => Inserted(next)
    case Finish(next) => Inserted(next)
    case Insert(k, _, next) => {k} + Inserted(next)
    case Notify(_, _, next) => Inserted(next)
  }

  /** What the handler makes of its own query. */
  function Outcome(query: Query, script: Script): Query
    decreases script
  {
    match script
    case Return => query
    case SetDeadline(tv, next) => Outcome(query.(deadline := tv), next)
    case Finish(next) => Outcome(query.(finished := true), next)
    case Insert(_, _, next) => Outcome(query, next)
    case Notify(_, _, next) => Outcome(query, next)
  }

  /** Handlers that only insert change their own query and add new ones. */
  ghost predicate OwnBusiness(st: Table, r: Table, q: QueryId, query: Query, added: set<QueryId>) {
    && q in r.queries && r.queries[q] == query
    && (forall j :: j != q ==> (j in r.queries <==> j in st.queries || j in added))
    && (forall j :: j != q && j in st.queries && j in r.queries ==> r.queries[j] == st.queries[j])
  }

  /** A query that was not there is a new object. */
  ghost predicate NewOnes(st: Table, r: Table) {
    r.next >= st.next
    && forall j :: j in r.queries ==> Alive(st, j, r.queries[j].number) || r.queries[j].number >= st.next
  }

  lemma {:induction false} ExecNumbers(st: Table, q: QueryId, o: ObjectNumber, script: Script)
    requires Exec(st, q, o, script).Some? && InsertsOnly(script)
    ensures NewOnes(st, Exec(st, q, o, script).value)
    decreases script
  {
    match script
    case Return =>
    case SetDeadline(tv, next) => ExecNumbers(WithQuery(st, q, st.queries[q].(deadline := tv)), q, o, next);
    case Finish(next) => ExecNumbers(WithQuery(st, q, st.queries[q].(finished := true)), q, o, next);
    case Insert(k, tv, next) =>
      ExecNumbers(InsertNewQuery(st, k, tv), q, o, next);
      NewOnesThen(st, InsertNewQuery(st, k, tv), Exec(st, q, o, script).value);
  }

  lemma NewOnesThen(st: Table, r: Table, f: Table)
    requires NewOnes(st, r) && NewOnes(r, f)
    ensures NewOnes(st, f)
  {}

  lemma {:induction false} ExecInserts(st: Table, q: QueryId, o: ObjectNumber, script: Script)
    requires Inv(st) && Settled(st, {q}) && Alive(st, q, o) && InsertsOnly(script)
    ensures Exec(st, q, o, script).Some?
    ensures var r := Exec(st, q, o, script).value;
      && Inv(r) && Settled(r, {q})
      && OwnBusiness(st, r, q, Outcome(st.queries[q], script), Inserted(script))
    decreases script
  {
    match script
    case Return =>
    case SetDeadline(tv, next) => ExecInserts(WithQuery(st, q, st.queries[q].(deadline := tv)), q, o, next);
    case Finish(next) => ExecInserts(WithQuery(st, q, st.queries[q].(finished := true)), q, o, next);
    case Insert(k, tv, next) =>
      InsertOk(st, k, tv, {q});
      ExecInserts(InsertNewQuery(st, k, tv), q, o, next);
  }

  /** Handlers do not change which object they are. */
  lemma {:induction false} SameNumber(query: Query, script: Script)
    ensures Outcome(query, script).number == query.number
    decreases script
  {
    match script
    case Return =>
    case SetDeadline(tv, next) => SameNumber(query.(deadline := tv), next);
    case Finish(next) => SameNumber(query.(finished := true), next);
    case Insert(_, _, next) => SameNumber(query, next);
    case Notify(_, _, next) => SameNumber(query, next);
  }

  /** What one timeout leaves: k as its handler decided, everybody else as they were, and the new queries. */
  ghost predicate TimedOut(st: Table, r: Table, k: QueryId, handler: Script)
    requires k in st.queries
  {
    var query := Outcome(st.queries[k], handler);
    && (k in r.queries <==> !query.finished)
    && (k in r.queries ==> r.queries[k] == query)
    && (forall j :: j != k ==> (j in r.queries <==> j in st.queries || j in Inserted(handler)))
    && (forall j :: j != k && j in st.queries ==> r.queries[j] == st.queries[j])
    && NewOnes(st, r)
  }

  lemma TimedOutFrom(st: Table, m: Table, r: Table, k: QueryId, handler: Script)
    requires k in st.queries && OwnBusiness(st, m, k, Outcome(st.queries[k], handler), Inserted(handler))
    requires r.queries == (if m.queries[k].finished then m.queries - {k} else m.queries) && r.next == m.next
    requires NewOnes(st, m)
    ensures TimedOut(st, r, k, handler)
  {}

  ghost predicate Orderly(st: Table) {
    Inv(st) && Settled(st, {})
  }

  lemma TimeOutOneOk(st: Table, k: QueryId, o: ObjectNumber, handler: Script)
    requires Orderly(st) && Alive(st, k, o) && InsertsOnly(handler)
    ensures TimeOutOne(st, k, o, handler).Some?
    ensures var r := TimeOutOne(st, k, o, handler).value; Orderly(r) && TimedOut(st, r, k, handler)
  {
    ExecThenUpdate(st, k, o, handler);
  }

  lemma ExecThenUpdate(st: Table, k: QueryId, o: ObjectNumber, handler: Script)
    requires Orderly(st) && Alive(st, k, o) && InsertsOnly(handler)
    ensures Exec(st, k, o, handler).Some? && UpdateTimeout(Exec(st, k, o, handler).value, k, o).Some?
    ensures var r := UpdateTimeout(Exec(st, k, o, handler).value, k, o).value; Orderly(r) && TimedOut(st, r, k, handler)
  {
    ExecInserts(st, k, o, handler);
    ExecNumbers(st, k, o, handler);
    SameNumber(st.queries[k], handler);
    assert {} + {k} == {k};
    AfterHandler(st, Exec(st, k, o, handler).value, k, o, handler);
  }

  lemma AfterHandler(st: Table, m: Table, k: QueryId, o: ObjectNumber, handler: Script)
    requires k in st.queries && OwnBusiness(st, m, k, Outcome(st.queries[k], handler), Inserted(handler))
    requires Inv(m) && Alive(m, k, o) && Settled(m, {} + {k}) && NewOnes(st, m)
    ensures UpdateTimeout(m, k, o).Some?
    ensures Orderly(UpdateTimeout(m, k, o).value) && TimedOut(st, UpdateTimeout(m, k, o).value, k, handler)
  {
    UpdateOk(m, k, {});
    TimedOutFrom(st, m, UpdateTimeout(m, k, o).value, k, handler);
  }

  /** The objects of the list end as their own handlers decided from their own state at the start. */
  ghost predicate EachOnce(st: Table, r: Table, list: seq<QueryId>, handlers: QueryId -> Script)
    requires forall k :: k in list ==> k in st.queries
  {
    forall k :: k in list ==> Once(st, r, k, handlers(k))
  }

  ghost predicate Once(st: Table, r: Table, k: QueryId, handler: Script)
    requires k in st.queries
  {
    var query := Outcome(st.queries[k], handler);
    (Alive(r, k, query.number) <==> !query.finished) && (Alive(r, k, query.number) ==> r.queries[k] == query)
  }

  ghost predicate OthersKept(st: Table, r: Table, list: seq<QueryId>) {
    forall j :: j in st.queries && j !in list ==> j in r.queries && r.queries[j] == st.queries[j]
  }

  /** Besides them exactly the queries that were there, and those the handlers inserted. */
  ghost predicate AddsNew(st: Table, r: Table, list: seq<QueryId>, handlers: QueryId -> Script) {
    forall j :: j !in list ==> (j in r.queries <==> j in st.queries || AddedBy(list, handlers, j))
  }

  ghost predicate AddedBy(list: seq<QueryId>, handlers: QueryId -> Script, j: QueryId) {
    exists k :: k in list && j in Inserted(handlers(k))
  }

  /** The list points to queries of the table, once each; their handlers only insert. */
  ghost predicate SweepReady(st: Table, list: seq<QueryId>, handlers: QueryId -> Script, ptrs: Pointers) {
    && Orderly(st) && Distinct(list)
    && forall k :: k in list ==>
         k in ptrs && Alive(st, k, ptrs[k]) && InsertsOnly(handlers(k))
  }

  lemma ReadyForRest(st: Table, r: Table, list: seq<QueryId>, handlers: QueryId -> Script, ptrs: Pointers)
    requires list != [] && SweepReady(st, list, handlers, ptrs)
    requires Orderly(r) && TimedOut(st, r, list[0], handlers(list[0]))
    ensures SweepReady(r, list[1..], handlers, ptrs)
  {
    assert list[0] !in list[1..];
    assert forall k :: k in list[1..] ==> k in list;
  }

  lemma AddedFirstOrLater(list: seq<QueryId>, handlers: QueryId -> Script, j: QueryId)
    requires list != []
    ensures AddedBy(list, handlers, j) <==> j in Inserted(handlers(list[0])) || AddedBy(list[1..], handlers, j)
  {
    assert forall k :: k in list <==> k == list[0] || k in list[1..];
  }

  /** What a sweep from st to f over the list amounts to. */
  ghost predicate Swept(st: Table, f: Table, list: seq<QueryId>, handlers: QueryId -> Script)
    requires forall k :: k in list ==> k in st.queries
  {
    EachOnce(st, f, list, handlers) && OthersKept(st, f, list) && AddsNew(st, f, list, handlers) && NewOnes(st, f)
  }

  lemma RestOfSweep(st: Table, r: Table, f: Table, list: seq<QueryId>, handlers: QueryId -> Script, ptrs: Pointers)
    requires list != [] && SweepReady(st, list, handlers, ptrs) && SweepReady(r, list[1..], handlers, ptrs)
    requires TimedOut(st, r, list[0], handlers(list[0])) && Swept(r, f, list[1..], handlers)
    ensures Swept(st, f, list, handlers)
  {
    var first, rest := list[0], list[1..];
    assert first !in rest;
    assert forall k :: k in list <==> k == first || k in rest;
    FirstOnce(st, r, f, first, rest, handlers);
    forall k | k in rest ensures Once(st, f, k, handlers(k)) {
      assert r.queries[k] == st.queries[k] && Once(r, f, k, handlers(k));
    }
    NewOnesThen(st, r, f);
    RestAdds(st, r, f, list, handlers);
  }

  lemma RestAdds(st: Table, r: Table, f: Table, list: seq<QueryId>, handlers: QueryId -> Script)
    requires list != [] && list[0] in st.queries
    requires TimedOut(st, r, list[0], handlers(list[0])) && AddsNew(r, f, list[1..], handlers)
    ensures AddsNew(st, f, list, handlers)
  {
    forall j | j !in list ensures j in f.queries <==> j in st.queries || AddedBy(list, handlers, j) {
      assert j !in list[1..] && j != list[0];
      AddedFirstOrLater(list, handlers, j);
    }
  }

  /** Once it has had its turn, the first query stays as it is, or stays deleted. */
  lemma FirstOnce(st: Table, r: Table, f: Table, first: QueryId, rest: seq<QueryId>, handlers: QueryId -> Script)
    requires Numbered(st) && first in st.queries && first !in rest && TimedOut(st, r, first, handlers(first))
    requires OthersKept(r, f, rest) && NewOnes(r, f)
    ensures Once(st, f, first, handlers(first))
  {
    SameNumber(st.queries[first], handlers(first));
  }

  ghost predicate StepContract(step: (Table, QueryId) -> Option<Table>, ptrs: Pointers, handlers: QueryId -> Script) {
    forall st, k :: Orderly(st) && k in ptrs && Alive(st, k, ptrs[k]) && InsertsOnly(handlers(k)) ==>
      step(st, k).Some? && Orderly(step(st, k).value) && TimedOut(st, step(st, k).value, k, handlers(k))
  }

  /** A sweep over any such list succeeds, and treats each query of the list once and nobody else. */
  lemma {:induction false} ForEachOk(step: (Table, QueryId) -> Option<Table>, st: Table, list: seq<QueryId>,
                                     handlers: QueryId -> Script, ptrs: Pointers)
    requires StepContract(step, ptrs, handlers) && SweepReady(st, list, handlers, ptrs)
    ensures ForEach(step, st, list).Some?
    ensures var f := ForEach(step, st, list).value; Orderly(f) && Swept(st, f, list, handlers)
    decreases |list|
  {
    if list != [] {
      assert list[0] in list;
      var r := step(st, list[0]).value;
      ReadyForRest(st, r, list, handlers, ptrs);
      ForEachOk(step, r, list[1..], handlers, ptrs);
      RestOfSweep(st, r, ForEach(step, r, list[1..]).value, list, handlers, ptrs);
    }
  }

  lemma StepperMeetsContract(ptrs: Pointers, handlers: QueryId -> Script)
    ensures StepContract(Stepper(ptrs, handlers), ptrs, handlers)
  {
    var step := Stepper(ptrs, handlers);
    forall st, k | Orderly(st) && k in ptrs && Alive(st, k, ptrs[k]) && InsertsOnly(handlers(k))
      ensures step(st, k).Some? && Orderly(step(st, k).value) && TimedOut(st, step(st, k).value, k, handlers(k))
    {
      TimeOutOneOk(st, k, ptrs[k], handlers(k));
    }
  }

  // ---------------------------------------------------------------- what is due

  /** The queries whose deadline has passed, each once, earlier deadlines first. */
  ghost predicate IsDueList(ix: Index<QueryId>, now: Timeval, list: seq<QueryId>) {
    && Distinct(list)
    && (forall k :: k in list <==> k in ix.due && NotAfter(ix.due[k], now))
    && (forall i, j :: 0 <= i < j < |list| && list[i] in ix.due && list[j] in ix.due ==>
          !TimeLess(ix.due[list[j]], ix.due[list[i]]))
  }

  /**
    The sweep at a clock reading: every query whose deadline is not in the future is timed out, by its own handler,
    from its own state at the start, and once; no other query is; and the table is in order afterwards.
   */
  lemma SweepTimesOutEachDueQueryOnce(st: Table, now: Timeval, list: seq<QueryId>, handlers: QueryId -> Script)
    requires Orderly(st) && IsDueList(st.ix, now, list) && now.usec < MICRO_IN_SECOND
    requires forall k :: k in list ==> InsertsOnly(handlers(k))
    ensures forall k :: k in list <==> k in st.queries && Instant(st.queries[k].deadline) <= Instant(now)
    ensures Sweep(st, list, handlers).Some?
    ensures var f := Sweep(st, list, handlers).value; Orderly(f) && Swept(st, f, list, handlers)
  {
    var ptrs := PointersTo(st);
    assert SweepReady(st, list, handlers, ptrs);
    StepperMeetsContract(ptrs, handlers);
    ForEachOk(Stepper(ptrs, handlers), st, list, handlers, ptrs);
    forall k ensures k in list <==> k in st.queries && Instant(st.queries[k].deadline) <= Instant(now) {
      if k in st.queries {
        NormalizeKeepsInstant(st.queries[k].deadline);
        DueIsChronological(st.ix.due[k], now);
      }
    }
  }

  // ---------------------------------------------------------------- timeout handlers that notify

  /** What the first loop of handleTimeout collects from the buckets of the deadlines in rest. */
  function Collected(buckets: map<Timeval, seq<QueryId>>, now: Timeval, rest: set<Timeval>): seq<QueryId>
    requires rest <= buckets.Keys
    decreases |rest|
  {
    if rest == {} then []
    else
      var t := Earliest(rest);
      (if NotAfter(t, now) then buckets[t] else []) + Collected(buckets, now, rest - {t})
  }

  /**
    What becomes of the ids during the sweep; None when a notification finishes a query whose turn is still to come.
   */
  function SweepFate(l: Life, list: seq<QueryId>, handlers: QueryId -> Script): Option<Life>
    decreases |list|
  {
    if list == [] then Some(l)
    else
      match Fate(l, Elements(list), list[0], handlers(list[0]))
      case None => None
      case Some(l1) => SweepFate(Ended(l1, list[0]), list[1..], handlers)
  }

  /** A list with a dangling pointer in it comes to grief. */
  lemma {:induction false} DanglingFails(st: Table, list: seq<QueryId>, ptrs: Pointers, handlers: QueryId -> Script,
                                         k: QueryId)
    requires Numbered(st) && k in list && k in ptrs && Dead(st, k, ptrs[k])
    ensures ForEach(Stepper(ptrs, handlers), st, list).None?
    decreases |list|
  {
    var first := list[0];
    if first in ptrs {
      DeadStays(st, first, ptrs[first], handlers(first), k, ptrs[k]);
      var m := Exec(st, first, ptrs[first], handlers(first));
      if m.Some? && UpdateTimeout(m.value, first, ptrs[first]).Some? {
        assert first != k;
        DanglingFails(UpdateTimeout(m.value, first, ptrs[first]).value, list[1..], ptrs, handlers, k);
      }
    }
  }

  /** The pointers of a list. */
  function Held(list: seq<QueryId>, ptrs: Pointers): Pointers {
    map k | k in list && k in ptrs :: ptrs[k]
  }

  lemma OneDecides(st: Table, l: Life, list: seq<QueryId>, ptrs: Pointers, handler: Script)
    requires list != [] && Distinct(list) && Elements(list) <= ptrs.Keys && Tracked(st, l, {}, Held(list, ptrs))
    ensures var fate := Fate(l, Elements(list), list[0], handler);
      ComesTrue(TimeOutOne(st, list[0], ptrs[list[0]], handler),
                if fate.None? then None else Some(Ended(fate.value, list[0])), {}, Held(list[1..], ptrs))
  {
    var k, rest := list[0], list[1..];
    var o := ptrs[k];
    assert k in Elements(list) && k !in rest;
    assert Held(list, ptrs) == Held(rest, ptrs)[k := o] && Held(list, ptrs).Keys == Elements(list);
    assert {} + {k} == {k};
    FateDecides(st, l, k, handler, {k}, Held(list, ptrs));
    UpdateDecides(Exec(st, k, o, handler), Fate(l, Elements(list), k, handler), k, o, {}, Held(rest, ptrs));
  }

  lemma {:induction false} SweepDecides(st: Table, l: Life, list: seq<QueryId>, ptrs: Pointers,
                                        handlers: QueryId -> Script)
    requires Distinct(list) && Elements(list) <= ptrs.Keys && Tracked(st, l, {}, Held(list, ptrs))
    ensures var r, fate := ForEach(Stepper(ptrs, handlers), st, list), SweepFate(l, list, handlers);
      (r.Some? <==> fate.Some?) && (r.Some? ==> Tracked(r.value, fate.value, {}, map[]))
    decreases |list|
  {
    if list != [] {
      var k, rest := list[0], list[1..];
      var o := ptrs[k];
      OneDecides(st, l, list, ptrs, handlers(k));
      var fate, r := Fate(l, Elements(list), k, handlers(k)), TimeOutOne(st, k, o, handlers(k));
      if fate.Some? {
        SweepDecides(r.value, Ended(fate.value, k), rest, ptrs, handlers);
      } else if r.Some? {
        var d :| d in Held(rest, ptrs) && Dead(r.value, d, Held(rest, ptrs)[d]);
        DanglingFails(r.value, rest, ptrs, handlers, d);
      }
    }
  }

  /**
    A sweep, whatever its handlers notify: it goes through exactly when no query still to be timed out, and none whose
    handler is running, is left finished by a notification; the table is in order afterwards.
   */
  lemma SweepGoesThroughIff(st: Table, list: seq<QueryId>, handlers: QueryId -> Script)
    requires Orderly(st) && Distinct(list) && Elements(list) <= st.queries.Keys
    ensures var r, fate := Sweep(st, list, handlers), SweepFate(LifeOf(st), list, handlers);
      (r.Some? <==> fate.Some?) && (r.Some? ==> Orderly(r.value) && LifeOf(r.value) == fate.value)
  {
    SweepDecides(st, LifeOf(st), list, PointersTo(st), handlers);
  }

  /**
    Two queries with the same deadline; the handler of one notifies the other, which finishes. Whether the sweep goes
    through depends on which was inserted first.
   */
  lemma NotifyingSweep(tv: Timeval, now: Timeval, handlers: QueryId -> Script, first: QueryId, second: QueryId)
    requires first != second && NotAfter(Normalize(tv), now)
    requires handlers(first) == Notify(second, Finish(Return), Return) && handlers(second) == Return
    ensures var empty := Table(Index(map[], map[]), map[], 0);
      var st := InsertNewQuery(InsertNewQuery(empty, first, tv), second, tv);
      var ts := InsertNewQuery(InsertNewQuery(empty, second, tv), first, tv);
      && Collected(st.ix.buckets, now, st.ix.buckets.Keys) == [first, second]
      && Collected(ts.ix.buckets, now, ts.ix.buckets.Keys) == [second, first]
      && Sweep(st, [first, second], handlers).None? && Sweep(ts, [second, first], handlers).Some?
  {
    var empty := Table(Index(map[], map[]), map[], 0);
    var st := InsertNewQuery(InsertNewQuery(empty, first, tv), second, tv);
    var ts := InsertNewQuery(InsertNewQuery(empty, second, tv), first, tv);
    TwoInserted(tv, now, first, second);
    TwoInserted(tv, now, second, first);
    SweepGoesThroughIff(st, [first, second], handlers);
    SweepGoesThroughIff(ts, [second, first], handlers);
    FirstFails(LifeOf(st), first, second, handlers);
    SecondGoes(LifeOf(ts), first, second, handlers);
  }

  lemma TwoInserted(tv: Timeval, now: Timeval, a: QueryId, b: QueryId)
    requires a != b && NotAfter(Normalize(tv), now)
    ensures var st := InsertNewQuery(InsertNewQuery(Table(Index(map[], map[]), map[], 0), a, tv), b, tv);
      && Orderly(st) && LifeOf(st) == Life({a, b}, {})
      && Collected(st.ix.buckets, now, st.ix.buckets.Keys) == [a, b]
  {
    var empty := Table(Index(map[], map[]), map[], 0);
    InsertOk(empty, a, tv, {});
    InsertOk(InsertNewQuery(empty, a, tv), b, tv, {});
    TwoInsertedIs(tv, a, b);
    OneBucket(map[Normalize(tv) := [a, b]], now, Normalize(tv));
  }

  lemma TwoInsertedIs(tv: Timeval, a: QueryId, b: QueryId)
    requires a != b
    ensures var st := InsertNewQuery(InsertNewQuery(Table(Index(map[], map[]), map[], 0), a, tv), b, tv);
      st.ix.buckets == map[Normalize(tv) := [a, b]]
        && st.queries == map[a := Query(tv, false, 0), b := Query(tv, false, 1)]
  {
    var t := Normalize(tv);
    assert InsertNewQuery(Table(Index(map[], map[]), map[], 0), a, tv).ix == Index(map[a := t], map[t := [a]]);
    assert [a] + [b] == [a, b];
  }

  lemma OneBucket(buckets: map<Timeval, seq<QueryId>>, now: Timeval, t: Timeval)
    requires buckets.Keys == {t} && NotAfter(t, now)
    ensures Collected(buckets, now, buckets.Keys) == buckets[t]
  {
    assert Earliest({t}) == t && {t} - {t} == {};
  }

  lemma FirstFails(l: Life, a: QueryId, b: QueryId, handlers: QueryId -> Script)
    requires a != b && l == Life({a, b}, {}) && handlers(a) == Notify(b, Finish(Return), Return)
    ensures SweepFate(l, [a, b], handlers).None?
  {
    var held := Elements([a, b]);
    assert b in held && held + {b} == held;
    assert Fate(l, held, b, Finish(Return)) == Some(l.(done := l.done + {b}));
  }

  lemma SecondGoes(l: Life, a: QueryId, b: QueryId, handlers: QueryId -> Script)
    requires a != b && l == Life({a, b}, {}) && handlers(a) == Notify(b, Finish(Return), Return)
      && handlers(b) == Return
    ensures SweepFate(l, [b, a], handlers).Some?
  {
    assert [b, a][1..] == [a];
    assert SweepFate(l, [b, a], handlers) == SweepFate(l, [a], handlers);
    var held := Elements([a]);
    assert b !in held;
    assert Fate(l, held + {b}, b, Finish(Return)) == Some(l.(done := l.done + {b}));
    assert Fate(Ended(l.(done := l.done + {b}), b), held, a, Return).Some?;
    assert [a][1..] == [];
  }
}
