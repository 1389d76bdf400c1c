/**
  The query table on values. A handler is a script of what it may do to the table while it runs: change its own
  deadline, finish, insert a query, or notify another query, whose handler then runs at once. None stands for a failed
  assertion or the use of a deleted query. Query objects are numbered as they are inserted, so that a new query under
  the id of a deleted one is a different object.
 */
module QueryTableModel {
  import opened Base
  import opened TimerIndex

  type QueryId = nat

  type ObjectNumber = nat

  datatype Query = Query(deadline: Timeval, finished: bool, number: ObjectNumber)

  datatype Script =
    | Return
    | SetDeadline(tv: Timeval, next: Script)
    | Finish(next: Script)
    | Insert(id: QueryId, tv: Timeval, next: Script)
    | Notify(other: QueryId, handler: Script, next: Script)

  /** queries holds the Query objects that have not been deleted; the next one inserted gets the number next. */
  datatype Table = Table(ix: Index<QueryId>, queries: map<QueryId, Query>, next: ObjectNumber)

  function AddTimeout(st: Table, k: QueryId): Table
    requires k in st.queries
  {
    st.(ix := Add(st.ix, k, Normalize(st.queries[k].deadline)))
  }

  predicate Listed(ix: Index<QueryId>, k: QueryId) {
    k in ix.due && ix.due[k] in ix.buckets && k in ix.buckets[ix.due[k]]
  }

  /** A pointer to object o, inserted as k, is still good. */
  predicate Alive(st: Table, k: QueryId, o: ObjectNumber) {
    k in st.queries && st.queries[k].number == o
  }

  function UpdateTimeout(st: Table, k: QueryId, o: ObjectNumber): Option<Table> {
    if !Listed(st.ix, k) || !Alive(st, k, o) then None
    else
      var removed := st.(ix := Remove(st.ix, k));
      Some(if st.queries[k].finished then removed.(queries := st.queries - {k}) else AddTimeout(removed, k))
  }

  /** A query whose id is taken is refused (and deleted by the caller). */
  function InsertNewQuery(st: Table, k: QueryId, tv: Timeval): Table {
    if k in st.ix.due then st
    else AddTimeout(Table(st.ix, st.queries[k := Query(tv, false, st.next)], st.next + 1), k)
  }

  function WithQuery(st: Table, k: QueryId, query: Query): Table {
    st.(queries := st.queries[k := query])
  }

  /** Runs a handler of object o, inserted as q. */
  function Exec(st: Table, q: QueryId, o: ObjectNumber, script: Script): Option<Table>
    decreases script, 0
  {
    match script
    case Return => Some(st)
    case SetDeadline(tv, next) =>
      if !Alive(st, q, o) then None else Exec(WithQuery(st, q, st.queries[q].(deadline := tv)), q, o, next)
    case Finish(next) =>
      if !Alive(st, q, o) then None else Exec(WithQuery(st, q, st.queries[q].(finished := true)), q, o, next)
    case Insert(k, tv, next) => Exec(InsertNewQuery(st, k, tv), q, o, next)
    case Notify(p, handler, next) =>
      var r := NotifyQuery(st, p, handler);
      if r.None? then None else Exec(r.value, q, o, next)
  }

  /** notifyQPacket and notifyQLatency: nothing happens when the query is gone. */
  function NotifyQuery(st: Table, k: QueryId, handler: Script): Option<Table>
    decreases handler, 1
  {
    if k !in st.ix.due then Some(st)
    else if k !in st.queries then None
    else
      var o := st.queries[k].number;
      var r := Exec(st, k, o, handler);
      if r.None? then None else UpdateTimeout(r.value, k, o)
  }

  // ---------------------------------------------------------------- what is kept

  ghost predicate Inv(st: Table) {
    Twin(st.ix) && st.ix.due.Keys == st.queries.Keys && Numbered(st)
  }

  /** Numbers are not used twice. */
  ghost predicate Numbered(st: Table) {
    forall k :: k in st.queries ==> st.queries[k].number < st.next
  }

  /** Outside the running handlers every listed query is unfinished and listed under its own deadline. */
  ghost predicate Settled(st: Table, running: set<QueryId>) {
    forall k :: k in st.ix.due && k in st.queries && k !in running ==>
      st.ix.due[k] == Normalize(st.queries[k].deadline) && !st.queries[k].finished
  }

  /** No handler notifies a query whose handler is running. */
  predicate Safe(running: set<QueryId>, script: Script)
    decreases script
  {
    match script
    case Return => true
    case SetDeadline(_, next) => Safe(running, next)
    case Finish(next) => Safe(running, next)
    case Insert(_, _, next) => Safe(running, next)
    case Notify(p, handler, next) => p !in running && Safe(running + {p}, handler) && Safe(running, next)
  }

  /** Handlers notify only queries that are strictly older than their own. */
  predicate NotifiesOlder(age: QueryId -> nat, q: QueryId, script: Script)
    decreases script
  {
    match script
    case Return => true
    case SetDeadline(_, next) => NotifiesOlder(age, q, next)
    case Finish(next) => NotifiesOlder(age, q, next)
    case Insert(_, _, next) => NotifiesOlder(age, q, next)
    case Notify(p, handler, next) => age(p) < age(q) && NotifiesOlder(age, p, handler) && NotifiesOlder(age, q, next)
  }

  /** A subscription order without cycles is enough. */
  lemma {:induction false} OlderIsSafe(age: QueryId -> nat, running: set<QueryId>, q: QueryId, script: Script)
    requires NotifiesOlder(age, q, script) && forall k :: k in running ==> age(q) <= age(k)
    ensures Safe(running, script)
    decreases script
  {
    match script
    case Return =>
    case SetDeadline(_, next) => OlderIsSafe(age, running, q, next);
    case Finish(next) => OlderIsSafe(age, running, q, next);
    case Insert(_, _, next) => OlderIsSafe(age, running, q, next);
    case Notify(p, handler, next) =>
      OlderIsSafe(age, running + {p}, p, handler);
      OlderIsSafe(age, running, q, next);
  }

  /** The queries whose handlers run stay listed as they were, and nobody but q's own handler touches q. */
  ghost predicate Untouched(st: Table, r: Table, running: set<QueryId>, q: QueryId) {
    forall k :: k in running && k in st.ix.due && k in st.queries ==>
      && k in r.ix.due && r.ix.due[k] == st.ix.due[k]
      && k in r.queries && r.queries[k].number == st.queries[k].number && (k != q ==> r.queries[k] == st.queries[k])
  }

  /** Nothing failed, the table is in order but for the running handlers, and those are left alone. */
  ghost predicate WentWell(st: Table, r: Option<Table>, running: set<QueryId>, q: QueryId) {
    r.Some? && Inv(r.value) && Settled(r.value, running) && Untouched(st, r.value, running, q)
  }

  lemma UpdateOk(st: Table, k: QueryId, running: set<QueryId>)
    requires Inv(st) && k in st.ix.due && k !in running && Settled(st, running + {k})
    ensures UpdateTimeout(st, k, st.queries[k].number).Some?
    ensures var r := UpdateTimeout(st, k, st.queries[k].number).value;
      && Inv(r) && Settled(r, running)
      && (k in r.ix.due <==> !st.queries[k].finished)
      && r.queries == (if st.queries[k].finished then st.queries - {k} else st.queries) && r.next == st.next
      && (forall j :: j != k ==>
            (j in r.ix.due <==> j in st.ix.due) && (j in st.ix.due ==> r.ix.due[j] == st.ix.due[j]))
  {
    RemoveKeepsTwin(st.ix, k);
    if !st.queries[k].finished {
      AddKeepsTwin(Remove(st.ix, k), k, Normalize(st.queries[k].deadline));
    }
  }

  lemma InsertOk(st: Table, k: QueryId, tv: Timeval, running: set<QueryId>)
    requires Inv(st) && Settled(st, running)
    ensures var r := InsertNewQuery(st, k, tv);
      && Inv(r) && Settled(r, running) && r.ix.due.Keys == st.ix.due.Keys + {k}
      && (forall j :: j in st.ix.due ==> r.ix.due[j] == st.ix.due[j] && r.queries[j] == st.queries[j])
      && (k !in st.ix.due ==> r.queries[k] == Query(tv, false, st.next))
  {
    if k !in st.ix.due { AddKeepsTwin(st.ix, k, Normalize(tv)); }
  }

  /** A handler run with safe notifications never fails, and keeps everything that is not its own business. */
  lemma {:induction false} ExecOk(st: Table, q: QueryId, o: ObjectNumber, script: Script, running: set<QueryId>)
    requires Inv(st) && Settled(st, running) && q in running && running <= st.ix.due.Keys && Safe(running, script)
    requires Alive(st, q, o)
    ensures WentWell(st, Exec(st, q, o, script), running, q)
    decreases script, 0
  {
    match script
    case Return =>
    case SetDeadline(tv, next) =>
      OwnChange(st, q, st.queries[q].(deadline := tv), running);
      ExecOk(WithQuery(st, q, st.queries[q].(deadline := tv)), q, o, next, running);
    case Finish(next) =>
      OwnChange(st, q, st.queries[q].(finished := true), running);
      ExecOk(WithQuery(st, q, st.queries[q].(finished := true)), q, o, next, running);
    case Insert(k, tv, next) =>
      InsertOk(st, k, tv, running);
      ExecOk(InsertNewQuery(st, k, tv), q, o, next, running);
    case Notify(p, handler, next) =>
      NotifyOk(st, p, handler, running);
      var r := NotifyQuery(st, p, handler).value;
      ExecOk(r, q, o, next, running);
      UntouchedThen(st, r, Exec(r, q, o, next).value, running, p, q);
  }

  /** A handler may do with its own query what it likes. */
  lemma OwnChange(st: Table, q: QueryId, query: Query, running: set<QueryId>)
    requires Inv(st) && Settled(st, running) && q in running && q in st.queries && query.number == st.queries[q].number
    ensures Inv(WithQuery(st, q, query)) && Settled(WithQuery(st, q, query), running)
    ensures Untouched(st, WithQuery(st, q, query), running, q)
  {}

  lemma UntouchedThen(st: Table, r: Table, f: Table, running: set<QueryId>, p: QueryId, q: QueryId)
    requires Untouched(st, r, running, p) && Untouched(r, f, running, q) && p !in running
    ensures Untouched(st, f, running, q)
  {}

  lemma {:induction false} NotifyOk(st: Table, p: QueryId, handler: Script, running: set<QueryId>)
    requires Inv(st) && Settled(st, running) && running <= st.ix.due.Keys
    requires p !in running && Safe(running + {p}, handler)
    ensures WentWell(st, NotifyQuery(st, p, handler), running, p)
    decreases handler, 1
  {
    if p in st.ix.due {
      ExecOk(st, p, st.queries[p].number, handler, running + {p});
      HandlerDone(st, Exec(st, p, st.queries[p].number, handler).value, p, running);
    }
  }

  lemma HandlerDone(st: Table, m: Table, p: QueryId, running: set<QueryId>)
    requires Inv(st) && p in st.ix.due && running <= st.ix.due.Keys && p !in running
    requires Inv(m) && Settled(m, running + {p}) && Untouched(st, m, running + {p}, p)
    ensures WentWell(st, UpdateTimeout(m, p, st.queries[p].number), running, p)
  {
    assert p in running + {p} && m.queries[p].number == st.queries[p].number;
    UpdateOk(m, p, running);
  }

  /**
    Whatever a top-level notification sets off, with handlers that notify older queries only: no assertion fails, both
    maps stay exact inverses, and every query left is unfinished and listed under its own deadline.
   */
  lemma NotificationsKeepTable(age: QueryId -> nat, st: Table, k: QueryId, handler: Script)
    requires Inv(st) && Settled(st, {}) && NotifiesOlder(age, k, handler)
    ensures NotifyQuery(st, k, handler).Some?
    ensures Inv(NotifyQuery(st, k, handler).value) && Settled(NotifyQuery(st, k, handler).value, {})
  {
    OlderIsSafe(age, {k}, k, handler);
    assert {} + {k} == {k};
    NotifyOk(st, k, handler, {});
  }

  // ---------------------------------------------------------------- exactly when a notification goes through

  /** Which ids are in the table, and which of their queries are marked as finished. */
  datatype Life = Life(present: set<QueryId>, done: set<QueryId>)

  function LifeOf(st: Table): Life {
    Life(st.queries.Keys, set k | k in st.queries && st.queries[k].finished)
  }

  /** A query is deleted at the end of its handler if it is marked by then. */
  function Ended(l: Life, k: QueryId): Life {
    if k in l.done then Life(l.present - {k}, l.done - {k}) else l
  }

  /**
    What becomes of the ids while q's handler runs; None when a nested notification leaves one of the held queries
    finished. Neither deadlines nor the two maps matter to it.
   */
  function Fate(l: Life, held: set<QueryId>, q: QueryId, script: Script): Option<Life>
    decreases script
  {
    match script
    case Return => Some(l)
    case SetDeadline(_, next) => Fate(l, held, q, next)
    case Finish(next) => Fate(l.(done := l.done + {q}), held, q, next)
    case Insert(k, _, next) => Fate(l.(present := l.present + {k}), held, q, next)
    case Notify(p, handler, next) =>
      if p !in l.present then Fate(l, held, q, next)
      else
        match Fate(l, held + {p}, p, handler)
        case None => None
        case Some(l1) => if p in held && p in l1.done then None else Fate(Ended(l1, p), held, q, next)
  }

  /** The objects some caller still holds a pointer to, by the id they were inserted as. */
  type Pointers = map<QueryId, ObjectNumber>

  ghost predicate AllAlive(st: Table, ptrs: Pointers) {
    forall k :: k in ptrs ==> Alive(st, k, ptrs[k])
  }

  /** One of the pointers is dangling, and will stay so. */
  ghost predicate Dangling(st: Table, ptrs: Pointers) {
    Numbered(st) && exists k :: k in ptrs && Dead(st, k, ptrs[k])
  }

  predicate Dead(st: Table, k: QueryId, o: ObjectNumber) {
    !Alive(st, k, o) && o < st.next
  }

  /** A deleted object does not come back. */
  lemma {:induction false} DeadStays(st: Table, q: QueryId, o: ObjectNumber, script: Script, k: QueryId,
                                     d: ObjectNumber)
    requires Numbered(st) && Dead(st, k, d)
    ensures var r := Exec(st, q, o, script); r.Some? ==> Numbered(r.value) && Dead(r.value, k, d)
    decreases script, 0
  {
    match script
    case Return =>
    case SetDeadline(tv, next) =>
      if Alive(st, q, o) { DeadStays(WithQuery(st, q, st.queries[q].(deadline := tv)), q, o, next, k, d); }
    case Finish(next) =>
      if Alive(st, q, o) { DeadStays(WithQuery(st, q, st.queries[q].(finished := true)), q, o, next, k, d); }
    case Insert(j, tv, next) => DeadStays(InsertNewQuery(st, j, tv), q, o, next, k, d);
    case Notify(p, handler, next) =>
      DeadAfterNotify(st, p, handler, k, d);
      var r := NotifyQuery(st, p, handler);
      if r.Some? { DeadStays(r.value, q, o, next, k, d); }
  }

  lemma {:induction false} DeadAfterNotify(st: Table, p: QueryId, handler: Script, k: QueryId, d: ObjectNumber)
    requires Numbered(st) && Dead(st, k, d)
    ensures var r := NotifyQuery(st, p, handler); r.Some? ==> Numbered(r.value) && Dead(r.value, k, d)
    decreases handler, 1
  {
    if p in st.ix.due && p in st.queries { DeadStays(st, p, st.queries[p].number, handler, k, d); }
  }

  lemma DanglingStays(st: Table, q: QueryId, o: ObjectNumber, script: Script, ptrs: Pointers)
    requires Dangling(st, ptrs)
    ensures Exec(st, q, o, script).Some? ==> Dangling(Exec(st, q, o, script).value, ptrs)
  {
    var k :| k in ptrs && Dead(st, k, ptrs[k]);
    DeadStays(st, q, o, script, k, ptrs[k]);
  }

  /** The table is in order but for the running handlers, all held objects are there, and l says what is in it. */
  ghost predicate Tracked(st: Table, l: Life, running: set<QueryId>, ptrs: Pointers) {
    Inv(st) && Settled(st, running) && AllAlive(st, ptrs) && running <= ptrs.Keys && l == LifeOf(st)
  }

  /** What fate says comes true. */
  ghost predicate ComesTrue(r: Option<Table>, fate: Option<Life>, running: set<QueryId>, ptrs: Pointers) {
    if fate.None? then r.Some? ==> Dangling(r.value, ptrs)
    else r.Some? && Tracked(r.value, fate.value, running, ptrs)
  }

  lemma {:induction false} FateDecides(st: Table, l: Life, q: QueryId, script: Script, running: set<QueryId>,
                                       ptrs: Pointers)
    requires Tracked(st, l, running, ptrs) && q in running
    ensures ComesTrue(Exec(st, q, ptrs[q], script), Fate(l, ptrs.Keys, q, script), running, ptrs)
    decreases script, 0
  {
    match script
    case Return =>
    case SetDeadline(tv, next) =>
      var st1 := WithQuery(st, q, st.queries[q].(deadline := tv));
      ChangeTracked(st, l, q, st.queries[q].(deadline := tv), running, ptrs);
      assert st.queries[q].finished ==> l.done + {q} == l.done;
      FateDecides(st1, l, q, next, running, ptrs);
    case Finish(next) =>
      var st1 := WithQuery(st, q, st.queries[q].(finished := true));
      ChangeTracked(st, l, q, st.queries[q].(finished := true), running, ptrs);
      FateDecides(st1, l.(done := l.done + {q}), q, next, running, ptrs);
    case Insert(k, tv, next) =>
      var st1 := InsertNewQuery(st, k, tv);
      InsertTracked(st, l, k, tv, running, ptrs);
      FateDecides(st1, l.(present := l.present + {k}), q, next, running, ptrs);
    case Notify(p, handler, next) =>
      if p in l.present {
        NotifyDecides(st, l, p, handler, running, ptrs);
        var r, fate := NotifyQuery(st, p, handler), NotifyFate(l, ptrs.Keys, p, handler);
        if fate.Some? {
          FateDecides(r.value, fate.value, q, next, running, ptrs);
        } else if r.Some? {
          DanglingStays(r.value, q, ptrs[q], next, ptrs);
        }
      } else {
        FateDecides(st, l, q, next, running, ptrs);
      }
  }

  lemma ChangeTracked(st: Table, l: Life, q: QueryId, query: Query, running: set<QueryId>, ptrs: Pointers)
    requires Tracked(st, l, running, ptrs) && q in running && query.number == st.queries[q].number
    requires st.queries[q].finished ==> query.finished
    ensures Tracked(WithQuery(st, q, query), if query.finished then l.(done := l.done + {q}) else l, running, ptrs)
  {
    OwnChange(st, q, query, running);
    assert LifeOf(WithQuery(st, q, query)) == if query.finished then l.(done := l.done + {q}) else l;
  }

  lemma InsertTracked(st: Table, l: Life, k: QueryId, tv: Timeval, running: set<QueryId>, ptrs: Pointers)
    requires Tracked(st, l, running, ptrs)
    ensures Tracked(InsertNewQuery(st, k, tv), l.(present := l.present + {k}), running, ptrs)
  {
    InsertOk(st, k, tv, running);
    assert LifeOf(InsertNewQuery(st, k, tv)) == l.(present := l.present + {k});
  }

  /** Fate of one notification of a query that is there. */
  function NotifyFate(l: Life, held: set<QueryId>, p: QueryId, handler: Script): Option<Life> {
    match Fate(l, held + {p}, p, handler)
    case None => None
    case Some(l1) => if p in held && p in l1.done then None else Some(Ended(l1, p))
  }

  lemma {:induction false} NotifyDecides(st: Table, l: Life, p: QueryId, handler: Script, running: set<QueryId>,
                                         ptrs: Pointers)
    requires Tracked(st, l, running, ptrs) && p in l.present
    ensures ComesTrue(NotifyQuery(st, p, handler), NotifyFate(l, ptrs.Keys, p, handler), running, ptrs)
    decreases handler, 1
  {
    var o := st.queries[p].number;
    assert (ptrs[p := o]).Keys == ptrs.Keys + {p};
    FateDecides(st, l, p, handler, running + {p}, ptrs[p := o]);
    UpdateDecides(Exec(st, p, o, handler), Fate(l, ptrs.Keys + {p}, p, handler), p, o, running, ptrs);
  }

  /** The end of a handler: its own object may go, unless somebody else holds it. */
  lemma UpdateDecides(r: Option<Table>, fate: Option<Life>, p: QueryId, o: ObjectNumber, running: set<QueryId>,
                      ptrs: Pointers)
    requires ComesTrue(r, fate, running + {p}, ptrs[p := o]) && (p in ptrs ==> ptrs[p] == o) && running <= ptrs.Keys
    ensures ComesTrue(if r.None? then None else UpdateTimeout(r.value, p, o),
                      if fate.None? || (p in ptrs && p in fate.value.done) then None else Some(Ended(fate.value, p)),
                      running, ptrs)
  {
    if fate.Some? {
      UpdateTracked(r.value, fate.value, p, o, running, ptrs);
    } else if r.Some? {
      UpdateDangling(r.value, p, o, ptrs);
    }
  }

  lemma UpdateDangling(st: Table, p: QueryId, o: ObjectNumber, ptrs: Pointers)
    requires Dangling(st, ptrs[p := o])
    ensures UpdateTimeout(st, p, o).Some? ==> Dangling(UpdateTimeout(st, p, o).value, ptrs)
  {
    var k :| k in ptrs[p := o] && Dead(st, k, ptrs[p := o][k]);
    if UpdateTimeout(st, p, o).Some? {
      assert k in ptrs && Dead(UpdateTimeout(st, p, o).value, k, ptrs[k]);
    }
  }

  lemma UpdateTracked(st: Table, l: Life, p: QueryId, o: ObjectNumber, running: set<QueryId>, ptrs: Pointers)
    requires Tracked(st, l, running + {p}, ptrs[p := o]) && (p in ptrs ==> ptrs[p] == o) && running <= ptrs.Keys
    ensures ComesTrue(UpdateTimeout(st, p, o), if p in ptrs && p in l.done then None else Some(Ended(l, p)), running,
                      ptrs)
  {
    assert Alive(st, p, o) by { assert p in ptrs[p := o]; }
    assert running - {p} + {p} == running + {p};
    UpdateOk(st, p, running - {p});
    var r := UpdateTimeout(st, p, o).value;
    if p in l.done {
      assert Dead(r, p, o);
      if p !in ptrs { StillAlive(st, r, p, o, ptrs); }
    } else {
      StillAlive(st, r, p, o, ptrs);
    }
    assert LifeOf(r) == Ended(l, p);
  }

  lemma StillAlive(st: Table, r: Table, p: QueryId, o: ObjectNumber, ptrs: Pointers)
    requires AllAlive(st, ptrs[p := o]) && (p in ptrs ==> ptrs[p] == o)
    requires r.queries == st.queries || (r.queries == st.queries - {p} && p !in ptrs)
    ensures AllAlive(r, ptrs)
  {
    forall k | k in ptrs ensures Alive(r, k, ptrs[k]) {
      assert ptrs[p := o][k] == ptrs[k];
    }
  }

  /**
    A notification goes through exactly when no query whose handler is running is left finished by a notification
    nested in it; the table is in order afterwards, with exactly the ids that remain. Whether that is so depends on the
    scripts and on the ids in the table, not on deadlines.
   */
  lemma NotificationGoesThroughIff(st: Table, k: QueryId, handler: Script)
    requires Inv(st) && Settled(st, {}) && k in st.queries
    ensures var fate := NotifyFate(LifeOf(st), {}, k, handler);
      && (NotifyQuery(st, k, handler).Some? <==> fate.Some?)
      && (fate.Some? ==>
            var r := NotifyQuery(st, k, handler).value;
            Inv(r) && Settled(r, {}) && LifeOf(r) == fate.value)
  {
    NotifyDecides(st, LifeOf(st), k, handler, {}, map[]);
    var ptrs: Pointers := map[];
    assert ptrs.Keys == {};
  }

  /** Handlers that notify no running query are always on the good side of the condition. */
  lemma {:induction false} SafeGoesThrough(l: Life, running: set<QueryId>, q: QueryId, script: Script)
    requires Safe(running, script)
    ensures Fate(l, running, q, script).Some?
    decreases script
  {
    match script
    case Return =>
    case SetDeadline(_, next) => SafeGoesThrough(l, running, q, next);
    case Finish(next) => SafeGoesThrough(l.(done := l.done + {q}), running, q, next);
    case Insert(k, _, next) => SafeGoesThrough(l.(present := l.present + {k}), running, q, next);
    case Notify(p, handler, next) =>
      if p in l.present {
        SafeGoesThrough(l, running + {p}, p, handler);
        SafeGoesThrough(Ended(Fate(l, running + {p}, p, handler).value, p), running, q, next);
      } else {
        SafeGoesThrough(l, running, q, next);
      }
  }

  /** Notifying oneself is harmless as long as one does not finish there. */
  lemma NotifyingOneself(l: Life, k: QueryId, tv: Timeval)
    requires k in l.present && k !in l.done
    ensures NotifyFate(l, {}, k, Notify(k, Finish(Return), Return)).None?
    ensures NotifyFate(l, {}, k, Notify(k, SetDeadline(tv, Return), Finish(Return))).Some?
  {
    assert {} + {k} == {k} && {k} + {k} == {k};
    assert Fate(l, {k}, k, Finish(Return)) == Some(l.(done := l.done + {k}));
    assert Fate(l, {k}, k, Notify(k, Finish(Return), Return)).None?;
    assert Fate(l, {k}, k, SetDeadline(tv, Return)) == Some(l);
    assert Fate(l, {k}, k, Finish(Return)).Some?;
  }

  // ---------------------------------------------------------------- nextTimeout

  /** With queries in the table the next event is due at the least deadline of them all. */
  lemma NextTimeoutIsLeast(st: Table, k: QueryId)
    requires Inv(st) && Settled(st, {}) && k in st.ix.due
    ensures st.ix.buckets.Keys != {}
    ensures Instant(Earliest(st.ix.buckets.Keys)) <= Instant(st.queries[k].deadline)
    ensures exists j :: j in st.queries && Instant(st.queries[j].deadline) == Instant(Earliest(st.ix.buckets.Keys))
  {
    EarliestIsMinimum(st.ix, k);
    var t := Earliest(st.ix.buckets.Keys);
    var j := st.ix.buckets[t][0];
    assert j in st.ix.buckets[t] && j in st.queries;
    NormalizeKeepsInstant(st.queries[j].deadline);
    NormalizeKeepsInstant(st.queries[k].deadline);
    OrderIsChronological(t, st.ix.due[k]);
  }
}
