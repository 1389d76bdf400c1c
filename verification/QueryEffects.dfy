/** What handlers achieve: the deadline a query is listed under and whether it stays are the ones its handler set. */
module QueryEffects {
  import opened Base
  import opened TimerIndex
  import opened QueryTableModel
  import opened QuerySweep

  /** Somewhere in the script, on the query's own account. */
  ghost predicate Contains(script: Script, step: Script)
    decreases script
  {
    script == step
    || match script
       case Return => false
       case SetDeadline(_, next) => Contains(next, step)
       case Finish(next) => Contains(next, step)
       case Insert(_, _, next) => Contains(next, step)
       case Notify(_, _, next) => Contains(next, step)
  }

  ghost predicate SetsNoDeadline(script: Script) {
    forall tv, next :: !Contains(script, SetDeadline(tv, next))
  }

  ghost predicate Finishes(script: Script) {
    exists next :: Contains(script, Finish(next))
  }

  lemma ContainsNext(script: Script, next: Script)
    requires match script
      case Return => false
      case SetDeadline(_, n) => n == next
      case Finish(n) => n == next
      case Insert(_, _, n) => n == next
      case Notify(_, _, n) => n == next
    ensures SetsNoDeadline(script) <==> SetsNoDeadline(next) && !script.SetDeadline?
    ensures Finishes(script) <==> Finishes(next) || script.Finish?
  {
    forall tv, n | Contains(next, SetDeadline(tv, n)) ensures Contains(script, SetDeadline(tv, n)) {}
    if script.SetDeadline? { assert Contains(script, SetDeadline(script.tv, next)); }
    if script.Finish? { assert Contains(script, Finish(next)); }
    if Finishes(next) {
      var n :| Contains(next, Finish(n));
      assert Contains(script, Finish(n));
    }
  }

  /**
    A handler leaves its query with the deadline it set last, or the one it had if it set none, and finished if it was
    or if the handler says so.
   */
  lemma {:induction false} OutcomeIs(query: Query, script: Script)
    ensures Outcome(query, script).finished <==> query.finished || Finishes(script)
    ensures SetsNoDeadline(script) ==> Outcome(query, script).deadline == query.deadline
    ensures forall tv, next :: Contains(script, SetDeadline(tv, next)) && SetsNoDeadline(next) ==>
      Outcome(query, script).deadline == tv
    decreases script
  {
    match script
    case Return =>
    case SetDeadline(tv, next) =>
      ContainsNext(script, next);
      OutcomeIs(query.(deadline := tv), next);
    case Finish(next) =>
      ContainsNext(script, next);
      OutcomeIs(query.(finished := true), next);
    case Insert(_, _, next) =>
      ContainsNext(script, next);
      OutcomeIs(query, next);
    case Notify(_, _, next) =>
      ContainsNext(script, next);
      OutcomeIs(query, next);
  }

  /**
    A packet or a measurement for a query whose handler notifies nobody. If the handler finishes the query it is gone
    from the table; otherwise it is listed under the deadline set last, or its old one. Every other query stays as it
    was and listed as it was.
   */
  lemma NotificationEffect(st: Table, k: QueryId, handler: Script)
    requires Orderly(st) && k in st.queries && !st.queries[k].finished && InsertsOnly(handler)
    ensures NotifyQuery(st, k, handler).Some?
    ensures var r := NotifyQuery(st, k, handler).value;
      && (k in r.ix.due <==> !Finishes(handler))
      && (!Finishes(handler) && SetsNoDeadline(handler) ==> r.ix.due[k] == st.ix.due[k])
      && (forall tv, next :: !Finishes(handler) && Contains(handler, SetDeadline(tv, next)) && SetsNoDeadline(next) ==>
            r.ix.due[k] == Normalize(tv))
      && (forall j :: j != k && j in st.ix.due ==>
            j in r.ix.due && r.ix.due[j] == st.ix.due[j] && j in r.queries && r.queries[j] == st.queries[j])
  {
    TimeOutOneOk(st, k, st.queries[k].number, handler);
    OutcomeIs(st.queries[k], handler);
    SameNumber(st.queries[k], handler);
    var r := NotifyQuery(st, k, handler).value;
    assert r == TimeOutOne(st, k, st.queries[k].number, handler).value;
    if k in r.queries { assert r.ix.due[k] == Normalize(r.queries[k].deadline); }
  }

  /** A query inserted under a free id is listed under its own deadline; under a taken id it is refused. */
  lemma InsertEffect(st: Table, k: QueryId, tv: Timeval)
    requires Orderly(st)
    ensures var r := InsertNewQuery(st, k, tv);
      && Orderly(r) && r.ix.due.Keys == st.ix.due.Keys + {k}
      && (k !in st.ix.due ==> r.ix.due[k] == Normalize(tv) && !r.queries[k].finished && r.queries[k].deadline == tv)
      && (k in st.ix.due ==> r == st)
      && (forall j :: j in st.ix.due ==> r.ix.due[j] == st.ix.due[j] && r.queries[j] == st.queries[j])
  {
    InsertOk(st, k, tv, {});
  }
}
