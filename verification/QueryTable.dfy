/**
  The query table with its two maps and loops; the map of queries and their numbers stand for the objects on the heap.
 */
module QueryTables {
  import opened Base
  import opened TimerIndex
  import opened QueryTableModel
  import opened QuerySweep

  const DEFAULT_TIME_OUT_S: nat := 5

  /** The due keys of all buckets visited so far, in order; rest holds the deadlines still to visit. */
  ghost predicate DueSoFar(ix: Index<QueryId>, now: Timeval, rest: set<Timeval>, list: seq<QueryId>) {
    && Distinct(list)
    && (forall k :: k in list <==> k in ix.due && ix.due[k] !in rest && NotAfter(ix.due[k], now))
    && (forall k, t :: k in list && t in rest ==> TimeLess(ix.due[k], t))
    && (forall i, j :: 0 <= i < j < |list| ==> !TimeLess(ix.due[list[j]], ix.due[list[i]]))
  }

  lemma VisitBucket(ix: Index<QueryId>, now: Timeval, rest: set<Timeval>, list: seq<QueryId>, t: Timeval)
    requires Twin(ix) && DueSoFar(ix, now, rest, list) && IsEarliest(rest, t) && t in ix.buckets
    ensures DueSoFar(ix, now, rest - {t}, if NotAfter(t, now) then list + ix.buckets[t] else list)
  {
    if NotAfter(t, now) {
      var bucket := ix.buckets[t];
      var longer := list + bucket;
      assert forall k :: k in longer <==> k in list || k in bucket;
      assert forall k :: k in bucket <==> k in ix.due && ix.due[k] == t;
      forall i, j | 0 <= i < j < |longer|
        ensures longer[i] != longer[j] && !TimeLess(ix.due[longer[j]], ix.due[longer[i]])
      {
        if i < |list| <= j {
          assert longer[i] in list && longer[j] in bucket;
        }
      }
    }
  }

  lemma CollectedStep(buckets: map<Timeval, seq<QueryId>>, now: Timeval, rest: set<Timeval>, list: seq<QueryId>,
                      t: Timeval)
    requires rest <= buckets.Keys && rest != {} && t == Earliest(rest)
    ensures list + Collected(buckets, now, rest)
         == (if NotAfter(t, now) then list + buckets[t] else list) + Collected(buckets, now, rest - {t})
  {}

  class QueryTable {
    var queryTimeoutMap: map<QueryId, Timeval>
    var timeoutQueryMap: map<Timeval, seq<QueryId>>
    var queries: map<QueryId, Query>
    var next: ObjectNumber

    ghost function State(): Table
      reads this
    {
      Table(Index(queryTimeoutMap, timeoutQueryMap), queries, next)
    }

    constructor ()
      ensures Orderly(State()) && queries == map[]
    {
      queryTimeoutMap, timeoutQueryMap, queries, next := map[], map[], map[], 0;
    }

    method AddTimeoutOf(inQuery: QueryId)
      requires inQuery in queries
      modifies this
      ensures State() == AddTimeout(old(State()), inQuery)
    {
      var tv := Normalize(queries[inQuery].deadline);
      queryTimeoutMap := queryTimeoutMap[inQuery := tv];
      if tv in timeoutQueryMap {
        timeoutQueryMap := timeoutQueryMap[tv := timeoutQueryMap[tv] + [inQuery]];
      } else {
        timeoutQueryMap := timeoutQueryMap[tv := [inQuery]];
      }
    }

    /** Fills the gap with the last query of the bucket; an empty bucket goes. */
    method RemoveOldTimeout(inQuery: QueryId)
      requires Listed(State().ix, inQuery)
      modifies this
      ensures State() == old(State()).(ix := Remove(old(State()).ix, inQuery))
    {
      var tv := queryTimeoutMap[inQuery];
      queryTimeoutMap := queryTimeoutMap - {inQuery};
      var bucket := timeoutQueryMap[tv];
      var i := 0;
      while bucket[i] != inQuery
        invariant i < |bucket| && inQuery in bucket && inQuery !in bucket[..i]
        decreases |bucket| - i
      {
        i := i + 1;
      }
      IndexOfFirst(bucket, inQuery, i);
      bucket := bucket[i := bucket[|bucket| - 1]][..|bucket| - 1];
      timeoutQueryMap := if |bucket| == 0 then timeoutQueryMap - {tv} else timeoutQueryMap[tv := bucket];
    }

    /** updateTimeout, given a pointer to object o. */
    method Update(inQuery: QueryId, o: ObjectNumber)
      requires UpdateTimeout(State(), inQuery, o).Some?
      modifies this
      ensures Some(State()) == UpdateTimeout(old(State()), inQuery, o)
    {
      RemoveOldTimeout(inQuery);
      if queries[inQuery].finished {
        queries := queries - {inQuery};
      } else {
        AddTimeoutOf(inQuery);
      }
    }

    method InsertQuery(inQuery: QueryId, tv: Timeval) returns (ret: int)
      modifies this
      ensures State() == InsertNewQuery(old(State()), inQuery, tv)
      ensures ret == if inQuery in old(queryTimeoutMap) then -1 else 0
    {
      if inQuery in queryTimeoutMap {
        return -1;
      }
      queries, next := queries[inQuery := Query(tv, false, next)], next + 1;
      AddTimeoutOf(inQuery);
      ret := 0;
    }

    /** Runs a handler of object o, which may re-enter this table. */
    method Execute(q: QueryId, o: ObjectNumber, script: Script)
      requires Exec(State(), q, o, script).Some?
      modifies this
      ensures Some(State()) == Exec(old(State()), q, o, script)
      decreases script, 0
    {
      match script {
        case Return =>
        case SetDeadline(tv, next) =>
          queries := queries[q := queries[q].(deadline := tv)];
          Execute(q, o, next);
        case Finish(next) =>
          queries := queries[q := queries[q].(finished := true)];
          Execute(q, o, next);
        case Insert(k, tv, next) =>
          var _ := InsertQuery(k, tv);
          Execute(q, o, next);
        case Notify(p, handler, next) =>
          var _ := Notified(p, handler);
          Execute(q, o, next);
      }
    }

    method Notified(id: QueryId, handler: Script) returns (ret: int)
      requires NotifyQuery(State(), id, handler).Some?
      modifies this
      ensures Some(State()) == NotifyQuery(old(State()), id, handler)
      ensures ret == if id in old(queryTimeoutMap) then 0 else -1
      decreases handler, 1
    {
      if id !in queryTimeoutMap {
        return -1;
      }
      var o := queries[id].number;
      Execute(id, o, handler);
      Update(id, o);
      ret := 0;
    }

    /** The first loop of handleTimeout: everything due, bucket by bucket. */
    method CollectDue(curTime: Timeval) returns (due: seq<QueryId>)
      requires Twin(State().ix)
      ensures due == Collected(timeoutQueryMap, curTime, timeoutQueryMap.Keys)
      ensures IsDueList(State().ix, curTime, due)
    {
      due := [];
      var rest := timeoutQueryMap.Keys;
      while rest != {}
        invariant rest <= timeoutQueryMap.Keys
        invariant DueSoFar(State().ix, curTime, rest, due)
        invariant due + Collected(timeoutQueryMap, curTime, rest)
               == Collected(timeoutQueryMap, curTime, timeoutQueryMap.Keys)
        decreases |rest|
      {
        var s1 := Earliest(rest);
        VisitBucket(State().ix, curTime, rest, due, s1);
        CollectedStep(timeoutQueryMap, curTime, rest, due, s1);
        if s1.sec < curTime.sec || (s1.sec == curTime.sec && s1.usec <= curTime.usec) {
          due := due + timeoutQueryMap[s1];
        }
        rest := rest - {s1};
      }
    }

    /** handleTimeout, whatever its handlers do; it returns whom it timed out, in order. */
    method HandleTimeout(curTime: Timeval, handlers: QueryId -> Script) returns (timedOut: seq<QueryId>)
      requires Orderly(State()) && curTime.usec < MICRO_IN_SECOND
      requires SweepFate(LifeOf(State()), Collected(timeoutQueryMap, curTime, timeoutQueryMap.Keys), handlers).Some?
      modifies this
      ensures Orderly(State())
      ensures timedOut == Collected(old(timeoutQueryMap), curTime, old(timeoutQueryMap).Keys)
      ensures IsDueList(old(State()).ix, curTime, timedOut)
      ensures Sweep(old(State()), timedOut, handlers) == Some(State())
    {
      ghost var st := State();
      var ptrs := PointersTo(Table(Index(queryTimeoutMap, timeoutQueryMap), queries, next));
      timedOut := CollectDue(Normalize(curTime));
      SweepGoesThroughIff(st, timedOut, handlers);
      assert timedOut[0..] == timedOut;
      var i := 0;
      while i < |timedOut|
        invariant i <= |timedOut|
        invariant Sweep(st, timedOut, handlers) == ForEach(Stepper(ptrs, handlers), State(), timedOut[i..])
      {
        SweepStep(State(), timedOut[i..], ptrs, handlers);
        Execute(timedOut[i], ptrs[timedOut[i]], handlers(timedOut[i]));
        Update(timedOut[i], ptrs[timedOut[i]]);
        assert timedOut[i..][1..] == timedOut[i + 1..];
        i := i + 1;
      }
    }

    /** When to wake up next: nothing is due earlier, and unless the table is empty something is due then. */
    method NextTimeout(now: Timeval) returns (nextEventTime: Timeval)
      requires Orderly(State())
      ensures queries == map[] ==> nextEventTime == Timeval(now.sec + DEFAULT_TIME_OUT_S, now.usec)
      ensures forall k :: k in queries ==> Instant(nextEventTime) <= Instant(queries[k].deadline)
      ensures queries != map[] ==> exists k :: k in queries && Instant(queries[k].deadline) == Instant(nextEventTime)
    {
      if timeoutQueryMap.Keys == {} {
        EmptyTogether(State());
        return Timeval(now.sec + DEFAULT_TIME_OUT_S, now.usec);
      }
      nextEventTime := Earliest(timeoutQueryMap.Keys);
      forall k | k in queries
        ensures Instant(nextEventTime) <= Instant(queries[k].deadline)
        ensures exists j :: j in queries && Instant(queries[j].deadline) == Instant(nextEventTime)
      {
        NextTimeoutIsLeast(State(), k);
      }
      EmptyTogether(State());
    }
  }

  lemma EmptyTogether(st: Table)
    requires Orderly(st)
    ensures st.queries == map[] <==> st.ix.buckets.Keys == {}
  {
    if st.ix.buckets.Keys != {} {
      var t :| t in st.ix.buckets.Keys;
      assert st.ix.buckets[t][0] in st.queries;
    }
  }

  lemma SweepStep(st: Table, list: seq<QueryId>, ptrs: Pointers, handlers: QueryId -> Script)
    requires list != [] && ForEach(Stepper(ptrs, handlers), st, list).Some?
    ensures list[0] in ptrs
    ensures var k, o := list[0], ptrs[list[0]];
      var r := Exec(st, k, o, handlers(k));
      && r.Some? && UpdateTimeout(r.value, k, o).Some?
      && ForEach(Stepper(ptrs, handlers), st, list)
      == ForEach(Stepper(ptrs, handlers), UpdateTimeout(r.value, k, o).value, list[1..])
  {}
}
