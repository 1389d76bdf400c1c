/**
  Ring replacement end to end: from the dump and freeze to completion or timeout, under any interleaving with
  the other users of the ring set, the ring stands still, the commit is never refused, and the ring ends up
  with exactly the members that reported.
 */
module RingReplacement {
  import opened Base
  import opened RingModel
  import opened RingRuns
  import opened ReduceSet
  import opened RingManageModel

  ghost predicate InProgress(s: RingState, q: Manage) {
    && s.Inv() && Sane(q) && !q.finished
    && s.frozen[q.ring] && q.remote == s.Members(q.ring)
  }

  /** The ring is open again and holds exactly these members; its leavers are forgotten; nothing else moved. */
  ghost predicate Settled(s: RingState, t: RingState, ring: nat, members: set<NodeIdent>)
    requires s.Shape() && ring < MAX_NUM_RINGS
  {
    && t.Inv() && t.SameConfig(s) && !t.frozen[ring]
    && t.Members(ring) == members
    && t.lat == s.lat - (s.Members(ring) - members)
    && forall k :: 0 <= k < MAX_NUM_RINGS && k != ring ==> t.Members(k) == s.Members(k) && t.frozen[k] == s.frozen[k]
  }

  // ---------------------------------------------------------------- the commit

  lemma MembersBounded(s: RingState, ring: nat)
    requires s.Inv() && ring < MAX_NUM_RINGS
    ensures |s.Members(ring)| <= s.primSize + s.secSize
  {
    assert s.RingOk(ring);
    DistinctCardinality(s.prim[ring]);
    DistinctCardinality(s.sec[ring]);
  }

  /** Splitting a set into kept, pruned and reduced nodes accounts for each of them once. */
  lemma PartsDistinct(remote: set<NodeIdent>, left: set<NodeIdent>, kept: seq<NodeIdent>, removed: seq<NodeIdent>,
                      deleted: seq<NodeIdent>)
    requires left <= remote && Elements(removed) == remote - left && |removed| == |remote| - |left|
    requires multiset(kept + deleted) == multiset(Ascending(left))
    ensures Distinct(kept + (removed + deleted))
    ensures Elements(kept + (removed + deleted)) == remote
    ensures |kept| + |removed + deleted| == |remote|
  {
    assert |multiset(kept + deleted)| == |kept + deleted| && |multiset(Ascending(left))| == |left|;
    var all := kept + (removed + deleted);
    forall x ensures x in all <==> x in remote {
      assert x in kept + deleted <==> x in multiset(Ascending(left));
      assert x in Ascending(left) <==> x in left;
      assert x in removed <==> x in Elements(removed);
    }
    assert Elements(all) == remote;
    CardinalityDistinct(all);
  }

  /** The commit that performReplacement attempts after enough nodes survived the pruning is accepted. */
  lemma CommitAccepted(s: RingState, ring: nat, p: Pruned, hv: HyperVolume)
    requires s.Inv() && ring < MAX_NUM_RINGS && !s.frozen[ring]
    requires p.remote <= s.Members(ring) && |p.remote| > s.primSize
    requires Elements(p.removed) == s.Members(ring) - p.remote && |p.removed| == |s.Members(ring)| - |p.remote|
    ensures var (t, ok) := CommitChosen(s, ring, p, hv);
      ok && Settled(s, t, ring, s.Members(ring)) && |t.prim[ring]| == s.primSize
  {
    var (kept, deleted) := Chosen(p.remote, p.rows, s.primSize, hv);
    GreedyConserves(RemainingVolume(MatrixLatency(p.rows), hv), Ascending(p.remote), |p.remote| - s.primSize);
    CommitParts(s, ring, p.remote, kept, p.removed, deleted);
  }

  lemma CommitParts(s: RingState, ring: nat, left: set<NodeIdent>, kept: seq<NodeIdent>, removed: seq<NodeIdent>,
                    deleted: seq<NodeIdent>)
    requires s.Inv() && ring < MAX_NUM_RINGS && !s.frozen[ring]
    requires left <= s.Members(ring) && |kept| == s.primSize
    requires Elements(removed) == s.Members(ring) - left && |removed| == |s.Members(ring)| - |left|
    requires multiset(kept + deleted) == multiset(Ascending(left))
    ensures var (t, ok) := SetRingMembers(s, ring, kept, removed + deleted);
      ok && Settled(s, t, ring, s.Members(ring)) && |t.prim[ring]| == s.primSize
  {
    var q := removed + deleted;
    PartsDistinct(s.Members(ring), left, kept, removed, deleted);
    MembersBounded(s, ring);
    assert Elements(kept + q) == Elements(kept) + Elements(q);
    assert SetRingMembers(s, ring, kept, q).1;
    CommitSettled(s, ring, kept, q);
  }

  lemma CommitSettled(s: RingState, ring: nat, kept: seq<NodeIdent>, q: seq<NodeIdent>)
    requires s.Inv() && ring < MAX_NUM_RINGS && !s.frozen[ring] && SetRingMembers(s, ring, kept, q).1
    requires Distinct(kept + q) && |kept| == s.primSize
    ensures Settled(s, SetRingMembers(s, ring, kept, q).0, ring, s.Members(ring))
  {
    CommitKeepsInv(s, ring, kept, q);
    assert s.lat - {} == s.lat;
  }

  lemma SettledAlready(s: RingState, ring: nat)
    requires s.Inv() && ring < MAX_NUM_RINGS && !s.frozen[ring]
    ensures Settled(s, s, ring, s.Members(ring))
  {
    assert s.lat - {} == s.lat;
  }

  lemma AttemptSettles(s: RingState, ring: nat, p: Pruned, hv: HyperVolume)
    requires s.Inv() && ring < MAX_NUM_RINGS && !s.frozen[ring]
    requires p.remote <= s.Members(ring) && (p.enough ==> |p.remote| > s.primSize)
    requires Elements(p.removed) == s.Members(ring) - p.remote && |p.removed| == |s.Members(ring)| - |p.remote|
    ensures var (t, a) := AttemptCommit(s, ring, p, hv);
      && a != Refused && Settled(s, t, ring, s.Members(ring))
      && (a == Committed ==> |t.prim[ring]| == s.primSize)
      && (a == Committed <==> p.enough && MatrixComplete(p.remote, p.rows))
  {
    SettledAlready(s, ring);
    if p.enough { CommitAccepted(s, ring, p, hv); }
  }

  /** performReplacement on a thawed ring whose members have all reported never has its commit refused. */
  lemma ReplaceSettles(s: RingState, q: Manage, hv: HyperVolume)
    requires s.Inv() && Sane(q) && !s.frozen[q.ring]
    requires q.rows.Keys == q.remote == s.Members(q.ring)
    ensures var (t, q', a) := Replace(s, q, hv);
      && a != Refused && Settled(s, t, q.ring, s.Members(q.ring))
      && (a == Committed ==> |t.prim[q.ring]| == s.primSize)
  {
    PruneReportsRemoved(q.remote, q.rows, s.primSize, []);
    AttemptSettles(s, q.ring, Prune(q.remote, q.rows, s.primSize, []), hv);
  }

  /** Rows without self-entries: whenever more than primarySize candidates survive the pruning, a commit is made. */
  lemma ReplaceCommits(s: RingState, q: Manage, hv: HyperVolume)
    requires s.Inv() && Sane(q) && !s.frozen[q.ring] && OmitSelf(q.rows)
    requires q.rows.Keys == q.remote == s.Members(q.ring)
    ensures Replace(s, q, hv).2 == Committed <==> Prune(q.remote, q.rows, s.primSize, []).enough
  {
    var p := Prune(q.remote, q.rows, s.primSize, []);
    PruneReportsRemoved(q.remote, q.rows, s.primSize, []);
    AttemptSettles(s, q.ring, p, hv);
    PruneWithin(q.remote, q.rows, s.primSize, []);
    PruneLongRows(q.remote, q.rows, s.primSize, []);
    if p.enough { PrunedMatrix(p.remote, p.rows); }
  }

  // ---------------------------------------------------------------- single steps

  lemma {:induction false} EraseAllEffect(s: RingState, ring: nat, nodes: seq<NodeIdent>)
    requires s.Inv() && ring < MAX_NUM_RINGS && !s.frozen[ring] && Distinct(nodes) && Elements(nodes) <= s.Members(ring)
    ensures var t := EraseAll(s, nodes);
      && t.Inv() && t.frozen == s.frozen && t.lat == s.lat - Elements(nodes)
      && forall k :: 0 <= k < MAX_NUM_RINGS ==> t.Members(k) == s.Members(k) - Elements(nodes)
    decreases |nodes|
  {
    if nodes == [] {
      assert Elements(nodes) == {};
      assert s.lat - {} == s.lat;
    } else {
      var front, last := nodes[..|nodes| - 1], nodes[|nodes| - 1];
      assert Elements(nodes) == Elements(front) + {last};
      EraseAllEffect(s, ring, front);
      var t := EraseAll(s, front);
      assert last in t.Members(ring) by { assert last !in front; }
      assert t.RingOk(ring);
      assert t.InRing(ring, last) && last in t.lat && t.RingOf(last) == ring;
      EraseEffect(t, last);
      assert s.lat - Elements(front) - {last} == s.lat - Elements(nodes);
      forall k | 0 <= k < MAX_NUM_RINGS
        ensures EraseAll(s, nodes).Members(k) == s.Members(k) - Elements(nodes)
      {
        assert s.Members(k) - Elements(front) - {last} == s.Members(k) - Elements(nodes);
      }
    }
  }

  lemma RingsDisjoint(s: RingState, r: nat, k: nat)
    requires s.Inv() && r < MAX_NUM_RINGS && k < MAX_NUM_RINGS && r != k
    ensures s.Members(r) !! s.Members(k)
  {
    assert s.RingOk(r) && s.RingOk(k);
    forall x | x in s.Members(r) ensures x !in s.Members(k) {
      assert s.InRing(r, x);
      assert s.InRing(k, x) <==> x in s.Members(k);
    }
  }

  /** Timeout: whoever stayed silent is erased from the ring, everybody else remains. */
  lemma TimeoutSettles(s: RingState, q: Manage, hv: HyperVolume)
    requires InProgress(s, q)
    ensures var (t, q', a) := TimeoutStep(s, q, hv);
      && q'.finished && a != Refused && Settled(s, t, q.ring, q.rows.Keys)
      && (a == Committed ==> |t.prim[q.ring]| == s.primSize)
  {
    var bad := Silent(q.remote, q.rows);
    var v := EraseAll(SetFrozen(s, q.ring, false), bad);
    SilentErased(s, q);
    var q1 := q.(remote := q.remote - Elements(bad), rows := DropAll(q.rows, bad));
    ReplaceSettles(v, q1, hv);
    SettledTwice(s, v, Replace(v, q1, hv).0, q.ring, q.rows.Keys);
  }

  lemma ThawedSettled(s: RingState, ring: nat)
    requires s.Inv() && ring < MAX_NUM_RINGS
    ensures SetFrozen(s, ring, false).Inv() && Settled(s, SetFrozen(s, ring, false), ring, s.Members(ring))
  {
    FrozenIrrelevant(s, ring, false);
    assert s.lat - {} == s.lat;
  }

  lemma SilentErased(s: RingState, q: Manage)
    requires InProgress(s, q)
    ensures var bad := Silent(q.remote, q.rows);
      var v := EraseAll(SetFrozen(s, q.ring, false), bad);
      var q1 := q.(remote := q.remote - Elements(bad), rows := DropAll(q.rows, bad));
      && Settled(s, v, q.ring, q.rows.Keys) && Sane(q1)
      && q1.rows.Keys == q1.remote == q.rows.Keys
  {
    var bad := Silent(q.remote, q.rows);
    SilentEffect(q.remote, q.rows);
    ThawedSettled(s, q.ring);
    ErasedSettled(SetFrozen(s, q.ring, false), q.ring, bad);
    DropAllWithin(q.remote, q.rows, bad);
    assert q.remote - Elements(bad) == q.rows.Keys;
    SettledSmaller(s, SetFrozen(s, q.ring, false), EraseAll(SetFrozen(s, q.ring, false), bad), q.ring, q.rows.Keys);
  }

  lemma ErasedSettled(u: RingState, ring: nat, bad: seq<NodeIdent>)
    requires u.Inv() && ring < MAX_NUM_RINGS && !u.frozen[ring] && Distinct(bad) && Elements(bad) <= u.Members(ring)
    ensures Settled(u, EraseAll(u, bad), ring, u.Members(ring) - Elements(bad))
  {
    EraseAllEffect(u, ring, bad);
    var v := EraseAll(u, bad);
    assert u.Members(ring) - (u.Members(ring) - Elements(bad)) == Elements(bad);
    forall k | 0 <= k < MAX_NUM_RINGS && k != ring ensures v.Members(k) == u.Members(k) {
      RingsDisjoint(u, ring, k);
    }
  }

  lemma SettledSmaller(s: RingState, u: RingState, v: RingState, ring: nat, members: set<NodeIdent>)
    requires s.Shape() && ring < MAX_NUM_RINGS && Settled(s, u, ring, s.Members(ring)) && Settled(u, v, ring, members)
    ensures Settled(s, v, ring, members)
  {
    assert s.lat - (s.Members(ring) - s.Members(ring)) == s.lat;
  }

  lemma SettledTwice(s: RingState, v: RingState, t: RingState, ring: nat, members: set<NodeIdent>)
    requires s.Shape() && ring < MAX_NUM_RINGS && Settled(s, v, ring, members) && Settled(v, t, ring, members)
    ensures Settled(s, t, ring, members)
  {
    assert v.lat - (v.Members(ring) - members) == v.lat;
  }

  /** A report either is recorded (or ignored) with the ring untouched, or is the last one and settles the ring. */
  lemma ReportSettles(s: RingState, q: Manage, hv: HyperVolume, from: NodeIdent, report: Option<seq<NodeIdentLat>>)
    requires InProgress(s, q)
    ensures var (t, q', a) := ReportStep(s, q, hv, from, report);
      && a != Refused
      && (!q'.finished ==>
            && t == s && InProgress(s, q') && q'.ring == q.ring && q'.remote == q.remote
            && q'.rows.Keys == q.rows.Keys + (if from in q.remote && report.Some? then {from} else {}))
      && (q'.finished ==>
            && report.Some? && q.rows.Keys + {from} == q.remote && Settled(s, t, q.ring, q.remote)
            && (a == Committed ==> |t.prim[q.ring]| == s.primSize))
  {
    if from in q.remote && from !in q.rows && report.Some? {
      var q1 := q.(rows := q.rows[from := RowOf(report.value, q.remote)]);
      assert Sane(q1) && q1.rows.Keys == q.rows.Keys + {from};
      if |q1.rows| == |q1.remote| { LastReportSettles(s, q1, hv); }
    }
  }

  lemma LastReportSettles(s: RingState, q: Manage, hv: HyperVolume)
    requires InProgress(s, q) && |q.rows| == |q.remote|
    ensures q.rows.Keys == q.remote
    ensures var (t, q', a) := Replace(SetFrozen(s, q.ring, false), q, hv);
      && a != Refused && Settled(s, t, q.ring, q.remote)
      && (a == Committed ==> |t.prim[q.ring]| == s.primSize)
  {
    SubsetFull(q.rows.Keys, q.remote);
    var u := SetFrozen(s, q.ring, false);
    ThawedSettled(s, q.ring);
    ReplaceSettles(u, q, hv);
    SettledTwice(s, u, Replace(u, q, hv).0, q.ring, q.remote);
  }

  // ---------------------------------------------------------------- whole runs

  /** Events that may happen while the query runs: nobody else thaws this ring or commits to it. */
  predicate Legal(e: Event, ring: nat, primSize: nat) {
    e.Foreign? ==> Proper(e.op, primSize) && LeavesFrozen(e.op, ring)
  }

  lemma ForeignKeepsProgress(s: RingState, q: Manage, op: RingOp)
    requires InProgress(s, q) && Proper(op, s.primSize) && LeavesFrozen(op, q.ring)
    ensures InProgress(Apply(s, op), q) && Apply(s, op).SameConfig(s)
  {
    FrozenStep(s, op, q.ring);
    ApplyKeepsSizes(s, op);
  }

  /** Who has sent a report that parses. */
  function Reported(events: seq<Event>): set<NodeIdent> {
    set e | e in events && e.Report? && e.report.Some? :: e.from
  }

  lemma ReportedFirst(events: seq<Event>, k: nat)
    requires events != [] && k < |events|
    ensures Reported(events[..k + 1]) == Reported([events[0]]) + Reported(events[1..][..k])
  {
    assert events[..k + 1] == [events[0]] + events[1..][..k];
  }

  /** The members' latencies are what they were. */
  ghost predicate LatenciesKept(s: RingState, t: RingState, members: set<NodeIdent>) {
    forall n :: n in members ==> n in s.lat && n in t.lat && t.lat[n] == s.lat[n]
  }

  /** The situation `used` events after (s, q). */
  ghost predicate RunOk(s: RingState, q: Manage, events: seq<Event>, t: RingState, q': Manage, a: Attempt, used: nat)
    requires InProgress(s, q)
  {
    && used <= |events| && a != Refused && t.SameConfig(s)
    && (!q'.finished ==>
          && used == |events| && InProgress(t, q') && q'.ring == q.ring && q'.remote == q.remote
          && t.prim[q.ring] == s.prim[q.ring] && t.sec[q.ring] == s.sec[q.ring]
          && LatenciesKept(s, t, q.remote)
          && q'.rows.Keys == q.remote * (q.rows.Keys + Reported(events)))
    && (q'.finished ==>
          && t.Inv() && !t.frozen[q.ring]
          && t.Members(q.ring) == q.remote * (q.rows.Keys + Reported(events[..used]))
          && LatenciesKept(s, t, t.Members(q.ring))
          && (a == Committed ==> |t.prim[q.ring]| == s.primSize))
  }

  /** One step meets the contract of a run of length one. */
  lemma StepOk(s: RingState, q: Manage, hv: HyperVolume, e: Event)
    requires InProgress(s, q) && Legal(e, q.ring, s.primSize)
    ensures var (t, q', a) := Step(s, q, hv, e); RunOk(s, q, [e], t, q', a, 1)
  {
    match e
    case Foreign(op) => ForeignOk(s, q, op);
    case Report(from, report) =>
      ReportSettles(s, q, hv, from, report);
      var (t, q', a) := ReportStep(s, q, hv, from, report);
      ReportOk(s, q, from, report, t, q', a);
    case Timeout =>
      TimeoutSettles(s, q, hv);
      var (t, q', a) := TimeoutStep(s, q, hv);
      TimeoutOk(s, q, t, q', a);
  }

  lemma DumpedLatencies(s: RingState, q: Manage)
    requires InProgress(s, q)
    ensures LatenciesKept(s, s, q.remote)
  {
    assert s.RingOk(q.ring);
    forall n | n in q.remote ensures n in s.lat { assert s.InRing(q.ring, n); }
  }

  lemma ForeignOk(s: RingState, q: Manage, op: RingOp)
    requires InProgress(s, q) && Legal(Foreign(op), q.ring, s.primSize)
    ensures RunOk(s, q, [Foreign(op)], Apply(s, op), q, NotReached, 1)
  {
    FrozenStep(s, op, q.ring);
    ForeignKeepsProgress(s, q, op);
    assert Reported([Foreign(op)]) == {};
    forall n | n in q.remote ensures n in s.lat && n in Apply(s, op).lat && Apply(s, op).lat[n] == s.lat[n] {
      assert s.InRing(q.ring, n);
    }
  }

  lemma ReportOk(s: RingState, q: Manage, from: NodeIdent, report: Option<seq<NodeIdentLat>>,
                 t: RingState, q': Manage, a: Attempt)
    requires InProgress(s, q) && a != Refused
    requires !q'.finished ==>
      && t == s && InProgress(s, q') && q'.ring == q.ring && q'.remote == q.remote
      && q'.rows.Keys == q.rows.Keys + (if from in q.remote && report.Some? then {from} else {})
    requires q'.finished ==>
      && report.Some? && q.rows.Keys + {from} == q.remote && Settled(s, t, q.ring, q.remote)
      && (a == Committed ==> |t.prim[q.ring]| == s.primSize)
    ensures RunOk(s, q, [Report(from, report)], t, q', a, 1)
  {
    var events := [Report(from, report)];
    assert Reported(events) == if report.Some? then {from} else {};
    assert events[..1] == events;
    DumpedLatencies(s, q);
    if q'.finished { SettledLatencies(s, t, q.ring, q.remote); }
  }

  lemma TimeoutOk(s: RingState, q: Manage, t: RingState, q': Manage, a: Attempt)
    requires InProgress(s, q) && a != Refused && q'.finished && Settled(s, t, q.ring, q.rows.Keys)
    requires a == Committed ==> |t.prim[q.ring]| == s.primSize
    ensures RunOk(s, q, [Timeout], t, q', a, 1)
  {
    assert [Timeout][..1] == [Timeout];
    assert Reported([Timeout]) == {};
    SettledLatencies(s, t, q.ring, q.rows.Keys);
  }

  // ---------------------------------------------------------------- any machine whose steps meet the contract

  type Machine = (RingState, Manage, Event) -> (RingState, Manage, Attempt)

  ghost predicate MeetsContract(step: Machine, ring: nat, primSize: nat) {
    forall s, q, e :: InProgress(s, q) && q.ring == ring && s.primSize == primSize && Legal(e, ring, primSize) ==>
      RunOk(s, q, [e], step(s, q, e).0, step(s, q, e).1, step(s, q, e).2, 1)
  }

  /** The run up to and including the event that finishes the query; also how many events that took. */
  ghost function Run(step: Machine, s: RingState, q: Manage, events: seq<Event>): (RingState, Manage, Attempt, nat)
    decreases |events|
  {
    if events == [] then (s, q, NotReached, 0)
    else
      var (t, q', a) := step(s, q, events[0]);
      if q'.finished then (t, q', a, 1)
      else
        var r := Run(step, t, q', events[1..]);
        (r.0, r.1, r.2, r.3 + 1)
  }

  lemma {:induction false} RunMeetsContract(step: Machine, s: RingState, q: Manage, events: seq<Event>)
    requires MeetsContract(step, q.ring, s.primSize) && InProgress(s, q)
    requires forall e :: e in events ==> Legal(e, q.ring, s.primSize)
    ensures var r := Run(step, s, q, events); RunOk(s, q, events, r.0, r.1, r.2, r.3)
    decreases |events|
  {
    DumpedLatencies(s, q);
    if events == [] {
      assert Reported(events) == {};
    } else {
      var (t, q', a) := step(s, q, events[0]);
      assert Legal(events[0], q.ring, s.primSize);
      assert RunOk(s, q, [events[0]], t, q', a, 1);
      if q'.finished {
        assert events[..1] == [events[0]] == [events[0]][..1];
      } else {
        RunMeetsContract(step, t, q', events[1..]);
        var r := Run(step, t, q', events[1..]);
        RunOkTransitive(s, q, events, t, q', a, r.0, r.1, r.2, r.3);
      }
    }
  }

  lemma RunOkTransitive(s: RingState, q: Manage, events: seq<Event>, t: RingState, q': Manage, a: Attempt,
                        t2: RingState, q2: Manage, a2: Attempt, used: nat)
    requires InProgress(s, q) && events != [] && RunOk(s, q, [events[0]], t, q', a, 1) && !q'.finished
    requires RunOk(t, q', events[1..], t2, q2, a2, used)
    ensures RunOk(s, q, events, t2, q2, a2, used + 1)
  {
    ReportedFirst(events, used);
    if !q2.finished { ReportedSplit(events); }
  }

  lemma ReportedSplit(events: seq<Event>)
    requires events != []
    ensures Reported(events) == Reported([events[0]]) + Reported(events[1..])
  {
    assert events == [events[0]] + events[1..];
  }

  lemma SettledLatencies(s: RingState, t: RingState, ring: nat, members: set<NodeIdent>)
    requires s.Inv() && ring < MAX_NUM_RINGS && Settled(s, t, ring, members) && members <= s.Members(ring)
    ensures LatenciesKept(s, t, t.Members(ring))
  {
    assert s.RingOk(ring);
    forall n | n in t.Members(ring) ensures n in s.lat && n in t.lat && t.lat[n] == s.lat[n] {
      assert s.InRing(ring, n);
    }
  }

  /** The replacement query as such a machine. */
  ghost function Replacement(hv: HyperVolume): Machine {
    (s: RingState, q: Manage, e: Event) => if s.Shape() && Sane(q) then Step(s, q, hv, e) else (s, q, NotReached)
  }

  lemma ReplacementMeetsContract(hv: HyperVolume, ring: nat, primSize: nat)
    ensures MeetsContract(Replacement(hv), ring, primSize)
  {
    var step := Replacement(hv);
    forall s, q, e | InProgress(s, q) && q.ring == ring && s.primSize == primSize && Legal(e, ring, primSize)
      ensures RunOk(s, q, [e], step(s, q, e).0, step(s, q, e).1, step(s, q, e).2, 1)
    {
      StepOk(s, q, hv, e);
    }
  }

  /**
    The main result. A replacement of any ring of a sound ring set, started by dumping and freezing it and run against
    any sequence of reports, a timeout and operations of other users, is at every moment in one of two situations.
    Unfinished: the ring is still frozen and its lists are those that were dumped.
    Finished: the ring is open, its members are exactly the dumped ones that sent a report, their latencies are the
    dumped ones, a commit was never refused, and a commit left the primary list full; the ring set is sound
    throughout.
   */
  lemma ReplacementEndToEnd(s: RingState, ring: nat, hv: HyperVolume, events: seq<Event>)
    requires s.Inv() && ring < MAX_NUM_RINGS && NOBODY !in s.Members(ring)
    requires forall e :: e in events ==> Legal(e, ring, s.primSize)
    ensures var (s0, q0) := Start(s, ring);
      var (t, q, a, used) := Run(Replacement(hv), s0, q0, events);
      && used <= |events| && a != Refused && t.Inv() && t.SameConfig(s)
      && (!q.finished ==>
            used == |events| && t.frozen[ring] && t.prim[ring] == s.prim[ring] && t.sec[ring] == s.sec[ring])
      && (q.finished ==>
            && !t.frozen[ring]
            && t.Members(ring) == s.Members(ring) * Reported(events[..used])
            && LatenciesKept(s, t, t.Members(ring))
            && (a == Committed ==> |t.prim[ring]| == s.primSize))
  {
    var (s0, q0) := Start(s, ring);
    FrozenIrrelevant(s, ring, true);
    assert s0.Members(ring) == s.Members(ring);
    ReplacementMeetsContract(hv, ring, s.primSize);
    RunMeetsContract(Replacement(hv), s0, q0, events);
  }
}
