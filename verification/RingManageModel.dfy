/**
  Ring replacement as a protocol on values: dump and freeze a ring, collect one row of latencies per member,
  prune members with incomplete rows, reduce greedily to a full primary list, and commit.
  The main result covers every interleaving with other operations on the same ring set.
 */
module RingManageModel {
  import opened Base
  import opened RingModel
  import opened RingRuns
  import opened ReduceSet

  type Row = map<NodeIdent, uint32>
  type Rows = map<NodeIdent, Row>

  // ---------------------------------------------------------------- pruning

  /** The row misses more than one of n candidates. */
  predicate Deficient(row: Row, n: nat) {
    |row| + 1 < n
  }

  /** Among nodes with equally short rows the first in iteration order counts as worse. */
  predicate Worse(rows: Rows, x: NodeIdent, y: NodeIdent)
    requires x in rows && y in rows
  {
    |rows[x]| < |rows[y]| || (|rows[x]| == |rows[y]| && NodeLess(x, y))
  }

  /** w has the shortest deficient row; NOBODY when no row is deficient. */
  ghost predicate IsWorst(rows: Rows, n: nat, w: NodeIdent) {
    if w == NOBODY then forall x :: x in rows ==> !Deficient(rows[x], n)
    else w in rows && Deficient(rows[w], n)
         && forall x :: x in rows && x != w && Deficient(rows[x], n) ==> Worse(rows, w, x)
  }

  lemma {:induction false} WorstAmong(rows: Rows, s: set<NodeIdent>) returns (w: NodeIdent)
    requires s != {} && s <= rows.Keys
    ensures w in s && forall x :: x in s && x != w ==> Worse(rows, w, x)
  {
    var x :| x in s;
    if s == {x} {
      w := x;
    } else {
      var m := WorstAmong(rows, s - {x});
      w := if Worse(rows, x, m) then x else m;
      assert forall y :: y in s ==> y == x || y in s - {x};
    }
  }

  lemma WorstExists(rows: Rows, n: nat)
    requires NOBODY !in rows
    ensures exists w :: IsWorst(rows, n, w)
  {
    var deficient := set x | x in rows && Deficient(rows[x], n);
    if deficient == {} {
      forall x | x in rows ensures !Deficient(rows[x], n) {
        assert x !in deficient;
      }
      assert IsWorst(rows, n, NOBODY);
    } else {
      var w := WorstAmong(rows, deficient);
      assert IsWorst(rows, n, w);
    }
  }

  ghost function Worst(rows: Rows, n: nat): (w: NodeIdent)
    requires NOBODY !in rows
    ensures IsWorst(rows, n, w)
  {
    WorstExists(rows, n);
    var w :| IsWorst(rows, n, w);
    w
  }

  lemma WorstUnique(rows: Rows, n: nat, v: NodeIdent, w: NodeIdent)
    requires IsWorst(rows, n, v) && IsWorst(rows, n, w)
    ensures v == w
  {}

  /** Everything known from and about one node forgotten. */
  function DropNode(rows: Rows, n: NodeIdent): Rows {
    map x | x in rows && x != n :: rows[x] - {n}
  }

  datatype Pruned = Pruned(remote: set<NodeIdent>, rows: Rows, removed: seq<NodeIdent>, enough: bool)

  /** Drops the worst node until every row is long enough, or too few nodes are left. */
  ghost function Prune(remote: set<NodeIdent>, rows: Rows, primSize: nat, removed: seq<NodeIdent>): (p: Pruned)
    requires rows.Keys == remote && NOBODY !in remote
    ensures p.rows.Keys == p.remote
    ensures p.enough ==> |p.remote| > primSize
    decreases |remote|
  {
    if |remote| <= primSize then Pruned(remote, rows, removed, false)
    else
      var worst := Worst(rows, |remote|);
      if worst == NOBODY then Pruned(remote, rows, removed, true)
      else Prune(remote - {worst}, DropNode(rows, worst), primSize, removed + [worst])
  }

  /** Rows only speak about candidates. */
  ghost predicate Within(remote: set<NodeIdent>, rows: Rows) {
    rows.Keys <= remote && forall x :: x in rows ==> rows[x].Keys <= remote
  }

  ghost predicate OmitSelf(rows: Rows) {
    forall x :: x in rows ==> x !in rows[x]
  }

  lemma DropNodeIs(rows: Rows, n: NodeIdent, dropped: Rows)
    requires dropped.Keys == rows.Keys - {n} && forall x :: x in dropped ==> dropped[x] == rows[x] - {n}
    ensures dropped == DropNode(rows, n)
  {}

  lemma DropNodeWithin(remote: set<NodeIdent>, rows: Rows, n: NodeIdent)
    requires Within(remote, rows)
    ensures Within(remote - {n}, DropNode(rows, n)) && DropNode(rows, n).Keys == rows.Keys - {n}
    ensures OmitSelf(rows) ==> OmitSelf(DropNode(rows, n))
  {}

  /** The pruning loop: each turn takes exactly one candidate away and reports it. */
  lemma {:induction false} PruneReportsRemoved(remote: set<NodeIdent>, rows: Rows, primSize: nat,
                                               removed: seq<NodeIdent>)
    requires rows.Keys == remote && NOBODY !in remote
    ensures var p := Prune(remote, rows, primSize, removed);
      && p.remote <= remote
      && |p.removed| == |removed| + |remote| - |p.remote|
      && Elements(p.removed) == Elements(removed) + (remote - p.remote)
    decreases |remote|
  {
    var worst := Worst(rows, |remote|);
    if |remote| > primSize && worst != NOBODY {
      PruneReportsRemoved(remote - {worst}, DropNode(rows, worst), primSize, removed + [worst]);
      OneMoreRemoved(remote, worst, Prune(remote - {worst}, DropNode(rows, worst), primSize,
                                          removed + [worst]).remote, removed);
    }
  }

  lemma OneMoreRemoved(remote: set<NodeIdent>, worst: NodeIdent, left: set<NodeIdent>, removed: seq<NodeIdent>)
    requires worst in remote && left <= remote - {worst}
    ensures |remote - {worst}| == |remote| - 1
    ensures Elements(removed + [worst]) + (remote - {worst} - left) == Elements(removed) + (remote - left)
  {}

  /** Rows stay inside the candidates throughout, and never gain a self-entry. */
  lemma {:induction false} PruneWithin(remote: set<NodeIdent>, rows: Rows, primSize: nat, removed: seq<NodeIdent>)
    requires rows.Keys == remote && Within(remote, rows) && NOBODY !in remote
    ensures var p := Prune(remote, rows, primSize, removed);
      Within(p.remote, p.rows) && (OmitSelf(rows) ==> OmitSelf(p.rows))
    decreases |remote|
  {
    var worst := Worst(rows, |remote|);
    if |remote| > primSize && worst != NOBODY {
      DropNodeWithin(remote, rows, worst);
      PruneWithin(remote - {worst}, DropNode(rows, worst), primSize, removed + [worst]);
    }
  }

  /** Every row has an entry for all but at most one candidate. */
  ghost predicate LongRows(remote: set<NodeIdent>, rows: Rows) {
    forall x :: x in rows ==> |rows[x]| + 1 >= |remote|
  }

  /** The loop ends, other than for want of candidates, only when no row is deficient any more. */
  lemma {:induction false} PruneLongRows(remote: set<NodeIdent>, rows: Rows, primSize: nat, removed: seq<NodeIdent>)
    requires rows.Keys == remote && NOBODY !in remote
    ensures var p := Prune(remote, rows, primSize, removed); p.enough ==> LongRows(p.remote, p.rows)
    decreases |remote|
  {
    var worst := Worst(rows, |remote|);
    if |remote| > primSize {
      if worst != NOBODY {
        PruneLongRows(remote - {worst}, DropNode(rows, worst), primSize, removed + [worst]);
      }
    }
  }

  /** The row has an entry for every candidate other than x. */
  ghost predicate Covers(row: set<NodeIdent>, remote: set<NodeIdent>, x: NodeIdent) {
    forall y :: y in remote && y != x ==> y in row
  }

  /** createLatencyMatrix needs no more of x than an entry for every candidate other than x. */
  ghost predicate RowFull(remote: set<NodeIdent>, rows: Rows, x: NodeIdent) {
    forall y :: y in remote && y != x ==> x in rows && y in rows[x]
  }

  /** createLatencyMatrix finds an entry for every ordered pair of distinct candidates. */
  ghost predicate MatrixComplete(remote: set<NodeIdent>, rows: Rows) {
    forall x :: x in remote ==> RowFull(remote, rows, x)
  }

  /** A row that mentions its own node mentions all the others too. */
  ghost predicate SelfEntryMeansAll(remote: set<NodeIdent>, row: Row, x: NodeIdent) {
    x in row ==> |row| == |remote|
  }

  /**
    When pruning ends with enough nodes, the matrix can be built exactly if a row that mentions its own node
    mentions all the others too: a self-entry is the one thing the size check cannot see.
   */
  lemma PrunedMatrix(remote: set<NodeIdent>, rows: Rows)
    requires rows.Keys == remote && Within(remote, rows) && LongRows(remote, rows)
    ensures MatrixComplete(remote, rows) <==> forall x :: x in rows ==> SelfEntryMeansAll(remote, rows[x], x)
    ensures OmitSelf(rows) ==> MatrixComplete(remote, rows)
  {
    forall x | x in remote ensures RowFull(remote, rows, x) <==> SelfEntryMeansAll(remote, rows[x], x) {
      PrunedRow(remote, rows[x], x);
    }
  }

  lemma PrunedRow(remote: set<NodeIdent>, row: Row, x: NodeIdent)
    requires row.Keys <= remote && x in remote && |row| + 1 >= |remote|
    ensures Covers(row.Keys, remote, x) <==> SelfEntryMeansAll(remote, row, x)
  {
    assert |row.Keys| == |row|;
    RowComplete(remote, row.Keys, x);
  }

  lemma RowComplete(remote: set<NodeIdent>, row: set<NodeIdent>, x: NodeIdent)
    requires row <= remote && x in remote && |row| + 1 >= |remote|
    ensures Covers(row, remote, x) <==> (x in row ==> |row| == |remote|)
  {
    if x !in row {
      SubsetSize(row, remote - {x});
      SubsetFull(row, remote - {x});
    } else if |row| == |remote| {
      SubsetFull(row, remote);
    } else {
      assert Covers(row, remote, x) ==> row == remote;
    }
  }

  /** A self-entry really can leave the matrix incomplete: two candidates, both rows naming only the first. */
  lemma SelfEntryDefeatsPruning()
    ensures var a, b := NodeIdent(1, 1), NodeIdent(2, 2);
      var rows: Rows := map[a := map[a := 5], b := map[a := 7]];
      var p := Prune({a, b}, rows, 1, []);
      p.enough && p.remote == {a, b} && !MatrixComplete(p.remote, p.rows)
  {
    var a, b := NodeIdent(1, 1), NodeIdent(2, 2);
    var rows: Rows := map[a := map[a := 5], b := map[a := 7]];
    assert |rows[a]| == 1 && |rows[b]| == 1;
    assert |{a, b}| == 2;
    assert Worst(rows, 2) == NOBODY;
    assert !RowFull({a, b}, rows, a);
  }

  // ---------------------------------------------------------------- the query

  datatype Manage = Manage(ring: nat, remote: set<NodeIdent>, rows: Rows, finished: bool)

  /** What every step of an unfinished query may rely on. */
  ghost predicate Sane(q: Manage) {
    q.ring < MAX_NUM_RINGS && Within(q.remote, q.rows) && NOBODY !in q.remote
  }

  /** How the attempt to commit went, if it came to that. */
  datatype Attempt = NotReached | Committed | Refused

  /** Latency in milliseconds between two candidates, as the matrix holds it. */
  function MatrixLatency(rows: Rows): Latency {
    (x: NodeIdent, y: NodeIdent) => if x != y && x in rows && y in rows[x] then rows[x][y] as real / 1000.0 else 0.0
  }

  ghost function Chosen(remote: set<NodeIdent>, rows: Rows, primSize: nat,
                        hv: HyperVolume): (seq<NodeIdent>, seq<NodeIdent>)
    requires primSize <= |remote|
  {
    Greedy(RemainingVolume(MatrixLatency(rows), hv), Ascending(remote), |remote| - primSize)
  }

  /** The greedy choice becomes the primary list; pruned and reduced nodes become the secondary one. */
  ghost function CommitChosen(s: RingState, ring: nat, p: Pruned, hv: HyperVolume): (RingState, bool)
    requires s.Shape() && s.primSize <= |p.remote|
  {
    var (kept, deleted) := Chosen(p.remote, p.rows, s.primSize, hv);
    SetRingMembers(s, ring, kept, p.removed + deleted)
  }

  /** The attempt after pruning; the matrix of an incomplete set of rows is never built. */
  ghost function AttemptCommit(s: RingState, ring: nat, p: Pruned, hv: HyperVolume): (RingState, Attempt)
    requires s.Shape() && (p.enough ==> s.primSize <= |p.remote|)
  {
    if !p.enough || !MatrixComplete(p.remote, p.rows) then (s, NotReached)
    else
      var (t, ok) := CommitChosen(s, ring, p, hv);
      (t, if ok then Committed else Refused)
  }

  /** performReplacement. */
  ghost function Replace(s: RingState, q: Manage, hv: HyperVolume): (RingState, Manage, Attempt)
    requires s.Shape() && Sane(q)
  {
    if |q.remote| != |q.rows| then (s, q, NotReached)
    else
      SubsetFull(q.rows.Keys, q.remote);
      var p := Prune(q.remote, q.rows, s.primSize, []);
      var (t, a) := AttemptCommit(s, q.ring, p, hv);
      (t, q.(remote := p.remote, rows := p.rows), a)
  }

  /** One parsed report as a row: entries about non-candidates are ignored, a repeated entry overwrites. */
  function RowOf(report: seq<NodeIdentLat>, remote: set<NodeIdent>): (row: Row)
    ensures row.Keys <= remote
  {
    if report == [] then map[]
    else
      var front, last := RowOf(report[..|report| - 1], remote), report[|report| - 1];
      if last.node in remote then front[last.node := last.latencyUS] else front
  }

  function EraseAll(s: RingState, nodes: seq<NodeIdent>): (t: RingState)
    requires s.Shape()
    ensures t.SameConfig(s)
  {
    if nodes == [] then s else RingModel.Erase(EraseAll(s, nodes[..|nodes| - 1]), nodes[|nodes| - 1]).0
  }

  function DropAll(rows: Rows, nodes: seq<NodeIdent>): Rows {
    if nodes == [] then rows else DropNode(DropAll(rows, nodes[..|nodes| - 1]), nodes[|nodes| - 1])
  }

  /** The nodes among these that never reported. */
  function SilentAmong(nodes: seq<NodeIdent>, rows: Rows): seq<NodeIdent> {
    if nodes == [] then []
    else
      var last := nodes[|nodes| - 1];
      SilentAmong(nodes[..|nodes| - 1], rows) + if last in rows then [] else [last]
  }

  lemma {:induction false} SilentAmongEffect(nodes: seq<NodeIdent>, rows: Rows)
    requires Distinct(nodes)
    ensures Distinct(SilentAmong(nodes, rows)) && Elements(SilentAmong(nodes, rows)) == Elements(nodes) - rows.Keys
  {
    if nodes == [] {
      assert Elements(nodes) == {} && Elements(SilentAmong(nodes, rows)) == {};
    } else {
      var front, last := nodes[..|nodes| - 1], nodes[|nodes| - 1];
      SilentAmongEffect(front, rows);
      assert Elements(nodes) == Elements(front) + {last};
      var bad := SilentAmong(front, rows);
      assert Elements(bad + [last]) == Elements(bad) + {last};
      assert last !in bad by { assert last !in Elements(front); }
    }
  }

  /** The candidates that never reported, in iteration order. */
  ghost function Silent(remote: set<NodeIdent>, rows: Rows): seq<NodeIdent> {
    SilentAmong(Ascending(remote), rows)
  }

  lemma SilentEffect(remote: set<NodeIdent>, rows: Rows)
    ensures Distinct(Silent(remote, rows)) && Elements(Silent(remote, rows)) == remote - rows.Keys
  {
    AscendingDistinct(remote);
    SilentAmongEffect(Ascending(remote), rows);
  }

  datatype Event =
    | Foreign(op: RingOp)                                        // any other user of the ring set
    | Report(from: NodeIdent, report: Option<seq<NodeIdentLat>>) // a packet; None when it does not parse
    | Timeout

  ghost function ReportStep(s: RingState, q: Manage, hv: HyperVolume, from: NodeIdent,
                            report: Option<seq<NodeIdentLat>>)
    : (RingState, Manage, Attempt)
    requires s.Shape() && Sane(q)
  {
    if from !in q.remote || from in q.rows || report.None? then (s, q, NotReached)
    else
      var q' := q.(rows := q.rows[from := RowOf(report.value, q.remote)]);
      if |q'.rows| != |q'.remote| then (s, q', NotReached)
      else
        var (t, q'', a) := Replace(SetFrozen(s, q.ring, false), q', hv);
        (t, q''.(finished := true), a)
  }

  ghost function TimeoutStep(s: RingState, q: Manage, hv: HyperVolume): (RingState, Manage, Attempt)
    requires s.Shape() && Sane(q)
  {
    var bad := Silent(q.remote, q.rows);
    var t := EraseAll(SetFrozen(s, q.ring, false), bad);
    DropAllWithin(q.remote, q.rows, bad);
    var q' := q.(remote := q.remote - Elements(bad), rows := DropAll(q.rows, bad));
    var (t', q'', a) := Replace(t, q', hv);
    (t', q''.(finished := true), a)
  }

  lemma {:induction false} DropAllWithin(remote: set<NodeIdent>, rows: Rows, nodes: seq<NodeIdent>)
    requires Within(remote, rows)
    ensures Within(remote - Elements(nodes), DropAll(rows, nodes))
    ensures DropAll(rows, nodes).Keys == rows.Keys - Elements(nodes)
    ensures OmitSelf(rows) ==> OmitSelf(DropAll(rows, nodes))
    decreases |nodes|
  {
    if nodes == [] {
      assert remote - Elements(nodes) == remote;
    } else {
      var front, last := nodes[..|nodes| - 1], nodes[|nodes| - 1];
      DropAllWithin(remote, rows, front);
      DropNodeWithin(remote - Elements(front), DropAll(rows, front), last);
      assert Elements(nodes) == Elements(front) + {last};
      assert remote - Elements(nodes) == remote - Elements(front) - {last};
    }
  }

  ghost function Step(s: RingState, q: Manage, hv: HyperVolume, e: Event): (RingState, Manage, Attempt)
    requires s.Shape() && Sane(q)
  {
    match e
    case Foreign(op) => (Apply(s, op), q, NotReached)
    case Report(from, report) => ReportStep(s, q, hv, from, report)
    case Timeout => TimeoutStep(s, q, hv)
  }

  /** What init leaves behind. */
  function Start(s: RingState, ring: nat): (RingState, Manage)
    requires s.Shape() && ring < MAX_NUM_RINGS
  {
    (SetFrozen(s, ring, true), Manage(ring, s.Members(ring), map[], false))
  }
}
