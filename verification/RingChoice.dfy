/**
  Whom a replacement makes primary members. Pruning and reduction are described by the reports alone: who is pruned,
  on which latencies the hypervolume is measured, and whose removal each round costs least. A whole run is then shown
  to commit exactly such a choice, made on the first report of every member.
 */
module RingChoice {
  import opened Base
  import opened RingModel
  import opened RingRuns
  import opened ReduceSet
  import opened RingManageModel
  import opened RingReplacement

  // ---------------------------------------------------------------- what a report says

  /** Entry i is the last one about its node. */
  ghost predicate LastWord(report: seq<NodeIdentLat>, i: nat) {
    i < |report| && forall j :: i < j < |report| ==> report[j].node != report[i].node
  }

  /** The row holds the last word of the report on every candidate it mentions, and nothing else. */
  ghost predicate IsRow(report: seq<NodeIdentLat>, remote: set<NodeIdent>, row: Row) {
    && (forall y :: y in row ==> y in remote && exists i :: 0 <= i < |report| && report[i].node == y)
    && forall i: nat :: LastWord(report, i) && report[i].node in remote ==>
         report[i].node in row && row[report[i].node] == report[i].latencyUS
  }

  lemma {:induction false} RowOfIsRow(report: seq<NodeIdentLat>, remote: set<NodeIdent>)
    ensures IsRow(report, remote, RowOf(report, remote))
  {
    if report != [] {
      var n := |report| - 1;
      var row := RowOf(report, remote);
      RowOfIsRow(report[..n], remote);
      forall y | y in row ensures y in remote && exists i :: 0 <= i < |report| && report[i].node == y {
        if y == report[n].node { assert report[n].node == y; }
      }
      forall i: nat | LastWord(report, i) && report[i].node in remote
        ensures report[i].node in row && row[report[i].node] == report[i].latencyUS
      {
        if i < n { assert LastWord(report[..n], i); }
      }
    }
  }

  // ---------------------------------------------------------------- pruning

  /** How many of the candidates x reported on. */
  function Entries(rows: Rows, x: NodeIdent, remote: set<NodeIdent>): nat
    requires x in rows
  {
    |rows[x].Keys * remote|
  }

  /** The row of x misses more than one candidate. */
  predicate Short(rows: Rows, x: NodeIdent, remote: set<NodeIdent>)
    requires x in rows
  {
    Entries(rows, x, remote) + 1 < |remote|
  }

  /** Of the candidates with short rows w has the shortest, and comes first among equals. */
  ghost predicate Shortest(rows: Rows, w: NodeIdent, remote: set<NodeIdent>)
    requires remote <= rows.Keys
  {
    && w in remote && Short(rows, w, remote)
    && forall x :: x in remote && x != w && Short(rows, x, remote) ==>
         Entries(rows, w, remote) < Entries(rows, x, remote)
         || (Entries(rows, w, remote) == Entries(rows, x, remote) && NodeLess(w, x))
  }

  /** The removed nodes go one by one, each with the shortest row of its time; those left all have long rows. */
  ghost predicate Prunes(rows: Rows, primSize: nat, remote: set<NodeIdent>, removed: seq<NodeIdent>,
                         left: set<NodeIdent>)
    requires remote <= rows.Keys
    decreases |removed|
  {
    if removed == [] then left == remote
    else
      && |remote| > primSize && Shortest(rows, removed[0], remote)
      && Prunes(rows, primSize, remote - {removed[0]}, removed[1..], left)
  }

  /** Pruning is over: too few are left, or nobody's row is short. */
  ghost predicate Enough(rows: Rows, primSize: nat, left: set<NodeIdent>)
    requires left <= rows.Keys
  {
    |left| > primSize && forall x :: x in left ==> !Short(rows, x, left)
  }

  /** What is left of the rows once only these candidates count. */
  ghost predicate Restricted(rows: Rows, part: Rows, remote: set<NodeIdent>) {
    && remote <= rows.Keys && part.Keys == remote
    && forall x :: x in remote ==> SameOn(rows[x], part[x], remote)
  }

  ghost predicate SameOn(row: Row, part: Row, remote: set<NodeIdent>) {
    part.Keys == row.Keys * remote && forall y :: y in part ==> part[y] == row[y]
  }

  lemma DropRestricted(rows: Rows, part: Rows, remote: set<NodeIdent>, n: NodeIdent)
    requires Restricted(rows, part, remote)
    ensures Restricted(rows, DropNode(part, n), remote - {n})
  {
    forall x | x in remote - {n} ensures SameOn(rows[x], DropNode(part, n)[x], remote - {n}) {
      assert SameOn(rows[x], part[x], remote);
    }
  }

  lemma {:induction false} DropAllRestricted(rows: Rows, part: Rows, remote: set<NodeIdent>, nodes: seq<NodeIdent>)
    requires Restricted(rows, part, remote)
    ensures Restricted(rows, DropAll(part, nodes), remote - Elements(nodes))
    decreases |nodes|
  {
    if nodes == [] {
      assert remote - Elements(nodes) == remote;
    } else {
      var n := |nodes| - 1;
      DropAllRestricted(rows, part, remote, nodes[..n]);
      DropRestricted(rows, DropAll(part, nodes[..n]), remote - Elements(nodes[..n]), nodes[n]);
      assert nodes == nodes[..n] + [nodes[n]];
      assert remote - Elements(nodes[..n]) - {nodes[n]} == remote - Elements(nodes);
    }
  }

  lemma RowSizes(rows: Rows, part: Rows, remote: set<NodeIdent>)
    requires Restricted(rows, part, remote)
    ensures forall x :: x in remote ==> |part[x]| == Entries(rows, x, remote)
  {
    forall x | x in remote ensures |part[x]| == Entries(rows, x, remote) {
      assert SameOn(rows[x], part[x], remote) && |part[x]| == |part[x].Keys|;
    }
  }

  lemma WorstIsShortest(rows: Rows, part: Rows, remote: set<NodeIdent>)
    requires Restricted(rows, part, remote) && NOBODY !in remote
    ensures var worst := Worst(part, |remote|);
      if worst != NOBODY then Shortest(rows, worst, remote) else forall x :: x in remote ==> !Short(rows, x, remote)
  {
    RowSizes(rows, part, remote);
  }

  /** Prune, in terms of the reported rows. */
  ghost predicate PrunedAs(rows: Rows, primSize: nat, remote: set<NodeIdent>, before: seq<NodeIdent>,
                           removed: seq<NodeIdent>, p: Pruned)
    requires remote <= rows.Keys
  {
    && p.removed == before + removed && Prunes(rows, primSize, remote, removed, p.remote)
    && Restricted(rows, p.rows, p.remote) && (p.enough <==> Enough(rows, primSize, p.remote))
  }

  lemma {:induction false} PruneByReports(rows: Rows, part: Rows, remote: set<NodeIdent>, primSize: nat,
                                          before: seq<NodeIdent>)
    returns (removed: seq<NodeIdent>)
    requires Restricted(rows, part, remote) && NOBODY !in remote
    ensures PrunedAs(rows, primSize, remote, before, removed, Prune(remote, part, primSize, before))
    decreases |remote|
  {
    WorstIsShortest(rows, part, remote);
    var worst := Worst(part, |remote|);
    if |remote| <= primSize || worst == NOBODY {
      removed := [];
      assert before + [] == before;
    } else {
      DropRestricted(rows, part, remote, worst);
      var rest := PruneByReports(rows, DropNode(part, worst), remote - {worst}, primSize, before + [worst]);
      removed := [worst] + rest;
      PutFirst(before, worst, rest);
      OneMorePruned(rows, primSize, remote, before, worst, rest,
                    Prune(remote - {worst}, DropNode(part, worst), primSize, before + [worst]));
    }
  }

  lemma PutFirst(before: seq<NodeIdent>, x: NodeIdent, rest: seq<NodeIdent>)
    ensures before + [x] + rest == before + ([x] + rest) && ([x] + rest)[1..] == rest
  {}

  lemma OneMorePruned(rows: Rows, primSize: nat, remote: set<NodeIdent>, before: seq<NodeIdent>, worst: NodeIdent,
                      rest: seq<NodeIdent>, p: Pruned)
    requires remote <= rows.Keys && |remote| > primSize && Shortest(rows, worst, remote)
    requires PrunedAs(rows, primSize, remote - {worst}, before + [worst], rest, p)
    ensures PrunedAs(rows, primSize, remote, before, [worst] + rest, p)
  {
    PutFirst(before, worst, rest);
    PrunesFirst(rows, primSize, remote, [worst] + rest, p.remote);
  }

  lemma PrunesFirst(rows: Rows, primSize: nat, remote: set<NodeIdent>, removed: seq<NodeIdent>, left: set<NodeIdent>)
    requires remote <= rows.Keys && |remote| > primSize && removed != [] && Shortest(rows, removed[0], remote)
    requires Prunes(rows, primSize, remote - {removed[0]}, removed[1..], left)
    ensures Prunes(rows, primSize, remote, removed, left)
  {}

  // ---------------------------------------------------------------- the reduction

  /** Every ordered pair of different nodes is reported. */
  ghost predicate Complete(rows: Rows, nodes: set<NodeIdent>) {
    forall x, y :: x in nodes && y in nodes && x != y ==> x in rows && y in rows[x]
  }

  /** The reported latencies among these nodes in milliseconds, and nothing on the diagonal. */
  function Milliseconds(rows: Rows, w: seq<NodeIdent>): seq<seq<real>>
    requires forall i, j :: 0 <= i < |w| && 0 <= j < |w| && w[i] != w[j] ==> w[i] in rows && w[j] in rows[w[i]]
  {
    seq(|w|, i requires 0 <= i < |w| =>
      seq(|w|, j requires 0 <= j < |w| => if w[i] == w[j] then 0.0 else rows[w[i]][w[j]] as real / 1000.0))
  }

  /** The nodes without the k-th, the last one in its place. */
  function Without(w: seq<NodeIdent>, k: nat): seq<NodeIdent>
    requires k < |w|
  {
    w[k := w[|w| - 1]][..|w| - 1]
  }

  ghost predicate AllReported(rows: Rows, w: seq<NodeIdent>) {
    forall i, j :: 0 <= i < |w| && 0 <= j < |w| && w[i] != w[j] ==> w[i] in rows && w[j] in rows[w[i]]
  }

  /** The hypervolume the latencies without the k-th node span. */
  function Remaining(rows: Rows, hv: HyperVolume, w: seq<NodeIdent>, k: nat): real
    requires k < |w| && AllReported(rows, w)
  {
    hv(Milliseconds(rows, Without(w, k)))
  }

  /** Removing the k-th node leaves at least as much hypervolume as any other, and more than any later one. */
  ghost predicate CostsLeast(rows: Rows, hv: HyperVolume, w: seq<NodeIdent>, k: nat)
    requires k < |w| && AllReported(rows, w)
  {
    forall j: nat :: j < |w| ==>
      Remaining(rows, hv, w, j) <= Remaining(rows, hv, w, k)
      && (j > k ==> Remaining(rows, hv, w, j) < Remaining(rows, hv, w, k))
  }

  ghost predicate Round(rows: Rows, hv: HyperVolume, w: seq<NodeIdent>, w': seq<NodeIdent>, gone: NodeIdent) {
    AllReported(rows, w)
    && exists k: nat :: k < |w| && w[k] == gone && w' == Without(w, k) && CostsLeast(rows, hv, w, k)
  }

  /** One node after the other is taken out, each time the one whose removal costs least. */
  ghost predicate Rounds(rows: Rows, hv: HyperVolume, steps: seq<seq<NodeIdent>>, deleted: seq<NodeIdent>) {
    |steps| == |deleted| + 1
    && forall i :: 0 <= i < |deleted| ==> Round(rows, hv, steps[i], steps[i + 1], deleted[i])
  }

  lemma BlockIsMilliseconds(rows: Rows, part: Rows, left: set<NodeIdent>, w: seq<NodeIdent>)
    requires Restricted(rows, part, left) && MatrixComplete(left, part) && Elements(w) <= left
    ensures AllReported(rows, w) && Block(MatrixLatency(part), w) == Milliseconds(rows, w)
  {
    PairsReported(rows, part, left, w);
    var lat, b, m := MatrixLatency(part), Block(MatrixLatency(part), w), Milliseconds(rows, w);
    forall i | 0 <= i < |w| ensures b[i] == m[i] {
      forall j | 0 <= j < |w| ensures b[i][j] == m[i][j] {
        assert w[i] in Elements(w) && w[j] in Elements(w);
        assert b[i][j] == lat(w[i], w[j]);
        if w[i] != w[j] { assert SameOn(rows[w[i]], part[w[i]], left) && RowFull(left, part, w[i]); }
      }
    }
  }

  lemma PairsReported(rows: Rows, part: Rows, left: set<NodeIdent>, w: seq<NodeIdent>)
    requires Restricted(rows, part, left) && MatrixComplete(left, part) && Elements(w) <= left
    ensures AllReported(rows, w)
  {
    forall i, j | 0 <= i < |w| && 0 <= j < |w| && w[i] != w[j] ensures w[i] in rows && w[j] in rows[w[i]] {
      assert w[i] in Elements(w) && w[j] in Elements(w);
      assert RowFull(left, part, w[i]) && SameOn(rows[w[i]], part[w[i]], left);
    }
  }

  lemma WithoutStays(w: seq<NodeIdent>, k: nat, left: set<NodeIdent>)
    requires k < |w| && Elements(w) <= left
    ensures Without(w, k) == SwapRemove(w, k) && Elements(Without(w, k)) <= left
  {
    forall x | x in Without(w, k) ensures x in w {
      var i :| 0 <= i < |Without(w, k)| && Without(w, k)[i] == x;
      assert x == w[if i == k then |w| - 1 else i];
    }
  }

  lemma VictimCostsLeast(rows: Rows, part: Rows, left: set<NodeIdent>, hv: HyperVolume, w: seq<NodeIdent>)
    requires Restricted(rows, part, left) && MatrixComplete(left, part) && Elements(w) <= left && w != []
    ensures var k := Victim(RemainingVolume(MatrixLatency(part), hv), w, |w|);
      Round(rows, hv, w, SwapRemove(w, k), w[k])
  {
    var score := RemainingVolume(MatrixLatency(part), hv);
    var k := Victim(score, w, |w|);
    PairsReported(rows, part, left, w);
    forall j: nat | j < |w| ensures score(w, j) == Remaining(rows, hv, w, j) {
      WithoutStays(w, j, left);
      BlockIsMilliseconds(rows, part, left, Without(w, j));
    }
    WithoutStays(w, k, left);
    assert BestRemoval(score, w, k, |w|);
    assert CostsLeast(rows, hv, w, k);
  }

  lemma RoundsMore(rows: Rows, hv: HyperVolume, steps: seq<seq<NodeIdent>>, deleted: seq<NodeIdent>,
                   w: seq<NodeIdent>, gone: NodeIdent)
    requires Rounds(rows, hv, steps, deleted) && Round(rows, hv, steps[|steps| - 1], w, gone)
    ensures Rounds(rows, hv, steps + [w], deleted + [gone])
  {}

  ghost predicate ReducedAs(rows: Rows, hv: HyperVolume, v: seq<NodeIdent>, left: set<NodeIdent>,
                            r: (seq<NodeIdent>, seq<NodeIdent>), steps: seq<seq<NodeIdent>>) {
    Rounds(rows, hv, steps, r.1) && steps[0] == v && steps[|steps| - 1] == r.0 && Elements(r.0) <= left
  }

  lemma {:induction false} GreedyRounds(rows: Rows, part: Rows, left: set<NodeIdent>, hv: HyperVolume,
                                        v: seq<NodeIdent>, n: nat)
    returns (steps: seq<seq<NodeIdent>>)
    requires Restricted(rows, part, left) && MatrixComplete(left, part) && Elements(v) <= left && n <= |v|
    ensures ReducedAs(rows, hv, v, left, Greedy(RemainingVolume(MatrixLatency(part), hv), v, n), steps)
  {
    var score := RemainingVolume(MatrixLatency(part), hv);
    if n == 0 {
      steps := [v];
    } else {
      var before := GreedyRounds(rows, part, left, hv, v, n - 1);
      var (w, deleted) := Greedy(score, v, n - 1);
      var k := Victim(score, w, |w|);
      VictimCostsLeast(rows, part, left, hv, w);
      WithoutStays(w, k, left);
      steps := before + [SwapRemove(w, k)];
      RoundsMore(rows, hv, before, deleted, SwapRemove(w, k), w[k]);
      GreedyIs(score, v, n);
    }
  }

  lemma GreedyIs(score: Score, v: seq<NodeIdent>, n: nat)
    requires 0 < n <= |v|
    ensures var (w, deleted) := Greedy(score, v, n - 1);
      var k := Victim(score, w, |w|);
      Greedy(score, v, n) == (SwapRemove(w, k), deleted + [w[k]])
  {}

  // ---------------------------------------------------------------- what is committed

  /**
    prim and sec are the choice on these rows: after pruning, the nodes left are reduced to primSize by rounds on the
    reported latencies; those kept are primary, those pruned and those reduced secondary.
   */
  ghost predicate Choice(rows: Rows, remote: set<NodeIdent>, primSize: nat, hv: HyperVolume, prim: seq<NodeIdent>,
                         sec: seq<NodeIdent>)
  {
    remote <= rows.Keys
    && exists left, removed, steps, deleted :: IsChoice(rows, remote, primSize, hv, prim, sec, left, removed, steps,
                                                        deleted)
  }

  ghost predicate IsChoice(rows: Rows, remote: set<NodeIdent>, primSize: nat, hv: HyperVolume, prim: seq<NodeIdent>,
                           sec: seq<NodeIdent>, left: set<NodeIdent>, removed: seq<NodeIdent>,
                           steps: seq<seq<NodeIdent>>, deleted: seq<NodeIdent>)
    requires remote <= rows.Keys
  {
    && left <= remote && Prunes(rows, primSize, remote, removed, left)
    && Enough(rows, primSize, left) && Complete(rows, left)
    && Rounds(rows, hv, steps, deleted) && steps[0] == Ascending(left)
    && prim == steps[|steps| - 1] && |prim| == primSize && sec == removed + deleted
  }

  lemma CommitIsChoice(s: RingState, ring: nat, rows: Rows, part: Rows, remote: set<NodeIdent>, hv: HyperVolume)
    requires s.Shape() && ring < MAX_NUM_RINGS && NOBODY !in remote && Restricted(rows, part, remote)
    requires AttemptCommit(s, ring, Prune(remote, part, s.primSize, []), hv).1 == Committed
    ensures Chooses(s, ring, rows, remote, hv, AttemptCommit(s, ring, Prune(remote, part, s.primSize, []), hv).0)
  {
    var removed := PruneByReports(rows, part, remote, s.primSize, []);
    PrunedWithin(remote, part, s.primSize);
    CommittedChoice(s, ring, rows, remote, removed, Prune(remote, part, s.primSize, []), hv);
  }

  ghost predicate Chooses(s: RingState, ring: nat, rows: Rows, remote: set<NodeIdent>, hv: HyperVolume, t: RingState)
    requires ring < MAX_NUM_RINGS
  {
    |t.prim| == |t.sec| == MAX_NUM_RINGS && Choice(rows, remote, s.primSize, hv, t.prim[ring], t.sec[ring])
  }

  lemma CommittedChoice(s: RingState, ring: nat, rows: Rows, remote: set<NodeIdent>, removed: seq<NodeIdent>,
                        p: Pruned, hv: HyperVolume)
    requires s.Shape() && ring < MAX_NUM_RINGS && (p.enough ==> s.primSize <= |p.remote|)
    requires remote <= rows.Keys && p.remote <= remote && PrunedAs(rows, s.primSize, remote, [], removed, p)
    requires AttemptCommit(s, ring, p, hv).1 == Committed
    ensures Chooses(s, ring, rows, remote, hv, AttemptCommit(s, ring, p, hv).0)
  {
    CommittedLists(s, ring, p, hv);
    ListsAreChoice(s, ring, rows, remote, removed, p, hv, AttemptCommit(s, ring, p, hv).0);
  }

  lemma ListsAreChoice(s: RingState, ring: nat, rows: Rows, remote: set<NodeIdent>, removed: seq<NodeIdent>,
                       p: Pruned, hv: HyperVolume, t: RingState)
    requires ring < MAX_NUM_RINGS && remote <= rows.Keys && p.remote <= remote && p.enough
    requires MatrixComplete(p.remote, p.rows) && PrunedAs(rows, s.primSize, remote, [], removed, p)
    requires s.primSize <= |p.remote| && |t.prim| == |t.sec| == MAX_NUM_RINGS
    requires var (kept, deleted) := Chosen(p.remote, p.rows, s.primSize, hv);
      t.prim[ring] == kept && t.sec[ring] == p.removed + deleted
    ensures Chooses(s, ring, rows, remote, hv, t)
  {
    assert [] + removed == removed;
    PrunedChoice(rows, remote, s.primSize, hv, removed, p);
  }

  lemma PrunedWithin(remote: set<NodeIdent>, part: Rows, primSize: nat)
    requires part.Keys == remote && NOBODY !in remote
    ensures Prune(remote, part, primSize, []).remote <= remote
  {
    PruneReportsRemoved(remote, part, primSize, []);
  }

  lemma CommittedLists(s: RingState, ring: nat, p: Pruned, hv: HyperVolume)
    requires s.Shape() && ring < MAX_NUM_RINGS && (p.enough ==> s.primSize <= |p.remote|)
    requires AttemptCommit(s, ring, p, hv).1 == Committed
    ensures p.enough && MatrixComplete(p.remote, p.rows)
    ensures var t, (kept, deleted) := AttemptCommit(s, ring, p, hv).0, Chosen(p.remote, p.rows, s.primSize, hv);
      && |t.prim| == |t.sec| == MAX_NUM_RINGS && t.prim[ring] == kept && t.sec[ring] == p.removed + deleted
  {}

  lemma PrunedChoice(rows: Rows, remote: set<NodeIdent>, primSize: nat, hv: HyperVolume, removed: seq<NodeIdent>,
                     p: Pruned)
    requires remote <= rows.Keys && p.remote <= remote && p.enough && MatrixComplete(p.remote, p.rows)
    requires PrunedAs(rows, primSize, remote, [], removed, p) && p.removed == removed
    ensures primSize <= |p.remote|
    ensures var (kept, deleted) := Chosen(p.remote, p.rows, primSize, hv);
      Choice(rows, remote, primSize, hv, kept, p.removed + deleted)
  {
    AscendingDistinct(p.remote);
    var steps := GreedyRounds(rows, p.rows, p.remote, hv, Ascending(p.remote), |p.remote| - primSize);
    var (kept, deleted) := Chosen(p.remote, p.rows, primSize, hv);
    CompletePairs(rows, p.rows, p.remote);
    RoundsAreChoice(rows, remote, primSize, hv, removed, p, kept, deleted, steps);
  }

  lemma RoundsAreChoice(rows: Rows, remote: set<NodeIdent>, primSize: nat, hv: HyperVolume, removed: seq<NodeIdent>,
                        p: Pruned, kept: seq<NodeIdent>, deleted: seq<NodeIdent>, steps: seq<seq<NodeIdent>>)
    requires remote <= rows.Keys && p.remote <= remote && p.enough && Complete(rows, p.remote)
    requires PrunedAs(rows, primSize, remote, [], removed, p) && |kept| == primSize
    requires ReducedAs(rows, hv, Ascending(p.remote), p.remote, (kept, deleted), steps)
    ensures Choice(rows, remote, primSize, hv, kept, removed + deleted)
  {
    assert IsChoice(rows, remote, primSize, hv, kept, removed + deleted, p.remote, removed, steps, deleted);
  }

  lemma CompletePairs(rows: Rows, part: Rows, left: set<NodeIdent>)
    requires Restricted(rows, part, left) && MatrixComplete(left, part)
    ensures Complete(rows, left)
  {
    forall x, y | x in left && y in left && x != y ensures x in rows && y in rows[x] {
      assert RowFull(left, part, x) && SameOn(rows[x], part[x], left);
    }
  }

  /** performReplacement commits the choice on the rows it has, or leaves all lists as they are. */
  lemma ReplaceChooses(s: RingState, q: Manage, rows: Rows, hv: HyperVolume)
    requires s.Inv() && Sane(q) && Restricted(rows, q.rows, q.remote)
    ensures var (t, q', a) := Replace(s, q, hv);
      if a == Committed then Chooses(s, q.ring, rows, q.remote, hv, t) else t.prim == s.prim && t.sec == s.sec
  {
    if |q.remote| == |q.rows| {
      SubsetFull(q.rows.Keys, q.remote);
      if Replace(s, q, hv).2 == Committed { CommitIsChoice(s, q.ring, rows, q.rows, q.remote, hv); }
    }
  }

  // ---------------------------------------------------------------- one step

  /** The event is a report that counts: from a candidate that has sent none yet. */
  predicate Counts(q: Manage, e: Event) {
    e.Report? && e.report.Some? && e.from in q.remote && e.from !in q.rows
  }

  /** The rows with this event taken in. */
  ghost predicate TakesIn(q: Manage, e: Event, rows: Rows) {
    if Counts(q, e) then exists row :: IsRow(e.report.value, q.remote, row) && rows == q.rows[e.from := row]
    else rows == q.rows
  }

  /** The step takes in its event; if it commits, it commits the choice among the members that remain. */
  ghost predicate StepChooses(s: RingState, q: Manage, hv: HyperVolume, e: Event, t: RingState, q': Manage, a: Attempt,
                              rows: Rows)
    requires q.ring < MAX_NUM_RINGS
  {
    && TakesIn(q, e, rows) && (!q'.finished ==> q'.rows == rows && a != Committed)
    && (a == Committed ==> t.Shape() && Chooses(s, q.ring, rows, t.Members(q.ring), hv, t))
  }

  lemma RestrictedToAll(rows: Rows, remote: set<NodeIdent>)
    requires rows.Keys == remote && forall x :: x in rows ==> rows[x].Keys <= remote
    ensures Restricted(rows, rows, remote)
  {
    forall x | x in remote ensures SameOn(rows[x], rows[x], remote) {
      assert rows[x].Keys * remote == rows[x].Keys;
    }
  }

  lemma ReportChooses(s: RingState, q: Manage, hv: HyperVolume, from: NodeIdent, report: seq<NodeIdentLat>)
    returns (rows: Rows)
    requires InProgress(s, q) && Counts(q, Report(from, Some(report)))
    ensures var (t, q', a) := ReportStep(s, q, hv, from, Some(report));
      StepChooses(s, q, hv, Report(from, Some(report)), t, q', a, rows)
  {
    RowOfIsRow(report, q.remote);
    rows := q.rows[from := RowOf(report, q.remote)];
    var q1 := q.(rows := rows);
    assert InProgress(s, q1);
    if |q1.rows| == |q1.remote| { LastReportChooses(s, q1, hv); }
  }

  lemma LastReportChooses(s: RingState, q: Manage, hv: HyperVolume)
    requires InProgress(s, q) && |q.rows| == |q.remote|
    ensures var (t, q', a) := Replace(SetFrozen(s, q.ring, false), q, hv);
      a == Committed ==> t.Shape() && Chooses(s, q.ring, q.rows, t.Members(q.ring), hv, t)
  {
    LastReportSettles(s, q, hv);
    RestrictedToAll(q.rows, q.remote);
    FrozenIrrelevant(s, q.ring, false);
    ReplaceChooses(SetFrozen(s, q.ring, false), q, q.rows, hv);
  }

  lemma TimeoutChooses(s: RingState, q: Manage, hv: HyperVolume)
    requires InProgress(s, q)
    ensures var (t, q', a) := TimeoutStep(s, q, hv); StepChooses(s, q, hv, Timeout, t, q', a, q.rows)
  {
    var bad := Silent(q.remote, q.rows);
    var u := EraseAll(SetFrozen(s, q.ring, false), bad);
    var q1 := q.(remote := q.remote - Elements(bad), rows := DropAll(q.rows, bad));
    SilentErased(s, q);
    TimeoutSettles(s, q, hv);
    SilentRestricted(q, bad);
    ReplaceChooses(u, q1, q.rows, hv);
  }

  lemma SilentRestricted(q: Manage, bad: seq<NodeIdent>)
    requires Within(q.remote, q.rows) && bad == Silent(q.remote, q.rows)
    ensures q.remote - Elements(bad) == q.rows.Keys
    ensures Restricted(q.rows, DropAll(q.rows, bad), q.rows.Keys)
  {
    SilentEffect(q.remote, q.rows);
    assert q.rows.Keys - Elements(bad) == q.rows.Keys;
    RowsDropped(q.rows, bad);
  }

  /** Dropping nodes without rows takes their columns out of the others' rows and nothing else. */
  lemma {:induction false} RowsDropped(rows: Rows, bad: seq<NodeIdent>)
    requires Elements(bad) !! rows.Keys
    ensures DropAll(rows, bad).Keys == rows.Keys
    ensures forall x :: x in rows ==> DropAll(rows, bad)[x] == rows[x] - Elements(bad)
    decreases |bad|
  {
    if bad == [] {
      assert forall x :: x in rows ==> rows[x] - Elements(bad) == rows[x];
    } else {
      var n := |bad| - 1;
      assert bad == bad[..n] + [bad[n]] && Elements(bad) == Elements(bad[..n]) + {bad[n]};
      RowsDropped(rows, bad[..n]);
      forall x | x in rows ensures DropAll(rows, bad)[x] == rows[x] - Elements(bad) {
        assert rows[x] - Elements(bad[..n]) - {bad[n]} == rows[x] - Elements(bad);
      }
    }
  }

  // ---------------------------------------------------------------- whole runs

  /** Event i is the first report of x that parses. */
  ghost predicate FirstReport(events: seq<Event>, i: nat, x: NodeIdent, report: seq<NodeIdentLat>) {
    && i < |events| && events[i] == Report(x, Some(report))
    && forall j :: 0 <= j < i ==> !(events[j].Report? && events[j].from == x && events[j].report.Some?)
  }

  /** Exactly the candidates that reported have a row, and it is what their first report says. */
  ghost predicate RowsFrom(rows: Rows, events: seq<Event>, remote: set<NodeIdent>) {
    && (forall x :: x in rows <==> x in remote && x in Reported(events))
    && forall i: nat, x, report :: FirstReport(events, i, x, report) && x in remote ==>
         x in rows && IsRow(report, remote, rows[x])
  }

  lemma ReportedWithOne(events: seq<Event>, e: Event)
    ensures Reported(events + [e]) == Reported(events) + if e.Report? && e.report.Some? then {e.from} else {}
  {
    var more := events + [e];
    forall x | x in Reported(events) ensures x in Reported(more) {
      var f :| f in events && f.Report? && f.report.Some? && f.from == x;
      assert f in more;
    }
    if e.Report? && e.report.Some? { assert e in more; }
  }

  lemma RowsFromNext(q: Manage, events: seq<Event>, e: Event, rows: Rows)
    requires RowsFrom(q.rows, events, q.remote) && TakesIn(q, e, rows)
    ensures RowsFrom(rows, events + [e], q.remote)
  {
    var more := events + [e];
    ReportedWithOne(events, e);
    forall i: nat, x, report | FirstReport(more, i, x, report) && x in q.remote
      ensures x in rows && IsRow(report, q.remote, rows[x])
    {
      if i < |events| {
        EarlierFirst(events, e, i, x, report);
      } else {
        NotYetReported(events, e, x, report);
      }
    }
  }

  lemma NotYetReported(events: seq<Event>, e: Event, x: NodeIdent, report: seq<NodeIdentLat>)
    requires FirstReport(events + [e], |events|, x, report)
    ensures e == Report(x, Some(report)) && x !in Reported(events)
  {
    assert forall j :: 0 <= j < |events| ==> (events + [e])[j] == events[j];
  }

  lemma EarlierFirst(events: seq<Event>, e: Event, i: nat, x: NodeIdent, report: seq<NodeIdentLat>)
    requires FirstReport(events + [e], i, x, report) && i < |events|
    ensures FirstReport(events, i, x, report)
  {
    assert forall j :: 0 <= j < |events| ==> (events + [e])[j] == events[j];
  }

  ghost predicate ChoosesContract(step: Machine, ring: nat, primSize: nat, hv: HyperVolume) {
    ring < MAX_NUM_RINGS && MeetsContract(step, ring, primSize)
    && forall s, q, e :: InProgress(s, q) && q.ring == ring && s.primSize == primSize && Legal(e, ring, primSize) ==>
         exists rows :: StepChooses(s, q, hv, e, step(s, q, e).0, step(s, q, e).1, step(s, q, e).2, rows)
  }

  lemma ReplacementChooses(hv: HyperVolume, ring: nat, primSize: nat)
    requires ring < MAX_NUM_RINGS
    ensures ChoosesContract(Replacement(hv), ring, primSize, hv)
  {
    ReplacementMeetsContract(hv, ring, primSize);
    var step := Replacement(hv);
    forall s, q, e | InProgress(s, q) && q.ring == ring && s.primSize == primSize && Legal(e, ring, primSize)
      ensures exists rows :: StepChooses(s, q, hv, e, step(s, q, e).0, step(s, q, e).1, step(s, q, e).2, rows)
    {
      var rows := EventChooses(s, q, hv, e);
      assert StepChooses(s, q, hv, e, step(s, q, e).0, step(s, q, e).1, step(s, q, e).2, rows);
    }
  }

  lemma EventChooses(s: RingState, q: Manage, hv: HyperVolume, e: Event) returns (rows: Rows)
    requires InProgress(s, q) && Legal(e, q.ring, s.primSize)
    ensures var (t, q', a) := Step(s, q, hv, e); StepChooses(s, q, hv, e, t, q', a, rows)
  {
    rows := q.rows;
    match e
    case Foreign(_) =>
    case Report(from, report) => if Counts(q, e) { rows := ReportChooses(s, q, hv, from, report.value); }
    case Timeout => TimeoutChooses(s, q, hv);
  }

  /** What a run that ends in a commit has chosen, given the events before it. */
  ghost predicate RunChooses(done: seq<Event>, remote: set<NodeIdent>, ring: nat, primSize: nat, hv: HyperVolume,
                             t: RingState, a: Attempt)
    requires ring < MAX_NUM_RINGS
  {
    a == Committed ==>
      t.Shape() && exists rows :: RowsFrom(rows, done, remote)
                     && Choice(rows, t.Members(ring), primSize, hv, t.prim[ring], t.sec[ring])
  }

  lemma {:induction false} RunIsChoice(step: Machine, hv: HyperVolume, s: RingState, q: Manage, done: seq<Event>,
                                       events: seq<Event>)
    requires InProgress(s, q) && ChoosesContract(step, q.ring, s.primSize, hv) && RowsFrom(q.rows, done, q.remote)
    requires forall e :: e in events ==> Legal(e, q.ring, s.primSize)
    ensures var r := RingReplacement.Run(step, s, q, events);
      r.3 <= |events| && RunChooses(done + events[..r.3], q.remote, q.ring, s.primSize, hv, r.0, r.2)
    decreases |events|
  {
    if events != [] {
      var e := events[0];
      var (t, q', a) := step(s, q, e);
      assert Legal(e, q.ring, s.primSize);
      OneStepChooses(step, hv, s, q, done, e);
      if q'.finished {
        assert events[..1] == [e];
      } else {
        RunIsChoice(step, hv, t, q', done + [e], events[1..]);
        OneLater(done, events, RingReplacement.Run(step, t, q', events[1..]).3);
      }
    }
  }

  lemma OneLater(done: seq<Event>, events: seq<Event>, used: nat)
    requires used < |events|
    ensures done + [events[0]] + events[1..][..used] == done + events[..used + 1]
  {}

  lemma OneStepChooses(step: Machine, hv: HyperVolume, s: RingState, q: Manage, done: seq<Event>, e: Event)
    requires InProgress(s, q) && ChoosesContract(step, q.ring, s.primSize, hv) && RowsFrom(q.rows, done, q.remote)
    requires Legal(e, q.ring, s.primSize)
    ensures var (t, q', a) := step(s, q, e);
      && RunOk(s, q, [e], t, q', a, 1)
      && (!q'.finished ==> RowsFrom(q'.rows, done + [e], q.remote))
      && (q'.finished ==> RunChooses(done + [e], q.remote, q.ring, s.primSize, hv, t, a))
  {
    var (t, q', a) := step(s, q, e);
    assert RunOk(s, q, [e], t, q', a, 1);
    var rows :| StepChooses(s, q, hv, e, t, q', a, rows);
    RowsFromNext(q, done, e, rows);
  }

  /**
    Over any run of a replacement, with any other users of the ring set: if it ends in a commit, the lists committed
    are the choice among the members that remain, made on the first report of each of them.
   */
  lemma ReplacementChoosesByReports(s: RingState, ring: nat, hv: HyperVolume, events: seq<Event>)
    requires s.Inv() && ring < MAX_NUM_RINGS && NOBODY !in s.Members(ring)
    requires forall e :: e in events ==> Legal(e, ring, s.primSize)
    ensures var (s0, q0) := Start(s, ring);
      var (t, q, a, used) := RingReplacement.Run(Replacement(hv), s0, q0, events);
      used <= |events| && RunChooses(events[..used], s.Members(ring), ring, s.primSize, hv, t, a)
  {
    var (s0, q0) := Start(s, ring);
    Starts(s, ring);
    ReplacementChooses(hv, ring, s.primSize);
    StartedIsChoice(Replacement(hv), hv, s0, q0, events);
  }

  lemma Starts(s: RingState, ring: nat)
    requires s.Inv() && ring < MAX_NUM_RINGS && NOBODY !in s.Members(ring)
    ensures var (s0, q0) := Start(s, ring);
      && InProgress(s0, q0) && s0.primSize == s.primSize && q0.ring == ring && q0.remote == s.Members(ring)
      && RowsFrom(q0.rows, [], q0.remote)
  {
    FrozenIrrelevant(s, ring, true);
    assert Start(s, ring).0.Members(ring) == s.Members(ring);
  }

  lemma StartedIsChoice(step: Machine, hv: HyperVolume, s: RingState, q: Manage, events: seq<Event>)
    requires InProgress(s, q) && ChoosesContract(step, q.ring, s.primSize, hv) && RowsFrom(q.rows, [], q.remote)
    requires forall e :: e in events ==> Legal(e, q.ring, s.primSize)
    ensures var r := RingReplacement.Run(step, s, q, events);
      r.3 <= |events| && RunChooses(events[..r.3], q.remote, q.ring, s.primSize, hv, r.0, r.2)
  {
    RunIsChoice(step, hv, s, q, [], events);
    var used := RingReplacement.Run(step, s, q, events).3;
    assert [] + events[..used] == events[..used];
  }
}
