/**
  Class RingManageQuery: the replacement query with its loops, working on a shared RingSet.
  Its methods are proved to take ring set and query to what RingManageModel says.
 */
module RingManageQueries {
  import opened Base
  import opened RingModel
  import opened RingRuns
  import opened RingSets
  import opened ReduceSet
  import opened RingManageModel

  class RingManageQuery {
    const rings: RingSet
    const ringNum: int
    var remoteNodes: set<NodeIdent>
    var retNodeMap: Rows
    var finished: bool

    ghost predicate Valid() {
      rings.Valid() && this !in rings.Repr()
    }

    ghost function Query(): Manage
      reads this
      requires 0 <= ringNum < MAX_NUM_RINGS
    {
      Manage(ringNum, remoteNodes, retNodeMap, finished)
    }

    /** What the handlers may rely on: a sound ring set and candidates in order. */
    ghost predicate Ready()
      reads this, rings.Repr()
    {
      && Valid() && 0 <= ringNum < MAX_NUM_RINGS
      && rings.State().Inv() && Sane(Query()) && |remoteNodes| <= UINT_MAX
    }

    constructor (inRingNum: int, inRings: RingSet)
      requires inRings.Valid()
      ensures rings == inRings && ringNum == inRingNum && Valid()
      ensures remoteNodes == {} && retNodeMap == map[] && !finished
    {
      rings, ringNum := inRings, inRingNum;
      remoteNodes, retNodeMap, finished := {}, map[], false;
    }

    /** Dumps the members of the ring and freezes it. */
    method Init() returns (ret: int)
      requires Valid() && remoteNodes == {} && retNodeMap == map[] && !finished
      modifies this, rings.ringFrozen
      ensures ret == if 0 <= ringNum < MAX_NUM_RINGS then 0 else -1
      ensures ret == 0 ==> (rings.State(), Query()) == Start(old(rings.State()), ringNum)
      ensures ret == -1 ==> rings.State() == old(rings.State()) && unchanged(this)
    {
      if ringNum < 0 || ringNum >= MAX_NUM_RINGS { return -1; }
      remoteNodes := rings.MembersDump(ringNum);
      var r := rings.FreezeRing(ringNum);
      return 0;
    }

    /** A RET_PING report; None stands for a packet of another type or one that does not parse. */
    method HandleEvent(inRemote: NodeIdent, report: Option<seq<NodeIdentLat>>, hv: HyperVolume) returns (ret: int)
      requires Ready() && forall b :: hv(b) >= 0.0
      modifies this, rings.Repr()
      ensures Valid()
      ensures var (t, q, a) := ReportStep(old(rings.State()), old(Query()), hv, inRemote, report);
        rings.State() == t && Query() == q
      ensures ret == if inRemote in old(remoteNodes) && inRemote !in old(retNodeMap) && report.Some? then 0 else -1
    {
      if inRemote !in remoteNodes { return -1; }
      if inRemote in retNodeMap { return -1; }
      if report.None? { return -1; }
      var newMap := ReadRow(report.value);
      retNodeMap := retNodeMap[inRemote := newMap];
      if |retNodeMap| == |remoteNodes| {
        assert Sane(Query());
        FrozenIrrelevant(rings.State(), ringNum, false);
        var r := rings.UnfreezeRing(ringNum);
        r := PerformReplacement(hv);
        finished := true;
      }
      return 0;
    }

    method ReadRow(report: seq<NodeIdentLat>) returns (newMap: Row)
      ensures newMap == RowOf(report, remoteNodes)
    {
      newMap := map[];
      var i := 0;
      while i < |report|
        invariant i <= |report| && newMap == RowOf(report[..i], remoteNodes)
      {
        assert report[..i + 1][..i] == report[..i];
        if report[i].node in remoteNodes {
          newMap := newMap[report[i].node := report[i].latencyUS];
        }
        i := i + 1;
      }
      assert report[..i] == report;
    }

    /** Removes a node from the candidates, from the reporters, and from everybody's report. */
    method RemoveCandidateNode(inNode: NodeIdent)
      modifies this`remoteNodes, this`retNodeMap
      ensures remoteNodes == old(remoteNodes) - {inNode}
      ensures retNodeMap == DropNode(old(retNodeMap), inNode)
    {
      retNodeMap := retNodeMap - {inNode};
      remoteNodes := remoteNodes - {inNode};
      StripRows(inNode);
      DropNodeIs(old(retNodeMap), inNode, retNodeMap);
    }

    /** Every row without its entry for inNode. */
    method StripRows(inNode: NodeIdent)
      modifies this`retNodeMap
      ensures retNodeMap.Keys == old(retNodeMap).Keys
      ensures forall x :: x in retNodeMap ==> retNodeMap[x] == old(retNodeMap)[x] - {inNode}
    {
      var rest := retNodeMap.Keys;
      while rest != {}
        invariant rest <= retNodeMap.Keys == old(retNodeMap).Keys
        invariant forall x :: x in rest ==> retNodeMap[x] == old(retNodeMap)[x]
        invariant forall x :: x in retNodeMap && x !in rest ==> retNodeMap[x] == old(retNodeMap)[x] - {inNode}
        decreases |rest|
      {
        var x := Least(rest);
        retNodeMap := retNodeMap[x := retNodeMap[x] - {inNode}];
        rest := rest - {x};
      }
    }

    /** Whoever has not reported is erased from the ring and from the candidates. */
    method HandleTimeout(hv: HyperVolume)
      requires Ready() && forall b :: hv(b) >= 0.0
      modifies this, rings.Repr()
      ensures Valid()
      ensures var (t, q, a) := TimeoutStep(old(rings.State()), old(Query()), hv);
        rings.State() == t && Query() == q
    {
      ghost var s0, q0 := rings.State(), Query();
      FrozenIrrelevant(s0, ringNum, false);
      var r := rings.UnfreezeRing(ringNum);
      var badNodes := EraseSilent();
      RemoveCandidates(badNodes);
      DropAllWithin(q0.remote, q0.rows, badNodes);
      SubsetSize(remoteNodes, q0.remote);
      assert Sane(Query());
      r := PerformReplacement(hv);
      finished := true;
    }

    method EraseSilent() returns (badNodes: seq<NodeIdent>)
      requires Valid() && rings.State().Inv()
      modifies rings.Repr()
      ensures Valid() && badNodes == Silent(remoteNodes, retNodeMap)
      ensures rings.State() == EraseAll(old(rings.State()), badNodes) && rings.State().Inv()
    {
      var nodes := Iterate(remoteNodes);
      badNodes := [];
      var i := 0;
      while i < |nodes|
        invariant i <= |nodes| && badNodes == SilentAmong(nodes[..i], retNodeMap)
        invariant rings.State() == EraseAll(old(rings.State()), badNodes) && rings.State().Inv()
      {
        assert nodes[..i + 1][..i] == nodes[..i];
        if nodes[i] !in retNodeMap {
          var r := rings.EraseNode(nodes[i]);
          assert (badNodes + [nodes[i]])[..|badNodes|] == badNodes;
          badNodes := badNodes + [nodes[i]];
        }
        i := i + 1;
      }
      assert nodes[..i] == nodes;
    }

    method RemoveCandidates(badNodes: seq<NodeIdent>)
      modifies this`remoteNodes, this`retNodeMap
      ensures remoteNodes == old(remoteNodes) - Elements(badNodes)
      ensures retNodeMap == DropAll(old(retNodeMap), badNodes)
    {
      var i := 0;
      assert Elements(badNodes[..0]) == {};
      while i < |badNodes|
        invariant i <= |badNodes|
        invariant remoteNodes == old(remoteNodes) - Elements(badNodes[..i])
        invariant retNodeMap == DropAll(old(retNodeMap), badNodes[..i])
      {
        assert badNodes[..i + 1][..i] == badNodes[..i];
        assert Elements(badNodes[..i + 1]) == Elements(badNodes[..i]) + {badNodes[i]};
        RemoveCandidateNode(badNodes[i]);
        i := i + 1;
      }
      assert badNodes[..i] == badNodes;
    }

    /** The scan's result after the first i keys. */
    static ghost predicate WorstSoFar(rows: Rows, keys: seq<NodeIdent>, i: nat, n: nat, w: NodeIdent, count: nat)
      requires i <= |keys| && forall k :: 0 <= k < |keys| ==> keys[k] in rows
    {
      if w == NOBODY then count == UINT_MAX && forall k :: 0 <= k < i ==> !Deficient(rows[keys[k]], n)
      else
        && (exists k :: 0 <= k < i && keys[k] == w) && w in rows && count == |rows[w]| && Deficient(rows[w], n)
        && forall k :: 0 <= k < i && keys[k] != w && Deficient(rows[keys[k]], n) ==> Worse(rows, w, keys[k])
    }

    lemma WorstStep(rows: Rows, keys: seq<NodeIdent>, i: nat, n: nat, w: NodeIdent, count: nat)
      requires i < |keys| && (forall k :: 0 <= k < |keys| ==> keys[k] in rows) && WorstSoFar(rows, keys, i, n, w, count)
      requires forall k, l :: 0 <= k < l < |keys| ==> NodeLess(keys[k], keys[l])
      requires keys[i] != NOBODY && n <= UINT_MAX
      ensures if Deficient(rows[keys[i]], n) && |rows[keys[i]]| < count
        then WorstSoFar(rows, keys, i + 1, n, keys[i], |rows[keys[i]]|)
        else WorstSoFar(rows, keys, i + 1, n, w, count)
    {}

    /** The scan of the pruning loop. */
    method FindWorstNode() returns (worstNode: NodeIdent)
      requires NOBODY !in retNodeMap && |remoteNodes| <= UINT_MAX
      ensures worstNode == Worst(retNodeMap, |remoteNodes|)
    {
      worstNode := NOBODY;
      var worstNodeCount: nat := UINT_MAX;
      var keys := Iterate(retNodeMap.Keys);
      forall k | 0 <= k < |keys| ensures keys[k] in retNodeMap && keys[k] != NOBODY {
        assert keys[k] in keys;
      }
      var i := 0;
      while i < |keys|
        invariant i <= |keys| && WorstSoFar(retNodeMap, keys, i, |remoteNodes|, worstNode, worstNodeCount)
      {
        WorstStep(retNodeMap, keys, i, |remoteNodes|, worstNode, worstNodeCount);
        if |retNodeMap[keys[i]]| + 1 < |remoteNodes| {
          if |retNodeMap[keys[i]]| < worstNodeCount {
            worstNode := keys[i];
            worstNodeCount := |retNodeMap[keys[i]]|;
          }
        }
        i := i + 1;
      }
      assert forall x :: x in retNodeMap ==> x in keys;
      assert IsWorst(retNodeMap, |remoteNodes|, worstNode);
      WorstUnique(retNodeMap, |remoteNodes|, worstNode, Worst(retNodeMap, |remoteNodes|));
    }

    method PerformReplacement(hv: HyperVolume) returns (ret: int)
      requires Ready() && forall b :: hv(b) >= 0.0
      modifies this`remoteNodes, this`retNodeMap, rings.Repr()
      ensures Valid()
      ensures var (t, q, a) := Replace(old(rings.State()), old(Query()), hv);
        rings.State() == t && Query() == q
      ensures ret == if |old(remoteNodes)| == |old(retNodeMap)| then 0 else -1
    {
      if |remoteNodes| != |retNodeMap| { return -1; }
      SubsetFull(retNodeMap.Keys, remoteNodes);
      var enough, removedNodes := PruneCandidates();
      if !enough { return 0; }
      CommitReduced(hv, removedNodes);
      return 0;
    }

    /** The second half of performReplacement: matrix, reduction, commit. */
    method CommitReduced(hv: HyperVolume, removedNodes: seq<NodeIdent>)
      requires Valid() && 0 <= ringNum < MAX_NUM_RINGS && rings.primarySize <= |remoteNodes|
      requires forall b :: hv(b) >= 0.0
      modifies rings.Repr()
      ensures rings.State()
        == AttemptCommit(old(rings.State()), ringNum, Pruned(remoteNodes, retNodeMap, removedNodes, true), hv).0
    {
      var ok, matrix := CreateLatencyMatrix();
      if ok {
        var newPrimNodes := Iterate(remoteNodes);
        AscendingDistinct(remoteNodes);
        var reduced, removed, volume := ReduceSetByN(
          newPrimNodes, removedNodes, |newPrimNodes| - rings.primarySize, matrix, hv, MatrixLatency(retNodeMap));
        var r := rings.SetRingMembers(ringNum, reduced, removed);
      }
    }

    /** The loop that drops candidates until every row is long enough; false when too few are left. */
    method PruneCandidates() returns (enough: bool, removedNodes: seq<NodeIdent>)
      requires retNodeMap.Keys == remoteNodes && NOBODY !in remoteNodes && |remoteNodes| <= UINT_MAX
      modifies this`remoteNodes, this`retNodeMap
      ensures Pruned(remoteNodes, retNodeMap, removedNodes, enough)
              == Prune(old(remoteNodes), old(retNodeMap), rings.primarySize, [])
    {
      ghost var goal := Prune(remoteNodes, retNodeMap, rings.primarySize, []);
      removedNodes := [];
      while true
        invariant retNodeMap.Keys == remoteNodes && NOBODY !in remoteNodes && |remoteNodes| <= UINT_MAX
        invariant Prune(remoteNodes, retNodeMap, rings.primarySize, removedNodes) == goal
        decreases |remoteNodes|
      {
        if |remoteNodes| <= rings.primarySize { return false, removedNodes; }
        var worstNode := FindWorstNode();
        if worstNode == NOBODY { return true, removedNodes; }
        removedNodes := removedNodes + [worstNode];
        var numPrev := |remoteNodes|;
        RemoveCandidateNode(worstNode);
        assert |remoteNodes| + 1 == numPrev;
      }
    }

    /** Row x of the matrix, up to column `cols`, holds the latencies from node x. */
    static ghost predicate RowFilled(m: seq<real>, N: nat, lat: Latency, nodes: seq<NodeIdent>, x: nat, cols: nat)
      requires |m| == N * N && |nodes| == N && x < N && cols <= N
    {
      forall y :: 0 <= y < cols ==> At(m, N, x, y) == lat(nodes[x], nodes[y])
    }

    /** Off the diagonal the reported latency in milliseconds, on it nothing. */
    static ghost predicate EntryIs(m: seq<real>, N: nat, nodes: seq<NodeIdent>, rows: Rows, i: nat, j: nat)
      requires |m| == N * N && |nodes| == N && i < N && j < N
    {
      if i == j then At(m, N, i, j) == 0.0
      else
        && nodes[i] in rows && nodes[j] in rows[nodes[i]]
        && At(m, N, i, j) == rows[nodes[i]][nodes[j]] as real / 1000.0
    }

    /** The matrix of latencies in iteration order; fails exactly if some entry is missing. */
    method CreateLatencyMatrix() returns (ok: bool, latencyMatrix: array<real>)
      ensures fresh(latencyMatrix)
      ensures ok <==> MatrixComplete(remoteNodes, retNodeMap)
      ensures ok ==> (latencyMatrix.Length == |remoteNodes| * |remoteNodes|
        && Represents(latencyMatrix[..], |remoteNodes|, MatrixLatency(retNodeMap), Ascending(remoteNodes)))
      ensures ok ==> forall i: nat, j: nat :: i < |remoteNodes| && j < |remoteNodes| ==>
        EntryIs(latencyMatrix[..], |remoteNodes|, Ascending(remoteNodes), retNodeMap, i, j)
    {
      var N := |remoteNodes|;
      var nodes := Iterate(remoteNodes);
      ghost var lat := MatrixLatency(retNodeMap);
      latencyMatrix := new real[N * N];
      var i := 0;
      while i < N
        invariant i <= N
        invariant forall x :: 0 <= x < i ==> RowFilled(latencyMatrix[..], N, lat, nodes, x, N)
        invariant forall x :: 0 <= x < i ==> RowFull(remoteNodes, retNodeMap, nodes[x])
      {
        ghost var m := latencyMatrix[..];
        ok := FillRow(latencyMatrix, N, nodes, i);
        if !ok { return; }
        RowsKept(m, latencyMatrix[..], N, lat, nodes, i);
        i := i + 1;
      }
      ok := true;
      assert forall x :: x in remoteNodes ==> x in nodes;
      RowsRepresent(latencyMatrix[..], N, lat, nodes);
      forall x: nat, y: nat | x < N && y < N ensures EntryIs(latencyMatrix[..], N, nodes, retNodeMap, x, y) {
        EntryRepresents(latencyMatrix[..], N, remoteNodes, nodes, retNodeMap, x, y);
      }
    }

    lemma EntryRepresents(m: seq<real>, N: nat, remote: set<NodeIdent>, nodes: seq<NodeIdent>, rows: Rows, i: nat,
                          j: nat)
      requires |m| == N * N && |nodes| == N && nodes == Ascending(remote) && MatrixComplete(remote, rows)
      requires Represents(m, N, MatrixLatency(rows), nodes) && i < N && j < N
      ensures EntryIs(m, N, nodes, rows, i, j)
    {
      AscendingDistinct(remote);
      assert nodes[i] in Elements(nodes) && nodes[j] in Elements(nodes);
      assert At(m, N, i, j) == MatrixLatency(rows)(nodes[i], nodes[j]);
      assert RowFull(remote, rows, nodes[i]);
    }




    lemma RowsKept(m1: seq<real>, m2: seq<real>, N: nat, lat: Latency, nodes: seq<NodeIdent>, i: nat)
      requires |m1| == |m2| == N * N && |nodes| == N && i < N && OtherRowsKept(m1, m2, N, i)
      requires forall x :: 0 <= x < i ==> RowFilled(m1, N, lat, nodes, x, N)
      ensures forall x :: 0 <= x < i ==> RowFilled(m2, N, lat, nodes, x, N)
    {
      forall x | 0 <= x < i ensures RowFilled(m2, N, lat, nodes, x, N) {
        assert RowFilled(m1, N, lat, nodes, x, N);
      }
    }

    lemma RowsRepresent(m: seq<real>, N: nat, lat: Latency, nodes: seq<NodeIdent>)
      requires |m| == N * N && |nodes| == N && forall x :: 0 <= x < N ==> RowFilled(m, N, lat, nodes, x, N)
      ensures Represents(m, N, lat, nodes)
    {
      forall x, y | 0 <= x < N && 0 <= y < N ensures At(m, N, x, y) == lat(nodes[x], nodes[y]) {
        assert RowFilled(m, N, lat, nodes, x, N);
      }
    }

    /** Row i of the matrix; false when an entry is missing. */
    method FillRow(latencyMatrix: array<real>, N: nat, nodes: seq<NodeIdent>, i: nat) returns (ok: bool)
      requires latencyMatrix.Length == N * N && |nodes| == N && i < N && nodes == Ascending(remoteNodes)
      modifies latencyMatrix
      ensures ok ==> RowFull(remoteNodes, retNodeMap, nodes[i])
      ensures !ok ==> !MatrixComplete(remoteNodes, retNodeMap)
      ensures ok ==> RowFilled(latencyMatrix[..], N, MatrixLatency(retNodeMap), nodes, i, N)
      ensures OtherRowsKept(old(latencyMatrix[..]), latencyMatrix[..], N, i)
    {
      ghost var lat := MatrixLatency(retNodeMap);
      var j := 0;
      while j < N
        invariant j <= N
        invariant RowFilled(latencyMatrix[..], N, lat, nodes, i, j)
        invariant OtherRowsKept(old(latencyMatrix[..]), latencyMatrix[..], N, i)
        invariant forall y :: 0 <= y < j && nodes[y] != nodes[i] ==>
          nodes[i] in retNodeMap && nodes[y] in retNodeMap[nodes[i]]
      {
        var value;
        ok, value := ReadEntry(nodes, i, j);
        if !ok { return; }
        WriteEntry(latencyMatrix, N, i, j, value);
        j := j + 1;
      }
      forall y | y in remoteNodes && y != nodes[i] ensures nodes[i] in retNodeMap && y in retNodeMap[nodes[i]] {
        assert y in nodes;
      }
      ok := true;
    }

    /** The latency from node i to node j, in milliseconds. */
    method ReadEntry(nodes: seq<NodeIdent>, i: nat, j: nat) returns (ok: bool, value: real)
      requires nodes == Ascending(remoteNodes) && i < |nodes| && j < |nodes|
      ensures ok ==> value == MatrixLatency(retNodeMap)(nodes[i], nodes[j])
      ensures ok ==> nodes[j] == nodes[i] || (nodes[i] in retNodeMap && nodes[j] in retNodeMap[nodes[i]])
      ensures !ok ==> !MatrixComplete(remoteNodes, retNodeMap)
    {
      if i == j { return true, 0.0; }
      assert nodes[i] in nodes && nodes[j] in nodes;
      assert NodeLess(nodes[i], nodes[j]) || NodeLess(nodes[j], nodes[i]);
      if nodes[i] !in retNodeMap || nodes[j] !in retNodeMap[nodes[i]] {
        assert !RowFull(remoteNodes, retNodeMap, nodes[i]);
        return false, 0.0;
      }
      return true, retNodeMap[nodes[i]][nodes[j]] as real / 1000.0;
    }

    static ghost predicate OtherRowsKept(m1: seq<real>, m2: seq<real>, N: nat, i: nat)
      requires |m1| == |m2| == N * N
    {
      forall x, y :: 0 <= x < N && 0 <= y < N && x != i ==> At(m2, N, x, y) == At(m1, N, x, y)
    }

    static method WriteEntry(m: array<real>, N: nat, i: nat, j: nat, value: real)
      requires m.Length == N * N && i < N && j < N
      modifies m
      ensures At(m[..], N, i, j) == value
      ensures forall x, y :: 0 <= x < N && 0 <= y < N && (x, y) != (i, j) ==>
        At(m[..], N, x, y) == At(old(m[..]), N, x, y)
    {
      IndexInside(N, i, j);
      m[i * N + j] := value;
      forall x, y | 0 <= x < N && 0 <= y < N && (x, y) != (i, j)
        ensures At(m[..], N, x, y) == At(old(m[..]), N, x, y)
      {
        IndexInside(N, x, y);
        if x * N + y == i * N + j { IndexInjective(N, x, y, i, j); }
      }
    }
  }
}
