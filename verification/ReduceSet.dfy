/**
  reduceSetByN: repeatedly drops the node whose removal leaves the largest hypervolume,
  moving rows and columns of one flat latency matrix in place. Hypervolume is a non-negative
  function of the leading block of the matrix, about which nothing else is assumed.
 */
module ReduceSet {
  import opened Base

  type Latency = (NodeIdent, NodeIdent) -> real
  type HyperVolume = seq<seq<real>> -> real

  // ---------------------------------------------------------------- the flat matrix

  lemma MulLe(a: nat, b: nat, n: nat)
    requires a <= b
    ensures a * n <= b * n
  {
    assert b * n == a * n + (b - a) * n;
  }

  lemma MulSucc(a: nat, n: nat)
    ensures (a + 1) * n == a * n + n
  {}

  lemma IndexInside(N: nat, i: nat, j: nat)
    requires i < N && j < N
    ensures i * N + j < N * N
  {
    MulLe(i + 1, N, N);
    MulSucc(i, N);
  }

  lemma IndexInjective(N: nat, i: nat, j: nat, i': nat, j': nat)
    requires j < N && j' < N && i * N + j == i' * N + j'
    ensures i == i' && j == j'
  {
    if i < i' { RowsApart(N, i, j, i'); }
    if i' < i { RowsApart(N, i', j', i); }
  }

  lemma RowsApart(N: nat, i: nat, j: nat, i': nat)
    requires j < N && i < i'
    ensures i * N + j < i' * N
  {
    MulLe(i + 1, i', N);
    MulSucc(i, N);
  }

  /** Entry (i, j) of a matrix with rows of length N laid out one after the other. */
  function At(m: seq<real>, N: nat, i: nat, j: nat): real
    requires |m| == N * N && i < N && j < N
  {
    IndexInside(N, i, j);
    m[i * N + j]
  }

  /** Exchanges k and l and fixes everything else. */
  function Exchange(k: nat, l: nat, x: nat): nat {
    if x == k then l else if x == l then k else x
  }

  /** m2 is m1 with two entries of the matrix exchanged. */
  lemma ExchangeEntries(m1: seq<real>, N: nat, i: nat, j: nat, k: nat, l: nat)
    requires |m1| == N * N && i < N && j < N && k < N && l < N
    ensures i * N + j < |m1| && k * N + l < |m1|
    ensures var m2 := m1[i * N + j := At(m1, N, k, l)][k * N + l := At(m1, N, i, j)];
      && At(m2, N, i, j) == At(m1, N, k, l) && At(m2, N, k, l) == At(m1, N, i, j)
      && forall x, y :: 0 <= x < N && 0 <= y < N && (x, y) != (i, j) && (x, y) != (k, l) ==>
           At(m2, N, x, y) == At(m1, N, x, y)
  {
    IndexInside(N, i, j);
    IndexInside(N, k, l);
    var p, q := i * N + j, k * N + l;
    var m2 := m1[p := At(m1, N, k, l)][q := At(m1, N, i, j)];
    forall x, y | 0 <= x < N && 0 <= y < N && (x, y) != (i, j) && (x, y) != (k, l)
      ensures At(m2, N, x, y) == At(m1, N, x, y)
    {
      OtherIndex(N, x, y, i, j);
      OtherIndex(N, x, y, k, l);
      EntryStays(m1, N, p, m1[q], q, m1[p], x, y);
    }
  }

  lemma EntryStays(m: seq<real>, N: nat, p: nat, u: real, q: nat, v: real, x: nat, y: nat)
    requires |m| == N * N && p < |m| && q < |m| && x < N && y < N
    requires x * N + y != p && x * N + y != q
    ensures At(m[p := u][q := v], N, x, y) == At(m, N, x, y)
  {
    IndexInside(N, x, y);
    var c := x * N + y;
    assert m[p := u][q := v][c] == m[c];
  }

  lemma OtherIndex(N: nat, x: nat, y: nat, i: nat, j: nat)
    requires y < N && j < N && (x, y) != (i, j)
    ensures x * N + y != i * N + j
  {
    if x * N + y == i * N + j { IndexInjective(N, x, y, i, j); }
  }

  /** Columns k and l of the first `rows` rows exchanged. */
  ghost predicate ColumnsSwapped(m1: seq<real>, m2: seq<real>, N: nat, rows: nat, k: nat, l: nat)
    requires |m1| == |m2| == N * N && k < N && l < N
  {
    forall i, j :: 0 <= i < N && 0 <= j < N ==>
      At(m2, N, i, j) == At(m1, N, i, if i < rows then Exchange(k, l, j) else j)
  }

  /** Rows k and l exchanged in the first `cols` columns. */
  ghost predicate RowsSwapped(m1: seq<real>, m2: seq<real>, N: nat, cols: nat, k: nat, l: nat)
    requires |m1| == |m2| == N * N && k < N && l < N
  {
    forall i, j :: 0 <= i < N && 0 <= j < N ==>
      At(m2, N, i, j) == At(m1, N, if j < cols then Exchange(k, l, i) else i, j)
  }

  method SwapColumns(a: array<real>, N: nat, rows: nat, k: nat, l: nat)
    requires a.Length == N * N && rows <= N && k < N && l < N
    modifies a
    ensures ColumnsSwapped(old(a[..]), a[..], N, rows, k, l)
  {
    var i := 0;
    while i < rows
      invariant i <= rows && ColumnsSwapped(old(a[..]), a[..], N, i, k, l)
    {
      ghost var m := a[..];
      ExchangeEntries(m, N, i, k, i, l);
      var tmpValue := a[i * N + k];
      a[i * N + k] := a[i * N + l];
      a[i * N + l] := tmpValue;
      assert a[..] == m[i * N + k := At(m, N, i, l)][i * N + l := At(m, N, i, k)];
      i := i + 1;
    }
  }

  lemma ExtendRows(m0: seq<real>, m1: seq<real>, m2: seq<real>, N: nat, j: nat, k: nat, l: nat)
    requires |m0| == |m1| == |m2| == N * N && j < N && k < N && l < N && RowsSwapped(m0, m1, N, j, k, l)
    requires At(m2, N, k, j) == At(m1, N, l, j) && At(m2, N, l, j) == At(m1, N, k, j)
    requires forall x, y :: 0 <= x < N && 0 <= y < N && (x, y) != (k, j) && (x, y) != (l, j) ==>
      At(m2, N, x, y) == At(m1, N, x, y)
    ensures RowsSwapped(m0, m2, N, j + 1, k, l)
  {}

  /** cblas_dswap on two row prefixes. */
  method SwapRows(a: array<real>, N: nat, cols: nat, k: nat, l: nat)
    requires a.Length == N * N && cols <= N && k < N && l < N
    modifies a
    ensures RowsSwapped(old(a[..]), a[..], N, cols, k, l)
  {
    var j := 0;
    while j < cols
      invariant j <= cols && RowsSwapped(old(a[..]), a[..], N, j, k, l)
    {
      ghost var m := a[..];
      ExchangeEntries(m, N, k, j, l, j);
      var tmpValue := a[k * N + j];
      a[k * N + j] := a[l * N + j];
      a[l * N + j] := tmpValue;
      assert a[..] == m[k * N + j := At(m, N, l, j)][l * N + j := At(m, N, k, j)];
      ExtendRows(old(a[..]), m, a[..], N, j, k, l);
      j := j + 1;
    }
  }

  // ---------------------------------------------------------------- blocks

  /** The latencies among the nodes of v. */
  function Block(lat: Latency, v: seq<NodeIdent>): seq<seq<real>> {
    seq(|v|, i requires 0 <= i < |v| => seq(|v|, j requires 0 <= j < |v| => lat(v[i], v[j])))
  }

  function LeadingBlock(m: seq<real>, N: nat, n: nat): seq<seq<real>>
    requires |m| == N * N && n <= N
  {
    seq(n, i requires 0 <= i < n => seq(n, j requires 0 <= j < n => At(m, N, i, j)))
  }

  /** The leading block of the matrix holds the latencies among the nodes of v. */
  ghost predicate Represents(m: seq<real>, N: nat, lat: Latency, v: seq<NodeIdent>)
    requires |m| == N * N
  {
    |v| <= N && forall i, j :: 0 <= i < |v| && 0 <= j < |v| ==> At(m, N, i, j) == lat(v[i], v[j])
  }

  lemma RepresentsBlock(m: seq<real>, N: nat, lat: Latency, v: seq<NodeIdent>)
    requires |m| == N * N && Represents(m, N, lat, v)
    ensures LeadingBlock(m, N, |v|) == Block(lat, v)
  {
    var b1, b2 := LeadingBlock(m, N, |v|), Block(lat, v);
    forall i | 0 <= i < |v| ensures b1[i] == b2[i] {
      assert forall j :: 0 <= j < |v| ==> b1[i][j] == At(m, N, i, j) == lat(v[i], v[j]);
    }
  }

  /** Moving column and row k behind the others leaves the block of the nodes without v[k]. */
  lemma RemovalRepresents(m1: seq<real>, m2: seq<real>, m3: seq<real>, N: nat, lat: Latency, v: seq<NodeIdent>, k: nat)
    requires |m1| == |m2| == |m3| == N * N && k < |v| && Represents(m1, N, lat, v)
    requires ColumnsSwapped(m1, m2, N, |v|, k, |v| - 1)
    requires RowsSwapped(m2, m3, N, |v| - 1, k, |v| - 1)
    ensures Represents(m3, N, lat, SwapRemove(v, k))
  {
    var w, l := SwapRemove(v, k), |v| - 1;
    forall i, j | 0 <= i < l && 0 <= j < l ensures At(m3, N, i, j) == lat(w[i], w[j]) {
      var x, y := Exchange(k, l, i), Exchange(k, l, j);
      assert At(m3, N, i, j) == At(m2, N, x, j) == At(m1, N, x, y);
      assert w[i] == v[x] && w[j] == v[y];
    }
  }

  /** Swapping rows and columns back restores every entry of the matrix. */
  lemma TrialUndone(m1: seq<real>, m2: seq<real>, m3: seq<real>, m4: seq<real>, m5: seq<real>,
                    N: nat, n: nat, k: nat, l: nat)
    requires |m1| == |m2| == |m3| == |m4| == |m5| == N * N && k < N && l < N
    requires ColumnsSwapped(m1, m2, N, n, k, l) && ColumnsSwapped(m4, m5, N, n, k, l)
    requires RowsSwapped(m2, m3, N, l, k, l) && RowsSwapped(m3, m4, N, l, k, l)
    ensures forall i, j :: 0 <= i < N && 0 <= j < N ==> At(m5, N, i, j) == At(m1, N, i, j)
  {
    forall i, j | 0 <= i < N && 0 <= j < N ensures At(m4, N, i, j) == At(m2, N, i, j) {
      var x := if j < l then Exchange(k, l, i) else i;
      assert At(m4, N, i, j) == At(m3, N, x, j);
    }
    forall i, j | 0 <= i < N && 0 <= j < N ensures At(m5, N, i, j) == At(m1, N, i, j) {
      var y := if i < n then Exchange(k, l, j) else j;
      assert At(m5, N, i, j) == At(m4, N, i, y) == At(m2, N, i, y);
    }
  }

  // ---------------------------------------------------------------- the greedy choice

  /** The hypervolume that remains without the k-th node. */
  function VolumeWithout(lat: Latency, hv: HyperVolume, v: seq<NodeIdent>, k: nat): real
    requires k < |v|
  {
    hv(Block(lat, SwapRemove(v, k)))
  }

  /** How good the removal of one position of a vector is. */
  type Score = (seq<NodeIdent>, nat) -> real

  function RemainingVolume(lat: Latency, hv: HyperVolume): Score {
    (v: seq<NodeIdent>, k: nat) => if k < |v| then VolumeWithout(lat, hv, v, k) else 0.0
  }

  /** Removing the k-th node leaves at least as much as removing any other, and more than removing a later one. */
  ghost predicate BestRemoval(score: Score, v: seq<NodeIdent>, k: nat, among: nat)
    requires among <= |v|
  {
    && k < among
    && (forall j: nat :: j < among ==> score(v, j) <= score(v, k))
    && (forall j: nat :: k < j < among ==> score(v, j) < score(v, k))
  }

  lemma BestRemovalUnique(score: Score, v: seq<NodeIdent>, i: nat, j: nat, among: nat)
    requires among <= |v| && BestRemoval(score, v, i, among) && BestRemoval(score, v, j, among)
    ensures i == j
  {
    assert score(v, i) == score(v, j);
  }

  /** The best removal among the first positions of v. */
  function Victim(score: Score, v: seq<NodeIdent>, among: nat): (k: nat)
    requires 1 <= among <= |v|
    ensures BestRemoval(score, v, k, among)
  {
    if among == 1 then 0
    else
      var k := Victim(score, v, among - 1);
      if score(v, among - 1) >= score(v, k) then among - 1 else k
  }

  /** What n rounds of best removals leave of v, and whom they delete, in order. */
  function Greedy(score: Score, v: seq<NodeIdent>, n: nat): (r: (seq<NodeIdent>, seq<NodeIdent>))
    requires n <= |v|
    ensures |r.0| == |v| - n && |r.1| == n
  {
    if n == 0 then (v, [])
    else
      var (w, deleted) := Greedy(score, v, n - 1);
      var k := Victim(score, w, |w|);
      (SwapRemove(w, k), deleted + [w[k]])
  }

  /** The greedy reduction neither loses nor invents a node. */
  lemma {:induction false} GreedyConserves(score: Score, v: seq<NodeIdent>, n: nat)
    requires n <= |v|
    ensures multiset(Greedy(score, v, n).0 + Greedy(score, v, n).1) == multiset(v)
  {
    if n == 0 {
      assert v + [] == v;
    } else {
      GreedyConserves(score, v, n - 1);
      var (w, deleted) := Greedy(score, v, n - 1);
      MoveConserves(w, deleted, Victim(score, w, |w|));
    }
  }

  lemma MoveConserves(w: seq<NodeIdent>, deleted: seq<NodeIdent>, k: nat)
    requires k < |w|
    ensures multiset(SwapRemove(w, k) + (deleted + [w[k]])) == multiset(w + deleted)
  {
    SwapRemoveMultiset(w, k);
    assert multiset(SwapRemove(w, k) + (deleted + [w[k]])) ==
      multiset(SwapRemove(w, k)) + multiset(deleted) + multiset{w[k]};
  }

  /** The node the next round would delete after r rounds. */
  function NextVictim(score: Score, v: seq<NodeIdent>, r: nat): NodeIdent
    requires r < |v|
  {
    var w := Greedy(score, v, r).0;
    w[Victim(score, w, |w|)]
  }

  lemma {:induction false} GreedyDeletesInOrder(score: Score, v: seq<NodeIdent>, n: nat, r: nat)
    requires r < n <= |v|
    ensures Greedy(score, v, n).1[r] == NextVictim(score, v, r)
    decreases n
  {
    LastDeleted(score, v, n);
    if r < n - 1 { GreedyDeletesInOrder(score, v, n - 1, r); }
  }

  lemma LastDeleted(score: Score, v: seq<NodeIdent>, n: nat)
    requires 0 < n <= |v|
    ensures Greedy(score, v, n).1[n - 1] == NextVictim(score, v, n - 1)
    ensures forall r :: 0 <= r < n - 1 ==> Greedy(score, v, n).1[r] == Greedy(score, v, n - 1).1[r]
  {}

  /** The r-th node deleted is one whose removal, at its time, leaves the largest hypervolume. */
  lemma GreedyDeletesBest(score: Score, v: seq<NodeIdent>, n: nat, r: nat) returns (w: seq<NodeIdent>, k: nat)
    requires r < n <= |v|
    ensures w == Greedy(score, v, r).0
    ensures BestRemoval(score, w, k, |w|) && Greedy(score, v, n).1[r] == w[k]
  {
    GreedyDeletesInOrder(score, v, n, r);
    w := Greedy(score, v, r).0;
    k := Victim(score, w, |w|);
  }

  // ---------------------------------------------------------------- the algorithm

  /** calculateHV: looks at nothing but the leading block. */
  function CalculateHV(hv: HyperVolume, m: seq<real>, N: nat, n: nat): real
    requires |m| == N * N && n <= N
  {
    hv(LeadingBlock(m, N, n))
  }

  lemma TrialMeasures(m1: seq<real>, m2: seq<real>, m3: seq<real>, N: nat, hv: HyperVolume, lat: Latency,
                      v: seq<NodeIdent>, k: nat)
    requires |m1| == |m2| == |m3| == N * N && k < |v| <= N && Represents(m1, N, lat, v)
    requires ColumnsSwapped(m1, m2, N, |v|, k, |v| - 1) && RowsSwapped(m2, m3, N, |v| - 1, k, |v| - 1)
    ensures CalculateHV(hv, m3, N, |v| - 1) == VolumeWithout(lat, hv, v, k)
  {
    RemovalRepresents(m1, m2, m3, N, lat, v, k);
    RepresentsBlock(m3, N, lat, SwapRemove(v, k));
  }

  /** One trial: swap node k out, measure, and swap it back. */
  method TryWithout(a: array<real>, N: nat, k: nat, hv: HyperVolume, ghost lat: Latency, v: seq<NodeIdent>)
    returns (hyperVolume: real)
    requires a.Length == N * N && k < |v| <= N && Represents(a[..], N, lat, v)
    modifies a
    ensures hyperVolume == VolumeWithout(lat, hv, v, k)
    ensures forall i, j :: 0 <= i < N && 0 <= j < N ==> At(a[..], N, i, j) == At(old(a[..]), N, i, j)
  {
    var colSize, rowSize := |v|, |v|;
    ghost var m1 := a[..];
    SwapColumns(a, N, rowSize, k, colSize - 1);
    ghost var m2 := a[..];
    colSize := colSize - 1;
    SwapRows(a, N, colSize, k, rowSize - 1);
    ghost var m3 := a[..];
    rowSize := rowSize - 1;
    TrialMeasures(m1, m2, m3, N, hv, lat, v, k);
    hyperVolume := CalculateHV(hv, a[..], N, rowSize);
    rowSize := rowSize + 1;
    SwapRows(a, N, colSize, k, rowSize - 1);
    ghost var m4 := a[..];
    colSize := colSize + 1;
    SwapColumns(a, N, rowSize, k, colSize - 1);
    TrialUndone(m1, m2, m3, m4, a[..], N, |v|, k, |v| - 1);
  }

  lemma RepresentsSame(m1: seq<real>, m2: seq<real>, N: nat, lat: Latency, v: seq<NodeIdent>)
    requires |m1| == |m2| == N * N && Represents(m1, N, lat, v)
    requires forall i, j :: 0 <= i < N && 0 <= j < N ==> At(m2, N, i, j) == At(m1, N, i, j)
    ensures Represents(m2, N, lat, v)
  {}

  lemma VolumeNonNegative(lat: Latency, hv: HyperVolume, v: seq<NodeIdent>, k: nat)
    requires k < |v| && forall b :: hv(b) >= 0.0
    ensures RemainingVolume(lat, hv)(v, k) == VolumeWithout(lat, hv, v, k) >= 0.0
  {}

  /** The scan of one round: which node to remove, and the hypervolume that stays. */
  method FindMaxHVNode(a: array<real>, N: nat, hv: HyperVolume, ghost lat: Latency, v: seq<NodeIdent>)
    returns (maxHVNode: NodeIdent, maxHyperVolume: real)
    requires a.Length == N * N && 0 < |v| <= N && Represents(a[..], N, lat, v)
    requires forall b :: hv(b) >= 0.0
    modifies a
    ensures maxHVNode == v[Victim(RemainingVolume(lat, hv), v, |v|)]
    ensures maxHyperVolume == RemainingVolume(lat, hv)(v, Victim(RemainingVolume(lat, hv), v, |v|))
    ensures forall i, j :: 0 <= i < N && 0 <= j < N ==> At(a[..], N, i, j) == At(old(a[..]), N, i, j)
  {
    ghost var score := RemainingVolume(lat, hv);
    var maxHVNodeFound, maxHV := false, 0.0;
    maxHVNode, maxHyperVolume := NOBODY, 0.0;
    ghost var best := 0;
    var k := 0;
    while k < |v|
      invariant k <= |v|
      invariant maxHVNodeFound <==> k > 0
      invariant best < |v| && (k > 0 ==> BestRemoval(score, v, best, k) && maxHVNode == v[best])
      invariant k > 0 ==> maxHV == maxHyperVolume == score(v, best)
      invariant k == 0 ==> maxHV == maxHyperVolume == 0.0
      invariant forall i, j :: 0 <= i < N && 0 <= j < N ==> At(a[..], N, i, j) == At(old(a[..]), N, i, j)
    {
      RepresentsSame(old(a[..]), a[..], N, lat, v);
      var hyperVolume := TryWithout(a, N, k, hv, lat, v);
      VolumeNonNegative(lat, hv, v, k);
      if hyperVolume >= maxHV {
        maxHVNodeFound := true;
        maxHVNode := v[k];
        maxHV := hyperVolume;
        best := k;
      }
      if hyperVolume > maxHyperVolume {
        maxHyperVolume := hyperVolume;
      }
      k := k + 1;
    }
    assert maxHVNodeFound;
    BestRemovalUnique(score, v, best, Victim(score, v, |v|), |v|);
  }

  /** Takes entry k out of the matrix and the vector: the last column, row and node take its place. */
  method RemoveAt(a: array<real>, N: nat, k: nat, ghost lat: Latency,
                  inVector: seq<NodeIdent>, deletedNodes: seq<NodeIdent>)
    returns (outVector: seq<NodeIdent>, outDeleted: seq<NodeIdent>)
    requires a.Length == N * N && k < |inVector| <= N && Represents(a[..], N, lat, inVector)
    modifies a
    ensures outVector == SwapRemove(inVector, k) && outDeleted == deletedNodes + [inVector[k]]
    ensures Represents(a[..], N, lat, outVector)
  {
    var colSize, rowSize := |inVector|, |inVector|;
    ghost var m1 := a[..];
    SwapColumns(a, N, rowSize, k, colSize - 1);
    ghost var m2 := a[..];
    colSize := colSize - 1;
    SwapRows(a, N, colSize, k, rowSize - 1);
    RemovalRepresents(m1, m2, a[..], N, lat, inVector, k);
    outDeleted := deletedNodes + [inVector[k]];
    outVector := inVector[k := inVector[|inVector| - 1]];
    outVector := outVector[..|outVector| - 1];
  }

  /** Takes the chosen node out of the vector and out of the matrix. */
  method RemoveNode(a: array<real>, N: nat, maxHVNode: NodeIdent, ghost best: nat, ghost lat: Latency,
                    inVector: seq<NodeIdent>, deletedNodes: seq<NodeIdent>)
    returns (outVector: seq<NodeIdent>, outDeleted: seq<NodeIdent>)
    requires a.Length == N * N && |inVector| <= N && Represents(a[..], N, lat, inVector)
    requires Distinct(inVector) && best < |inVector| && inVector[best] == maxHVNode
    modifies a
    ensures outVector == SwapRemove(inVector, best) && outDeleted == deletedNodes + [maxHVNode]
    ensures Represents(a[..], N, lat, outVector)
  {
    outVector, outDeleted := inVector, deletedNodes;
    var k := 0;
    while k < |outVector|
      invariant |outVector| <= N && Represents(a[..], N, lat, outVector)
      invariant k <= best ==> outVector == inVector && outDeleted == deletedNodes
      invariant k > best ==> outVector == SwapRemove(inVector, best) && outDeleted == deletedNodes + [maxHVNode]
    {
      if outVector[k] == maxHVNode {
        assert k == best by {
          if k > best { SwapRemoveDistinct(inVector, best); }
        }
        outVector, outDeleted := RemoveAt(a, N, k, lat, outVector, outDeleted);
      }
      k := k + 1;
    }
  }

  /** One round: scan for the node to remove, then remove it. */
  method ReduceByOne(a: array<real>, N: nat, hv: HyperVolume, ghost lat: Latency,
                     inVector: seq<NodeIdent>, deletedNodes: seq<NodeIdent>)
    returns (outVector: seq<NodeIdent>, outDeleted: seq<NodeIdent>, maxHyperVolume: real)
    requires a.Length == N * N && 0 < |inVector| <= N && Represents(a[..], N, lat, inVector)
    requires Distinct(inVector) && forall b :: hv(b) >= 0.0
    modifies a
    ensures var k := Victim(RemainingVolume(lat, hv), inVector, |inVector|);
      outVector == SwapRemove(inVector, k) && outDeleted == deletedNodes + [inVector[k]]
    ensures Distinct(outVector) && Represents(a[..], N, lat, outVector)
    ensures maxHyperVolume == hv(Block(lat, outVector))
  {
    ghost var m, best := a[..], Victim(RemainingVolume(lat, hv), inVector, |inVector|);
    var maxHVNode;
    maxHVNode, maxHyperVolume := FindMaxHVNode(a, N, hv, lat, inVector);
    VolumeNonNegative(lat, hv, inVector, best);
    RepresentsSame(m, a[..], N, lat, inVector);
    SwapRemoveDistinct(inVector, best);
    outVector, outDeleted := RemoveNode(a, N, maxHVNode, best, lat, inVector, deletedNodes);
  }

  /**
    Removes numReduction nodes, each time one whose removal keeps the hypervolume largest.
    The matrix follows the vector: its leading block always holds the latencies among the remaining nodes.
   */
  method ReduceSetByN(inVector: seq<NodeIdent>, deletedNodes: seq<NodeIdent>, numReduction: nat,
                      a: array<real>, hv: HyperVolume, ghost lat: Latency)
    returns (outVector: seq<NodeIdent>, outDeleted: seq<NodeIdent>, maxHyperVolume: real)
    requires Distinct(inVector) && numReduction <= |inVector|
    requires a.Length == |inVector| * |inVector| && Represents(a[..], |inVector|, lat, inVector)
    requires forall b :: hv(b) >= 0.0
    modifies a
    ensures outVector == Greedy(RemainingVolume(lat, hv), inVector, numReduction).0
    ensures outDeleted == deletedNodes + Greedy(RemainingVolume(lat, hv), inVector, numReduction).1
    ensures Represents(a[..], |inVector|, lat, outVector)
    ensures numReduction > 0 ==> maxHyperVolume == hv(Block(lat, outVector))
  {
    outVector, outDeleted, maxHyperVolume := inVector, deletedNodes, 0.0;
    ghost var score := RemainingVolume(lat, hv);
    var rCount := 0;
    while rCount < numReduction
      invariant rCount <= numReduction
      invariant outVector == Greedy(score, inVector, rCount).0
      invariant outDeleted == deletedNodes + Greedy(score, inVector, rCount).1
      invariant Distinct(outVector) && Represents(a[..], |inVector|, lat, outVector)
      invariant rCount > 0 ==> maxHyperVolume == hv(Block(lat, outVector))
    {
      GreedyStep(score, inVector, rCount, deletedNodes);
      outVector, outDeleted, maxHyperVolume := ReduceByOne(a, |inVector|, hv, lat, outVector, outDeleted);
      rCount := rCount + 1;
    }
  }

  lemma GreedyStep(score: Score, v: seq<NodeIdent>, r: nat, before: seq<NodeIdent>)
    requires r < |v|
    ensures var (w, deleted) := Greedy(score, v, r);
      var k := Victim(score, w, |w|);
      && Greedy(score, v, r + 1).0 == SwapRemove(w, k)
      && Greedy(score, v, r + 1).1 == deleted + [w[k]]
      && before + Greedy(score, v, r + 1).1 == (before + deleted) + [w[k]]
  {}
}
