/**
  Queries over the primary rings: ring_gt/ge/lt/le of the query language and fillVector of the closest search.
  Each looks at a boundary ring member by member and takes or skips all other rings whole;
  the answer is nevertheless exactly a scan of every primary member.
 */
module RingQuery {
  import opened Base
  import opened RingModel
  import opened RingSets
  import opened Averages

  datatype Relation = GT | GE | LT | LE

  /** The comparison a query asks for, in milliseconds. */
  predicate Holds(rel: Relation, latencyUS: uint32, d: real) {
    var ms := latencyUS as real / 1000.0;
    match rel
    case GT => ms > d
    case GE => ms >= d
    case LT => ms < d
    case LE => ms <= d
  }

  ghost predicate Primary(s: RingState, n: NodeIdent)
    requires s.Shape()
  {
    n in s.lat && n in s.prim[s.RingOf(n)]
  }

  /** A member as it is reported: with its rendezvous host if it has one. */
  function Entry(s: RingState, n: NodeIdent): NodeIdentRendv {
    NodeIdentRendv(n, if n in s.rendv then s.rendv[n] else NOBODY)
  }

  /** The scan: every primary member whose latency is wanted, reported once, and nobody else. */
  ghost predicate IsScan(s: RingState, out: seq<NodeIdentRendv>, wanted: uint32 -> bool)
    requires s.Shape()
  {
    && (forall m :: m in out <==> Primary(s, m.node) && wanted(s.lat[m.node]) && m == Entry(s, m.node))
    && Distinct(out)
  }

  /** The primary members of ring r with a wanted latency, in list order. */
  function Pick(s: RingState, nodes: seq<NodeIdent>, wanted: uint32 -> bool): (out: seq<NodeIdentRendv>)
    requires forall n :: n in nodes ==> n in s.lat
  {
    if nodes == [] then []
    else
      var front, n := nodes[..|nodes| - 1], nodes[|nodes| - 1];
      Pick(s, front, wanted) + if wanted(s.lat[n]) then [Entry(s, n)] else []
  }

  lemma {:induction false} PickIsFilter(s: RingState, nodes: seq<NodeIdent>, wanted: uint32 -> bool)
    requires Distinct(nodes) && forall n :: n in nodes ==> n in s.lat
    ensures forall m :: m in Pick(s, nodes, wanted) <==>
      m.node in nodes && wanted(s.lat[m.node]) && m == Entry(s, m.node)
    ensures Distinct(Pick(s, nodes, wanted))
  {
    if nodes != [] {
      var front, n := nodes[..|nodes| - 1], nodes[|nodes| - 1];
      PickIsFilter(s, front, wanted);
      assert forall x :: x in nodes <==> x in front || x == n;
      assert n !in front;
    }
  }

  /** Ring r's primary list is in order, and holds just the primary nodes whose latency belongs to ring r. */
  lemma PrimaryByRing(s: RingState, r: nat)
    requires s.Inv() && r < MAX_NUM_RINGS
    ensures Distinct(s.prim[r])
    ensures forall n :: n in s.prim[r] ==> n in s.lat
    ensures forall n :: n in s.prim[r] <==> Primary(s, n) && s.RingOf(n) == r
  {
    assert s.RingOk(r);
    assert Filed(s.prim[r], s.sec[r], r, s.base, s.lat);
  }

  /** What has been reported once rings `from` .. `to - 1` are done, given what was wanted of each latency. */
  ghost predicate IsPartialScan(s: RingState, out: seq<NodeIdentRendv>, wanted: uint32 -> bool, from: nat, to: nat)
    requires s.Shape()
  {
    && (forall m :: m in out <==>
          Primary(s, m.node) && from <= s.RingOf(m.node) < to && wanted(s.lat[m.node]) && m == Entry(s, m.node))
    && Distinct(out)
  }

  lemma ExtendScan(s: RingState, out: seq<NodeIdentRendv>, wanted: uint32 -> bool, from: nat, to: nat)
    requires s.Inv() && from <= to < MAX_NUM_RINGS && IsPartialScan(s, out, wanted, from, to)
    requires forall n :: n in s.prim[to] ==> n in s.lat
    ensures IsPartialScan(s, out + Pick(s, s.prim[to], wanted), wanted, from, to + 1)
  {
    PrimaryByRing(s, to);
    PickIsFilter(s, s.prim[to], wanted);
    var more := Pick(s, s.prim[to], wanted);
    forall i, j | 0 <= i < j < |out + more| ensures (out + more)[i] != (out + more)[j] {
      if i < |out| <= j { assert out[i] in out && more[j - |out|] in more; }
    }
  }

  lemma {:induction false} PickSame(s: RingState, nodes: seq<NodeIdent>, w1: uint32 -> bool, w2: uint32 -> bool)
    requires forall n :: n in nodes ==> n in s.lat && (w1(s.lat[n]) <==> w2(s.lat[n]))
    ensures Pick(s, nodes, w1) == Pick(s, nodes, w2)
  {
    if nodes != [] { PickSame(s, nodes[..|nodes| - 1], w1, w2); }
  }

  // ---------------------------------------------------------------- why whole rings can be taken or skipped

  /** ring_gt, ring_ge: with floor(1000 d) in ring k, all of the rings above k satisfy the query and none below does. */
  lemma AboveBoundary(base: nat, latencyUS: uint32, d: real, rel: Relation)
    requires base >= 2 && d >= 0.0 && (rel.GT? || rel.GE?)
    ensures var k := RingNumber(base, (1000.0 * d).Floor);
      && (RingNumber(base, latencyUS) > k ==> Holds(rel, latencyUS, d))
      && (RingNumber(base, latencyUS) < k ==> !Holds(rel, latencyUS, d))
  {
    var f := (1000.0 * d).Floor;
    if latencyUS <= f { RingNumberMonotone(base, latencyUS, f); }
    if latencyUS >= f { RingNumberMonotone(base, f, latencyUS); }
  }

  /** ring_lt, ring_le: with ceil(1000 d) in ring k, all of the rings below k satisfy the query and none above does. */
  lemma BelowBoundary(base: nat, latencyUS: uint32, d: real, rel: Relation)
    requires base >= 2 && d >= 0.0 && (rel.LT? || rel.LE?)
    ensures var k := RingNumber(base, Ceil(1000.0 * d));
      && (RingNumber(base, latencyUS) < k ==> Holds(rel, latencyUS, d))
      && (RingNumber(base, latencyUS) > k ==> !Holds(rel, latencyUS, d))
  {
    var c := Ceil(1000.0 * d);
    if latencyUS <= c { RingNumberMonotone(base, latencyUS, c); }
    if latencyUS >= c { RingNumberMonotone(base, c, latencyUS); }
  }

  // ---------------------------------------------------------------- the queries

  /** Appends the wanted members of one ring; d and rel say which are wanted, `all` overrides the comparison. */
  method ReportRing(rs: RingSet, ring: nat, rel: Relation, d: real, all: bool, before: seq<NodeIdentRendv>)
    returns (outMembers: seq<NodeIdentRendv>)
    requires rs.Valid() && rs.State().Inv() && ring < MAX_NUM_RINGS
    requires forall n :: n in rs.primaryRing[ring] ==> n in rs.nodeLatencyUS
    ensures outMembers == before + Pick(rs.State(), rs.primaryRing[ring], (l: uint32) => all || Holds(rel, l, d))
  {
    ghost var s, wanted := rs.State(), (l: uint32) => all || Holds(rel, l, d);
    var ringMember := rs.primaryRing[ring];
    outMembers := before;
    var i := 0;
    while i < |ringMember|
      invariant i <= |ringMember|
      invariant forall n :: n in ringMember[..i] ==> n in s.lat
      invariant outMembers == before + Pick(s, ringMember[..i], wanted)
    {
      var n := ringMember[i];
      assert ringMember[..i + 1][..i] == ringMember[..i];
      if all || Holds(rel, rs.nodeLatencyUS[n], d) {
        var rendvNode := if n in rs.rendvMapping then rs.rendvMapping[n] else NOBODY;
        outMembers := outMembers + [NodeIdentRendv(n, rendvNode)];
      }
      i := i + 1;
    }
    assert ringMember[..i] == ringMember;
  }

  /** ring_gt (equal = false) and ring_ge (equal = true). */
  method HandleRingGTE(rs: RingSet, d: real, equal: bool) returns (outMembers: seq<NodeIdentRendv>)
    requires rs.Valid() && rs.State().Inv()
    requires d >= 0.0 && 1000.0 * d < 4294967296.0
    ensures IsScan(rs.State(), outMembers, (l: uint32) => Holds(if equal then GE else GT, l, d))
    ensures forall n, r :: NodeIdentRendv(n, r) in outMembers <==>
      && Primary(rs.State(), n) && r == (if n in rs.rendvMapping then rs.rendvMapping[n] else NOBODY)
      && (if equal then rs.nodeLatencyUS[n] as real >= 1000.0 * d else rs.nodeLatencyUS[n] as real > 1000.0 * d)
  {
    var rel := if equal then GE else GT;
    ghost var s, wanted := rs.State(), (l: uint32) => Holds(rel, l, d);
    var ringNum := RingNumber(rs.exponentBase, (1000.0 * d).Floor);
    PrimaryByRing(s, ringNum);
    outMembers := ReportRing(rs, ringNum, rel, d, false, []);
    PickSame(s, s.prim[ringNum], wanted, (l: uint32) => false || Holds(rel, l, d));
    ExtendScan(s, [], wanted, ringNum, ringNum);
    assert outMembers == [] + Pick(s, s.prim[ringNum], wanted);
    var j := ringNum + 1;
    while j < MAX_NUM_RINGS
      invariant ringNum < j <= MAX_NUM_RINGS && IsPartialScan(s, outMembers, wanted, ringNum, j)
    {
      PrimaryByRing(s, j);
      ghost var before := outMembers;
      outMembers := ReportRing(rs, j, rel, d, true, outMembers);
      forall n | n in s.prim[j] ensures wanted(s.lat[n]) {
        AboveBoundary(s.base, s.lat[n], d, rel);
      }
      PickSame(s, s.prim[j], wanted, (l: uint32) => true || Holds(rel, l, d));
      ExtendScan(s, before, wanted, ringNum, j);
      j := j + 1;
    }
    forall n | Primary(s, n) && wanted(s.lat[n]) ensures ringNum <= s.RingOf(n) {
      AboveBoundary(s.base, s.lat[n], d, rel);
    }
  }

  /** Appends all primary members of the rings below ringNum. */
  method ReportLower(rs: RingSet, ringNum: nat, rel: Relation, d: real, before: seq<NodeIdentRendv>)
    returns (outMembers: seq<NodeIdentRendv>, ghost lower: seq<NodeIdentRendv>)
    requires rs.Valid() && rs.State().Inv()
    requires d >= 0.0 && (rel.LT? || rel.LE?) && ringNum == RingNumber(rs.exponentBase, Ceil(1000.0 * d))
    ensures outMembers == before + lower
    ensures IsPartialScan(rs.State(), lower, (l: uint32) => Holds(rel, l, d), 0, ringNum)
  {
    ghost var s := rs.State();
    outMembers, lower := before, [];
    var j := 0;
    while j < ringNum
      invariant j <= ringNum && IsPartialScan(s, lower, (l: uint32) => Holds(rel, l, d), 0, j)
      invariant outMembers == before + lower
    {
      PrimaryByRing(s, j);
      outMembers := ReportRing(rs, j, rel, d, true, outMembers);
      LowerRing(s, j, d, rel);
      ExtendScan(s, lower, (l: uint32) => Holds(rel, l, d), 0, j);
      lower := lower + Pick(s, s.prim[j], (l: uint32) => Holds(rel, l, d));
      j := j + 1;
    }
  }

  /** ring_lt (equal = false) and ring_le (equal = true). */
  method HandleRingLTE(rs: RingSet, d: real, equal: bool) returns (outMembers: seq<NodeIdentRendv>)
    requires rs.Valid() && rs.State().Inv()
    requires d >= 0.0 && 1000.0 * d <= 4294967295.0
    ensures IsScan(rs.State(), outMembers, (l: uint32) => Holds(if equal then LE else LT, l, d))
    ensures forall n, r :: NodeIdentRendv(n, r) in outMembers <==>
      && Primary(rs.State(), n) && r == (if n in rs.rendvMapping then rs.rendvMapping[n] else NOBODY)
      && (if equal then rs.nodeLatencyUS[n] as real <= 1000.0 * d else rs.nodeLatencyUS[n] as real < 1000.0 * d)
  {
    var rel := if equal then LE else LT;
    ghost var s, wanted := rs.State(), (l: uint32) => Holds(rel, l, d);
    var ringNum := RingNumber(rs.exponentBase, Ceil(1000.0 * d));
    PrimaryByRing(s, ringNum);
    outMembers := ReportRing(rs, ringNum, rel, d, false, []);
    PickSame(s, s.prim[ringNum], wanted, (l: uint32) => false || Holds(rel, l, d));
    ghost var last, lower := outMembers, [];
    outMembers, lower := ReportLower(rs, ringNum, rel, d, outMembers);
    JoinScans(s, last, lower, wanted, ringNum);
    forall n | Primary(s, n) && wanted(s.lat[n]) ensures s.RingOf(n) <= ringNum {
      BelowBoundary(s.base, s.lat[n], d, rel);
    }
  }

  lemma LowerRing(s: RingState, j: nat, d: real, rel: Relation)
    requires s.Inv() && d >= 0.0 && (rel.LT? || rel.LE?) && j < RingNumber(s.base, Ceil(1000.0 * d))
    requires forall n :: n in s.prim[j] ==> n in s.lat
    ensures Pick(s, s.prim[j], (l: uint32) => Holds(rel, l, d)) ==
      Pick(s, s.prim[j], (l: uint32) => true || Holds(rel, l, d))
  {
    PrimaryByRing(s, j);
    forall n | n in s.prim[j] ensures Holds(rel, s.lat[n], d) {
      BelowBoundary(s.base, s.lat[n], d, rel);
    }
    PickSame(s, s.prim[j], (l: uint32) => Holds(rel, l, d), (l: uint32) => true || Holds(rel, l, d));
  }

  lemma JoinScans(s: RingState, last: seq<NodeIdentRendv>, lower: seq<NodeIdentRendv>, wanted: uint32 -> bool, r: nat)
    requires s.Inv() && r < MAX_NUM_RINGS && IsPartialScan(s, lower, wanted, 0, r)
    requires forall n :: n in s.prim[r] ==> n in s.lat
    requires last == Pick(s, s.prim[r], wanted)
    ensures IsPartialScan(s, last + lower, wanted, 0, r + 1)
  {
    PrimaryByRing(s, r);
    PickIsFilter(s, s.prim[r], wanted);
    forall i, j | 0 <= i < j < |last + lower| ensures (last + lower)[i] != (last + lower)[j] {
      if i < |last| <= j { assert last[i] in last && lower[j - |last|] in lower; }
    }
  }

  // ---------------------------------------------------------------- fillVector

  // The bounds fillVector searches between; an illegal ratio counts as one half.

  function UpperBound(maxUS: uint32, beta: real): int {
    Ceil((1.0 + EffectiveBeta(beta)) * maxUS as real)
  }

  function LowerBound(minUS: uint32, beta: real): int {
    ((1.0 - EffectiveBeta(beta)) * minUS as real).Floor
  }

  /** The latencies asked for: everything when the bounds are crossed. */
  predicate InWindow(minUS: uint32, maxUS: uint32, beta: real, latencyUS: uint32) {
    var lo, hi := LowerBound(minUS, beta), UpperBound(maxUS, beta);
    lo > hi || lo <= latencyUS <= hi
  }

  /** The window as a scan: primary members inside it, each with its rendezvous host. */
  ghost predicate IsWindow(s: RingState, minUS: uint32, maxUS: uint32, beta: real, found: map<NodeIdent, NodeIdent>)
    requires s.Shape()
  {
    forall n :: n in found <==> Primary(s, n) && InWindow(minUS, maxUS, beta, s.lat[n])
  }

  /** The window as a map: what fillVector must find. */
  ghost function Window(s: RingState, minUS: uint32, maxUS: uint32, beta: real): (found: map<NodeIdent, NodeIdent>)
    requires s.Shape()
    ensures IsWindow(s, minUS, maxUS, beta, found)
  {
    map n | n in s.lat && Primary(s, n) && InWindow(minUS, maxUS, beta, s.lat[n]) :: Entry(s, n).rendv
  }

  /**
    For bounds in order the window holds exactly the primary members less than a microsecond away from the interval
    [(1 - beta) min, (1 + beta) max], each with the rendezvous host on record for it. An illegal ratio counts as one
    half.
   */
  lemma WindowExactly(s: RingState, minUS: uint32, maxUS: uint32, beta: real, n: NodeIdent)
    requires s.Inv() && minUS <= maxUS
    ensures var found, b := Window(s, minUS, maxUS, beta), EffectiveBeta(beta);
      && (n in found <==>
            && (exists r :: 0 <= r < MAX_NUM_RINGS && n in s.prim[r]) && n in s.lat
            && Scaled(1.0 - b, minUS) - 1.0 < s.lat[n] as real < Scaled(1.0 + b, maxUS) + 1.0)
      && (n in found ==> found[n] == if n in s.rendv then s.rendv[n] else NOBODY)
  {
    PrimarySomewhere(s, n);
    if n in s.lat { InWindowExactly(minUS, maxUS, beta, s.lat[n]); }
  }

  lemma PrimarySomewhere(s: RingState, n: NodeIdent)
    requires s.Inv()
    ensures Primary(s, n) <==> (exists r :: 0 <= r < MAX_NUM_RINGS && n in s.prim[r]) && n in s.lat
  {
    if r :| 0 <= r < MAX_NUM_RINGS && n in s.prim[r] { PrimaryByRing(s, r); }
  }

  lemma InWindowExactly(minUS: uint32, maxUS: uint32, beta: real, latencyUS: uint32)
    requires minUS <= maxUS
    ensures var b := EffectiveBeta(beta);
      InWindow(minUS, maxUS, beta, latencyUS) <==>
      Scaled(1.0 - b, minUS) - 1.0 < latencyUS as real < Scaled(1.0 + b, maxUS) + 1.0
  {
    var b := EffectiveBeta(beta);
    var low, high := Scaled(1.0 - b, minUS), Scaled(1.0 + b, maxUS);
    BoundsInOrder(b, minUS as real, maxUS as real);
    assert LowerBound(minUS, beta) == low.Floor && UpperBound(maxUS, beta) == Ceil(high);
  }

  function Scaled(factor: real, us: uint32): real {
    factor * us as real
  }

  lemma ScaledMonotone(factor: real, x: uint32, y: uint32)
    requires factor >= 0.0 && x <= y
    ensures Scaled(factor, x) <= Scaled(factor, y)
  {
    FractionLarger(factor, x as real, y as real);
  }

  lemma BoundsInOrder(beta: real, x: real, y: real)
    requires 0.0 < beta < 1.0 && 0.0 <= x <= y
    ensures (1.0 - beta) * x <= (1.0 + beta) * y
  {
    assert beta * x >= 0.0 && beta * y >= 0.0;
  }

  ghost predicate IsPartialWindow(s: RingState, lo: nat, hi: nat, found: map<NodeIdent, NodeIdent>, from: nat, to: nat)
    requires s.Shape()
  {
    && (forall n :: n in found <==> Primary(s, n) && from <= s.RingOf(n) < to && lo <= s.lat[n] <= hi)
    && (forall n :: n in found ==> found[n] == Entry(s, n).rendv)
  }

  lemma BoundsNonNegative(minUS: uint32, maxUS: uint32, beta: real)
    ensures 0 <= LowerBound(minUS, beta) <= minUS && 0 <= UpperBound(maxUS, beta)
  {
    var b := EffectiveBeta(beta);
    assert 0.0 <= (1.0 - b) * minUS as real <= minUS as real;
    assert 0.0 <= (1.0 + b) * maxUS as real;
  }

  /** fillVector: exactly the primary members whose latency lies in [(1 - beta) min, (1 + beta) max]. */
  method FillVector(rs: RingSet, minAvgUS: uint32, maxAvgUS: uint32, betaRatio: real)
    returns (ringMembers: map<NodeIdent, NodeIdent>)
    requires rs.Valid() && rs.State().Inv()
    requires UpperBound(maxAvgUS, betaRatio) <= UINT_MAX
    ensures IsWindow(rs.State(), minAvgUS, maxAvgUS, betaRatio, ringMembers)
    ensures ringMembers == Window(rs.State(), minAvgUS, maxAvgUS, betaRatio)
  {
    ghost var s := rs.State();
    BoundsNonNegative(minAvgUS, maxAvgUS, betaRatio);
    var upperBound := UpperBound(maxAvgUS, betaRatio);
    var lowerBound := LowerBound(minAvgUS, betaRatio);
    if lowerBound > upperBound {
      upperBound := UINT_MAX;
      lowerBound := 0;
    }
    var upperRing := RingNumber(rs.exponentBase, upperBound);
    var lowerRing := RingNumber(rs.exponentBase, lowerBound);
    RingNumberMonotone(rs.exponentBase, lowerBound, upperBound);
    ringMembers := map[];
    var i := lowerRing;
    while i <= upperRing
      invariant lowerRing <= i <= upperRing + 1
      invariant IsPartialWindow(s, lowerBound, upperBound, ringMembers, lowerRing, i)
    {
      ringMembers := AddRing(rs, i, lowerRing, lowerBound, upperBound, ringMembers);
      i := i + 1;
    }
    forall n | Primary(s, n) && lowerBound <= s.lat[n] <= upperBound ensures lowerRing <= s.RingOf(n) <= upperRing {
      RingNumberMonotone(s.base, lowerBound, s.lat[n]);
      RingNumberMonotone(s.base, s.lat[n], upperBound);
    }
  }

  method AddRing(rs: RingSet, ring: nat, ghost from: nat, lo: nat, hi: nat, before: map<NodeIdent, NodeIdent>)
    returns (after: map<NodeIdent, NodeIdent>)
    requires rs.Valid() && rs.State().Inv() && from <= ring < MAX_NUM_RINGS
    requires IsPartialWindow(rs.State(), lo, hi, before, from, ring)
    ensures IsPartialWindow(rs.State(), lo, hi, after, from, ring + 1)
  {
    ghost var s := rs.State();
    PrimaryByRing(s, ring);
    var nodes := rs.primaryRing[ring];
    after := before;
    var j := 0;
    while j < |nodes|
      invariant j <= |nodes|
      invariant forall n :: n in after <==> n in before || (n in nodes[..j] && n in s.lat && lo <= s.lat[n] <= hi)
      invariant forall n :: n in after ==> after[n] == Entry(s, n).rendv
    {
      var n := nodes[j];
      assert forall x :: x in nodes[..j + 1] <==> x in nodes[..j] || x == n;
      if rs.nodeLatencyUS[n] <= hi && rs.nodeLatencyUS[n] >= lo {
        after := after[n := if n in rs.rendvMapping then rs.rendvMapping[n] else NOBODY];
      }
      j := j + 1;
    }
    assert nodes[..j] == nodes;
  }
}
