/**
  Whole runs of a RingSet: the eligibility swap, the commit of new ring lists, the invariant over every run
  of operations, and the guarantee that a frozen ring stands still.
 */
module RingRuns {
  import opened Base
  import opened RingModel

  // ---------------------------------------------------------------- eligibility and the two-pointer swap

  /** How many nodes from position i on need no rendezvous host (free) ... */
  function FreeFrom(s: seq<NodeIdent>, i: nat, rendv: map<NodeIdent, NodeIdent>): (c: nat)
    requires i <= |s|
    ensures c <= |s| - i
    decreases |s| - i
  {
    if i == |s| then 0 else (if s[i] in rendv then 0 else 1) + FreeFrom(s, i + 1, rendv)
  }

  function Free(s: seq<NodeIdent>, rendv: map<NodeIdent, NodeIdent>): nat {
    FreeFrom(s, 0, rendv)
  }

  /** One forward pass: the next firewalled primary member changes places with the next free secondary one. */
  function Swap(p: seq<NodeIdent>, q: seq<NodeIdent>, i: nat, j: nat, rendv: map<NodeIdent, NodeIdent>)
    : (seq<NodeIdent>, seq<NodeIdent>)
    requires i <= |p| && j <= |q|
    decreases |p| - i + |q| - j
  {
    if i == |p| || j == |q| then (p, q)
    else if p[i] !in rendv then Swap(p, q, i + 1, j, rendv)
    else if q[j] in rendv then Swap(p, q, i, j + 1, rendv)
    else Swap(p[i := q[j]], q[j := p[i]], i + 1, j + 1, rendv)
  }

  lemma ExchangePermutes(p: seq<NodeIdent>, q: seq<NodeIdent>, i: nat, j: nat)
    requires i < |p| && j < |q|
    ensures multiset(p[i := q[j]] + q[j := p[i]]) == multiset(p + q)
  {
    assert multiset(p[i := q[j]]) == multiset(p)[p[i] := multiset(p)[p[i]] - 1] + multiset{q[j]};
    assert multiset(q[j := p[i]]) == multiset(q)[q[j] := multiset(q)[q[j]] - 1] + multiset{p[i]};
  }

  /** The swap only permutes ... */
  lemma {:induction false} SwapPermutes(p: seq<NodeIdent>, q: seq<NodeIdent>, i: nat, j: nat,
                                        rendv: map<NodeIdent, NodeIdent>)
    requires i <= |p| && j <= |q|
    ensures var (p', q') := Swap(p, q, i, j, rendv);
      |p'| == |p| && |q'| == |q| && multiset(p' + q') == multiset(p + q)
    decreases |p| - i + |q| - j
  {
    if i == |p| || j == |q| {
    } else if p[i] !in rendv {
      SwapPermutes(p, q, i + 1, j, rendv);
    } else if q[j] in rendv {
      SwapPermutes(p, q, i, j + 1, rendv);
    } else {
      ExchangePermutes(p, q, i, j);
      SwapPermutes(p[i := q[j]], q[j := p[i]], i + 1, j + 1, rendv);
    }
  }

  /** ... and leaves free primary and firewalled secondary members, and all it has passed, where they are. */
  lemma {:induction false} SwapStays(p: seq<NodeIdent>, q: seq<NodeIdent>, i: nat, j: nat,
                                     rendv: map<NodeIdent, NodeIdent>)
    requires i <= |p| && j <= |q|
    ensures var (p', q') := Swap(p, q, i, j, rendv);
      && |p'| == |p| && |q'| == |q|
      && (forall k :: 0 <= k < |p| && (k < i || p[k] !in rendv) ==> p'[k] == p[k])
      && (forall k :: 0 <= k < |q| && (k < j || q[k] in rendv) ==> q'[k] == q[k])
    decreases |p| - i + |q| - j
  {
    if i == |p| || j == |q| {
    } else if p[i] !in rendv {
      SwapStays(p, q, i + 1, j, rendv);
    } else if q[j] in rendv {
      SwapStays(p, q, i, j + 1, rendv);
    } else {
      SwapStays(p[i := q[j]], q[j := p[i]], i + 1, j + 1, rendv);
    }
  }

  /** Every primary member from position i on needs no rendezvous host. */
  ghost predicate AllFreeFrom(p: seq<NodeIdent>, i: nat, rendv: map<NodeIdent, NodeIdent>) {
    forall k :: i <= k < |p| ==> p[k] !in rendv
  }

  /**
    The counting argument: the pass makes every primary member from i on free
    exactly if there are enough free secondary members from j on for the firewalled primaries.
   */
  lemma {:induction false} SwapFrees(p: seq<NodeIdent>, q: seq<NodeIdent>, i: nat, j: nat,
                                     rendv: map<NodeIdent, NodeIdent>)
    requires i <= |p| && j <= |q|
    ensures AllFreeFrom(Swap(p, q, i, j, rendv).0, i, rendv)
            <==> |p| - i <= FreeFrom(p, i, rendv) + FreeFrom(q, j, rendv)
    decreases |p| - i + |q| - j
  {
    if i == |p| || j == |q| {
      AllFree(p, i, rendv);
    } else if p[i] !in rendv {
      SwapStays(p, q, i + 1, j, rendv);
      SwapFrees(p, q, i + 1, j, rendv);
    } else if q[j] in rendv {
      SwapFrees(p, q, i, j + 1, rendv);
    } else {
      SwapFreesExchange(p, q, i, j, rendv);
    }
  }

  lemma {:induction false} SwapFreesExchange(p: seq<NodeIdent>, q: seq<NodeIdent>, i: nat, j: nat,
                                             rendv: map<NodeIdent, NodeIdent>)
    requires i < |p| && j < |q| && p[i] in rendv && q[j] !in rendv
    ensures AllFreeFrom(Swap(p, q, i, j, rendv).0, i, rendv)
            <==> |p| - i <= FreeFrom(p, i, rendv) + FreeFrom(q, j, rendv)
    decreases |p| - i + |q| - j, 0
  {
    var p1, q1 := p[i := q[j]], q[j := p[i]];
    var p2 := Swap(p1, q1, i + 1, j + 1, rendv).0;
    assert p2[i] == p1[i] && |p2| == |p| by { SwapStays(p1, q1, i + 1, j + 1, rendv); }
    assert AllFreeFrom(p2, i, rendv) <==> AllFreeFrom(p2, i + 1, rendv);
    SwapFrees(p1, q1, i + 1, j + 1, rendv);
    FreeFromLocal(p, p1, i + 1, rendv);
    FreeFromLocal(q, q1, j + 1, rendv);
  }

  lemma {:induction false} AllFree(p: seq<NodeIdent>, i: nat, rendv: map<NodeIdent, NodeIdent>)
    requires i <= |p|
    ensures AllFreeFrom(p, i, rendv) <==> FreeFrom(p, i, rendv) == |p| - i
    decreases |p| - i
  {
    if i < |p| {
      AllFree(p, i + 1, rendv);
      assert AllFreeFrom(p, i, rendv) <==> p[i] !in rendv && AllFreeFrom(p, i + 1, rendv);
    }
  }

  lemma {:induction false} FreeFromLocal(p: seq<NodeIdent>, q: seq<NodeIdent>, i: nat, rendv: map<NodeIdent, NodeIdent>)
    requires |p| == |q| && i <= |p| && p[i..] == q[i..]
    ensures FreeFrom(p, i, rendv) == FreeFrom(q, i, rendv)
    decreases |p| - i
  {
    if i < |p| {
      assert p[i] == p[i..][0] && q[i] == q[i..][0];
      assert p[i + 1..] == p[i..][1..] && q[i + 1..] == q[i..][1..];
      FreeFromLocal(p, q, i + 1, rendv);
    }
  }

  /** eligibleForReplacement: whether to start a replacement of ring r, with the swap as a side effect. */
  function Eligible(s: RingState, r: nat): (RingState, bool)
    requires s.Shape() && r < MAX_NUM_RINGS
  {
    var p, q := s.prim[r], s.sec[r];
    if s.frozen[r] || |p| != s.primSize || q == [] then (s, false)
    else
      var numEligible := Free(p, s.rendv) + Free(q, s.rendv);
      if numEligible > s.primSize then (s, true)
      else if numEligible == s.primSize then
        var (p', q') := Swap(p, q, 0, 0, s.rendv);
        (s.(prim := s.prim[r := p'], sec := s.sec[r := q']), false)
      else (s, false)
  }

  /** Lists with the same nodes overall are as well ordered as before. */
  lemma PermutedLists(p: seq<NodeIdent>, q: seq<NodeIdent>, p': seq<NodeIdent>, q': seq<NodeIdent>,
                      primSize: nat, secSize: nat)
    requires ListsOk(p, q, primSize, secSize) && |p'| == |p| && |q'| == |q| && multiset(p' + q') == multiset(p + q)
    ensures ListsOk(p', q', primSize, secSize)
    ensures forall x :: x in p' || x in q' <==> x in p || x in q
  {
    DistinctJoin(p, q);
    DistinctMultiset(p + q);
    DistinctMultiset(p' + q');
    DistinctJoin(p', q');
    forall x ensures x in p' || x in q' <==> x in p || x in q {
      assert x in p' + q' <==> x in multiset(p' + q');
      assert x in p + q <==> x in multiset(p + q);
    }
  }

  lemma DistinctJoin(p: seq<NodeIdent>, q: seq<NodeIdent>)
    ensures Distinct(p + q) <==> Distinct(p) && Distinct(q) && (forall x :: x in p ==> x !in q)
  {
    var s := p + q;
    if Distinct(s) {
      forall i, j | 0 <= i < j < |q| ensures q[i] != q[j] {
        assert s[|p| + i] == q[i] && s[|p| + j] == q[j];
      }
      forall i, j | 0 <= i < j < |p| ensures p[i] != p[j] {
        assert s[i] == p[i] && s[j] == p[j];
      }
      forall x | x in p ensures x !in q {
        var i :| 0 <= i < |p| && p[i] == x;
        assert forall j :: 0 <= j < |q| ==> s[|p| + j] == q[j] && s[i] != s[|p| + j];
      }
    }
    if Distinct(p) && Distinct(q) && (forall x :: x in p ==> x !in q) {
      forall i, j | 0 <= i < j < |s| ensures s[i] != s[j] {
        if i < |p| <= j { assert s[i] in p && s[j] in q; }
      }
    }
  }

  /** Counting along a list without repetition counts nodes. */
  lemma {:induction false} FreeCounts(p: seq<NodeIdent>, i: nat, rendv: map<NodeIdent, NodeIdent>)
    requires Distinct(p) && i <= |p|
    ensures FreeFrom(p, i, rendv) == |set n | n in p[i..] && n !in rendv|
    decreases |p| - i
  {
    if i == |p| {
      assert (set n | n in p[i..] && n !in rendv) == {};
    } else {
      FreeCounts(p, i + 1, rendv);
      assert p[i] !in p[i + 1..] && p[i..][1..] == p[i + 1..];
      OneMoreFree(p[i..], rendv);
    }
  }

  lemma OneMoreFree(p: seq<NodeIdent>, rendv: map<NodeIdent, NodeIdent>)
    requires p != [] && p[0] !in p[1..]
    ensures |set n | n in p && n !in rendv| ==
      (if p[0] in rendv then 0 else 1) + |set n | n in p[1..] && n !in rendv|
  {
    var rest := set n | n in p[1..] && n !in rendv;
    assert forall n :: n in p <==> n == p[0] || n in p[1..];
    assert (set n | n in p && n !in rendv) == if p[0] in rendv then rest else rest + {p[0]};
  }

  /** The members of ring r that need no rendezvous host. */
  function FreeMembers(s: RingState, r: nat): set<NodeIdent>
    requires s.Shape() && r < MAX_NUM_RINGS
  {
    set n | n in s.Members(r) && n !in s.rendv
  }

  lemma FreeMembersCounted(s: RingState, r: nat)
    requires s.Inv() && r < MAX_NUM_RINGS
    ensures Free(s.prim[r], s.rendv) + Free(s.sec[r], s.rendv) == |FreeMembers(s, r)|
  {
    assert s.RingOk(r);
    FreeInLists(s.prim[r], s.sec[r], s.rendv, FreeMembers(s, r));
  }

  lemma FreeInLists(p: seq<NodeIdent>, q: seq<NodeIdent>, rendv: map<NodeIdent, NodeIdent>, free: set<NodeIdent>)
    requires Distinct(p) && Distinct(q) && (forall x :: x in p ==> x !in q)
    requires forall n :: n in free <==> (n in p || n in q) && n !in rendv
    ensures Free(p, rendv) + Free(q, rendv) == |free|
  {
    FreeCounts(p, 0, rendv);
    FreeCounts(q, 0, rendv);
    assert p[0..] == p && q[0..] == q;
    var fp, fq := set n | n in p && n !in rendv, set n | n in q && n !in rendv;
    assert fp !! fq && free == fp + fq;
  }

  lemma AllFreeListed(p: seq<NodeIdent>, free: set<NodeIdent>)
    requires Distinct(p) && |p| == |free| && forall n :: n in p ==> n in free
    ensures Elements(p) == free
  {
    DistinctCardinality(p);
    SubsetFull(Elements(p), free);
  }

  /**
    A replacement is started exactly in an open ring with a full primary list and a secondary member, of whose members
    more than primarySize need no rendezvous host.
   */
  lemma EligibleExactly(s: RingState, r: nat)
    requires s.Inv() && r < MAX_NUM_RINGS
    ensures Eligible(s, r).1 <==>
      !s.frozen[r] && |s.prim[r]| == s.primSize && s.sec[r] != [] && |FreeMembers(s, r)| > s.primSize
  {
    FreeMembersCounted(s, r);
  }

  /**
    eligibleForReplacement never changes who is in the ring, and when the members that need no rendezvous host
    number exactly primarySize, a full unfrozen ring ends up with precisely them in its primary list.
   */
  lemma EligibleEffect(s: RingState, r: nat)
    requires s.Inv() && r < MAX_NUM_RINGS
    ensures var (t, start) := Eligible(s, r);
      && t.Inv() && t.lat == s.lat && t.rendv == s.rendv && t.frozen == s.frozen
      && (forall k :: 0 <= k < MAX_NUM_RINGS && k != r ==> t.prim[k] == s.prim[k] && t.sec[k] == s.sec[k])
      && multiset(t.prim[r] + t.sec[r]) == multiset(s.prim[r] + s.sec[r])
      && (start <==> !s.frozen[r] && |s.prim[r]| == s.primSize && s.sec[r] != [] && |FreeMembers(s, r)| > s.primSize)
      && (start || s.frozen[r] || s.sec[r] == [] || |FreeMembers(s, r)| < s.primSize ==> t == s)
      && (!s.frozen[r] && s.sec[r] != [] && |FreeMembers(s, r)| == s.primSize ==>
            Elements(t.prim[r]) == FreeMembers(s, r))
  {
    EligibleExactly(s, r);
    FreeMembersCounted(s, r);
    assert s.RingOk(r);
    var p, q := s.prim[r], s.sec[r];
    if !s.frozen[r] && q != [] && Free(p, s.rendv) + Free(q, s.rendv) == s.primSize {
      var (p', q') := Swap(p, q, 0, 0, s.rendv);
      SwapPermutes(p, q, 0, 0, s.rendv);
      SwapFrees(p, q, 0, 0, s.rendv);
      PermutedLists(p, q, p', q', s.primSize, s.secSize);
      WithRingKeepsInv(s, r, p', q', s.lat, s.rendv);
      AllFreeListed(p', FreeMembers(s, r));
    }
  }

  // ---------------------------------------------------------------- committing new lists

  function SetRingMembers(s: RingState, ring: int, p: seq<NodeIdent>, q: seq<NodeIdent>): (RingState, bool)
    requires s.Shape()
  {
    if ring < 0 || ring >= MAX_NUM_RINGS || |p| > s.primSize || |q| > s.secSize
       || |p| + |q| != |s.Members(ring)|
       || !(Elements(p) <= s.Members(ring)) || !(Elements(q) <= s.Members(ring))
    then (s, false)
    else (s.(prim := s.prim[ring := p], sec := s.sec[ring := q]), true)
  }

  /**
    An accepted commit keeps the invariant exactly if the new lists repeat no node and the primary one is full
    whenever the secondary one is not empty. setRingMembers itself checks neither.
   */
  lemma CommitKeepsInv(s: RingState, ring: int, p: seq<NodeIdent>, q: seq<NodeIdent>)
    requires s.Inv() && SetRingMembers(s, ring, p, q).1
    ensures SetRingMembers(s, ring, p, q).0.Inv() <==> Distinct(p + q) && (q != [] ==> |p| == s.primSize)
    ensures Distinct(p + q) ==> Elements(p) + Elements(q) == s.Members(ring)
  {
    var t := SetRingMembers(s, ring, p, q).0;
    DistinctJoin(p, q);
    assert s.RingOk(ring);
    if Distinct(p + q) {
      DistinctCardinality(p + q);
      assert Elements(p + q) == Elements(p) + Elements(q);
      SubsetFull(Elements(p) + Elements(q), s.Members(ring));
      assert forall x :: x in p || x in q <==> x in Elements(p) + Elements(q);
      assert forall x :: s.InRing(ring, x) <==> x in s.Members(ring);
      if q != [] ==> |p| == s.primSize {
        WithRingKeepsInv(s, ring, p, q, s.lat, s.rendv);
        assert t == WithRing(s, ring, p, q, s.lat, s.rendv);
      }
    }
    if t.Inv() {
      assert t.RingOk(ring);
    }
  }

  // ---------------------------------------------------------------- runs

  datatype RingOp =
    | Insert(node: NodeIdent, latencyUS: uint32, rend: NodeIdent)
    | InsertKeep(node: NodeIdent, latencyUS: uint32)
    | Erase(node: NodeIdent)
    | Freeze(ring: int)
    | Unfreeze(ring: int)
    | CheckEligible(slot: nat)
    | Commit(ring: int, p: seq<NodeIdent>, q: seq<NodeIdent>)

  function SetFrozen(s: RingState, ring: int, b: bool): RingState
    requires s.Shape()
  {
    if 0 <= ring < MAX_NUM_RINGS then s.(frozen := s.frozen[ring := b]) else s
  }

  function Apply(s: RingState, op: RingOp): RingState
    requires s.Shape()
  {
    match op
    case Insert(n, lat, rend) => RingModel.Insert(s, n, lat, rend)
    case InsertKeep(n, lat) => RingModel.Insert(s, n, lat, if n in s.rendv then s.rendv[n] else NOBODY)
    case Erase(n) => RingModel.Erase(s, n).0
    case Freeze(r) => SetFrozen(s, r, true)
    case Unfreeze(r) => SetFrozen(s, r, false)
    case CheckEligible(r) => if r < MAX_NUM_RINGS then Eligible(s, r).0 else s
    case Commit(r, p, q) => SetRingMembers(s, r, p, q).0
  }

  /** What the one caller of setRingMembers guarantees about the lists it commits. */
  predicate Proper(op: RingOp, primSize: nat) {
    op.Commit? ==> Distinct(op.p + op.q) && (op.q != [] ==> |op.p| == primSize)
  }

  lemma ApplyKeepsInv(s: RingState, op: RingOp)
    requires s.Inv() && Proper(op, s.primSize)
    ensures Apply(s, op).Inv()
  {
    match op
    case Insert(n, lat, rend) => InsertEffect(s, n, lat, rend);
    case InsertKeep(n, lat) => InsertEffect(s, n, lat, if n in s.rendv then s.rendv[n] else NOBODY);
    case Erase(n) => EraseEffect(s, n);
    case Freeze(r) => FrozenIrrelevant(s, r, true);
    case Unfreeze(r) => FrozenIrrelevant(s, r, false);
    case CheckEligible(r) => if r < MAX_NUM_RINGS { EligibleEffect(s, r); }
    case Commit(r, p, q) => if SetRingMembers(s, r, p, q).1 { CommitKeepsInv(s, r, p, q); }
  }

  lemma ApplyKeepsSizes(s: RingState, op: RingOp)
    requires s.Shape()
    ensures Apply(s, op).primSize == s.primSize && Apply(s, op).secSize == s.secSize && Apply(s, op).base == s.base
  {}

  lemma FrozenIrrelevant(s: RingState, r: int, b: bool)
    requires s.Inv()
    ensures SetFrozen(s, r, b).Inv()
  {
    var t := SetFrozen(s, r, b);
    assert forall k :: 0 <= k < MAX_NUM_RINGS ==> (s.RingOk(k) <==> t.RingOk(k));
  }

  function Run(s: RingState, ops: seq<RingOp>): (t: RingState)
    requires s.Inv() && forall op :: op in ops ==> Proper(op, s.primSize)
    ensures t.Inv() && t.primSize == s.primSize && t.secSize == s.secSize && t.base == s.base
    decreases |ops|
  {
    if ops == [] then s
    else
      ApplyKeepsInv(s, ops[0]);
      ApplyKeepsSizes(s, ops[0]);
      Run(Apply(s, ops[0]), ops[1..])
  }

  /** The operation neither thaws ring r nor commits new lists to it. */
  predicate LeavesFrozen(op: RingOp, r: nat) {
    (op.Unfreeze? || op.Commit?) ==> op.ring != r
  }

  /** While ring r is frozen, no other operation touches its lists or any of its members' latencies. */
  lemma FrozenStep(s: RingState, op: RingOp, r: nat)
    requires s.Inv() && Proper(op, s.primSize) && r < MAX_NUM_RINGS && s.frozen[r] && LeavesFrozen(op, r)
    ensures var t := Apply(s, op);
      && t.Inv() && t.frozen[r] && t.prim[r] == s.prim[r] && t.sec[r] == s.sec[r]
      && forall n :: s.InRing(r, n) ==> n in s.lat && n in t.lat && t.lat[n] == s.lat[n]
  {
    ApplyKeepsInv(s, op);
    var t := Apply(s, op);
    assert s.RingOk(r);
    match op
    case Insert(n, lat, rend) =>
      InsertEffect(s, n, lat, rend);
      FrozenInsert(s, n, lat, rend, r);
    case InsertKeep(n, lat) =>
      InsertEffect(s, n, lat, if n in s.rendv then s.rendv[n] else NOBODY);
      FrozenInsert(s, n, lat, if n in s.rendv then s.rendv[n] else NOBODY, r);
    case Erase(n) =>
      EraseEffect(s, n);
      if n in s.lat {
        OneListEach(s, n, r, r);
        EraseInEffect(s, n, s.RingOf(n));
      }
    case CheckEligible(k) => if k < MAX_NUM_RINGS { EligibleEffect(s, k); }
    case _ =>
  }

  lemma FrozenInsert(s: RingState, n: NodeIdent, latencyUS: uint32, rend: NodeIdent, r: nat)
    requires s.Inv() && r < MAX_NUM_RINGS && s.frozen[r]
    ensures forall x :: s.InRing(r, x) ==>
      x in RingModel.Insert(s, n, latencyUS, rend).lat && x in s.lat
        && RingModel.Insert(s, n, latencyUS, rend).lat[x] == s.lat[x]
  {
    InsertEffect(s, n, latencyUS, rend);
    var k := RingNumber(s.base, latencyUS);
    assert s.RingOk(r);
    if !Blocked(s, n, latencyUS) {
      OneListEach(s, n, r, r);
      if Evicted(s, k) != {} { OneListEach(s, s.sec[k][0], k, r); }
    }
  }

  /**
    Freezing protects: over any run of operations that neither thaws ring r nor commits to it,
    its two lists and the latency of every member stay exactly what they were.
   */
  lemma {:induction false} FrozenRingStandsStill(s: RingState, ops: seq<RingOp>, r: nat)
    requires s.Inv() && r < MAX_NUM_RINGS && s.frozen[r]
    requires forall op :: op in ops ==> Proper(op, s.primSize) && LeavesFrozen(op, r)
    ensures var t := Run(s, ops);
      && t.frozen[r] && t.prim[r] == s.prim[r] && t.sec[r] == s.sec[r]
      && forall n :: s.InRing(r, n) ==> n in s.lat && n in t.lat && t.lat[n] == s.lat[n]
    decreases |ops|
  {
    assert s.RingOk(r);
    if ops != [] {
      FrozenStep(s, ops[0], r);
      ApplyKeepsSizes(s, ops[0]);
      var s1 := Apply(s, ops[0]);
      FrozenRingStandsStill(s1, ops[1..], r);
      forall n | s.InRing(r, n) ensures n in s.lat && n in Run(s, ops).lat && Run(s, ops).lat[n] == s.lat[n] {
        assert s1.InRing(r, n);
      }
    }
  }
}
