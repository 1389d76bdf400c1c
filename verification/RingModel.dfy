/**
  The latency rings of one node as a value: what RingSet holds, what its operations do to it,
  the invariant every run of operations keeps, and what freezing a ring protects.
  Class RingSet (RingSet.dfy) is proved to compute exactly these functions in place.
*/
module RingModel {
  import opened Base

  const MAX_NUM_RINGS: nat := 10

  function Pow(b: nat, k: nat): (p: nat)
    requires b >= 1
    ensures p >= 1
  {
    if k == 0 then 1 else b * Pow(b, k - 1)
  }

  /** The least ring from k on whose bound reaches the latency, but at most the last ring; ring k's bound is given. */
  function RingFrom(base: nat, latencyUS: nat, k: nat, bound: nat): (r: nat)
    requires k < MAX_NUM_RINGS
    ensures r < MAX_NUM_RINGS
    decreases MAX_NUM_RINGS - k
  {
    if k == MAX_NUM_RINGS - 1 || latencyUS <= bound then k
    else RingFrom(base, latencyUS, k + 1, base * bound)
  }

  /** The ring a latency belongs to. */
  function RingNumber(base: nat, latencyUS: nat): (k: nat)
    requires base >= 2
    ensures k < MAX_NUM_RINGS
  {
    RingFrom(base, latencyUS, 0, 1000)
  }

  lemma {:induction false} RingFromBounds(base: nat, latencyUS: nat, k: nat)
    requires base >= 2 && k < MAX_NUM_RINGS
    ensures var r := RingFrom(base, latencyUS, k, 1000 * Pow(base, k));
      && k <= r
      && (r < MAX_NUM_RINGS - 1 ==> latencyUS <= 1000 * Pow(base, r))
      && (forall j :: k <= j < r ==> latencyUS > 1000 * Pow(base, j))
    decreases MAX_NUM_RINGS - k
  {
    if k < MAX_NUM_RINGS - 1 && latencyUS > 1000 * Pow(base, k) {
      assert base * (1000 * Pow(base, k)) == 1000 * Pow(base, k + 1);
      RingFromBounds(base, latencyUS, k + 1);
    }
  }

  /** Ring k holds the latencies in (1000 * base^(k-1), 1000 * base^k] microseconds; the outermost takes the rest. */
  lemma RingBounds(base: nat, latencyUS: nat)
    requires base >= 2
    ensures var k := RingNumber(base, latencyUS);
      && (k < MAX_NUM_RINGS - 1 ==> latencyUS <= 1000 * Pow(base, k))
      && (forall j :: 0 <= j < k ==> latencyUS > 1000 * Pow(base, j))
  {
    assert Pow(base, 0) == 1;
    RingFromBounds(base, latencyUS, 0);
  }

  lemma RingNumberMonotone(base: nat, a: nat, b: nat)
    requires base >= 2 && a <= b
    ensures RingNumber(base, a) <= RingNumber(base, b)
  {
    RingBounds(base, a);
    RingBounds(base, b);
  }

  // ---------------------------------------------------------------- state

  /** The two lists of one ring: bounded, free of repetition, disjoint; nobody waits in a secondary list needlessly. */
  ghost predicate ListsOk(p: seq<NodeIdent>, q: seq<NodeIdent>, primSize: nat, secSize: nat) {
    && |p| <= primSize && |q| <= secSize
    && (q != [] ==> |p| == primSize)
    && Distinct(p) && Distinct(q)
    && (forall n :: n in p ==> n !in q)
  }

  /** The lists p and q hold exactly the nodes whose latency belongs to ring r. */
  ghost predicate Filed(p: seq<NodeIdent>, q: seq<NodeIdent>, r: nat, base: nat, lat: map<NodeIdent, uint32>)
    requires base >= 2
  {
    forall n :: n in p || n in q <==> n in lat && RingNumber(base, lat[n]) == r
  }

  datatype RingState = RingState(
    prim: seq<seq<NodeIdent>>, sec: seq<seq<NodeIdent>>, frozen: seq<bool>,
    lat: map<NodeIdent, uint32>, rendv: map<NodeIdent, NodeIdent>,
    primSize: nat, secSize: nat, base: nat)
  {
    ghost predicate Shape() {
      && |prim| == |sec| == |frozen| == MAX_NUM_RINGS
      && primSize >= 1 && secSize >= 1 && base >= 2
    }

    ghost predicate SameConfig(s: RingState) {
      |prim| == |s.prim| && |sec| == |s.sec| && |frozen| == |s.frozen|
      && primSize == s.primSize && secSize == s.secSize && base == s.base
    }

    function RingOf(n: NodeIdent): (r: nat)
      requires base >= 2 && n in lat
      ensures r < MAX_NUM_RINGS
    {
      RingNumber(base, lat[n])
    }

    ghost predicate InRing(r: nat, n: NodeIdent)
      requires Shape() && r < MAX_NUM_RINGS
    {
      n in prim[r] || n in sec[r]
    }

    /** Everybody in ring r, primary and secondary. */
    function Members(r: nat): set<NodeIdent>
      requires r < |prim| && r < |sec|
    {
      Elements(prim[r]) + Elements(sec[r])
    }

    ghost predicate RingOk(r: nat)
      requires Shape() && r < MAX_NUM_RINGS
    {
      ListsOk(prim[r], sec[r], primSize, secSize) && Filed(prim[r], sec[r], r, base, lat)
    }

    /** The invariant of RingSet. */
    ghost predicate Inv() {
      Shape() && forall r :: 0 <= r < MAX_NUM_RINGS ==> RingOk(r)
    }
  }

  /** The state a new RingSet starts in. */
  function Empty(primSize: nat, secSize: nat, base: nat): (s: RingState)
    requires primSize >= 1 && secSize >= 1 && base >= 2
    ensures s.Inv()
  {
    RingState(seq(MAX_NUM_RINGS, _ => []), seq(MAX_NUM_RINGS, _ => []), seq(MAX_NUM_RINGS, _ => false),
              map[], map[], primSize, secSize, base)
  }

  /** Under the invariant a node sits in at most one of the twenty lists, and in one exactly if it has a latency. */
  lemma OneListEach(s: RingState, n: NodeIdent, r: nat, q: nat)
    requires s.Inv() && r < MAX_NUM_RINGS && q < MAX_NUM_RINGS
    ensures s.InRing(r, n) <==> n in s.lat && s.RingOf(n) == r
    ensures n in s.prim[r] ==> n !in s.sec[q]
    ensures n in s.prim[r] && n in s.prim[q] ==> r == q
    ensures n in s.sec[r] && n in s.sec[q] ==> r == q
  {
    assert s.RingOk(r);
    assert s.RingOk(q);
  }

  // ---------------------------------------------------------------- erase

  /** Ring r without n: a primary member is replaced by the oldest secondary one. */
  function ListsWithout(p: seq<NodeIdent>, q: seq<NodeIdent>, n: NodeIdent): (seq<NodeIdent>, seq<NodeIdent>) {
    if n in p then
      var p' := SwapRemove(p, IndexOf(p, n));
      if q == [] then (p', q) else (p' + [q[0]], q[1..])
    else if n in q then (p, RemoveAt(q, IndexOf(q, n)))
    else (p, q)
  }

  /** eraseNode with an explicit ring. The flag tells whether the call returned 0. */
  function EraseIn(s: RingState, n: NodeIdent, r: nat): (t: (RingState, bool))
    requires s.Shape() && r < MAX_NUM_RINGS
    ensures t.0.SameConfig(s)
  {
    if s.frozen[r] then (s, true)
    else if n !in s.prim[r] && n !in s.sec[r] then (s, false)
    else
      var (p, q) := ListsWithout(s.prim[r], s.sec[r], n);
      (s.(prim := s.prim[r := p], sec := s.sec[r := q], lat := s.lat - {n}, rendv := s.rendv - {n}), true)
  }

  function Erase(s: RingState, n: NodeIdent): (t: (RingState, bool))
    requires s.Shape()
    ensures t.0.SameConfig(s)
  {
    if n !in s.lat then (s, false) else EraseIn(s, n, s.RingOf(n))
  }

  /** What losing n does to one ring, list by list. */
  lemma ListsWithoutEffect(p: seq<NodeIdent>, q: seq<NodeIdent>, n: NodeIdent)
    requires Distinct(p) && Distinct(q) && (forall x :: x in p ==> x !in q)
    requires n in p || n in q
    ensures var (p', q') := ListsWithout(p, q, n);
      && Distinct(p') && Distinct(q') && (forall x :: x in p' ==> x !in q')
      && (forall x :: x in p' || x in q' <==> (x in p || x in q) && x != n)
      && |p'| + |q'| == |p| + |q| - 1
      && (q != [] ==> |p'| == |p| && |q'| == |q| - 1)
      && (q == [] ==> q' == [])
  {
    if n in p {
      SwapRemoveDistinct(p, IndexOf(p, n));
      if q != [] {
        var p' := SwapRemove(p, IndexOf(p, n));
        assert q[0] !in p';
        assert forall x :: x in p' + [q[0]] <==> x in p' || x == q[0];
        assert forall x :: x in q <==> x == q[0] || x in q[1..];
      }
    } else {
      RemoveAtDistinct(q, IndexOf(q, n));
    }
  }

  /** Outside ring r the two latency maps say the same. */
  ghost predicate SameElsewhere(r: nat, base: nat, lat: map<NodeIdent, uint32>, lat': map<NodeIdent, uint32>)
    requires base >= 2
  {
    && (forall n :: n in lat && RingNumber(base, lat[n]) != r ==> n in lat' && lat'[n] == lat[n])
    && (forall n :: n in lat' && RingNumber(base, lat'[n]) != r ==> n in lat && lat[n] == lat'[n])
  }

  lemma FiledElsewhere(p: seq<NodeIdent>, q: seq<NodeIdent>, k: nat, r: nat, base: nat,
                       lat: map<NodeIdent, uint32>, lat': map<NodeIdent, uint32>)
    requires base >= 2 && k != r && Filed(p, q, k, base, lat) && SameElsewhere(r, base, lat, lat')
    ensures Filed(p, q, k, base, lat')
  {}

  /** Ring r replaced by the lists p and q, with these latencies and rendezvous hosts. */
  function WithRing(s: RingState, r: nat, p: seq<NodeIdent>, q: seq<NodeIdent>,
                    lat: map<NodeIdent, uint32>, rendv: map<NodeIdent, NodeIdent>): RingState
    requires s.Shape() && r < MAX_NUM_RINGS
  {
    s.(prim := s.prim[r := p], sec := s.sec[r := q], lat := lat, rendv := rendv)
  }

  lemma WithRingKeepsInv(s: RingState, r: nat, p: seq<NodeIdent>, q: seq<NodeIdent>,
                         lat: map<NodeIdent, uint32>, rendv: map<NodeIdent, NodeIdent>)
    requires s.Inv() && r < MAX_NUM_RINGS
    requires ListsOk(p, q, s.primSize, s.secSize) && Filed(p, q, r, s.base, lat)
    requires SameElsewhere(r, s.base, s.lat, lat)
    ensures WithRing(s, r, p, q, lat, rendv).Inv()
  {
    var t := WithRing(s, r, p, q, lat, rendv);
    forall k | 0 <= k < MAX_NUM_RINGS ensures t.RingOk(k) {
      assert s.RingOk(k);
      if k != r { FiledElsewhere(s.prim[k], s.sec[k], k, r, s.base, s.lat, lat); }
    }
  }

  lemma ListsWithoutOk(p: seq<NodeIdent>, q: seq<NodeIdent>, n: NodeIdent, r: nat, base: nat,
                       lat: map<NodeIdent, uint32>, primSize: nat, secSize: nat)
    requires base >= 2 && ListsOk(p, q, primSize, secSize) && Filed(p, q, r, base, lat) && (n in p || n in q)
    ensures var (p', q') := ListsWithout(p, q, n);
      ListsOk(p', q', primSize, secSize) && Filed(p', q', r, base, lat - {n})
    ensures SameElsewhere(r, base, lat, lat - {n})
  {
    ListsWithoutEffect(p, q, n);
  }

  lemma EraseInEffect(s: RingState, n: NodeIdent, r: nat)
    requires s.Inv() && r < MAX_NUM_RINGS
    ensures EraseIn(s, n, r).0.Inv()
    ensures EraseIn(s, n, r).1 <==> s.frozen[r] || s.InRing(r, n)
    ensures !s.frozen[r] && s.InRing(r, n) ==>
      EraseIn(s, n, r).0 == WithRing(s, r, ListsWithout(s.prim[r], s.sec[r], n).0,
                                     ListsWithout(s.prim[r], s.sec[r], n).1, s.lat - {n}, s.rendv - {n})
  {
    assert s.RingOk(r);
    if !s.frozen[r] && s.InRing(r, n) {
      var (p, q) := ListsWithout(s.prim[r], s.sec[r], n);
      ListsWithoutOk(s.prim[r], s.sec[r], n, r, s.base, s.lat, s.primSize, s.secSize);
      WithRingKeepsInv(s, r, p, q, s.lat - {n}, s.rendv - {n});
    }
  }

  /** eraseNode: the node is gone unless its ring is frozen; nobody else is touched; the lookup never misses. */
  lemma EraseEffect(s: RingState, n: NodeIdent)
    requires s.Inv()
    ensures var (t, ok) := Erase(s, n);
      && t.Inv() && (ok <==> n in s.lat)
      && (n !in s.lat || s.frozen[s.RingOf(n)] ==> t == s)
      && (n in s.lat && !s.frozen[s.RingOf(n)] ==>
            && t.lat == s.lat - {n} && t.rendv == s.rendv - {n} && t.frozen == s.frozen
            && forall k :: 0 <= k < MAX_NUM_RINGS ==> t.Members(k) == s.Members(k) - {n})
  {
    if n in s.lat && !s.frozen[s.RingOf(n)] {
      var r := s.RingOf(n);
      assert s.RingOk(r);
      EraseInEffect(s, n, r);
      var t := Erase(s, n).0;
      forall k | 0 <= k < MAX_NUM_RINGS ensures t.Members(k) == s.Members(k) - {n} {
        MembersWithout(s, n, r, k);
      }
    }
  }

  lemma MembersWithout(s: RingState, n: NodeIdent, r: nat, k: nat)
    requires s.Inv() && r < MAX_NUM_RINGS && k < MAX_NUM_RINGS && s.InRing(r, n) && !s.frozen[r]
    ensures EraseIn(s, n, r).0.Shape() && EraseIn(s, n, r).0.Members(k) == s.Members(k) - {n}
  {
    assert s.RingOk(r);
    if k == r {
      ListsWithoutEffect(s.prim[r], s.sec[r], n);
    } else {
      assert s.RingOk(k);
    }
  }

  // ---------------------------------------------------------------- insert

  /** A rendezvous host with a zero address or a zero port is not recorded. */
  function WithRendv(s: RingState, n: NodeIdent, rend: NodeIdent): RingState {
    if rend.addr != 0 && rend.port != 0 then s.(rendv := s.rendv[n := rend]) else s
  }

  /** The insertion of n at this latency runs into a frozen ring: its new one or the one it would leave. */
  predicate Blocked(s: RingState, n: NodeIdent, latencyUS: uint32)
    requires s.Shape()
  {
    s.frozen[RingNumber(s.base, latencyUS)] || (n in s.lat && s.frozen[s.RingOf(n)])
  }

  /** Room for a newcomer in ring r: the primary list first, then the secondary, dropping its oldest when full. */
  function Push(s: RingState, n: NodeIdent, latencyUS: uint32, r: nat): (t: RingState)
    requires s.Shape() && r < MAX_NUM_RINGS
    ensures t.SameConfig(s)
  {
    var t :=
      if |s.prim[r]| < s.primSize then s.(prim := s.prim[r := s.prim[r] + [n]])
      else
        var u := if |s.sec[r]| >= s.secSize then EraseIn(s, s.sec[r][0], r).0 else s;
        u.(sec := u.sec[r := u.sec[r] + [n]]);
    t.(lat := t.lat[n := latencyUS])
  }

  function Insert(s: RingState, n: NodeIdent, latencyUS: uint32, rend: NodeIdent): (t: RingState)
    requires s.Shape()
    ensures t.SameConfig(s)
  {
    var t := WithRendv(s, n, rend);
    var r := RingNumber(s.base, latencyUS);
    if Blocked(s, n, latencyUS) then t
    else if n !in s.lat then Push(t, n, latencyUS, r)
    else if s.RingOf(n) == r then t.(lat := t.lat[n := latencyUS])
    else Push(EraseIn(t, n, s.RingOf(n)).0, n, latencyUS, r)
  }

  /** Who has to leave ring r for a newcomer: the oldest secondary member of a full ring. */
  function Evicted(s: RingState, r: nat): set<NodeIdent>
    requires s.Shape() && r < MAX_NUM_RINGS
  {
    if |s.prim[r]| >= s.primSize && |s.sec[r]| >= s.secSize then {s.sec[r][0]} else {}
  }

  /** One ring taking in a node that was in none. */
  lemma ListsWithOk(p: seq<NodeIdent>, q: seq<NodeIdent>, n: NodeIdent, primSize: nat, secSize: nat)
    requires ListsOk(p, q, primSize, secSize) && n !in p && n !in q
    ensures |p| < primSize ==> ListsOk(p + [n], q, primSize, secSize)
    ensures |p| >= primSize && |q| < secSize ==> ListsOk(p, q + [n], primSize, secSize)
  {}

  lemma FiledWith(p: seq<NodeIdent>, q: seq<NodeIdent>, n: NodeIdent, r: nat, base: nat,
                  lat: map<NodeIdent, uint32>, latencyUS: uint32)
    requires base >= 2 && Filed(p, q, r, base, lat)
    requires n !in lat && r == RingNumber(base, latencyUS)
    ensures Filed(p + [n], q, r, base, lat[n := latencyUS]) && Filed(p, q + [n], r, base, lat[n := latencyUS])
    ensures SameElsewhere(r, base, lat, lat[n := latencyUS])
  {
    assert forall x :: x in p + [n] <==> x in p || x == n;
    assert forall x :: x in q + [n] <==> x in q || x == n;
  }

  lemma PushWithRoom(s: RingState, n: NodeIdent, latencyUS: uint32, r: nat)
    requires s.Inv() && n !in s.lat && r == RingNumber(s.base, latencyUS)
    requires |s.prim[r]| < s.primSize || |s.sec[r]| < s.secSize
    ensures Push(s, n, latencyUS, r).Inv()
    ensures Push(s, n, latencyUS, r) ==
      if |s.prim[r]| < s.primSize then WithRing(s, r, s.prim[r] + [n], s.sec[r], s.lat[n := latencyUS], s.rendv)
      else WithRing(s, r, s.prim[r], s.sec[r] + [n], s.lat[n := latencyUS], s.rendv)
  {
    assert s.RingOk(r);
    var p, q, lat := s.prim[r], s.sec[r], s.lat[n := latencyUS];
    ListsWithOk(p, q, n, s.primSize, s.secSize);
    FiledWith(p, q, n, r, s.base, s.lat, latencyUS);
    if |p| < s.primSize {
      WithRingKeepsInv(s, r, p + [n], q, lat, s.rendv);
      assert s.sec == s.sec[r := q];
    } else {
      WithRingKeepsInv(s, r, p, q + [n], lat, s.rendv);
      assert s.prim == s.prim[r := p];
    }
  }

  /** A newcomer enters its ring; from a full ring the oldest secondary member leaves. */
  lemma PushEffect(s: RingState, n: NodeIdent, latencyUS: uint32, r: nat)
    requires s.Inv() && n !in s.lat && r == RingNumber(s.base, latencyUS) && !s.frozen[r]
    ensures var t := Push(s, n, latencyUS, r);
      && t.Inv() && t.lat == (s.lat - Evicted(s, r))[n := latencyUS]
      && t.rendv == s.rendv - Evicted(s, r) && t.frozen == s.frozen
      && (forall k :: 0 <= k < MAX_NUM_RINGS && k != r ==> t.prim[k] == s.prim[k] && t.sec[k] == s.sec[k])
  {
    assert s.RingOk(r);
    if Evicted(s, r) == {} {
      PushWithRoom(s, n, latencyUS, r);
    } else {
      var out := s.sec[r][0];
      EraseInEffect(s, out, r);
      OldestLeaves(s.prim[r], s.sec[r]);
      PushWithRoom(EraseIn(s, out, r).0, n, latencyUS, r);
    }
  }

  lemma OldestLeaves(p: seq<NodeIdent>, q: seq<NodeIdent>)
    requires q != [] && q[0] !in p
    ensures ListsWithout(p, q, q[0]) == (p, q[1..])
  {
    assert IndexOf(q, q[0]) == 0;
    assert RemoveAt(q, 0) == q[1..];
  }

  lemma RendvIrrelevant(s: RingState, rendv: map<NodeIdent, NodeIdent>)
    ensures s.Inv() <==> s.(rendv := rendv).Inv()
  {
    var t := s.(rendv := rendv);
    assert s.Shape() ==> forall r :: 0 <= r < MAX_NUM_RINGS ==> (s.RingOk(r) <==> t.RingOk(r));
  }

  /**
    insertNode: unless a frozen ring blocks it, the node ends up with the new latency in the ring of that latency,
    and at most one other node leaves: the oldest secondary member of a full ring that the node was not in yet.
   */
  lemma InsertEffect(s: RingState, n: NodeIdent, latencyUS: uint32, rend: NodeIdent)
    requires s.Inv()
    ensures var t := Insert(s, n, latencyUS, rend);
      var r := RingNumber(s.base, latencyUS);
      && t.Inv() && t.frozen == s.frozen
      && (Blocked(s, n, latencyUS) ==> t == WithRendv(s, n, rend))
      && (!Blocked(s, n, latencyUS) ==>
            t.lat == (if s.InRing(r, n) then s.lat else s.lat - Evicted(s, r))[n := latencyUS])
      && forall k :: 0 <= k < MAX_NUM_RINGS && s.frozen[k] ==> t.prim[k] == s.prim[k] && t.sec[k] == s.sec[k]
  {
    var t, r := WithRendv(s, n, rend), RingNumber(s.base, latencyUS);
    RendvIrrelevant(s, t.rendv);
    OneListEach(s, n, r, r);
    if Blocked(s, n, latencyUS) {
    } else if n !in s.lat {
      PushEffect(t, n, latencyUS, r);
    } else if s.RingOf(n) == r {
      SameRingUpdate(t, n, latencyUS);
    } else {
      MoveRings(t, n, latencyUS);
    }
  }

  lemma SameRingUpdate(s: RingState, n: NodeIdent, latencyUS: uint32)
    requires s.Inv() && n in s.lat && s.RingOf(n) == RingNumber(s.base, latencyUS)
    ensures s.(lat := s.lat[n := latencyUS]).Inv()
  {
    var r := s.RingOf(n);
    assert s.RingOk(r);
    WithRingKeepsInv(s, r, s.prim[r], s.sec[r], s.lat[n := latencyUS], s.rendv);
    assert s.prim[r := s.prim[r]] == s.prim && s.sec[r := s.sec[r]] == s.sec;
  }

  lemma MoveRings(s: RingState, n: NodeIdent, latencyUS: uint32)
    requires s.Inv() && n in s.lat && s.RingOf(n) != RingNumber(s.base, latencyUS) && !Blocked(s, n, latencyUS)
    ensures var t := Push(EraseIn(s, n, s.RingOf(n)).0, n, latencyUS, RingNumber(s.base, latencyUS));
      && t.Inv() && t.frozen == s.frozen
      && t.lat == (s.lat - Evicted(s, RingNumber(s.base, latencyUS)))[n := latencyUS]
      && t.rendv == s.rendv - {n} - Evicted(s, RingNumber(s.base, latencyUS))
      && forall k :: 0 <= k < MAX_NUM_RINGS && s.frozen[k] ==> t.prim[k] == s.prim[k] && t.sec[k] == s.sec[k]
  {
    var prev, r := s.RingOf(n), RingNumber(s.base, latencyUS);
    OneListEach(s, n, prev, r);
    EraseInEffect(s, n, prev);
    PushEffect(EraseIn(s, n, prev).0, n, latencyUS, r);
    if Evicted(s, r) != {} { assert s.InRing(r, s.sec[r][0]); }
  }

  /**
    The rendezvous host given to insertNode is on record afterwards exactly if the node did not change rings:
    the move erases the entry that was stored at the start of the same call.
   */
  lemma InsertKeepsRendezvous(s: RingState, n: NodeIdent, latencyUS: uint32, rend: NodeIdent)
    requires s.Inv() && rend.addr != 0 && rend.port != 0
    ensures var t := Insert(s, n, latencyUS, rend);
      (n in t.rendv && t.rendv[n] == rend) <==>
      (Blocked(s, n, latencyUS) || n !in s.lat || s.RingOf(n) == RingNumber(s.base, latencyUS))
  {
    var t, r := WithRendv(s, n, rend), RingNumber(s.base, latencyUS);
    RendvIrrelevant(s, t.rendv);
    OneListEach(s, n, r, r);
    if Blocked(s, n, latencyUS) {
    } else if n !in s.lat {
      PushEffect(t, n, latencyUS, r);
    } else if s.RingOf(n) != r {
      MoveRings(t, n, latencyUS);
    }
  }
}
