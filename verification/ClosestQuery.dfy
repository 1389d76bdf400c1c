/**
  HandleClosestGeneric with its fields, loops and packet queue. Every handler is proved to take the state to what
  ClosestModel says and to queue exactly those packets.
 */
module ClosestQuery {
  import opened Base
  import opened Averages
  import opened RingModel
  import opened RingSets
  import opened RingQuery
  import opened ClosestModel

  // ---------------------------------------------------------------- maximum, minimum and average

  ghost predicate IsHighest(m: Latencies, x: uint32) {
    (exists k :: k in m && m[k] == x) && forall k :: k in m ==> m[k] <= x
  }

  ghost predicate IsLowest(m: Latencies, x: uint32) {
    (exists k :: k in m && m[k] == x) && forall k :: k in m ==> x <= m[k]
  }

  /** The extremes of what has been seen of m so far; 0 and UINT_MAX before the first entry. */
  ghost predicate Extremes(m: Latencies, seen: seq<NodeIdent>, high: uint32, low: uint32) {
    && (forall k :: k in seen ==> k in m && low <= m[k] <= high)
    && (seen == [] ==> high == 0 && low == 0xFFFF_FFFF)
    && (seen != [] ==> (exists k :: k in seen && m[k] == high) && exists k :: k in seen && m[k] == low)
  }

  lemma ExtremesStep(m: Latencies, seen: seq<NodeIdent>, high: uint32, low: uint32, k: NodeIdent)
    requires Extremes(m, seen, high, low) && k in m
    ensures Extremes(m, seen + [k], if m[k] > high then m[k] else high, if m[k] < low then m[k] else low)
  {
    var next := seen + [k];
    assert forall x :: x in next <==> x in seen || x == k;
  }

  /** getMaxAndMinAndAverage: -1 on an empty map. */
  method GetMaxAndMinAndAverage(inMap: Latencies)
    returns (ret: int, maxValue: uint32, minValue: uint32, avgValue: uint32)
    ensures ret == if inMap == map[] then -1 else 0
    ensures inMap != map[] ==> IsHighest(inMap, maxValue) && IsLowest(inMap, minValue) && avgValue == Average(inMap)
  {
    var keys := Iterate(inMap.Keys);
    assert |keys| == |inMap|;
    if |inMap| == 0 {
      return -1, 0, 0, 0;
    } else if |inMap| == 1 {
      OnlyEntry(inMap, keys[0]);
      return 0, inMap[keys[0]], inMap[keys[0]], inMap[keys[0]];
    }
    var totalValue;
    totalValue, maxValue, minValue := Accumulate(inMap, keys);
    avgValue := RoundedMean(totalValue, SumAlong(inMap, keys), |inMap|);
    AllSeen(inMap, keys, maxValue, minValue);
    ret := 0;
  }

  method RoundedMean(total: real, ghost sum: nat, n: nat) returns (avg: uint32)
    requires n > 0 && total == sum as real
    ensures avg == ClampedMean(sum, n)
  {
    avg := ToUInt(Round(total / n as real));
  }

  lemma AllSeen(m: Latencies, keys: seq<NodeIdent>, high: uint32, low: uint32)
    requires Extremes(m, keys, high, low) && keys != [] && forall k :: k in m ==> k in keys
    ensures IsHighest(m, high) && IsLowest(m, low)
  {}

  method Accumulate(inMap: Latencies, keys: seq<NodeIdent>) returns (total: real, high: uint32, low: uint32)
    requires forall k :: k in keys ==> k in inMap
    ensures total == SumAlong(inMap, keys) as real
    ensures Extremes(inMap, keys, high, low)
  {
    total, high, low := 0.0, 0, 0xFFFF_FFFF;
    var i := 0;
    while i < |keys|
      invariant i <= |keys|
      invariant total == SumAlong(inMap, keys[..i]) as real
      invariant Extremes(inMap, keys[..i], high, low)
    {
      var value := inMap[keys[i]];
      ExtremesStep(inMap, keys[..i], high, low, keys[i]);
      assert keys[..i + 1] == keys[..i] + [keys[i]];
      total := total + value as real;
      high := if value > high then value else high;
      low := if value < low then value else low;
      i := i + 1;
    }
    assert keys[..i] == keys;
  }

  lemma OnlyEntry(m: Latencies, k: NodeIdent)
    requires |m| == 1 && k in m
    ensures IsHighest(m, m[k]) && IsLowest(m, m[k])
  {
    forall x | x in m ensures x == k {
      if x != k { SubsetSize({k, x}, m.Keys); }
    }
  }

  // ---------------------------------------------------------------- the handler

  /** Round trips far enough from 2^32 that a ring search around them cannot overflow. */
  predicate Measurable(l: uint32) {
    2 * l <= UINT_MAX
  }

  ghost function Highest(m: Latencies): (x: uint32)
    requires m != map[]
    ensures IsHighest(m, x)
  {
    HighestExists(m);
    var x: uint32 :| IsHighest(m, x);
    x
  }

  lemma {:induction false} HighestExists(m: Latencies)
    requires m != map[]
    ensures exists x: uint32 :: IsHighest(m, x)
  {
    var k :| k in m;
    var rest := m - {k};
    if |m| == 1 {
      OnlyEntry(m, k);
    } else {
      assert rest.Keys == m.Keys - {k} && |rest.Keys| == |m.Keys| - 1;
      HighestExists(rest);
      var x: uint32 :| IsHighest(rest, x);
      var top := if m[k] > x then m[k] else x;
      forall j | j in m ensures m[j] <= top { if j != k { assert j in rest && rest[j] <= x; } }
      if top == x { var j :| j in rest && rest[j] == x; assert j in m && m[j] == top; }
      assert IsHighest(m, top);
    }
  }

  ghost function Lowest(m: Latencies): (x: uint32)
    requires m != map[]
    ensures IsLowest(m, x)
  {
    LowestExists(m);
    var x: uint32 :| IsLowest(m, x);
    x
  }

  lemma {:induction false} LowestExists(m: Latencies)
    requires m != map[]
    ensures exists x: uint32 :: IsLowest(m, x)
  {
    var k :| k in m;
    var rest := m - {k};
    if |m| == 1 {
      OnlyEntry(m, k);
    } else {
      assert rest.Keys == m.Keys - {k} && |rest.Keys| == |m.Keys| - 1;
      LowestExists(rest);
      var x: uint32 :| IsLowest(rest, x);
      var bottom := if m[k] < x then m[k] else x;
      forall j | j in m ensures bottom <= m[j] { if j != k { assert j in rest && x <= rest[j]; } }
      if bottom == x { var j :| j in rest && rest[j] == x; assert j in m && m[j] == bottom; }
      assert IsLowest(m, bottom);
    }
  }

  /** The ring members worth asking: those about as far away as some target is, give or take the ratio. */
  ghost function Candidates(rings: RingState, num: uint16, den: uint16, lat: Latencies): map<NodeIdent, NodeIdent>
    requires rings.Shape() && den > 0
  {
    if lat == map[] then map[] else Window(rings, Lowest(lat), Highest(lat), num as real / den as real)
  }

  /**
    A primary ring member is asked exactly when its latency is less than a microsecond below (1 - beta) times that of
    some target or above it, and less than a microsecond above (1 + beta) times that of some target or below it.
   */
  lemma CandidatesAreNear(rings: RingState, num: uint16, den: uint16, lat: Latencies, n: NodeIdent)
    requires rings.Inv() && den > 0 && lat != map[]
    ensures var found, b := Candidates(rings, num, den, lat), Beta(num, den);
      && (n in found <==>
            && (exists r :: 0 <= r < MAX_NUM_RINGS && n in rings.prim[r]) && n in rings.lat
            && (exists t :: t in lat && Scaled(1.0 - b, lat[t]) - 1.0 < rings.lat[n] as real)
            && (exists t :: t in lat && (rings.lat[n] as real) < Scaled(1.0 + b, lat[t]) + 1.0))
      && (n in found ==> found[n] == if n in rings.rendv then rings.rendv[n] else NOBODY)
  {
    var b, low, high := Beta(num, den), Lowest(lat), Highest(lat);
    var k :| k in lat && lat[k] == low;
    var l :| l in lat && lat[l] == high;
    WindowExactly(rings, low, high, num as real / den as real, n);
    forall t | t in lat
      ensures Scaled(1.0 - b, low) <= Scaled(1.0 - b, lat[t]) && Scaled(1.0 + b, lat[t]) <= Scaled(1.0 + b, high)
    {
      ScaledMonotone(1.0 - b, low, lat[t]);
      ScaledMonotone(1.0 + b, lat[t], high);
    }
  }

  lemma WindowFits(maxUS: uint32, beta: real)
    requires Measurable(maxUS)
    ensures UpperBound(maxUS, beta) <= UINT_MAX
  {
    var b := EffectiveBeta(beta);
    assert (1.0 + b) * maxUS as real <= 2.0 * maxUS as real;
  }

  // ---------------------------------------------------------------- the queries a search starts

  /** A direct measurement of a target, or a request to a ring member to measure all targets. */
  datatype Asked = Probe(target: NodeIdent) | ReqProbe(member: NodeIdentRendv, targets: set<NodeIdent>)

  function ProbesAlong(order: seq<NodeIdent>, cache: Latencies): seq<Asked> {
    if order == [] then []
    else
      var n := |order| - 1;
      ProbesAlong(order[..n], cache) + if order[n] in cache then [] else [Probe(order[n])]
  }

  ghost function ProbesFor(targets: set<NodeIdent>, cache: Latencies): seq<Asked> {
    ProbesAlong(Ascending(targets), cache)
  }

  /** Exactly the targets the cache does not know are measured, each of them once. */
  lemma EachUnknownProbedOnce(targets: set<NodeIdent>, cache: Latencies)
    ensures Distinct(ProbesFor(targets, cache))
    ensures forall a :: a in ProbesFor(targets, cache) <==> a.Probe? && a.target in targets && a.target !in cache
  {
    ProbesDistinct(Ascending(targets), cache);
  }

  lemma {:induction false} ProbesDistinct(order: seq<NodeIdent>, cache: Latencies)
    requires Distinct(order)
    ensures Distinct(ProbesAlong(order, cache))
    ensures forall a :: a in ProbesAlong(order, cache) <==> a.Probe? && a.target in order && a.target !in cache
  {
    if order != [] {
      var n := |order| - 1;
      ProbesDistinct(order[..n], cache);
      assert order == order[..n] + [order[n]];
    }
  }

  function RequestsAlong(order: seq<NodeIdent>, members: map<NodeIdent, NodeIdent>, targets: set<NodeIdent>): seq<Asked>
    requires forall k :: k in order ==> k in members
  {
    seq(|order|, i requires 0 <= i < |order| => ReqProbe(NodeIdentRendv(order[i], members[order[i]]), targets))
  }

  /** Each ring member is asked about all targets, by way of its rendezvous host, and asked once. */
  lemma EachMemberAskedOnce(members: map<NodeIdent, NodeIdent>, targets: set<NodeIdent>)
    ensures var asked := RequestsAlong(Ascending(members.Keys), members, targets);
      && Distinct(asked)
      && forall k, r, ts :: ReqProbe(NodeIdentRendv(k, r), ts) in asked <==>
           k in members && members[k] == r && ts == targets
  {
    var order := Ascending(members.Keys);
    var asked := RequestsAlong(order, members, targets);
    AscendingDistinct(members.Keys);
    forall k | k in members ensures ReqProbe(NodeIdentRendv(k, members[k]), targets) in asked {
      var i :| 0 <= i < |order| && order[i] == k;
      assert asked[i] == ReqProbe(NodeIdentRendv(k, members[k]), targets);
    }
  }

  /** What a step from phase p to t asks: every ring member once when the search moves on to them, otherwise nothing. */
  ghost function Requests(p: Phase, t: Search): seq<Asked> {
    if p == WaitForDirectPing && t.phase == IndirectPing && t.avg != 0
    then RequestsAlong(Ascending(t.ringMembers.Keys), t.ringMembers, t.targets) else []
  }

  method AskEach(members: map<NodeIdent, NodeIdent>, targets: set<NodeIdent>) returns (asked: seq<Asked>)
    ensures asked == RequestsAlong(Ascending(members.Keys), members, targets)
  {
    asked := [];
    var order := Iterate(members.Keys);
    var i := 0;
    while i < |order|
      invariant i <= |order|
      invariant asked == RequestsAlong(order, members, targets)[..i]
    {
      asked := asked + [ReqProbe(NodeIdentRendv(order[i], members[order[i]]), targets)];
      i := i + 1;
    }
  }

  class HandleClosest {
    const betaNumer: uint16
    const betaDenom: uint16
    const srcNode: NodeIdentRendv
    const myRendv: NodeIdent
    const remoteNodes: set<NodeIdent>
    var stateMachine: Phase
    var finished: bool
    var remoteLatencies: Latencies
    var averageLatUS: uint32
    var ringMembers: map<NodeIdent, NodeIdent>
    var ringLatencies: Rows
    var selectedMember: NodeIdent
    var outPackets: seq<Out>
    var queries: seq<Asked>

    ghost function State(): Search
      reads this
    {
      Search(betaNumer, betaDenom, srcNode, myRendv, remoteNodes, stateMachine, finished,
             remoteLatencies, averageLatUS, ringMembers, ringLatencies, selectedMember)
    }

    ghost predicate Valid()
      reads this
    {
      betaDenom > 0 && forall t :: t in remoteLatencies ==> Measurable(remoteLatencies[t])
    }

    constructor (num: uint16, den: uint16, src: NodeIdentRendv, rendv: NodeIdent, remote: seq<NodeIdent>)
      requires den > 0
      ensures Valid() && State() == NewSearch(num, den, src, rendv, Elements(remote)) && outPackets == []
        && queries == []
    {
      betaNumer, betaDenom, srcNode, myRendv := num, den, src, rendv;
      var nodes: set<NodeIdent> := {};
      for i := 0 to |remote|
        invariant nodes == Elements(remote[..i])
      {
        nodes := nodes + {remote[i]};
        assert remote[..i + 1] == remote[..i] + [remote[i]];
      }
      assert remote[..|remote|] == remote;
      remoteNodes := nodes;
      stateMachine, finished, selectedMember := Phase.Init, false, NOBODY;
      remoteLatencies, averageLatUS, ringMembers, ringLatencies := map[], 0, map[], map[];
      outPackets, queries := [], [];
    }

    /** Queues a packet unless it does not fit. */
    method AddOutPacket(dest: NodeIdentRendv, p: Packet) returns (ret: int)
      modifies this`outPackets
      ensures ret == if Sendable(p) then 0 else -1
      ensures outPackets == old(outPackets) + Send(dest, p)
    {
      if Sendable(p) {
        outPackets := outPackets + [Out(dest, p)];
        ret := 0;
      } else {
        ret := -1;
      }
    }

    /** The responder with the least average, the first such; NOBODY and UINT_MAX when there is none. */
    method ClosestResponder() returns (closestMember: NodeIdent, lowestLatUS: uint32)
      ensures (closestMember, lowestLatUS) == Closest(ringLatencies)
    {
      var keys := Iterate(ringLatencies.Keys);
      closestMember, lowestLatUS := LeastOf(ringLatencies, keys);
      LeastIsClosest(ringLatencies, keys, closestMember, lowestLatUS);
    }

    /** handleForward. */
    method HandleForward()
      requires Valid()
      modifies this
      ensures Valid()
      ensures State() == Forward(old(State())).0
      ensures outPackets == old(outPackets) + Forward(old(State())).1 && queries == old(queries)
    {
      var closestMember, lowestLatUS := ClosestResponder();
      var latencyThreshold := LatencyThreshold(betaNumer, betaDenom, averageLatUS);
      if lowestLatUS == 0 || lowestLatUS > latencyThreshold {
        var answer := if lowestLatUS < averageLatUS then RetResponse(closestMember, ringLatencies[closestMember])
                      else RetResponse(NOBODY, remoteLatencies);
        var _ := AddOutPacket(srcNode, answer);
        finished := true;
      } else {
        var dest := NodeIdentRendv(closestMember,
                                   if closestMember in ringMembers then ringMembers[closestMember] else NOBODY);
        var ret := AddOutPacket(dest, ReqClosest(betaNumer, betaDenom, myRendv, remoteNodes));
        if ret == -1 {
          finished := true;
        } else {
          selectedMember := closestMember;
          stateMachine := WaitForFin;
        }
      }
    }

    /** The end of sendReqProbes: with nobody to ask this node is the answer. */
    method AskOrAnswer(found: map<NodeIdent, NodeIdent>)
      requires stateMachine == IndirectPing
      modifies this`ringMembers, this`finished, this`outPackets, this`queries
      ensures State() == ClosestModel.AskOrAnswer(old(State()), found).0
      ensures outPackets == old(outPackets) + ClosestModel.AskOrAnswer(old(State()), found).1
      ensures queries == old(queries) + Requests(WaitForDirectPing, State())
    {
      if averageLatUS != 0 {
        ringMembers := found;
      }
      if averageLatUS == 0 || |ringMembers| == 0 {
        var _ := AddOutPacket(srcNode, RetResponse(NOBODY, remoteLatencies));
        finished := true;
        return;
      }
      var asked := AskEach(ringMembers, remoteNodes);
      queries := queries + asked;
    }

    /** sendReqProbes: the ring members to ask come from the rings. */
    method SendReqProbes(rings: RingSet) returns (ret: int)
      requires Valid() && rings.Valid() && rings.State().Inv()
      modifies this
      ensures Valid()
      ensures remoteLatencies == old(remoteLatencies)
      ensures var found := Candidates(rings.State(), betaNumer, betaDenom, remoteLatencies);
        && State() == SendProbes(old(State()), found).0
        && outPackets == old(outPackets) + SendProbes(old(State()), found).1
      ensures queries == old(queries) + Requests(old(stateMachine), State())
    {
      if stateMachine != WaitForDirectPing || |remoteLatencies| != |remoteNodes| {
        return -1;
      }
      var code, largestLatUS, smallestLatUS, average := GetMaxAndMinAndAverage(remoteLatencies);
      if code == -1 {
        finished := true;
        return -1;
      }
      averageLatUS := average;
      stateMachine := IndirectPing;
      var found := FindCandidates(rings, betaNumer, betaDenom, remoteLatencies, smallestLatUS, largestLatUS);
      AskOrAnswer(found);
      ret := 0;
    }

    /** A direct measurement: exactly one entry, for a target not measured yet. */
    method HandleDirect(v: seq<NodeIdentLat>, rings: RingSet) returns (ret: int)
      requires Valid() && rings.Valid() && rings.State().Inv() && stateMachine == WaitForDirectPing
      requires forall i :: 0 <= i < |v| ==> Measurable(v[i].latencyUS)
      modifies this
      ensures Valid()
      ensures var found := Candidates(rings.State(), betaNumer, betaDenom, remoteLatencies);
        && State() == DirectLatency(old(State()), v, found).0
        && outPackets == old(outPackets) + DirectLatency(old(State()), v, found).1
      ensures queries == old(queries) + Requests(old(stateMachine), State())
    {
      if |remoteLatencies| == |remoteNodes| {
        ret := SendReqProbes(rings);
        return;
      }
      if |v| != 1 || v[0].node !in remoteNodes || v[0].node in remoteLatencies {
        return -1;
      }
      remoteLatencies := remoteLatencies[v[0].node := v[0].latencyUS];
      if |remoteLatencies| != |remoteNodes| {
        return 0;
      }
      ret := SendReqProbes(rings);
    }

    /** A ring member's report: its own entry first, then one entry for each target. */
    method HandleIndirect(v: seq<NodeIdentLat>) returns (ret: int)
      requires Valid() && stateMachine == IndirectPing
      modifies this
      ensures Valid()
      ensures State() == IndirectLatency(old(State()), v).0
      ensures outPackets == old(outPackets) + IndirectLatency(old(State()), v).1 && queries == old(queries)
    {
      if |v| < 1 || v[0].node !in ringMembers || v[0].node in ringLatencies {
        return -1;
      }
      var row := BuildRow(v, remoteNodes);
      if row.None? || |remoteNodes| != |row.value| {
        return -1;
      }
      ringLatencies := ringLatencies[v[0].node := row.value];
      if |ringMembers| != |ringLatencies| {
        return 0;
      }
      HandleForward();
      ret := 0;
    }

    /** handleLatency. */
    method HandleLatency(v: seq<NodeIdentLat>, rings: RingSet) returns (ret: int)
      requires Valid() && rings.Valid() && rings.State().Inv()
      requires forall i :: 0 <= i < |v| ==> Measurable(v[i].latencyUS)
      modifies this
      ensures Valid()
      ensures var found := Candidates(rings.State(), betaNumer, betaDenom, remoteLatencies);
        && State() == Latency(old(State()), v, found).0
        && outPackets == old(outPackets) + Latency(old(State()), v, found).1
      ensures queries == old(queries) + Requests(old(stateMachine), State())
    {
      ret := 0;
      match stateMachine {
        case Init =>
        case WaitForDirectPing => ret := HandleDirect(v, rings);
        case IndirectPing => ret := HandleIndirect(v);
        case WaitForFin =>
      }
    }

    /** The part of init before the first decision. */
    method Measure(cache: Latencies)
      requires remoteLatencies == map[]
      modifies this`remoteLatencies, this`queries, this`outPackets, this`stateMachine
      ensures State() == old(State()).(remoteLat := map t | t in remoteNodes && t in cache :: cache[t],
                                       phase := WaitForDirectPing)
      ensures queries == old(queries) + ProbesFor(remoteNodes, cache)
      ensures outPackets == old(outPackets) + [Out(srcNode, RetInfo(NOBODY))]
    {
      var probes;
      remoteLatencies, probes := Known(cache, remoteNodes);
      queries := queries + probes;
      var info := RetInfo(NOBODY);
      var _ := AddOutPacket(srcNode, info);
      stateMachine := WaitForDirectPing;
    }

    /** init: ask the cache about every target, inform the source, and go on at once when nothing is missing. */
    method Start(cache: Latencies, rings: RingSet)
      requires Valid() && rings.Valid() && rings.State().Inv() && stateMachine == Phase.Init && remoteLatencies == map[]
      requires forall t :: t in cache ==> Measurable(cache[t])
      modifies this
      ensures Valid()
      ensures var found := Candidates(rings.State(), betaNumer, betaDenom, remoteLatencies);
        && State() == ClosestModel.Start(old(State()), cache, found).0
        && outPackets == old(outPackets) + ClosestModel.Start(old(State()), cache, found).1
      ensures queries == old(queries) + ProbesFor(remoteNodes, cache) + Requests(WaitForDirectPing, State())
    {
      Measure(cache);
      if |remoteLatencies| == |remoteNodes| {
        var _ := HandleLatency([], rings);
      }
    }

    /** What the selected member sends, passed on. */
    method RelayPacket(from: NodeIdent, p: Incoming) returns (ret: int)
      modifies this`finished, this`outPackets
      ensures State() == Relay(old(State()), from, p).0
      ensures outPackets == old(outPackets) + Relay(old(State()), from, p).1
      ensures ret == if (p.Response? && p.body.None?) || p == Error(false) || p == Info(None) then -1 else 0
    {
      ret := 0;
      match p {
        case Response(None) => ret := -1;
        case Response(Some((node, latencies))) =>
          var _ := AddOutPacket(srcNode, RetResponse(Resolve(node, from), latencies));
          finished := true;
        case Error(ok) =>
          if ok {
            var _ := AddOutPacket(srcNode, RetError);
            finished := true;
          } else {
            ret := -1;
          }
        case Info(None) => ret := -1;
        case Info(Some(node)) =>
          var _ := AddOutPacket(srcNode, RetInfo(Resolve(node, from)));
        case Request =>
        case Other =>
      }
    }

    /** handleEvent. */
    method HandleEvent(from: NodeIdent, p: Incoming) returns (ret: int)
      requires Valid()
      modifies this
      ensures Valid()
      ensures State() == Event(old(State()), from, p).0
      ensures outPackets == old(outPackets) + Event(old(State()), from, p).1 && queries == old(queries)
    {
      ret := 0;
      if stateMachine == WaitForFin {
        if p.Request? {
          var _ := AddOutPacket(NodeIdentRendv(from, NOBODY), RetResponse(NOBODY, remoteLatencies));
        } else if from == selectedMember {
          ret := RelayPacket(from, p);
        }
      }
    }

    /** handleTimeout. */
    method HandleTimeout()
      requires Valid()
      modifies this
      ensures Valid()
      ensures State() == Expire(old(State())).0
      ensures outPackets == old(outPackets) + Expire(old(State())).1 && queries == old(queries)
    {
      match stateMachine {
        case Init => finished := true;
        case WaitForDirectPing =>
          var _ := AddOutPacket(srcNode, RetError);
          finished := true;
        case IndirectPing => HandleForward();
        case WaitForFin =>
          var _ := AddOutPacket(srcNode, RetError);
          finished := true;
      }
    }
  }

  /** The entries after the first as a map; None as soon as one is about no target. */
  method BuildRow(v: seq<NodeIdentLat>, targets: set<NodeIdent>) returns (row: Option<Latencies>)
    requires v != []
    ensures row == RowOf(v, targets)
  {
    var entries: Latencies := map[];
    var i := 1;
    assert v[..1] == [v[0]];
    while i < |v|
      invariant 1 <= i <= |v|
      invariant RowOf(v[..i], targets) == Some(entries)
    {
      assert v[..i + 1][..i] == v[..i];
      if v[i].node !in targets {
        RowStaysNone(v, targets, i + 1);
        return None;
      }
      entries := entries[v[i].node := v[i].latencyUS];
      i := i + 1;
    }
    assert v[..i] == v;
    row := Some(entries);
  }

  lemma {:induction false} RowStaysNone(v: seq<NodeIdentLat>, targets: set<NodeIdent>, i: nat)
    requires 1 <= i <= |v| && RowOf(v[..i], targets).None?
    ensures RowOf(v, targets).None?
    decreases |v|
  {
    if i < |v| {
      assert v[..|v| - 1][..i] == v[..i];
      RowStaysNone(v[..|v| - 1], targets, i);
    } else {
      assert v[..i] == v;
    }
  }

  /** What the cache knows about the targets, and a measurement of each of the others. */
  method Known(cache: Latencies, targets: set<NodeIdent>) returns (known: Latencies, probes: seq<Asked>)
    ensures known == map t | t in targets && t in cache :: cache[t]
    ensures probes == ProbesFor(targets, cache)
  {
    known, probes := map[], [];
    var keys := Iterate(targets);
    var i := 0;
    while i < |keys|
      invariant i <= |keys|
      invariant known == map t | t in keys[..i] && t in cache :: cache[t]
      invariant probes == ProbesAlong(keys[..i], cache)
    {
      assert keys[..i + 1] == keys[..i] + [keys[i]] && keys[..i + 1][..i] == keys[..i];
      if keys[i] in cache {
        known := known[keys[i] := cache[keys[i]]];
      } else {
        probes := probes + [Probe(keys[i])];
      }
      i := i + 1;
    }
    assert keys[..i] == keys;
  }

  method FindCandidates(rings: RingSet, num: uint16, den: uint16, ghost lat: Latencies, low: uint32, high: uint32)
    returns (found: map<NodeIdent, NodeIdent>)
    requires rings.Valid() && rings.State().Inv() && den > 0 && Measurable(high)
    requires lat != map[] && IsLowest(lat, low) && IsHighest(lat, high)
    ensures found == Candidates(rings.State(), num, den, lat)
  {
    assert low == Lowest(lat) && high == Highest(lat);
    var betaRatio := num as real / den as real;
    WindowFits(high, betaRatio);
    found := FillVector(rings, low, high, betaRatio);
  }

  method LatencyThreshold(num: uint16, den: uint16, averageLatUS: uint32) returns (threshold: uint32)
    requires den > 0
    ensures threshold == Threshold(Beta(num, den), averageLatUS)
  {
    var betaRatio := num as real / den as real;
    if betaRatio <= 0.0 || betaRatio >= 1.0 {
      betaRatio := 0.5;
    }
    ScaleBetween(betaRatio, averageLatUS);
    threshold := ToUInt(Round(betaRatio * averageLatUS as real));
  }

  /** The first of the members seen with the least average below UINT_MAX. */
  ghost predicate LeastSoFar(rows: Rows, seen: seq<NodeIdent>, c: NodeIdent, low: uint32) {
    && (forall k :: k in seen ==> k in rows)
    && (forall k :: k in seen && rows[k] != map[] ==> low <= Average(rows[k]))
    && (if low == 0xFFFF_FFFF then c == NOBODY
        else c in seen && rows[c] != map[] && Average(rows[c]) == low)
    && (forall k :: k in seen && k != c && rows[k] != map[] && low < 0xFFFF_FFFF && Average(rows[k]) == low ==>
          NodeLess(c, k))
  }

  lemma LeastStep(rows: Rows, seen: seq<NodeIdent>, c: NodeIdent, low: uint32, k: NodeIdent, avg: uint32)
    requires LeastSoFar(rows, seen, c, low) && k in rows && rows[k] != map[] && avg == Average(rows[k])
    requires forall x :: x in seen ==> NodeLess(x, k)
    ensures avg < low ==> LeastSoFar(rows, seen + [k], k, avg)
    ensures avg >= low ==> LeastSoFar(rows, seen + [k], c, low)
  {
    assert forall x :: x in seen + [k] <==> x in seen || x == k;
  }

  lemma SkipStep(rows: Rows, seen: seq<NodeIdent>, c: NodeIdent, low: uint32, k: NodeIdent)
    requires LeastSoFar(rows, seen, c, low) && k in rows && rows[k] == map[]
    ensures LeastSoFar(rows, seen + [k], c, low)
  {
    assert forall x :: x in seen + [k] <==> x in seen || x == k;
  }

  lemma ListedBefore(rows: Rows, keys: seq<NodeIdent>, i: nat)
    requires IsAscending(rows.Keys, keys) && i < |keys|
    ensures keys[i] in rows && forall x :: x in keys[..i] ==> NodeLess(x, keys[i])
  {
    assert keys[i] in keys;
  }

  method Consider(rows: Rows, keys: seq<NodeIdent>, i: nat, c: NodeIdent, low: uint32)
    returns (c': NodeIdent, low': uint32)
    requires IsAscending(rows.Keys, keys) && i < |keys| && LeastSoFar(rows, keys[..i], c, low)
    ensures LeastSoFar(rows, keys[..i + 1], c', low')
  {
    ListedBefore(rows, keys, i);
    assert keys[..i + 1] == keys[..i] + [keys[i]];
    c', low' := c, low;
    var ret, _, _, curAvgLatency := GetMaxAndMinAndAverage(rows[keys[i]]);
    if ret == -1 {
      SkipStep(rows, keys[..i], c, low, keys[i]);
    } else {
      LeastStep(rows, keys[..i], c, low, keys[i], curAvgLatency);
      if curAvgLatency < low {
        c', low' := keys[i], curAvgLatency;
      }
    }
  }

  method LeastOf(rows: Rows, keys: seq<NodeIdent>) returns (c: NodeIdent, low: uint32)
    requires IsAscending(rows.Keys, keys)
    ensures LeastSoFar(rows, keys, c, low)
  {
    c, low := NOBODY, 0xFFFF_FFFF;
    var i := 0;
    while i < |keys|
      invariant i <= |keys|
      invariant LeastSoFar(rows, keys[..i], c, low)
    {
      c, low := Consider(rows, keys, i, c, low);
      i := i + 1;
    }
    assert keys[..i] == keys;
  }

  lemma LeastIsClosest(rows: Rows, seen: seq<NodeIdent>, c: NodeIdent, low: uint32)
    requires LeastSoFar(rows, seen, c, low) && forall k :: k in rows ==> k in seen
    ensures (c, low) == Closest(rows)
  {
    assert IsClosest(rows, c, low);
    ClosestUnique(rows, c, low, Closest(rows).0, Closest(rows).1);
  }
}
