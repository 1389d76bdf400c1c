/**
  Class RingSet: ten rings kept in place, a primary vector and a secondary queue per ring, a freeze flag per ring,
  the latency index and the rendezvous map. Every method is proved to take the state to what RingModel says.
 */
module RingSets {
  import opened Base
  import opened RingModel
  import opened RingRuns

  class RingSet {
    const primaryRing: array<seq<NodeIdent>>
    const secondaryRing: array<seq<NodeIdent>>
    const ringFrozen: array<bool>
    const primarySize: nat
    const secondarySize: nat
    const exponentBase: nat
    var nodeLatencyUS: map<NodeIdent, uint32>
    var rendvMapping: map<NodeIdent, NodeIdent>

    ghost function Repr(): set<object> {
      {this, primaryRing, secondaryRing, ringFrozen}
    }

    ghost predicate Valid() {
      && primaryRing.Length == secondaryRing.Length == ringFrozen.Length == MAX_NUM_RINGS
      && primaryRing != secondaryRing
      && primarySize >= 1 && secondarySize >= 1 && exponentBase >= 2
    }

    ghost function State(): (s: RingState)
      requires Valid()
      reads Repr()
      ensures s.Shape()
    {
      RingState(primaryRing[..], secondaryRing[..], ringFrozen[..], nodeLatencyUS, rendvMapping,
                primarySize, secondarySize, exponentBase)
    }

    constructor (primRingSize: nat, secondRingSize: nat, base: nat)
      requires primRingSize >= 1 && secondRingSize >= 1 && base >= 2
      ensures Valid() && fresh(Repr()) && State() == Empty(primRingSize, secondRingSize, base)
    {
      primaryRing := new seq<NodeIdent>[MAX_NUM_RINGS](_ => []);
      secondaryRing := new seq<NodeIdent>[MAX_NUM_RINGS](_ => []);
      ringFrozen := new bool[MAX_NUM_RINGS](_ => false);
      primarySize, secondarySize, exponentBase := primRingSize, secondRingSize, base;
      nodeLatencyUS, rendvMapping := map[], map[];
      new;
      assert State() == Empty(primRingSize, secondRingSize, base);
    }

    method FreezeRing(ringNum: int) returns (ret: int)
      requires Valid()
      modifies ringFrozen
      ensures State() == SetFrozen(old(State()), ringNum, true)
      ensures ret == if 0 <= ringNum < MAX_NUM_RINGS then 0 else -1
    {
      if ringNum < 0 || ringNum >= MAX_NUM_RINGS { return -1; }
      ringFrozen[ringNum] := true;
      ret := 0;
    }

    method UnfreezeRing(ringNum: int) returns (ret: int)
      requires Valid()
      modifies ringFrozen
      ensures State() == SetFrozen(old(State()), ringNum, false)
      ensures ret == if 0 <= ringNum < MAX_NUM_RINGS then 0 else -1
    {
      if ringNum < 0 || ringNum >= MAX_NUM_RINGS { return -1; }
      ringFrozen[ringNum] := false;
      ret := 0;
    }

    // ---------------------------------------------------------------- erase and insert

    method EraseNodeIn(inNode: NodeIdent, ring: nat) returns (ret: int)
      requires Valid() && ring < MAX_NUM_RINGS
      modifies Repr()
      ensures State() == EraseIn(old(State()), inNode, ring).0
      ensures ret == if EraseIn(old(State()), inNode, ring).1 then 0 else -1
    {
      if ringFrozen[ring] { return 0; }
      ghost var s := State();
      var foundNode := false;
      var i := 0;
      while i < |primaryRing[ring]|
        invariant i <= |primaryRing[ring]| && State() == s
        invariant inNode !in primaryRing[ring][..i]
      {
        if primaryRing[ring][i] == inNode {
          foundNode := true;
          IndexOfFirst(primaryRing[ring], inNode, i);
          var last := |primaryRing[ring]| - 1;
          primaryRing[ring] := primaryRing[ring][i := primaryRing[ring][last]];
          primaryRing[ring] := primaryRing[ring][..last];
          if |secondaryRing[ring]| > 0 {
            primaryRing[ring] := primaryRing[ring] + [secondaryRing[ring][0]];
            secondaryRing[ring] := secondaryRing[ring][1..];
          }
          break;
        }
        i := i + 1;
      }
      if !foundNode {
        assert inNode !in primaryRing[ring];
        var j := 0;
        while j < |secondaryRing[ring]|
          invariant j <= |secondaryRing[ring]| && State() == s && !foundNode
          invariant inNode !in secondaryRing[ring][..j]
        {
          if secondaryRing[ring][j] == inNode {
            IndexOfFirst(secondaryRing[ring], inNode, j);
            secondaryRing[ring] := secondaryRing[ring][..j] + secondaryRing[ring][j + 1..];
            foundNode := true;
            break;
          }
          j := j + 1;
        }
      }
      if !foundNode { return -1; }
      nodeLatencyUS := nodeLatencyUS - {inNode};
      rendvMapping := rendvMapping - {inNode};
      return 0;
    }

    method EraseNode(inNode: NodeIdent) returns (ret: int)
      requires Valid() && State().Inv()
      modifies Repr()
      ensures State() == RingModel.Erase(old(State()), inNode).0 && State().Inv()
      ensures ret == if inNode in old(nodeLatencyUS) then 0 else -1
    {
      EraseEffect(State(), inNode);
      if inNode !in nodeLatencyUS { return -1; }
      var ringNumber := RingNumber(exponentBase, nodeLatencyUS[inNode]);
      var r := EraseNodeIn(inNode, ringNumber);
      assert r != -1;
      return 0;
    }

    method InsertNode(inNode: NodeIdent, latencyUS: uint32, rend: NodeIdent) returns (ret: int)
      requires Valid() && State().Inv()
      modifies Repr()
      ensures State() == RingModel.Insert(old(State()), inNode, latencyUS, rend) && State().Inv()
      ensures ret == 0
    {
      InsertEffect(State(), inNode, latencyUS, rend);
      if rend.addr != 0 && rend.port != 0 {
        rendvMapping := rendvMapping[inNode := rend];
      }
      var ringNum := RingNumber(exponentBase, latencyUS);
      if ringFrozen[ringNum] { return 0; }
      if inNode in nodeLatencyUS {
        var prevRingNum := RingNumber(exponentBase, nodeLatencyUS[inNode]);
        if prevRingNum == ringNum {
          nodeLatencyUS := nodeLatencyUS[inNode := latencyUS];
          return 0;
        }
        if ringFrozen[prevRingNum] { return 0; }
        OneListEach(old(State()), inNode, prevRingNum, prevRingNum);
        var r := EraseNodeIn(inNode, prevRingNum);
        assert r != -1;
      }
      PushNode(inNode, latencyUS, ringNum);
      return 0;
    }

    /** The tail of insertNode, once the node is in no list. */
    method PushNode(inNode: NodeIdent, latencyUS: uint32, ringNum: nat)
      requires Valid() && ringNum < MAX_NUM_RINGS && !ringFrozen[ringNum]
      modifies Repr()
      ensures State() == Push(old(State()), inNode, latencyUS, ringNum)
    {
      if |primaryRing[ringNum]| < primarySize {
        primaryRing[ringNum] := primaryRing[ringNum] + [inNode];
      } else {
        if |secondaryRing[ringNum]| >= secondarySize {
          var r := EraseNodeIn(secondaryRing[ringNum][0], ringNum);
          assert r != -1;
        }
        secondaryRing[ringNum] := secondaryRing[ringNum] + [inNode];
      }
      nodeLatencyUS := nodeLatencyUS[inNode := latencyUS];
    }

    // ---------------------------------------------------------------- eligibility

    method EligibleForReplacement(ringNum: nat) returns (eligible: bool)
      requires Valid() && ringNum < MAX_NUM_RINGS
      modifies primaryRing, secondaryRing
      ensures State() == Eligible(old(State()), ringNum).0
      ensures eligible == Eligible(old(State()), ringNum).1
    {
      if ringFrozen[ringNum] { return false; }
      if |primaryRing[ringNum]| == primarySize && |secondaryRing[ringNum]| > 0 {
        var numEligible := 0;
        var i := 0;
        while i < |primaryRing[ringNum]|
          invariant i <= |primaryRing[ringNum]|
          invariant numEligible + FreeFrom(primaryRing[ringNum], i, rendvMapping) ==
            Free(primaryRing[ringNum], rendvMapping)
        {
          if primaryRing[ringNum][i] !in rendvMapping { numEligible := numEligible + 1; }
          i := i + 1;
        }
        i := 0;
        while i < |secondaryRing[ringNum]|
          invariant i <= |secondaryRing[ringNum]|
          invariant numEligible + FreeFrom(secondaryRing[ringNum], i, rendvMapping)
                    == Free(primaryRing[ringNum], rendvMapping) + Free(secondaryRing[ringNum], rendvMapping)
        {
          if secondaryRing[ringNum][i] !in rendvMapping { numEligible := numEligible + 1; }
          i := i + 1;
        }
        if numEligible > primarySize { return true; }
        if numEligible == primarySize { SwapIneligible(ringNum); }
      }
      return false;
    }

    /** Swaps ineligible primary members with eligible secondary ones; j never runs backwards. */
    method SwapIneligible(ringNum: nat)
      requires Valid() && ringNum < MAX_NUM_RINGS
      modifies primaryRing, secondaryRing
      ensures var s := old(State());
        var (p, q) := Swap(s.prim[ringNum], s.sec[ringNum], 0, 0, s.rendv);
        State() == s.(prim := s.prim[ringNum := p], sec := s.sec[ringNum := q])
    {
      ghost var p0, q0 := primaryRing[ringNum], secondaryRing[ringNum];
      ghost var goal := Swap(p0, q0, 0, 0, rendvMapping);
      var i, j := 0, 0;
      while i < |primaryRing[ringNum]|
        invariant i <= |primaryRing[ringNum]| == |p0| && j <= |secondaryRing[ringNum]|
        invariant Swap(primaryRing[ringNum], secondaryRing[ringNum], i, j, rendvMapping) == goal
        invariant primaryRing[..] == old(primaryRing[..])[ringNum := primaryRing[ringNum]]
        invariant secondaryRing[..] == old(secondaryRing[..])[ringNum := secondaryRing[ringNum]]
        decreases |p0| - i
      {
        if primaryRing[ringNum][i] in rendvMapping {
          while j < |secondaryRing[ringNum]|
            invariant i < |primaryRing[ringNum]| == |p0| && j <= |secondaryRing[ringNum]|
            invariant primaryRing[ringNum][i] in rendvMapping
            invariant Swap(primaryRing[ringNum], secondaryRing[ringNum], i, j, rendvMapping) == goal
            invariant primaryRing[..] == old(primaryRing[..])[ringNum := primaryRing[ringNum]]
            invariant secondaryRing[..] == old(secondaryRing[..])[ringNum := secondaryRing[ringNum]]
          {
            if secondaryRing[ringNum][j] !in rendvMapping {
              var tmpIdent := secondaryRing[ringNum][j];
              secondaryRing[ringNum] := secondaryRing[ringNum][j := primaryRing[ringNum][i]];
              primaryRing[ringNum] := primaryRing[ringNum][i := tmpIdent];
              j := j + 1;
              break;
            }
            j := j + 1;
          }
        }
        i := i + 1;
      }
    }

    // ---------------------------------------------------------------- dumping and committing members

    method MembersDump(ringNum: nat) returns (ringMembers: set<NodeIdent>)
      requires Valid() && ringNum < MAX_NUM_RINGS
      ensures ringMembers == State().Members(ringNum)
    {
      ringMembers := {};
      var i := 0;
      while i < |primaryRing[ringNum]|
        invariant i <= |primaryRing[ringNum]| && ringMembers == Elements(primaryRing[ringNum][..i])
      {
        ringMembers := ringMembers + {primaryRing[ringNum][i]};
        i := i + 1;
      }
      assert primaryRing[ringNum][..i] == primaryRing[ringNum];
      i := 0;
      while i < |secondaryRing[ringNum]|
        invariant i <= |secondaryRing[ringNum]|
        invariant ringMembers == Elements(primaryRing[ringNum]) + Elements(secondaryRing[ringNum][..i])
      {
        ringMembers := ringMembers + {secondaryRing[ringNum][i]};
        i := i + 1;
      }
      assert secondaryRing[ringNum][..i] == secondaryRing[ringNum];
    }

    method SetRingMembers(ringNum: int, primRing: seq<NodeIdent>, secondRing: seq<NodeIdent>) returns (ret: int)
      requires Valid()
      modifies primaryRing, secondaryRing
      ensures State() == RingRuns.SetRingMembers(old(State()), ringNum, primRing, secondRing).0
      ensures ret == if RingRuns.SetRingMembers(old(State()), ringNum, primRing, secondRing).1 then 0 else -1
    {
      if ringNum < 0 || ringNum >= MAX_NUM_RINGS { return -1; }
      if |primRing| > primarySize || |secondRing| > secondarySize { return -1; }
      var tmpSet := MembersDump(ringNum);
      if |primRing| + |secondRing| != |tmpSet| { return -1; }
      var ok := AllIn(primRing, tmpSet);
      if !ok { return -1; }
      ok := AllIn(secondRing, tmpSet);
      if !ok { return -1; }
      primaryRing[ringNum] := primRing;
      secondaryRing[ringNum] := secondRing;
      return 0;
    }

    static method AllIn(nodes: seq<NodeIdent>, s: set<NodeIdent>) returns (ok: bool)
      ensures ok <==> Elements(nodes) <= s
    {
      var i := 0;
      while i < |nodes|
        invariant i <= |nodes| && forall k :: 0 <= k < i ==> nodes[k] in s
      {
        if nodes[i] !in s {
          assert nodes[i] in Elements(nodes);
          return false;
        }
        i := i + 1;
      }
      return true;
    }
  }
}
