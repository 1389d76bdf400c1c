/** What one operation on the ring set leaves behind, list by list. */
module RingEffects {
  import opened Base
  import opened RingModel
  import opened RingRuns

  // ---------------------------------------------------------------- losing a node

  /** q without its entry for n, the rest in the same order. */
  ghost predicate TakenOut(q: seq<NodeIdent>, n: NodeIdent, q': seq<NodeIdent>) {
    exists i :: 0 <= i < |q| && q[i] == n && q' == q[..i] + q[i + 1..]
  }

  /** One ring without n: a primary member's place goes to the one that waits longest, a secondary member just goes. */
  ghost predicate Without(p: seq<NodeIdent>, q: seq<NodeIdent>, n: NodeIdent, p': seq<NodeIdent>, q': seq<NodeIdent>) {
    if n in p then
      if q == [] then Elements(p') == Elements(p) - {n} && q' == []
      else Elements(p') == Elements(p) - {n} + {q[0]} && q' == q[1..]
    else p' == p && TakenOut(q, n, q')
  }

  lemma ListsWithoutIs(p: seq<NodeIdent>, q: seq<NodeIdent>, n: NodeIdent)
    requires Distinct(p) && Distinct(q) && (forall x :: x in p ==> x !in q) && (n in p || n in q)
    ensures Without(p, q, n, ListsWithout(p, q, n).0, ListsWithout(p, q, n).1)
  {
    if n in p {
      var p1 := SwapRemove(p, IndexOf(p, n));
      SwapRemoveDistinct(p, IndexOf(p, n));
      assert Elements(p1) == Elements(p) - {n};
      if q != [] { assert Elements(p1 + [q[0]]) == Elements(p1) + {q[0]}; }
    } else {
      var i := IndexOf(q, n);
      assert q[i] == n && RemoveAt(q, i) == q[..i] + q[i + 1..];
    }
  }

  /** eraseNode: a node that is there and whose ring is open leaves its list, and every record of it goes. */
  lemma EraseExactly(s: RingState, n: NodeIdent)
    requires s.Inv()
    ensures var (t, ok) := RingModel.Erase(s, n);
      && (ok <==> n in s.lat)
      && (n !in s.lat ==> t == s)
      && (n in s.lat ==>
            var r := RingNumber(s.base, s.lat[n]);
            if s.frozen[r] then t == s
            else
              && t.SameConfig(s) && t.frozen == s.frozen && t.lat == s.lat - {n} && t.rendv == s.rendv - {n}
              && Without(s.prim[r], s.sec[r], n, t.prim[r], t.sec[r])
              && forall k :: 0 <= k < MAX_NUM_RINGS && k != r ==> t.prim[k] == s.prim[k] && t.sec[k] == s.sec[k])
  {
    EraseEffect(s, n);
    if n in s.lat {
      var r := s.RingOf(n);
      assert s.RingOk(r);
      EraseInEffect(s, n, r);
      ListsWithoutIs(s.prim[r], s.sec[r], n);
    }
  }

  // ---------------------------------------------------------------- gaining a node

  /** An insertion at this latency would touch a frozen ring, the one it leads to or the one the node is in. */
  predicate Barred(s: RingState, n: NodeIdent, latencyUS: uint32)
    requires s.Shape()
  {
    s.frozen[RingNumber(s.base, latencyUS)] || (n in s.lat && s.frozen[RingNumber(s.base, s.lat[n])])
  }

  /** A newcomer goes to the end of the primary list while there is room, then to the end of the secondary one. */
  ghost predicate Joins(s: RingState, n: NodeIdent, latencyUS: uint32, r: nat, t: RingState)
    requires s.Shape() && t.Shape() && r < MAX_NUM_RINGS
  {
    var p, q := s.prim[r], s.sec[r];
    if |p| < s.primSize then t.prim[r] == p + [n] && t.sec[r] == q && t.lat == s.lat[n := latencyUS]
    else if |q| < s.secSize then t.prim[r] == p && t.sec[r] == q + [n] && t.lat == s.lat[n := latencyUS]
    else
      // the secondary list is full as well: the one that waits longest leaves
      t.prim[r] == p && t.sec[r] == q[1..] + [n] && t.lat == (s.lat - {q[0]})[n := latencyUS]
  }

  lemma PushJoins(s: RingState, n: NodeIdent, latencyUS: uint32, r: nat)
    requires s.Inv() && n !in s.lat && r == RingNumber(s.base, latencyUS) && !s.frozen[r]
    ensures var t := Push(s, n, latencyUS, r);
      t.Inv() && Joins(s, n, latencyUS, r, t)
      && forall k :: 0 <= k < MAX_NUM_RINGS && k != r ==> t.prim[k] == s.prim[k] && t.sec[k] == s.sec[k]
  {
    PushEffect(s, n, latencyUS, r);
    assert s.RingOk(r);
    if |s.prim[r]| >= s.primSize && |s.sec[r]| >= s.secSize {
      OldestLeaves(s.prim[r], s.sec[r]);
      EraseInEffect(s, s.sec[r][0], r);
    }
  }

  /**
    insertNode. Barred by a frozen ring it changes no list and no latency. A node that stays in its ring gets its new
    latency; any other joins the ring of that latency, having left the one it was in.
   */
  lemma InsertExactly(s: RingState, n: NodeIdent, latencyUS: uint32, rend: NodeIdent)
    requires s.Inv()
    ensures var t, r := RingModel.Insert(s, n, latencyUS, rend), RingNumber(s.base, latencyUS);
      && t.Inv() && t.frozen == s.frozen
      && (Barred(s, n, latencyUS) ==> t.prim == s.prim && t.sec == s.sec && t.lat == s.lat)
      && (!Barred(s, n, latencyUS) && n in s.lat && RingNumber(s.base, s.lat[n]) == r ==>
            t.prim == s.prim && t.sec == s.sec && t.lat == s.lat[n := latencyUS])
      && (!Barred(s, n, latencyUS) && n !in s.lat ==>
            Joins(s, n, latencyUS, r, t)
            && forall k :: 0 <= k < MAX_NUM_RINGS && k != r ==> t.prim[k] == s.prim[k] && t.sec[k] == s.sec[k])
  {
    var t, r := WithRendv(s, n, rend), RingNumber(s.base, latencyUS);
    RendvIrrelevant(s, t.rendv);
    InsertEffect(s, n, latencyUS, rend);
    if !Barred(s, n, latencyUS) && n !in s.lat { PushJoins(t, n, latencyUS, r); }
  }

  /** A node whose new latency belongs to another ring leaves its ring and joins that one. */
  lemma MoveExactly(s: RingState, n: NodeIdent, latencyUS: uint32, rend: NodeIdent)
    requires s.Inv() && n in s.lat && RingNumber(s.base, s.lat[n]) != RingNumber(s.base, latencyUS)
    requires !Barred(s, n, latencyUS)
    ensures var t, r, before := RingModel.Insert(s, n, latencyUS, rend), RingNumber(s.base, latencyUS),
      RingNumber(s.base, s.lat[n]);
      && t.Inv()
      && Without(s.prim[before], s.sec[before], n, t.prim[before], t.sec[before])
      && Joins(s.(lat := s.lat - {n}), n, latencyUS, r, t)
      && forall k :: 0 <= k < MAX_NUM_RINGS && k != r && k != before ==> t.prim[k] == s.prim[k] && t.sec[k] == s.sec[k]
  {
    var u, r, before := WithRendv(s, n, rend), RingNumber(s.base, latencyUS), RingNumber(s.base, s.lat[n]);
    RendvIrrelevant(s, u.rendv);
    InsertEffect(s, n, latencyUS, rend);
    assert s.RingOk(before);
    EraseInEffect(u, n, before);
    ListsWithoutIs(s.prim[before], s.sec[before], n);
    PushJoins(EraseIn(u, n, before).0, n, latencyUS, r);
  }

  /** A host with a zero address or port stands for none. */
  predicate HasHost(rend: NodeIdent) {
    rend.addr != 0 && rend.port != 0
  }

  /** The node changes rings. */
  predicate Moves(s: RingState, n: NodeIdent, latencyUS: uint32)
    requires s.Shape()
  {
    !Barred(s, n, latencyUS) && n in s.lat && RingNumber(s.base, s.lat[n]) != RingNumber(s.base, latencyUS)
  }

  /**
    insertNode and rendezvous hosts: a proper host is recorded and one with a zero address or port is not; whatever was
    on record for the node is lost if it changes rings; nobody else's host changes unless he is evicted.
   */
  lemma RendvExactly(s: RingState, n: NodeIdent, latencyUS: uint32, rend: NodeIdent, x: NodeIdent)
    requires s.Inv()
    ensures var t := RingModel.Insert(s, n, latencyUS, rend);
      && (x != n ==> (x in t.rendv <==> x in s.rendv && (x in s.lat ==> x in t.lat)))
      && (x != n && x in t.rendv ==> t.rendv[x] == s.rendv[x])
      && (n in t.rendv <==> !Moves(s, n, latencyUS) && (HasHost(rend) || n in s.rendv))
      && (n in t.rendv ==> t.rendv[n] == if HasHost(rend) then rend else s.rendv[n])
  {
    var t, r := WithRendv(s, n, rend), RingNumber(s.base, latencyUS);
    RendvIrrelevant(s, t.rendv);
    OneListEach(s, n, r, r);
    if !Barred(s, n, latencyUS) {
      if n !in s.lat {
        PushEffect(t, n, latencyUS, r);
      } else if s.RingOf(n) != r {
        MoveRings(t, n, latencyUS);
      }
      assert s.RingOk(r);
      if Evicted(s, r) != {} { assert s.InRing(r, s.sec[r][0]); }
    }
  }

  /** Inserting a node again without naming a host keeps the host on record, unless the node changes rings. */
  lemma InsertKeepExactly(s: RingState, n: NodeIdent, latencyUS: uint32)
    requires s.Inv() && (forall x :: x in s.rendv ==> HasHost(s.rendv[x]))
    ensures var t := Apply(s, InsertKeep(n, latencyUS));
      && (n in t.rendv <==> n in s.rendv && !Moves(s, n, latencyUS))
      && (n in t.rendv ==> t.rendv[n] == s.rendv[n])
      && t == Apply(s, RingOp.Insert(n, latencyUS, NOBODY))
  {
    var rend := if n in s.rendv then s.rendv[n] else NOBODY;
    RendvExactly(s, n, latencyUS, rend, n);
    if n in s.rendv { assert s.rendv[n := rend] == s.rendv; }
  }

  // ---------------------------------------------------------------- committing lists

  /**
    setRingMembers on lists without repetition accepts exactly those that fit and together name exactly the members of
    the ring; it then replaces these two lists and nothing else, and otherwise changes nothing.
   */
  lemma CommitExactly(s: RingState, ring: int, p: seq<NodeIdent>, q: seq<NodeIdent>)
    requires s.Inv() && Distinct(p + q)
    ensures var (t, ok) := SetRingMembers(s, ring, p, q);
      && (ok <==> 0 <= ring < MAX_NUM_RINGS && |p| <= s.primSize && |q| <= s.secSize
                  && Elements(p) + Elements(q) == s.Members(ring))
      && (!ok ==> t == s)
      && (ok ==> t == s.(prim := s.prim[ring := p], sec := s.sec[ring := q]))
  {
    DistinctCardinality(p + q);
    assert Elements(p + q) == Elements(p) + Elements(q);
    if 0 <= ring < MAX_NUM_RINGS && |p| + |q| == |s.Members(ring)| && Elements(p) + Elements(q) <= s.Members(ring) {
      SubsetFull(Elements(p) + Elements(q), s.Members(ring));
    }
  }
}
