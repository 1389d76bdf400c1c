/** What a search decides and says at every turn, in terms of the measurements it has collected. */
module ClosestDecisions {
  import opened Base
  import opened Averages
  import opened ClosestModel
  import opened ClosestSearch

  // ---------------------------------------------------------------- what a report means

  /** Entry i is the last one about its node. */
  ghost predicate LastAbout(v: seq<NodeIdentLat>, i: nat, k: NodeIdent) {
    1 <= i < |v| && v[i].node == k && forall j :: i < j < |v| ==> v[j].node != k
  }

  /** A report is used exactly when all entries after the first are about targets; the last word on a target counts. */
  lemma {:induction false} RowOfMeans(v: seq<NodeIdentLat>, targets: set<NodeIdent>)
    requires v != []
    ensures RowOf(v, targets).Some? <==> forall i :: 1 <= i < |v| ==> v[i].node in targets
    ensures RowOf(v, targets).Some? ==>
      var row := RowOf(v, targets).value;
      && (forall k :: k in row ==> exists i :: 1 <= i < |v| && v[i].node == k)
      && (forall i: nat, k :: LastAbout(v, i, k) ==> k in row && row[k] == v[i].latencyUS)
  {
    if |v| > 1 {
      var n := |v| - 1;
      RowOfMeans(v[..n], targets);
      assert forall i :: 1 <= i < n ==> v[..n][i] == v[i];
      if RowOf(v, targets).Some? {
        forall k | k in RowOf(v, targets).value ensures exists i :: 1 <= i < |v| && v[i].node == k {
          if k == v[n].node { assert v[n].node == k; }
        }
        forall i: nat, k | LastAbout(v, i, k)
          ensures k in RowOf(v, targets).value && RowOf(v, targets).value[k] == v[i].latencyUS
        {
          if i < n { assert LastAbout(v[..n], i, k); }
        }
      }
    }
  }

  // ---------------------------------------------------------------- the forwarding decision

  /** No responder with measurements averages less than x. */
  ghost predicate NoneBelow(rows: Rows, x: nat) {
    forall m :: m in rows && rows[m] != map[] ==> x <= Average(rows[m])
  }

  /** The answer names this node when no responder is closer, and otherwise the closest responder, with its own row. */
  ghost predicate NamesBest(t: Search, node: NodeIdent, latencies: Latencies)
    requires t.remoteLat != map[]
  {
    || (node == NOBODY && latencies == t.remoteLat && NoneBelow(t.ringLat, Average(t.remoteLat)))
    || (node in t.ringLat && latencies == t.ringLat[node] && latencies != map[]
        && Average(latencies) < Average(t.remoteLat) && NoneBelow(t.ringLat, Average(latencies)))
  }

  /** A responder close enough to hand the query to, and none that is at the targets already. */
  ghost predicate WorthForwarding(t: Search)
    requires t.den > 0 && t.remoteLat != map[]
  {
    && NoneBelow(t.ringLat, 1)
    && exists m :: m in t.ringLat && t.ringLat[m] != map[]
         && Average(t.ringLat[m]) <= Threshold(Beta(t.num, t.den), Average(t.remoteLat))
  }

  /** The request goes to the closest responder, by way of its rendezvous host, and carries the query unchanged. */
  ghost predicate HandsOver(t: Search, out: seq<Out>) {
    && t.selected in t.ringLat && t.selected in t.ringMembers && t.ringLat[t.selected] != map[]
    && NoneBelow(t.ringLat, Average(t.ringLat[t.selected]))
    && out == [Out(NodeIdentRendv(t.selected, t.ringMembers[t.selected]),
                   ReqClosest(t.num, t.den, t.myRendv, t.targets))]
  }

  /** The search that decides, with all it has collected. */
  ghost predicate Deciding(s: Search) {
    Inv(s) && s.phase == IndirectPing && !s.finished
  }

  ghost predicate Decided(s: Search, t: Search, out: seq<Out>)
    requires t.remoteLat != map[] && t.den > 0
  {
    && t.remoteLat == s.remoteLat && t.ringMembers == s.ringMembers
    && (t.finished || t.phase == WaitForFin)
    && (t.phase == WaitForFin <==> WorthForwarding(t) && |t.targets| <= 228)
    && (t.phase == WaitForFin ==> !t.finished && HandsOver(t, out))
    && (t.finished ==> forall o :: o in out ==>
          o.dest == t.src && o.packet.RetResponse? && NamesBest(t, o.packet.node, o.packet.latencies))
    && (t.finished && |t.targets| <= 137 ==> |out| == 1)
  }

  lemma AnswerDecides(s: Search, c: NodeIdent, low: nat)
    requires Deciding(s) && s.remoteLat != map[] && IsClosest(s.ringLat, c, low)
    requires low == 0 || low > Threshold(Beta(s.num, s.den), s.avg)
    ensures Decided(s, Answer(s, c, low).0, Answer(s, c, low).1)
  {
    assert NoneBelow(s.ringLat, low);
    AnswerOk(s, c, low);
    if low == 0 { assert !NoneBelow(s.ringLat, 1); }
  }

  lemma HandOverDecides(s: Search, c: NodeIdent, low: nat)
    requires Deciding(s) && s.remoteLat != map[] && IsClosest(s.ringLat, c, low) && low < UINT_MAX
    requires 0 < low <= Threshold(Beta(s.num, s.den), s.avg)
    ensures Decided(s, HandOver(s, c).0, HandOver(s, c).1)
  {
    assert NoneBelow(s.ringLat, low) && NoneBelow(s.ringLat, 1);
    HandOverOk(s, c);
  }

  lemma ForwardDecides(s: Search)
    requires Deciding(s)
    ensures var (t, out) := Forward(s);
      t.remoteLat != map[] && t.den > 0 && t.ringLat == s.ringLat && Decided(s, t, out)
  {
    SentinelCannotPass(s.num, s.den, s.avg);
    assert s.remoteLat != map[] by { assert s.remoteLat.Keys == s.targets; }
    var (c, low) := Closest(s.ringLat);
    if low == 0 || low > Threshold(Beta(s.num, s.den), s.avg) {
      AnswerDecides(s, c, low);
    } else {
      HandOverDecides(s, c, low);
    }
  }

  /** A timeout decides with the reports that have come in. */
  lemma TimeoutDecides(s: Search)
    requires Deciding(s)
    ensures var (t, out) := Step(s, TimedOut);
      t.remoteLat != map[] && t.den > 0 && t.ringLat == s.ringLat && Decided(s, t, out)
  {
    ForwardDecides(s);
  }

  /** A report counts once, from a ring member, about exactly the targets. */
  ghost predicate Counted(s: Search, v: seq<NodeIdentLat>) {
    && v != [] && v[0].node in s.ringMembers && v[0].node !in s.ringLat
    && RowOf(v, s.targets).Some? && RowOf(v, s.targets).value.Keys == s.targets
  }

  /**
    A report that counts is recorded and changes nothing else; the search decides exactly when it was the last one
    missing.
   */
  lemma ReportDecides(s: Search, v: seq<NodeIdentLat>, found: map<NodeIdent, NodeIdent>)
    requires Deciding(s)
    ensures var (t, out) := Step(s, Measured(v, found));
      if !Counted(s, v) then t == s && out == []
      else
        && t.ringLat == s.ringLat[v[0].node := RowOf(v, s.targets).value]
        && (t.ringLat.Keys != s.ringMembers.Keys ==> t == s.(ringLat := t.ringLat) && out == [])
        && (t.ringLat.Keys == s.ringMembers.Keys ==>
              t.remoteLat != map[] && t.den > 0 && Decided(s.(ringLat := t.ringLat), t, out))
  {
    if v != [] && v[0].node in s.ringMembers && v[0].node !in s.ringLat && RowOf(v, s.targets).Some? {
      var row := RowOf(v, s.targets).value;
      RowOfWithin(v, s.targets);
      assert |row| == |row.Keys|;
      if |row| == |s.targets| {
        SubsetFull(row.Keys, s.targets);
        RowAccepted(s, v[0].node, row);
        AllReported(s.(ringLat := s.ringLat[v[0].node := row]));
        ForwardDecides(s.(ringLat := s.ringLat[v[0].node := row]));
      }
    }
  }

  lemma AllReported(s: Search)
    requires RowsOk(s)
    ensures |s.ringMembers| == |s.ringLat| <==> s.ringLat.Keys == s.ringMembers.Keys
  {
    assert |s.ringLat.Keys| == |s.ringLat| && |s.ringMembers.Keys| == |s.ringMembers|;
    if |s.ringMembers| == |s.ringLat| { SubsetFull(s.ringLat.Keys, s.ringMembers.Keys); }
  }

  // ---------------------------------------------------------------- before and after

  /** The first measurement of a target is recorded; the search moves on exactly when none is missing. */
  lemma MeasurementMovesOn(s: Search, v: seq<NodeIdentLat>, found: map<NodeIdent, NodeIdent>)
    requires Inv(s) && s.phase == WaitForDirectPing && !s.finished && s.remoteLat.Keys != s.targets
    ensures var (t, out) := Step(s, Measured(v, found));
      if !(|v| == 1 && v[0].node in s.targets && v[0].node !in s.remoteLat) then t == s && out == []
      else
        && t.remoteLat == s.remoteLat[v[0].node := v[0].latencyUS]
        && (t.remoteLat.Keys != s.targets ==> t == s.(remoteLat := t.remoteLat) && out == [])
        && (t.remoteLat.Keys == s.targets ==> MovesOn(s.(remoteLat := t.remoteLat), found, t, out))
  {
    MissingSome(s);
    if |v| == 1 && v[0].node in s.targets && v[0].node !in s.remoteLat {
      MissingSome(s.(remoteLat := s.remoteLat[v[0].node := v[0].latencyUS]));
    }
  }

  lemma MissingSome(s: Search)
    requires s.remoteLat.Keys <= s.targets
    ensures |s.remoteLat| == |s.targets| <==> s.remoteLat.Keys == s.targets
  {
    if |s.remoteLat| == |s.targets| { SizesMatch(s); }
    assert |s.remoteLat.Keys| == |s.remoteLat|;
  }

  /** With all targets measured: ring members are asked unless there are none or the targets are right here. */
  ghost predicate MovesOn(s: Search, found: map<NodeIdent, NodeIdent>, t: Search, out: seq<Out>) {
    && s.remoteLat != map[] && t.remoteLat == s.remoteLat && t.phase == IndirectPing
    && t.avg == Average(s.remoteLat)
    && (t.finished <==> Average(s.remoteLat) == 0 || found == map[])
    && (!t.finished ==> t.ringMembers == found && out == [])
    && (t.finished ==> forall o :: o in out ==> o == Out(s.src, RetResponse(NOBODY, s.remoteLat)))
    && (t.finished && |s.targets| <= 137 ==> |out| == 1)
  }

  /** init uses what the cache knows, and moves on at once exactly when that is everything. */
  lemma StartTakesStock(s: Search, cache: Latencies, found: map<NodeIdent, NodeIdent>)
    requires s.den > 0 && s == NewSearch(s.num, s.den, s.src, s.myRendv, s.targets) && s.targets != {}
    ensures var (t, out) := Start(s, cache, found);
      && (forall k :: k in t.remoteLat <==> k in s.targets && k in cache)
      && (forall k :: k in t.remoteLat ==> t.remoteLat[k] == cache[k])
      && out != [] && out[0] == Out(s.src, RetInfo(NOBODY))
      && (!(s.targets <= cache.Keys) ==> t == s.(remoteLat := t.remoteLat, phase := WaitForDirectPing) && |out| == 1)
      && (s.targets <= cache.Keys ==> MovesOn(s.(remoteLat := t.remoteLat), found, t, out[1..]))
  {
    var known := map t | t in s.targets && t in cache :: cache[t];
    var s1 := s.(remoteLat := known, phase := WaitForDirectPing);
    MissingSome(s1);
    if s.targets <= cache.Keys {
      assert known.Keys == s.targets;
      AnswersFit(|s.targets|);
    } else {
      var k :| k in s.targets && k !in cache;
      assert k !in known.Keys;
    }
  }

  /** What the selected member reports about the query goes to the source as it is, (0,0) replaced by its name. */
  lemma VerdictPassedOn(s: Search, node: NodeIdent, latencies: Latencies)
    requires Inv(s) && s.phase == WaitForFin && !s.finished && 23 + 10 * |latencies| <= MAX_UDP_PACKET_SIZE
    ensures var (t, out) := Step(s, Arrived(s.selected, Response(Some((node, latencies)))));
      && t == s.(finished := true)
      && out == [Out(s.src, RetResponse(if node == NOBODY then s.selected else node, latencies))]
  {}

  /** So do its failure and its progress reports. */
  lemma NoticePassedOn(s: Search, node: NodeIdent)
    requires Inv(s) && s.phase == WaitForFin && !s.finished
    ensures Step(s, Arrived(s.selected, Error(true))) == (s.(finished := true), [Out(s.src, RetError)])
    ensures Step(s, Arrived(s.selected, Info(Some(node)))) ==
      (s, [Out(s.src, RetInfo(if node == NOBODY then s.selected else node))])
  {}

  /** Nobody but the selected member is heard, and before the query is handed over nobody. */
  lemma OthersIgnored(s: Search, from: NodeIdent, p: Incoming)
    requires Inv(s) && !s.finished && (s.phase != WaitForFin || (from != s.selected && !p.Request?))
    ensures Step(s, Arrived(from, p)) == (s, [])
  {}

  /** A query that comes round is answered with this node's own measurements, and the search goes on. */
  lemma LoopAnswered(s: Search, from: NodeIdent)
    requires Inv(s) && s.phase == WaitForFin && !s.finished && |s.targets| <= 137
    ensures Step(s, Arrived(from, Request)) ==
      (s, [Out(NodeIdentRendv(from, NOBODY), RetResponse(NOBODY, s.remoteLat))])
  {
    RowSizes(s, s.selected);
    AnswersFit(|s.targets|);
  }

  /** Without direct measurements, or without word from the selected member, the source is told of a failure. */
  lemma TimeoutFails(s: Search)
    requires Inv(s) && !s.finished && s.phase != IndirectPing
    ensures Step(s, TimedOut) == (s.(finished := true), [Out(s.src, RetError)])
  {}
}
