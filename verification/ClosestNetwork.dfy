/**
  The closest-node search as a network protocol. Nodes run ClosestModel; messages sit in a pool and may be lost,
  reordered, duplicated or delayed without limit; nodes may expire or forget a query at any time.
  With fixed latencies to fixed targets, every reply is truthful and no worse than its sender,
  and every chain of forwards decays geometrically.
 */
module ClosestNetwork {
  import opened Base
  import opened Averages
  import opened ClosestModel
  import opened ClosestSearch

  /**
    One query: its targets and ratio, the nodes that run the protocol, and the latency from each node to each target.
   */
  datatype World = World(targets: set<NodeIdent>, num: uint16, den: uint16, overlay: set<NodeIdent>,
                         d: (NodeIdent, NodeIdent) -> uint32)
  {
    ghost predicate Ok() {
      targets != {} && den > 0
    }

    /** What node n would measure. */
    function TrueRow(n: NodeIdent): (row: Latencies)
      ensures row.Keys == targets
    {
      map t | t in targets :: d(n, t)
    }

    /** The rounded average of node n: what the search minimises. */
    ghost function Level(n: NodeIdent): (l: nat)
      requires Ok()
      ensures l <= UINT_MAX
    {
      Average(TrueRow(n))
    }

    /** The rounded average is within one half of the true mean latency. */
    lemma LevelIsRoundedMean(n: NodeIdent)
      requires Ok()
      ensures Level(n) == Round(Mean(TrueRow(n)))
    {
      AverageIsRoundedMean(TrueRow(n));
    }
  }

  // ---------------------------------------------------------------- truthful nodes and packets

  /** A search at node n whose every number is the true one. */
  ghost predicate TrueSearch(w: World, n: NodeIdent, s: Search)
    requires w.Ok()
  {
    && Inv(s) && !s.finished && HopOk(s)
    && s.num == w.num && s.den == w.den && s.targets == w.targets
    && (forall t :: t in s.remoteLat ==> s.remoteLat[t] == w.d(n, t))
    && (forall m :: m in s.ringLat ==> s.ringLat[m] == w.TrueRow(m))
  }

  /** A reply names a node that is no worse than its sender, with that node's true latencies. */
  ghost predicate SoundReply(w: World, from: NodeIdent, node: NodeIdent, latencies: Latencies)
    requires w.Ok()
  {
    var named := Resolve(node, from);
    latencies == w.TrueRow(named) && w.Level(named) <= w.Level(from)
  }

  /** A forward carries the query unchanged to a node whose level passes the sender's threshold. */
  ghost predicate SoundForward(w: World, from: NodeIdent, p: Packet, to: NodeIdent)
    requires w.Ok() && p.ReqClosest?
  {
    && p.num == w.num && p.den == w.den && p.targets == w.targets
    && 0 < w.Level(to) <= Threshold(Beta(w.num, w.den), w.Level(from))
  }

  ghost predicate SoundPacket(w: World, from: NodeIdent, p: Packet, to: NodeIdent)
    requires w.Ok()
  {
    match p
    case RetResponse(node, latencies) => SoundReply(w, from, node, latencies)
    case ReqClosest(_, _, _, _) => SoundForward(w, from, p, to)
    case _ => true
  }

  ghost predicate SoundOut(w: World, n: NodeIdent, out: seq<Out>)
    requires w.Ok()
  {
    forall o :: o in out ==> Sendable(o.packet) && SoundPacket(w, n, o.packet, o.dest.node)
  }

  /** An event reports true measurements, and replies come from truthful nodes. */
  ghost predicate TrueEvent(w: World, n: NodeIdent, s: Search, e: SearchEvent)
    requires w.Ok()
  {
    match e
    case Measured(v, _) =>
      && (s.phase == WaitForDirectPing && |v| == 1 ==> v[0].latencyUS == w.d(n, v[0].node))
      && (s.phase == IndirectPing ==> forall i :: 1 <= i < |v| ==> v[i].latencyUS == w.d(v[0].node, v[i].node))
    case Arrived(from, p) =>
      Fits(p) && (p.Response? && p.body.Some? ==> SoundReply(w, from, p.body.value.0, p.body.value.1))
    case TimedOut => true
  }

  lemma MeasuredIsTrue(w: World, n: NodeIdent, s: Search)
    requires w.Ok() && TrueSearch(w, n, s) && s.remoteLat.Keys == w.targets
    ensures s.remoteLat == w.TrueRow(n)
  {}

  /** Answering with one's own measurements is sound. */
  lemma MyAnswerSound(w: World, n: NodeIdent, s: Search)
    requires w.Ok() && s.remoteLat == w.TrueRow(n)
    ensures SoundReply(w, n, NOBODY, s.remoteLat)
  {}

  /** The forwarding decision with the true numbers. */
  lemma ForwardSound(w: World, n: NodeIdent, s: Search)
    requires w.Ok() && TrueSearch(w, n, s) && s.phase == IndirectPing && NOBODY !in s.ringLat
    ensures var (t, out) := Forward(s); (!t.finished ==> TrueSearch(w, n, t)) && SoundOut(w, n, out)
  {
    MeasuredIsTrue(w, n, s);
    MyAnswerSound(w, n, s);
    SentinelCannotPass(s.num, s.den, s.avg);
    var threshold := Threshold(Beta(s.num, s.den), s.avg);
    assert s.avg == w.Level(n);
    ForwardAtSound(w, n, s, threshold);
  }

  lemma AnswerSound(w: World, n: NodeIdent, s: Search, c: NodeIdent, low: nat)
    requires w.Ok() && s.remoteLat == w.TrueRow(n) && s.avg == w.Level(n)
    requires low < s.avg ==> c != NOBODY && c in s.ringLat && s.ringLat[c] == w.TrueRow(c) && w.Level(c) == low
    ensures SoundOut(w, n, Answer(s, c, low).1)
  {
    MyAnswerSound(w, n, s);
    if low < s.avg { assert SoundReply(w, n, c, s.ringLat[c]); }
  }

  lemma HandOverSound(w: World, n: NodeIdent, s: Search, c: NodeIdent)
    requires w.Ok() && TrueSearch(w, n, s) && s.phase == IndirectPing && s.avg == w.Level(n)
    requires c in s.ringLat && 0 < w.Level(c) <= Threshold(Beta(w.num, w.den), w.Level(n))
    ensures var (t, out) := HandOver(s, c); (!t.finished ==> TrueSearch(w, n, t)) && SoundOut(w, n, out)
  {
    assert s.ringLat[c] == w.TrueRow(c) && w.TrueRow(c).Keys == w.targets;
  }

  lemma ForwardAtSound(w: World, n: NodeIdent, s: Search, threshold: nat)
    requires w.Ok() && TrueSearch(w, n, s) && s.phase == IndirectPing && NOBODY !in s.ringLat
    requires s.remoteLat == w.TrueRow(n) && s.avg == w.Level(n) && threshold < UINT_MAX
    requires threshold == Threshold(Beta(w.num, w.den), w.Level(n))
    ensures var (t, out) := ForwardAt(s, threshold); (!t.finished ==> TrueSearch(w, n, t)) && SoundOut(w, n, out)
  {
    var (c, low) := Closest(s.ringLat);
    if low < UINT_MAX {
      assert s.ringLat[c] == w.TrueRow(c) && w.Level(c) == low;
    }
    if low == 0 || low > threshold { AnswerSound(w, n, s, c, low); } else { HandOverSound(w, n, s, c); }
  }

  lemma SendProbesSound(w: World, n: NodeIdent, s: Search, found: map<NodeIdent, NodeIdent>)
    requires w.Ok() && TrueSearch(w, n, s) && s.phase == WaitForDirectPing && |s.remoteLat| == |s.targets|
    ensures var (t, out) := SendProbes(s, found); (!t.finished ==> TrueSearch(w, n, t)) && SoundOut(w, n, out)
  {
    SizesMatch(s);
    MeasuredIsTrue(w, n, s);
    MyAnswerSound(w, n, s);
    SendProbesOk(s, found, TimedOut);
  }

  lemma {:induction false} RowOfTrue(w: World, v: seq<NodeIdentLat>)
    requires v != [] && forall i :: 1 <= i < |v| ==> v[i].latencyUS == w.d(v[0].node, v[i].node)
    ensures RowOf(v, w.targets).Some? ==> forall t :: t in RowOf(v, w.targets).value ==>
      t in w.targets && RowOf(v, w.targets).value[t] == w.d(v[0].node, t)
  {
    if |v| > 1 { RowOfTrue(w, v[..|v| - 1]); }
  }

  lemma DirectSound(w: World, n: NodeIdent, s: Search, v: seq<NodeIdentLat>, found: map<NodeIdent, NodeIdent>)
    requires w.Ok() && TrueSearch(w, n, s) && s.phase == WaitForDirectPing && TrueEvent(w, n, s, Measured(v, found))
    ensures var (t, out) := DirectLatency(s, v, found); (!t.finished ==> TrueSearch(w, n, t)) && SoundOut(w, n, out)
  {
    if |s.remoteLat| == |s.targets| {
      SendProbesSound(w, n, s, found);
    } else if |v| == 1 && v[0].node in s.targets && v[0].node !in s.remoteLat {
      var s1 := s.(remoteLat := s.remoteLat[v[0].node := v[0].latencyUS]);
      assert TrueSearch(w, n, s1);
      if |s1.remoteLat| == |s1.targets| { SendProbesSound(w, n, s1, found); }
    }
  }

  lemma IndirectSound(w: World, n: NodeIdent, s: Search, v: seq<NodeIdentLat>)
    requires w.Ok() && TrueSearch(w, n, s) && s.phase == IndirectPing && NOBODY !in s.ringMembers
    requires forall i :: 1 <= i < |v| ==> v[i].latencyUS == w.d(v[0].node, v[i].node)
    ensures var (t, out) := IndirectLatency(s, v); (!t.finished ==> TrueSearch(w, n, t)) && SoundOut(w, n, out)
  {
    if v != [] && v[0].node in s.ringMembers && v[0].node !in s.ringLat {
      var row := RowOf(v, s.targets);
      RowOfWithin(v, s.targets);
      RowOfTrue(w, v);
      if row.Some? && |row.value| == |s.targets| {
        var s1 := s.(ringLat := s.ringLat[v[0].node := row.value]);
        RowAccepted(s, v[0].node, row.value);
        assert row.value == w.TrueRow(v[0].node);
        assert TrueSearch(w, n, s1);
        if |s1.ringMembers| == |s1.ringLat| { ForwardSound(w, n, s1); }
      }
    }
  }

  /** Relaying keeps replies sound because the selected member is no worse than this node. */
  lemma RelaySound(w: World, n: NodeIdent, s: Search, from: NodeIdent, node: NodeIdent, latencies: Latencies)
    requires w.Ok() && TrueSearch(w, n, s) && s.phase == WaitForFin && from == s.selected && from != NOBODY
    requires SoundReply(w, from, node, latencies)
    ensures SoundReply(w, n, Resolve(node, from), latencies)
  {
    MeasuredIsTrue(w, n, s);
    ThresholdBounds(Beta(s.num, s.den), s.avg);
    assert w.Level(from) <= w.Level(n);
  }

  lemma NoticeSound(w: World, n: NodeIdent, s: Search, from: NodeIdent, p: Incoming)
    requires w.Ok() && TrueSearch(w, n, s) && (p.Response? ==> p.body.None?)
    ensures var (t, out) := Relay(s, from, p); (!t.finished ==> TrueSearch(w, n, t)) && SoundOut(w, n, out)
  {
    var (t, out) := Relay(s, from, p);
    assert forall o :: o in out ==> o.packet.RetError? || o.packet.RetInfo?;
  }

  lemma ReplySound(w: World, n: NodeIdent, dest: NodeIdentRendv, node: NodeIdent, latencies: Latencies)
    requires w.Ok() && SoundReply(w, n, node, latencies)
    ensures SoundOut(w, n, Send(dest, RetResponse(node, latencies)))
  {}

  lemma RelayedSound(w: World, n: NodeIdent, s: Search, from: NodeIdent, p: Incoming)
    requires w.Ok() && TrueSearch(w, n, s) && TrueEvent(w, n, s, Arrived(from, p)) && NOBODY !in s.ringLat
    requires s.phase == WaitForFin && from == s.selected
    ensures var (t, out) := Relay(s, from, p); (!t.finished ==> TrueSearch(w, n, t)) && SoundOut(w, n, out)
  {
    if p.Response? && p.body.Some? {
      var (node, latencies) := p.body.value;
      RelaySound(w, n, s, from, node, latencies);
      ReplySound(w, n, s.src, Resolve(node, from), latencies);
      assert Relay(s, from, p) == (s.(finished := true), Send(s.src, RetResponse(Resolve(node, from), latencies)));
    } else {
      NoticeSound(w, n, s, from, p);
    }
  }

  lemma EventSound(w: World, n: NodeIdent, s: Search, from: NodeIdent, p: Incoming)
    requires w.Ok() && TrueSearch(w, n, s) && TrueEvent(w, n, s, Arrived(from, p)) && NOBODY !in s.ringLat
    ensures var (t, out) := Event(s, from, p); (!t.finished ==> TrueSearch(w, n, t)) && SoundOut(w, n, out)
  {
    if s.phase == WaitForFin {
      if p.Request? {
        MeasuredIsTrue(w, n, s);
        MyAnswerSound(w, n, s);
      } else if from == s.selected {
        RelayedSound(w, n, s, from, p);
      }
    }
  }

  /** Whatever happens at a truthful node, it stays truthful and sends only sound packets. */
  lemma StepSound(w: World, n: NodeIdent, s: Search, e: SearchEvent)
    requires w.Ok() && TrueSearch(w, n, s) && TrueEvent(w, n, s, e) && n != NOBODY && NOBODY !in s.ringMembers
    ensures var (t, out) := Step(s, e); (!t.finished ==> TrueSearch(w, n, t)) && SoundOut(w, n, out)
  {
    match e
    case Measured(v, found) =>
      if s.phase == WaitForDirectPing { DirectSound(w, n, s, v, found); }
      else if s.phase == IndirectPing { IndirectSound(w, n, s, v); }
    case Arrived(from, p) => EventSound(w, n, s, from, p);
    case TimedOut => if s.phase == IndirectPing { ForwardSound(w, n, s); }
  }

  lemma StartSound(w: World, n: NodeIdent, s: Search, cache: Latencies, found: map<NodeIdent, NodeIdent>)
    requires w.Ok() && s == NewSearch(w.num, w.den, s.src, s.myRendv, w.targets)
    requires forall t :: t in cache ==> cache[t] == w.d(n, t)
    ensures var (t, out) := Start(s, cache, found); (!t.finished ==> TrueSearch(w, n, t)) && SoundOut(w, n, out)
  {
    var s1 := s.(remoteLat := map t | t in s.targets && t in cache :: cache[t], phase := WaitForDirectPing);
    assert TrueSearch(w, n, s1);
    if |s1.remoteLat| == |s1.targets| { SendProbesSound(w, n, s1, found); }
  }
}
