/** Every step of a closest-node search keeps the invariant, moves forward only, and answers once. */
module ClosestSearch {
  import opened Base
  import opened Averages
  import opened ClosestModel

  /** An answer about at most 137 targets fits a datagram, and so does the request that hands the query over. */
  lemma AnswersFit(n: nat)
    ensures 23 + 10 * n <= MAX_UDP_PACKET_SIZE <==> n <= 137
    ensures n <= 137 ==> 27 + 6 * n <= MAX_UDP_PACKET_SIZE
  {}

  lemma RowSizes(s: Search, c: NodeIdent)
    requires Inv(s)
    ensures c in s.ringLat ==> |s.ringLat[c]| == |s.targets|
    ensures Rank(s.phase) >= Rank(IndirectPing) ==> |s.remoteLat| == |s.targets|
  {
    if c in s.ringLat { assert |s.ringLat[c]| == |s.ringLat[c].Keys|; }
    assert |s.remoteLat| == |s.remoteLat.Keys|;
  }

  lemma AnswerOk(s: Search, c: NodeIdent, low: nat)
    requires Inv(s) && s.phase == IndirectPing && !s.finished && (low < s.avg ==> c in s.ringLat)
    ensures StepOk(s, TimedOut, Answer(s, c, low).0, Answer(s, c, low).1)
    ensures Answer(s, c, low).0.finished && |Answer(s, c, low).1| == if |s.targets| <= 137 then 1 else 0
  {
    RowSizes(s, c);
    AnswersFit(|s.targets|);
  }

  lemma HandOverOk(s: Search, c: NodeIdent)
    requires Inv(s) && s.phase == IndirectPing && !s.finished && c in s.ringLat
    ensures StepOk(s, TimedOut, HandOver(s, c).0, HandOver(s, c).1)
    ensures HandOver(s, c).0.finished <==> |s.targets| > 228
    ensures HandOver(s, c).0.finished ==> HandOver(s, c).1 == []
  {
    WaitsForOk(s, c);
  }

  lemma WaitsForOk(s: Search, c: NodeIdent)
    requires Inv(s) && s.phase == IndirectPing && c in s.ringLat
    ensures Inv(s.(selected := c, phase := WaitForFin))
  {}

  /** With a threshold below UINT_MAX the sentinel cannot be selected: a query is only handed to a real responder. */
  lemma ForwardAtOk(s: Search, threshold: nat)
    requires Inv(s) && s.phase == IndirectPing && !s.finished && threshold < UINT_MAX
    ensures StepOk(s, TimedOut, ForwardAt(s, threshold).0, ForwardAt(s, threshold).1)
  {
    var (c, low) := Closest(s.ringLat);
    if low == 0 || low > threshold { AnswerOk(s, c, low); } else { HandOverOk(s, c); }
  }

  lemma ForwardOk(s: Search)
    requires Inv(s) && s.phase == IndirectPing && !s.finished
    ensures StepOk(s, TimedOut, Forward(s).0, Forward(s).1)
  {
    SentinelCannotPass(s.num, s.den, s.avg);
    ForwardAtOk(s, Threshold(Beta(s.num, s.den), s.avg));
  }

  lemma SendProbesOk(s: Search, found: map<NodeIdent, NodeIdent>, e: SearchEvent)
    requires Inv(s) && s.phase == WaitForDirectPing && !s.finished && |s.remoteLat| == |s.targets|
    ensures StepOk(s, e, SendProbes(s, found).0, SendProbes(s, found).1)
    ensures s.targets == {} ==> SendProbes(s, found).1 == []
  {
    SizesMatch(s);
    AnswersFit(|s.targets|);
  }

  lemma {:induction false} RowOfWithin(v: seq<NodeIdentLat>, targets: set<NodeIdent>)
    requires v != []
    ensures RowOf(v, targets).Some? ==> RowOf(v, targets).value.Keys <= targets
  {
    if |v| > 1 { RowOfWithin(v[..|v| - 1], targets); }
  }

  lemma LatencyOk(s: Search, v: seq<NodeIdentLat>, found: map<NodeIdent, NodeIdent>)
    requires Inv(s) && !s.finished
    ensures StepOk(s, Measured(v, found), Latency(s, v, found).0, Latency(s, v, found).1)
  {
    match s.phase
    case WaitForDirectPing =>
      if |s.remoteLat| == |s.targets| {
        SendProbesOk(s, found, Measured(v, found));
      } else if |v| == 1 && v[0].node in s.targets && v[0].node !in s.remoteLat {
        var s1 := s.(remoteLat := s.remoteLat[v[0].node := v[0].latencyUS]);
        assert Inv(s1);
        if |s1.remoteLat| == |s1.targets| { SendProbesOk(s1, found, Measured(v, found)); }
      }
    case IndirectPing =>
      if v != [] && v[0].node in s.ringMembers && v[0].node !in s.ringLat { NewRowOk(s, v, found); }
    case WaitForFin =>
    case Init =>
  }

  /** A step that also works from a search differing only in what it has collected. */
  lemma StepOkFrom(s: Search, s1: Search, e: SearchEvent, t: Search, out: seq<Out>)
    requires StepOk(s1, TimedOut, t, out) && s1.phase == s.phase
    requires (s1.num, s1.den, s1.src, s1.targets) == (s.num, s.den, s.src, s.targets)
    ensures StepOk(s, e, t, out)
  {}

  lemma RowAccepted(s: Search, m: NodeIdent, row: Latencies)
    requires Inv(s) && s.phase == IndirectPing && m in s.ringMembers
    requires row.Keys <= s.targets && |row| == |s.targets|
    ensures Inv(s.(ringLat := s.ringLat[m := row]))
  {
    assert |row| == |row.Keys|;
    SubsetFull(row.Keys, s.targets);
  }

  lemma NewRowOk(s: Search, v: seq<NodeIdentLat>, found: map<NodeIdent, NodeIdent>)
    requires Inv(s) && !s.finished && s.phase == IndirectPing
    requires v != [] && v[0].node in s.ringMembers && v[0].node !in s.ringLat
    ensures StepOk(s, Measured(v, found), IndirectLatency(s, v).0, IndirectLatency(s, v).1)
  {
    var row := RowOf(v, s.targets);
    RowOfWithin(v, s.targets);
    if row.Some? && |row.value| == |s.targets| {
      RowAccepted(s, v[0].node, row.value);
      var s1 := s.(ringLat := s.ringLat[v[0].node := row.value]);
      assert IndirectLatency(s, v) == if |s1.ringMembers| != |s1.ringLat| then (s1, []) else Forward(s1);
      if |s1.ringMembers| == |s1.ringLat| {
        ForwardOk(s1);
        StepOkFrom(s, s1, Measured(v, found), Forward(s1).0, Forward(s1).1);
      }
    }
  }

  lemma RelayOk(s: Search, from: NodeIdent, p: Incoming)
    requires Inv(s) && !s.finished && Fits(p) && !p.Request?
    ensures StepOk(s, Arrived(from, p), Relay(s, from, p).0, Relay(s, from, p).1)
  {}

  lemma EventOk(s: Search, from: NodeIdent, p: Incoming)
    requires Inv(s) && !s.finished && Fits(p)
    ensures StepOk(s, Arrived(from, p), Event(s, from, p).0, Event(s, from, p).1)
  {
    if !p.Request? { RelayOk(s, from, p); }
  }

  /**
    After init every step of a search keeps the invariant until it finishes, never goes back a phase, sends no final
    reply early, and, for 1 to 137 targets, finishes by sending exactly one final reply to the source.
   */
  lemma StepMeetsContract(s: Search, e: SearchEvent)
    requires Inv(s) && !s.finished && (e.Arrived? ==> Fits(e.p))
    ensures StepOk(s, e, Step(s, e).0, Step(s, e).1)
  {
    match e
    case Measured(v, found) => LatencyOk(s, v, found);
    case Arrived(from, p) => EventOk(s, from, p);
    case TimedOut => if s.phase == IndirectPing { ForwardOk(s); }
  }

  /** init establishes the invariant, or finishes under the same conditions; its first packet is only information. */
  lemma StartOk(s: Search, cache: Latencies, found: map<NodeIdent, NodeIdent>)
    requires s.den > 0 && s == NewSearch(s.num, s.den, s.src, s.myRendv, s.targets)
    ensures var (t, out) := Start(s, cache, found);
      && (t.num, t.den, t.src, t.targets) == (s.num, s.den, s.src, s.targets)
      && out != [] && out[0] == Out(s.src, RetInfo(NOBODY))
      && (!t.finished ==> Inv(t) && |out| == 1)
      && (t.finished && 1 <= |s.targets| <= 137 ==> |out| == 2 && out[1].dest == s.src && out[1].packet.RetResponse?)
      && (s.targets == {} ==> t.finished && |out| == 1)
  {
    var s1 := s.(remoteLat := map t | t in s.targets && t in cache :: cache[t], phase := WaitForDirectPing);
    assert Inv(s1);
    if |s1.remoteLat| == |s1.targets| {
      SendProbesOk(s1, found, TimedOut);
      SizesMatch(s1);
      AnswersFit(|s.targets|);
    }
    if s.targets == {} { assert s1.remoteLat == map[]; }
  }

  // ---------------------------------------------------------------- when no reply is sent

  /**
    Exactly when a timed-out collection of rows ends in silence: the answer about more than 137 targets does not fit,
    or the request about more than 228 targets that would have handed the query over does not.
   */
  lemma SilentForward(s: Search, threshold: nat)
    requires Inv(s) && s.phase == IndirectPing && !s.finished && threshold < UINT_MAX
    requires ForwardAt(s, threshold).0.finished
    ensures |ForwardAt(s, threshold).1| <= 1
    ensures ForwardAt(s, threshold).1 == []
      <==> |s.targets| > if 0 < Closest(s.ringLat).1 <= threshold then 228 else 137
  {
    var (c, low) := Closest(s.ringLat);
    if low == 0 || low > threshold { AnswerOk(s, c, low); } else { HandOverOk(s, c); }
  }

  /** Finishing right after the direct measurements is silent exactly without targets or with more than 137. */
  lemma SilentProbes(s: Search, found: map<NodeIdent, NodeIdent>)
    requires Inv(s) && s.phase == WaitForDirectPing && !s.finished && |s.remoteLat| == |s.targets|
    requires SendProbes(s, found).0.finished
    ensures SendProbes(s, found).1 == [] <==> s.targets == {} || |s.targets| > 137
  {
    SizesMatch(s);
    AnswersFit(|s.targets|);
  }

  // ---------------------------------------------------------------- the whole life of a search

  /** A search from its first state after init, one event at a time, at most until it finishes. */
  ghost predicate IsLife(states: seq<Search>, events: seq<SearchEvent>, outs: seq<seq<Out>>) {
    && |states| == |events| + 1 && |outs| == |events|
    && Inv(states[0])
    && forall i :: 0 <= i < |events| ==> Lives(states[i], events[i], states[i + 1], outs[i])
  }

  ghost predicate Lives(s: Search, e: SearchEvent, t: Search, out: seq<Out>) {
    && !s.finished && (e.Arrived? ==> Fits(e.p))
    && (s.den > 0 ==> (t, out) == Step(s, e))
  }

  lemma {:induction false} LifeKeepsInv(states: seq<Search>, events: seq<SearchEvent>, outs: seq<seq<Out>>, i: nat)
    requires IsLife(states, events, outs) && i < |events|
    ensures Inv(states[i]) && StepOk(states[i], events[i], states[i + 1], outs[i])
    ensures states[i].src == states[0].src && states[i].targets == states[0].targets
  {
    if i > 0 {
      LifeKeepsInv(states, events, outs, i - 1);
      assert Lives(states[i - 1], events[i - 1], states[i - 1 + 1], outs[i - 1]);
    }
    assert Lives(states[i], events[i], states[i + 1], outs[i]);
    StepMeetsContract(states[i], events[i]);
  }

  /** A final reply that is not the courtesy answer to a looped request. */
  ghost predicate Verdict(s: Search, e: SearchEvent, o: Out) {
    IsFinal(o.packet) && !(e.Arrived? && e.p.Request? && o == Out(NodeIdentRendv(e.from, NOBODY), MyAnswer(s)))
  }

  /**
    Over its whole life a search about 1 to 137 targets gives exactly one verdict: the source gets it, in the step
    that finishes, and no earlier step gives any.
   */
  lemma OneVerdict(states: seq<Search>, events: seq<SearchEvent>, outs: seq<seq<Out>>)
    requires IsLife(states, events, outs) && 1 <= |states[0].targets| <= 137
    requires events != [] && states[|events|].finished
    ensures forall i, o :: 0 <= i < |events| - 1 && o in outs[i] ==> !Verdict(states[i], events[i], o)
    ensures var last := outs[|events| - 1]; |last| == 1 && last[0].dest == states[0].src && IsFinal(last[0].packet)
  {
    forall i, o | 0 <= i < |events| - 1 && o in outs[i] ensures !Verdict(states[i], events[i], o) {
      LifeKeepsInv(states, events, outs, i);
      assert Lives(states[i + 1], events[i + 1], states[i + 1 + 1], outs[i + 1]);
    }
    LifeKeepsInv(states, events, outs, |events| - 1);
  }
}
