/**
  The closest-node search as a protocol between nodes. Messages sit in a pool and are delivered in any order, any
  number of times or never; a node may forget a query at any moment. Whatever the run, replies are truthful and no
  worse than their sender, and levels decay geometrically along every chain of forwards.
 */
module ClosestProtocol {
  import opened Base
  import opened Averages
  import opened ClosestModel
  import opened ClosestSearch
  import opened ClosestNetwork

  datatype Msg = Msg(from: NodeIdent, to: NodeIdent, packet: Packet)

  /** The searches in progress and every message ever sent. */
  datatype Net = Net(active: map<NodeIdent, Search>, sent: set<Msg>)

  datatype Label =
    | Ask(client: NodeIdent, entry: NodeIdent, rendv: NodeIdent)
    | Deliver(m: Msg, cache: Latencies, found: map<NodeIdent, NodeIdent>, myRendv: NodeIdent)
    | Measure(n: NodeIdent, v: seq<NodeIdentLat>, found: map<NodeIdent, NodeIdent>)
    | Timer(n: NodeIdent)
    | Forget(n: NodeIdent)

  function Query(w: World, rendv: NodeIdent): Packet {
    ReqClosest(w.num, w.den, rendv, w.targets)
  }

  /** What handleEvent sees of a well-formed packet. */
  function AsIncoming(p: Packet): Incoming {
    match p
    case ReqClosest(_, _, _, _) => Request
    case RetResponse(node, latencies) => Response(Some((node, latencies)))
    case RetError => Error(true)
    case RetInfo(node) => Info(Some(node))
  }

  function Post(n: NodeIdent, out: seq<Out>): set<Msg> {
    set o | o in out :: Msg(n, o.dest.node, o.packet)
  }

  /** Node n continues as t after sending out; a finished search leaves the query table. */
  function Put(net: Net, n: NodeIdent, t: Search, out: seq<Out>): Net {
    Net(if t.finished then net.active - {n} else net.active[n := t], net.sent + Post(n, out))
  }

  /** Measurements are true, ring members are nodes, and only a client from outside starts a query. */
  ghost predicate Enabled(w: World, net: Net, l: Label)
    requires w.Ok()
  {
    match l
    case Ask(client, _, _) => client !in w.overlay && client != NOBODY
    case Deliver(m, cache, found, _) =>
      && m in net.sent && m.to in w.overlay && NOBODY !in found
      && (forall t :: t in cache ==> cache[t] == w.d(m.to, t))
    case Measure(n, v, found) =>
      n in net.active && NOBODY !in found && TrueEvent(w, n, net.active[n], Measured(v, found))
    case Timer(n) => n in net.active
    case Forget(n) => true
  }

  ghost function Receive(net: Net, m: Msg, cache: Latencies, found: map<NodeIdent, NodeIdent>, myRendv: NodeIdent): Net
    requires m.packet.ReqClosest? ==> m.packet.den > 0
  {
    if m.to in net.active then
      var (t, out) := Event(net.active[m.to], m.from, AsIncoming(m.packet));
      Put(net, m.to, t, out)
    else if m.packet.ReqClosest? then
      var p := m.packet;
      var (t, out) := Start(NewSearch(p.num, p.den, NodeIdentRendv(m.from, p.rendv), myRendv, p.targets), cache, found);
      Put(net, m.to, t, out)
    else net
  }

  ghost function Next(w: World, net: Net, l: Label): Net
    requires w.Ok() && NetInv(w, net) && Enabled(w, net, l)
  {
    match l
    case Ask(client, entry, rendv) => net.(sent := net.sent + {Msg(client, entry, Query(w, rendv))})
    case Deliver(m, cache, found, myRendv) =>
      assert MsgOk(w, net.sent, m);
      Receive(net, m, cache, found, myRendv)
    case Measure(n, v, found) => var (t, out) := Step(net.active[n], Measured(v, found)); Put(net, n, t, out)
    case Timer(n) => var (t, out) := Step(net.active[n], TimedOut); Put(net, n, t, out)
    case Forget(n) => net.(active := net.active - {n})
  }

  // ---------------------------------------------------------------- the invariant

  /** `to` asked `from` about this query. */
  ghost predicate Asked(w: World, sent: set<Msg>, to: NodeIdent, from: NodeIdent) {
    exists rendv :: Msg(to, from, Query(w, rendv)) in sent
  }

  /** Nodes send sound packets, and replies only to nodes that asked them; clients send the query. */
  ghost predicate MsgOk(w: World, sent: set<Msg>, m: Msg)
    requires w.Ok()
  {
    && m.from != NOBODY
    && (m.packet.ReqClosest? ==> m.packet == Query(w, m.packet.rendv))
    && (if m.from in w.overlay then
          && PacketSize(m.packet) <= MAX_UDP_PACKET_SIZE
          && SoundPacket(w, m.from, m.packet, m.to)
          && (!m.packet.ReqClosest? ==> Asked(w, sent, m.to, m.from))
        else m.packet.ReqClosest?)
  }

  ghost predicate NodeOk(w: World, sent: set<Msg>, n: NodeIdent, s: Search)
    requires w.Ok()
  {
    && n in w.overlay && n != NOBODY && NOBODY !in s.ringMembers
    && TrueSearch(w, n, s)
    && Asked(w, sent, s.src.node, n)
  }

  ghost predicate NetInv(w: World, net: Net)
    requires w.Ok()
  {
    && NOBODY !in w.overlay
    && (forall n :: n in net.active ==> NodeOk(w, net.sent, n, net.active[n]))
    && (forall m :: m in net.sent ==> MsgOk(w, net.sent, m))
  }

  /** Where packets of one step may go: the query on, anything else back to somebody who asked. */
  predicate Addressed(out: seq<Out>, back: set<NodeIdent>) {
    forall o :: o in out && !o.packet.ReqClosest? ==> o.dest.node in back
  }

  lemma MoreSent(w: World, sent: set<Msg>, more: set<Msg>, net: Net)
    requires w.Ok() && NetInv(w, net) && sent == net.sent
    ensures forall n :: n in net.active ==> NodeOk(w, sent + more, n, net.active[n])
    ensures forall m :: m in sent ==> MsgOk(w, sent + more, m)
  {
    forall to, from | Asked(w, sent, to, from) ensures Asked(w, sent + more, to, from) {
      var rendv :| Msg(to, from, Query(w, rendv)) in sent;
      assert Msg(to, from, Query(w, rendv)) in sent + more;
    }
  }

  /** The one place where a node's new state and packets enter the network. */
  lemma PutOk(w: World, net: Net, n: NodeIdent, t: Search, out: seq<Out>, back: set<NodeIdent>)
    requires w.Ok() && NetInv(w, net) && n in w.overlay
    requires !t.finished ==>
      NOBODY !in t.ringMembers && TrueSearch(w, n, t) && Asked(w, net.sent, t.src.node, n)
    requires SoundOut(w, n, out) && Addressed(out, back)
    requires forall b :: b in back ==> Asked(w, net.sent, b, n)
    ensures NetInv(w, Put(net, n, t, out))
  {
    var more := Post(n, out);
    MoreSent(w, net.sent, more, net);
    forall to | Asked(w, net.sent, to, n) ensures Asked(w, net.sent + more, to, n) {
      var rendv :| Msg(to, n, Query(w, rendv)) in net.sent;
      assert Msg(to, n, Query(w, rendv)) in net.sent + more;
    }
    forall m | m in more ensures MsgOk(w, net.sent + more, m) {
      var o :| o in out && m == Msg(n, o.dest.node, o.packet);
      assert SoundPacket(w, n, o.packet, o.dest.node);
      if o.packet.ReqClosest? { assert o.packet == Query(w, o.packet.rendv); }
    }
  }

  // ---------------------------------------------------------------- where a step sends, and whom it remembers

  ghost predicate Framed(s: Search, t: Search, out: seq<Out>, members: map<NodeIdent, NodeIdent>,
                         back: set<NodeIdent>) {
    && t.src == s.src && (t.ringMembers == s.ringMembers || t.ringMembers == members)
    && Addressed(out, back)
  }

  lemma ForwardAtFrame(s: Search, threshold: nat, back: set<NodeIdent>)
    requires s.src.node in back
    ensures Framed(s, ForwardAt(s, threshold).0, ForwardAt(s, threshold).1, s.ringMembers, back)
  {}

  lemma ForwardFrame(s: Search, members: map<NodeIdent, NodeIdent>, back: set<NodeIdent>)
    requires s.den > 0 && s.src.node in back
    ensures Framed(s, Forward(s).0, Forward(s).1, members, back)
  {
    ForwardAtFrame(s, Threshold(Beta(s.num, s.den), s.avg), back);
  }

  lemma ProbesFrame(s: Search, found: map<NodeIdent, NodeIdent>, back: set<NodeIdent>)
    requires s.den > 0 && s.src.node in back
    ensures Framed(s, SendProbes(s, found).0, SendProbes(s, found).1, found, back)
  {}

  lemma DirectFrame(s: Search, v: seq<NodeIdentLat>, found: map<NodeIdent, NodeIdent>, back: set<NodeIdent>)
    requires s.den > 0 && s.src.node in back
    ensures Framed(s, DirectLatency(s, v, found).0, DirectLatency(s, v, found).1, found, back)
  {
    ProbesFrame(s, found, back);
    if |v| == 1 { ProbesFrame(s.(remoteLat := s.remoteLat[v[0].node := v[0].latencyUS]), found, back); }
  }

  lemma IndirectFrame(s: Search, v: seq<NodeIdentLat>, found: map<NodeIdent, NodeIdent>, back: set<NodeIdent>)
    requires s.den > 0 && s.src.node in back
    ensures Framed(s, IndirectLatency(s, v).0, IndirectLatency(s, v).1, found, back)
  {
    if v != [] && v[0].node in s.ringMembers && v[0].node !in s.ringLat {
      var row := RowOf(v, s.targets);
      if row.Some? { ForwardFrame(s.(ringLat := s.ringLat[v[0].node := row.value]), found, back); }
    }
  }

  lemma EventFrame(s: Search, from: NodeIdent, p: Incoming, members: map<NodeIdent, NodeIdent>, back: set<NodeIdent>)
    requires s.src.node in back && from in back
    ensures Framed(s, Event(s, from, p).0, Event(s, from, p).1, members, back)
  {}

  lemma StepFrame(s: Search, e: SearchEvent, found: map<NodeIdent, NodeIdent>, back: set<NodeIdent>)
    requires s.den > 0 && s.src.node in back && (e == TimedOut || (e.Measured? && e.found == found))
    ensures Framed(s, Step(s, e).0, Step(s, e).1, found, back)
  {
    match e
    case Measured(v, _) =>
      DirectFrame(s, v, e.found, back);
      IndirectFrame(s, v, e.found, back);
    case TimedOut => ForwardFrame(s, found, back);
  }

  lemma StartFrame(s: Search, cache: Latencies, found: map<NodeIdent, NodeIdent>, back: set<NodeIdent>)
    requires s.den > 0 && s.src.node in back
    ensures Framed(s, Start(s, cache, found).0, Start(s, cache, found).1, found, back)
  {
    var s1 := s.(remoteLat := map t | t in s.targets && t in cache :: cache[t], phase := WaitForDirectPing);
    ProbesFrame(s1, found, back);
  }

  // ---------------------------------------------------------------- every step keeps the invariant

  lemma LocalStep(w: World, net: Net, n: NodeIdent, e: SearchEvent, found: map<NodeIdent, NodeIdent>)
    requires w.Ok() && NetInv(w, net) && n in net.active && NOBODY !in found
    requires TrueEvent(w, n, net.active[n], e) && (e == TimedOut || (e.Measured? && e.found == found))
    ensures NetInv(w, Put(net, n, Step(net.active[n], e).0, Step(net.active[n], e).1))
  {
    var s := net.active[n];
    assert NodeOk(w, net.sent, n, s);
    StepSound(w, n, s, e);
    StepFrame(s, e, found, {s.src.node});
    PutOk(w, net, n, Step(s, e).0, Step(s, e).1, {s.src.node});
  }

  lemma ArrivalIsTrue(w: World, net: Net, m: Msg, s: Search)
    requires w.Ok() && NetInv(w, net) && m in net.sent
    ensures TrueEvent(w, m.to, s, Arrived(m.from, AsIncoming(m.packet)))
  {
    assert MsgOk(w, net.sent, m);
  }

  lemma EventAt(w: World, net: Net, n: NodeIdent, m: Msg, p: Incoming)
    requires w.Ok() && NetInv(w, net) && n in net.active && m in net.sent && m.to == n && p == AsIncoming(m.packet)
    ensures NetInv(w, Put(net, n, Event(net.active[n], m.from, p).0, Event(net.active[n], m.from, p).1))
  {
    assert MsgOk(w, net.sent, m);
    if m.packet.ReqClosest? {
      assert Asked(w, net.sent, m.from, n);
      RequestAt(w, net, n, m.from);
    } else {
      ArrivalIsTrue(w, net, m, net.active[n]);
      ReplyAt(w, net, n, m.from, p);
    }
  }

  lemma ReplyAt(w: World, net: Net, n: NodeIdent, from: NodeIdent, p: Incoming)
    requires w.Ok() && NetInv(w, net) && n in net.active && !p.Request?
      && TrueEvent(w, n, net.active[n], Arrived(from, p))
    ensures NetInv(w, Put(net, n, Event(net.active[n], from, p).0, Event(net.active[n], from, p).1))
  {
    var s := net.active[n];
    assert NodeOk(w, net.sent, n, s);
    EventSound(w, n, s, from, p);
    ReplyFrame(s, from, p);
    PutOk(w, net, n, Event(s, from, p).0, Event(s, from, p).1, {s.src.node});
  }

  lemma RequestAt(w: World, net: Net, n: NodeIdent, from: NodeIdent)
    requires w.Ok() && NetInv(w, net) && n in net.active && Asked(w, net.sent, from, n)
    ensures NetInv(w, Put(net, n, Event(net.active[n], from, Request).0, Event(net.active[n], from, Request).1))
  {
    var s := net.active[n];
    assert NodeOk(w, net.sent, n, s);
    EventSound(w, n, s, from, Request);
    EventFrame(s, from, Request, map[], {s.src.node, from});
    PutOk(w, net, n, Event(s, from, Request).0, Event(s, from, Request).1, {s.src.node, from});
  }

  lemma ReplyFrame(s: Search, from: NodeIdent, p: Incoming)
    requires !p.Request?
    ensures Framed(s, Event(s, from, p).0, Event(s, from, p).1, s.ringMembers, {s.src.node})
  {}

  lemma FirstArrival(w: World, net: Net, m: Msg, s: Search, cache: Latencies, found: map<NodeIdent, NodeIdent>)
    requires w.Ok() && NetInv(w, net) && m in net.sent && m.packet.ReqClosest? && m.to in w.overlay && NOBODY !in found
    requires s == NewSearch(w.num, w.den, NodeIdentRendv(m.from, m.packet.rendv), s.myRendv, w.targets)
    requires forall t :: t in cache ==> cache[t] == w.d(m.to, t)
    ensures NetInv(w, Put(net, m.to, Start(s, cache, found).0, Start(s, cache, found).1))
  {
    assert MsgOk(w, net.sent, m);
    assert Asked(w, net.sent, m.from, m.to);
    StartSound(w, m.to, s, cache, found);
    StartFrame(s, cache, found, {m.from});
    PutOk(w, net, m.to, Start(s, cache, found).0, Start(s, cache, found).1, {m.from});
  }

  lemma ReceiveOk(w: World, net: Net, m: Msg, cache: Latencies, found: map<NodeIdent, NodeIdent>, myRendv: NodeIdent)
    requires w.Ok() && NetInv(w, net) && Enabled(w, net, Deliver(m, cache, found, myRendv))
    requires m.packet.ReqClosest? ==> m.packet.den > 0
    ensures NetInv(w, Receive(net, m, cache, found, myRendv))
  {
    assert MsgOk(w, net.sent, m);
    if m.to in net.active {
      EventAt(w, net, m.to, m, AsIncoming(m.packet));
    } else if m.packet.ReqClosest? {
      var s := NewSearch(w.num, w.den, NodeIdentRendv(m.from, m.packet.rendv), myRendv, w.targets);
      FirstArrival(w, net, m, s, cache, found);
    }
  }

  lemma AskOk(w: World, net: Net, m: Msg)
    requires w.Ok() && NetInv(w, net) && m.from !in w.overlay && m.from != NOBODY
    requires m.packet.ReqClosest? && m.packet == Query(w, m.packet.rendv)
    ensures NetInv(w, net.(sent := net.sent + {m}))
  {
    MoreSent(w, net.sent, {m}, net);
  }

  lemma NextOk(w: World, net: Net, l: Label)
    requires w.Ok() && NetInv(w, net) && Enabled(w, net, l)
    ensures NetInv(w, Next(w, net, l))
  {
    match l
    case Ask(client, entry, rendv) => AskOk(w, net, Msg(client, entry, Query(w, rendv)));
    case Deliver(m, cache, found, myRendv) =>
      assert MsgOk(w, net.sent, m);
      ReceiveOk(w, net, m, cache, found, myRendv);
    case Measure(n, v, found) => LocalStep(w, net, n, Measured(v, found), found);
    case Timer(n) => LocalStep(w, net, n, TimedOut, map[]);
    case Forget(n) =>
  }

  // ---------------------------------------------------------------- whole runs

  /** states is a run of the network from the beginning. */
  ghost predicate IsRun(w: World, states: seq<Net>, labels: seq<Label>)
    requires w.Ok()
  {
    && |states| == |labels| + 1 && states[0] == Net(map[], {}) && NOBODY !in w.overlay
    && forall i :: 0 <= i < |labels| ==> Follows(w, states[i], labels[i], states[i + 1])
  }

  ghost predicate Follows(w: World, net: Net, l: Label, net': Net)
    requires w.Ok()
  {
    Enabled(w, net, l) && (NetInv(w, net) ==> net' == Next(w, net, l))
  }

  lemma {:induction false} RunKeepsInv(w: World, states: seq<Net>, labels: seq<Label>, i: nat)
    requires w.Ok() && IsRun(w, states, labels) && i < |states|
    ensures NetInv(w, states[i])
  {
    if i > 0 {
      RunKeepsInv(w, states, labels, i - 1);
      assert Follows(w, states[i - 1], labels[i - 1], states[i]);
      NextOk(w, states[i - 1], labels[i - 1]);
    }
  }

  /**
    Every reply in every run goes to a node that asked its sender, names a node whose rounded average latency is no
    worse than the sender's, and reports that node's true latency to every target. For a client this reads: the
    answer names a node no worse than the entry node it asked.
   */
  lemma RepliesAreTruthful(w: World, states: seq<Net>, labels: seq<Label>, i: nat, m: Msg)
    requires w.Ok() && IsRun(w, states, labels) && i < |states| && m in states[i].sent && m.packet.RetResponse?
    ensures Asked(w, states[i].sent, m.to, m.from)
    ensures w.Level(Resolve(m.packet.node, m.from)) <= w.Level(m.from)
    ensures m.packet.latencies == w.TrueRow(Resolve(m.packet.node, m.from))
  {
    RunKeepsInv(w, states, labels, i);
    assert MsgOk(w, states[i].sent, m);
  }

  /** a sent the query on to b. */
  ghost predicate Forwarded(w: World, sent: set<Msg>, a: NodeIdent, b: NodeIdent) {
    a in w.overlay && Asked(w, sent, a, b)
  }

  /** c is a chain of nodes each of which handed the query to the next. */
  ghost predicate Chain(w: World, sent: set<Msg>, c: seq<NodeIdent>) {
    c != [] && forall i :: 0 <= i < |c| - 1 ==> Forwarded(w, sent, c[i], c[i + 1])
  }

  lemma HopBounded(w: World, states: seq<Net>, labels: seq<Label>, i: nat, a: NodeIdent, b: NodeIdent)
    requires w.Ok() && IsRun(w, states, labels) && i < |states| && Forwarded(w, states[i].sent, a, b)
    ensures 0 < w.Level(b) <= Threshold(Beta(w.num, w.den), w.Level(a))
  {
    RunKeepsInv(w, states, labels, i);
    var rendv :| Msg(a, b, Query(w, rendv)) in states[i].sent;
    assert MsgOk(w, states[i].sent, Msg(a, b, Query(w, rendv)));
  }

  ghost function Levels(w: World, c: seq<NodeIdent>): (levels: seq<uint32>)
    requires w.Ok()
    ensures |levels| == |c| && forall i :: 0 <= i < |c| ==> levels[i] == w.Level(c[i])
  {
    seq(|c|, i requires 0 <= i < |c| => w.Level(c[i]))
  }

  lemma ChainDescends(w: World, states: seq<Net>, labels: seq<Label>, i: nat, c: seq<NodeIdent>)
    requires w.Ok() && IsRun(w, states, labels) && i < |states| && Chain(w, states[i].sent, c)
    ensures Descending(Beta(w.num, w.den), Levels(w, c))
  {
    var beta, levels := Beta(w.num, w.den), Levels(w, c);
    forall h | 0 <= h < |levels| - 1 ensures Passes(beta, levels[h], levels[h + 1]) {
      assert Forwarded(w, states[i].sent, c[h], c[h + 1]);
      HopBounded(w, states, labels, i, c[h], c[h + 1]);
    }
  }

  /**
    The routing bound. In every run, after h hops the rounded average latency is at most
    beta^h times where the chain began plus (1 - beta^h) / (2 (1 - beta)) of accumulated rounding,
    and it never grows on the way.
   */
  lemma ChainDecays(w: World, states: seq<Net>, labels: seq<Label>, i: nat, c: seq<NodeIdent>, h: nat)
    requires w.Ok() && IsRun(w, states, labels) && i < |states| && Chain(w, states[i].sent, c) && h < |c|
    ensures var beta := Beta(w.num, w.den);
      w.Level(c[h]) as real <= DecayBound(beta, w.Level(c[0]) as real, RealPower(beta, h))
    ensures forall g: nat :: g <= h ==> w.Level(c[h]) <= w.Level(c[g])
  {
    ChainDescends(w, states, labels, i, c);
    LevelsDecay(Beta(w.num, w.den), Levels(w, c), h);
    forall g: nat | g <= h ensures w.Level(c[h]) <= w.Level(c[g]) {
      LevelsNeverGrow(Beta(w.num, w.den), Levels(w, c), g, h);
    }
  }

  /**
    Where loops can occur at all: a query that comes back to a node has only visited nodes on one level, a level so
    low that its threshold is the level itself; by ThresholdStrict, (1 - beta) times the level is at most one half.
    That is why a looped request is answered with the node's own measurements.
   */
  lemma LoopsOnlyNearTheTargets(w: World, states: seq<Net>, labels: seq<Label>, i: nat, c: seq<NodeIdent>, g: nat)
    requires w.Ok() && IsRun(w, states, labels) && i < |states| && Chain(w, states[i].sent, c)
    requires |c| > 1 && c[|c| - 1] == c[0] && g < |c|
    ensures w.Level(c[g]) == w.Level(c[0])
    ensures Threshold(Beta(w.num, w.den), w.Level(c[g])) == w.Level(c[g])
  {
    ChainDescends(w, states, labels, i, c);
    LevelsThatReturn(Beta(w.num, w.den), Levels(w, c), g);
  }
}
