/**
  One node's part in a closest-node search (HandleClosestGeneric) as a state machine on values:
  ping the targets, ask the ring members for theirs, then answer or forward, and relay what comes back.
 */
module ClosestModel {
  import opened Base
  import opened Averages

  const MAX_UDP_PACKET_SIZE: nat := 1400

  datatype Packet =
    | ReqClosest(num: uint16, den: uint16, rendv: NodeIdent, targets: set<NodeIdent>)
    | RetResponse(node: NodeIdent, latencies: Latencies)
    | RetError
    | RetInfo(node: NodeIdent)

  /** Bytes on the wire: 13 bytes of type, query id and magic number, then the fields. */
  function PacketSize(p: Packet): nat {
    match p
    case ReqClosest(_, _, _, targets) => 27 + 6 * |targets|
    case RetResponse(_, latencies) => 23 + 10 * |latencies|
    case RetError => 13
    case RetInfo(_) => 19
  }

  datatype Out = Out(dest: NodeIdentRendv, packet: Packet)

  /** A packet that does not fit, or a request without targets, is dropped silently. */
  predicate Sendable(p: Packet) {
    PacketSize(p) <= MAX_UDP_PACKET_SIZE && (p.ReqClosest? ==> p.targets != {})
  }

  function Send(dest: NodeIdentRendv, p: Packet): seq<Out> {
    if Sendable(p) then [Out(dest, p)] else []
  }

  datatype Phase = Init | WaitForDirectPing | IndirectPing | WaitForFin

  function Rank(p: Phase): nat {
    match p
    case Init => 0
    case WaitForDirectPing => 1
    case IndirectPing => 2
    case WaitForFin => 3
  }

  type Rows = map<NodeIdent, Latencies>

  datatype Search = Search(
    num: uint16, den: uint16, src: NodeIdentRendv, myRendv: NodeIdent, targets: set<NodeIdent>,
    phase: Phase, finished: bool,
    remoteLat: Latencies, avg: uint32, ringMembers: map<NodeIdent, NodeIdent>, ringLat: Rows, selected: NodeIdent)

  function NewSearch(num: uint16, den: uint16, src: NodeIdentRendv, myRendv: NodeIdent,
                     targets: set<NodeIdent>): Search {
    Search(num, den, src, myRendv, targets, Init, false, map[], 0, map[], map[], NOBODY)
  }

  /** Nobody left to wait for: the answer is this node itself, which a (0,0) stands for. */
  function MyAnswer(s: Search): Packet {
    RetResponse(NOBODY, s.remoteLat)
  }

  // ---------------------------------------------------------------- the closest responder

  /** The average of an answered row; rows without entries are skipped. */
  ghost predicate Counts(row: Latencies, avg: nat) {
    row != map[] && Average(row) == avg
  }

  /** c answered with the least average below UINT_MAX, the first such in iteration order; NOBODY if there is none. */
  ghost predicate IsClosest(rows: Rows, c: NodeIdent, low: nat) {
    if low == UINT_MAX then c == NOBODY && forall x :: x in rows && rows[x] != map[] ==> Average(rows[x]) == UINT_MAX
    else
      && low < UINT_MAX && c in rows && Counts(rows[c], low)
      && forall x :: x in rows && x != c && rows[x] != map[] ==>
           low < Average(rows[x]) || (low == Average(rows[x]) && NodeLess(c, x))
  }

  lemma {:induction false} ClosestAmong(rows: Rows, s: set<NodeIdent>) returns (c: NodeIdent)
    requires s != {} && s <= rows.Keys && forall x :: x in s ==> rows[x] != map[]
    ensures c in s
    ensures forall x :: x in s && x != c ==>
      Average(rows[c]) < Average(rows[x]) || (Average(rows[c]) == Average(rows[x]) && NodeLess(c, x))
  {
    var x :| x in s;
    if s == {x} {
      c := x;
    } else {
      var m := ClosestAmong(rows, s - {x});
      c := if Average(rows[x]) < Average(rows[m]) || (Average(rows[x]) == Average(rows[m]) && NodeLess(x, m)) then x
        else m;
      assert forall y :: y in s ==> y == x || y in s - {x};
    }
  }

  lemma ClosestExists(rows: Rows)
    ensures exists c, low :: IsClosest(rows, c, low)
  {
    var s := set x | x in rows && rows[x] != map[] && Average(rows[x]) < UINT_MAX;
    if s == {} {
      forall x | x in rows && rows[x] != map[] ensures Average(rows[x]) == UINT_MAX { assert x !in s; }
      assert IsClosest(rows, NOBODY, UINT_MAX);
    } else {
      var c := ClosestAmong(rows, s);
      forall x | x in rows && x != c && rows[x] != map[]
        ensures Average(rows[c]) < Average(rows[x]) || (Average(rows[c]) == Average(rows[x]) && NodeLess(c, x))
      {
        if x !in s { assert Average(rows[x]) == UINT_MAX; }
      }
      assert IsClosest(rows, c, Average(rows[c]));
    }
  }

  lemma ClosestUnique(rows: Rows, c1: NodeIdent, low1: nat, c2: NodeIdent, low2: nat)
    requires IsClosest(rows, c1, low1) && IsClosest(rows, c2, low2)
    ensures c1 == c2 && low1 == low2
  {}

  ghost function Closest(rows: Rows): (r: (NodeIdent, nat))
    ensures IsClosest(rows, r.0, r.1)
  {
    ClosestExists(rows);
    var c, low :| IsClosest(rows, c, low);
    (c, low)
  }

  // ---------------------------------------------------------------- transitions

  /** Nobody is enough closer: answer with the closest responder when it beats this node, otherwise with this node. */
  function Answer(s: Search, c: NodeIdent, low: nat): (Search, seq<Out>)
    requires low < s.avg ==> c in s.ringLat
  {
    var answer := if low < s.avg then RetResponse(c, s.ringLat[c]) else MyAnswer(s);
    (s.(finished := true), Send(s.src, answer))
  }

  /** Hand the query over to c and wait for what it sends back; give up when the request cannot be built. */
  function HandOver(s: Search, c: NodeIdent): (Search, seq<Out>) {
    var request := ReqClosest(s.num, s.den, s.myRendv, s.targets);
    var dest := NodeIdentRendv(c, if c in s.ringMembers then s.ringMembers[c] else NOBODY);
    if Sendable(request) then (s.(selected := c, phase := WaitForFin), [Out(dest, request)])
    else (s.(finished := true), [])
  }

  /** handleForward with the threshold computed. */
  ghost function ForwardAt(s: Search, threshold: nat): (Search, seq<Out>) {
    var (c, low) := Closest(s.ringLat);
    if low == 0 || low > threshold then Answer(s, c, low) else HandOver(s, c)
  }

  ghost function Forward(s: Search): (Search, seq<Out>)
    requires s.den > 0
  {
    ForwardAt(s, Threshold(Beta(s.num, s.den), s.avg))
  }

  /** With nobody to ask this node is the answer. */
  function AskOrAnswer(s: Search, found: map<NodeIdent, NodeIdent>): (Search, seq<Out>) {
    var t := if s.avg == 0 then s else s.(ringMembers := found);
    if t.avg == 0 || found == map[] then (t.(finished := true), Send(s.src, MyAnswer(t))) else (t, [])
  }

  /** sendReqProbes: all direct latencies are in; `found` is what fillVector answers. */
  ghost function SendProbes(s: Search, found: map<NodeIdent, NodeIdent>): (Search, seq<Out>)
    requires s.den > 0
  {
    if s.phase != WaitForDirectPing || |s.remoteLat| != |s.targets| then (s, [])
    else if s.remoteLat == map[] then (s.(finished := true), [])
    else AskOrAnswer(s.(avg := Average(s.remoteLat), phase := IndirectPing), found)
  }

  /** init: take what the cache knows, tell the source, and go on at once when nothing is missing. */
  ghost function Start(s: Search, cache: Latencies, found: map<NodeIdent, NodeIdent>): (Search, seq<Out>)
    requires s.den > 0
  {
    var s1 := s.(remoteLat := map t | t in s.targets && t in cache :: cache[t], phase := WaitForDirectPing);
    var (s2, out) := if |s1.remoteLat| == |s1.targets| then SendProbes(s1, found) else (s1, []);
    (s2, [Out(s.src, RetInfo(NOBODY))] + out)
  }

  /** The row a ring member reported: entries after the first; none when one of them is no target. */
  function RowOf(v: seq<NodeIdentLat>, targets: set<NodeIdent>): Option<Latencies>
    requires v != []
  {
    if |v| == 1 then Some(map[])
    else
      var front, last := RowOf(v[..|v| - 1], targets), v[|v| - 1];
      if front.None? || last.node !in targets then None else Some(front.value[last.node := last.latencyUS])
  }

  /** A direct measurement of one target. */
  ghost function DirectLatency(s: Search, v: seq<NodeIdentLat>, found: map<NodeIdent, NodeIdent>): (Search, seq<Out>)
    requires s.den > 0
  {
    if |s.remoteLat| == |s.targets| then SendProbes(s, found)
    else if |v| != 1 || v[0].node !in s.targets || v[0].node in s.remoteLat then (s, [])
    else
      var s1 := s.(remoteLat := s.remoteLat[v[0].node := v[0].latencyUS]);
      if |s1.remoteLat| != |s1.targets| then (s1, []) else SendProbes(s1, found)
  }

  /** A ring member's row; the last one to come in decides. */
  ghost function IndirectLatency(s: Search, v: seq<NodeIdentLat>): (Search, seq<Out>)
    requires s.den > 0
  {
    if v == [] || v[0].node !in s.ringMembers || v[0].node in s.ringLat then (s, [])
    else
      var row := RowOf(v, s.targets);
      if row.None? || |row.value| != |s.targets| then (s, [])
      else
        var s1 := s.(ringLat := s.ringLat[v[0].node := row.value]);
        if |s1.ringMembers| != |s1.ringLat| then (s1, []) else Forward(s1)
  }

  /** handleLatency. */
  ghost function Latency(s: Search, v: seq<NodeIdentLat>, found: map<NodeIdent, NodeIdent>): (Search, seq<Out>)
    requires s.den > 0
  {
    match s.phase
    case WaitForDirectPing => DirectLatency(s, v, found)
    case IndirectPing => IndirectLatency(s, v)
    case _ => (s, [])
  }

  /** What an incoming packet turns out to be; None where its body does not parse. */
  datatype Incoming =
    | Request                                     // the same kind of query again
    | Response(body: Option<(NodeIdent, Latencies)>)
    | Error(ok: bool)
    | Info(about: Option<NodeIdent>)
    | Other

  /** A reply that names (0,0) means its sender. */
  function Resolve(node: NodeIdent, from: NodeIdent): NodeIdent {
    if node == NOBODY then from else node
  }

  /** What the selected member sends goes back to the source; its verdict ends the search. */
  function Relay(s: Search, from: NodeIdent, p: Incoming): (Search, seq<Out>) {
    match p
    case Response(Some((node, latencies))) =>
      (s.(finished := true), Send(s.src, RetResponse(Resolve(node, from), latencies)))
    case Error(true) => (s.(finished := true), Send(s.src, RetError))
    case Info(Some(node)) => (s, Send(s.src, RetInfo(Resolve(node, from))))
    case _ => (s, [])
  }

  /** handleEvent: only a search that has handed its query over listens; a query that comes round again is answered. */
  function Event(s: Search, from: NodeIdent, p: Incoming): (Search, seq<Out>) {
    if s.phase != WaitForFin then (s, [])
    else if p.Request? then (s, Send(NodeIdentRendv(from, NOBODY), MyAnswer(s)))
    else if from != s.selected then (s, [])
    else Relay(s, from, p)
  }

  /** handleTimeout. */
  ghost function Expire(s: Search): (Search, seq<Out>)
    requires s.den > 0
  {
    match s.phase
    case Init => (s.(finished := true), [])
    case WaitForDirectPing => (s.(finished := true), Send(s.src, RetError))
    case IndirectPing => Forward(s)
    case WaitForFin => (s.(finished := true), Send(s.src, RetError))
  }

  datatype SearchEvent =
    | Measured(v: seq<NodeIdentLat>, found: map<NodeIdent, NodeIdent>)
    | Arrived(from: NodeIdent, p: Incoming)
    | TimedOut

  ghost function Step(s: Search, e: SearchEvent): (Search, seq<Out>)
    requires s.den > 0
  {
    match e
    case Measured(v, found) => Latency(s, v, found)
    case Arrived(from, p) => Event(s, from, p)
    case TimedOut => Expire(s)
  }

  // ---------------------------------------------------------------- what every step keeps

  /** The rows are complete: every responder is a ring member and reported on exactly the targets. */
  ghost predicate RowsOk(s: Search) {
    forall m :: m in s.ringLat ==> m in s.ringMembers && s.ringLat[m].Keys == s.targets
  }

  /** The invariant of an unfinished search after init. */
  ghost predicate Inv(s: Search) {
    && s.den > 0
    && s.phase != Init
    && s.remoteLat.Keys <= s.targets
    && RowsOk(s)
    && (s.phase == WaitForDirectPing ==> s.ringLat == map[] && s.ringMembers == map[])
    && (Rank(s.phase) >= Rank(IndirectPing) ==>
          s.targets != {} && s.remoteLat.Keys == s.targets && s.avg == Average(s.remoteLat))
    && (s.phase == WaitForFin ==> s.selected in s.ringLat)
  }

  /** A search that waits for its selected member chose one that is enough closer. */
  ghost predicate HopOk(s: Search)
    requires s.den > 0
  {
    s.phase == WaitForFin ==>
      && s.selected in s.ringLat && s.ringLat[s.selected] != map[]
      && 0 < Average(s.ringLat[s.selected]) <= Threshold(Beta(s.num, s.den), s.avg)
  }

  /** A final reply to the source of the query. */
  predicate IsFinal(p: Packet) {
    p.RetResponse? || p.RetError?
  }

  /** A packet that came out of a datagram was not longer than one. */
  predicate Fits(p: Incoming) {
    p.Response? && p.body.Some? ==> PacketSize(RetResponse(p.body.value.0, p.body.value.1)) <= MAX_UDP_PACKET_SIZE
  }

  /** What the step from s to t with these packets may do. */
  ghost predicate StepOk(s: Search, e: SearchEvent, t: Search, out: seq<Out>) {
    && (t.num, t.den, t.src, t.targets) == (s.num, s.den, s.src, s.targets)
    && Rank(t.phase) >= Rank(s.phase)
    && (!t.finished ==> Inv(t))
    // no final reply before the end, except to somebody whose request came round in a loop
    && (!t.finished ==> forall o :: o in out && IsFinal(o.packet) ==>
          e.Arrived? && e.p.Request? && o == Out(NodeIdentRendv(e.from, NOBODY), MyAnswer(s)))
    // the finishing step answers the source exactly once
    && (t.finished && 1 <= |s.targets| <= 137 ==> |out| == 1 && out[0].dest == s.src && IsFinal(out[0].packet))
  }

  lemma SizesMatch(s: Search)
    requires s.remoteLat.Keys <= s.targets && |s.remoteLat| == |s.targets|
    ensures s.remoteLat.Keys == s.targets
  {
    assert |s.remoteLat.Keys| == |s.remoteLat|;
    SubsetFull(s.remoteLat.Keys, s.targets);
  }
}
