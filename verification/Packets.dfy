/**
  Packets as bytes: the common header, node addresses, and the reply of a closest-node search.
  Printers take what follows as an argument, so that a packet reads from left to right.
 */
module Packets {
  import opened Base
  import opened Averages
  import opened Wire
  import opened ClosestModel

  const RET_RESPONSE: byte := 9
  const PUSH: byte := 11
  const PULL: byte := 12

  // ---------------------------------------------------------------- header and addresses

  /** Type, query id in two halves, and the application's magic number. */
  ghost function PutHeader(kind: byte, id: (uint32, uint32), magic: uint32, tail: seq<byte>): (b: seq<byte>)
    ensures |b| == 13 + |tail|
  {
    [kind] + (Word(id.0) + (Word(id.1) + (Word(magic) + tail)))
  }

  /** A header of the given kind with the right magic number; the query id is not looked at. */
  function TakeHeader(rd: Reader, kind: byte, magic: uint32): (r: (bool, Reader))
    ensures r.0 ==> !r.1.error && !rd.error && |r.1.rest| == |rd.rest| - 13
  {
    var (k, r1) := TakeByte(rd);
    var (_, r2) := TakeWord(r1);
    var (_, r3) := TakeWord(r2);
    var (m, r4) := TakeWord(r3);
    (!r4.error && k == kind && m == magic, r4)
  }

  lemma TakeHeaderBack(kind: byte, id: (uint32, uint32), magic: uint32, tail: seq<byte>)
    ensures TakeHeader(Reader(PutHeader(kind, id, magic, tail), false), kind, magic) == (true, Reader(tail, false))
  {
    TakeByteBack(kind, Word(id.0) + (Word(id.1) + (Word(magic) + tail)));
    TakeWordBack(id.0, Word(id.1) + (Word(magic) + tail));
    TakeWordBack(id.1, Word(magic) + tail);
    TakeWordBack(magic, tail);
  }

  ghost function PutNode(n: NodeIdent, tail: seq<byte>): (b: seq<byte>)
    ensures |b| == 6 + |tail|
  {
    Word(n.addr) + (Half(n.port) + tail)
  }

  function TakeNode(rd: Reader): (r: (NodeIdent, Reader))
    ensures !r.1.error ==> !rd.error && |r.1.rest| == |rd.rest| - 6
  {
    var (addr, r1) := TakeWord(rd);
    var (port, r2) := TakeHalf(r1);
    (NodeIdent(addr, port), r2)
  }

  lemma TakeNodeBack(n: NodeIdent, tail: seq<byte>)
    ensures TakeNode(Reader(PutNode(n, tail), false)) == (n, Reader(tail, false))
  {
    TakeWordBack(n.addr, Half(n.port) + tail);
    TakeHalfBack(n.port, tail);
  }

  // ---------------------------------------------------------------- RetResponse

  ghost function PutEntries(m: Latencies, keys: seq<NodeIdent>, tail: seq<byte>): (b: seq<byte>)
    requires forall k :: k in keys ==> k in m
    ensures |b| == 10 * |keys| + |tail|
  {
    if keys == [] then tail else PutNode(keys[0], Word(m[keys[0]]) + PutEntries(m, keys[1..], tail))
  }

  /** createRealPacket: the node, then the latencies in map order. */
  ghost function PutResponse(id: (uint32, uint32), magic: uint32, node: NodeIdent, m: Latencies): seq<byte> {
    PutHeader(RET_RESPONSE, id, magic, PutNode(node, Word(|m|) + PutEntries(m, Ascending(m.Keys), [])))
  }

  function TakeEntries(rd: Reader, n: nat, m: Latencies): (Latencies, Reader)
    decreases n
  {
    if n == 0 || rd.error then (m, rd)
    else
      var (node, r1) := TakeNode(rd);
      var (latencyUS, r2) := TakeWord(r1);
      TakeEntries(r2, n - 1, m[node := latencyUS])
  }

  /** parse: a node of (0,0) means whoever sent the packet. */
  function ParseResponse(from: NodeIdent, magic: uint32, b: seq<byte>): Option<(NodeIdent, Latencies)> {
    var (ok, r1) := TakeHeader(Reader(b, false), RET_RESPONSE, magic);
    if !ok then None
    else
      var (node, r2) := TakeNode(r1);
      var (n, r3) := TakeWord(r2);
      var (m, r4) := TakeEntries(r3, n, map[]);
      if r4.error then None else Some((Resolve(node, from), m))
  }

  lemma {:induction false} TakeEntriesBack(m: Latencies, keys: seq<NodeIdent>, known: Latencies, tail: seq<byte>)
    requires forall k :: k in keys ==> k in m
    requires forall k :: k in known ==> k in m && known[k] == m[k]
    ensures var (all, rd) := TakeEntries(Reader(PutEntries(m, keys, tail), false), |keys|, known);
      && rd == Reader(tail, false)
      && (forall k :: k in all <==> k in known || k in keys)
      && (forall k :: k in all ==> k in m && all[k] == m[k])
    decreases |keys|
  {
    if keys != [] {
      var rest := PutEntries(m, keys[1..], tail);
      TakeNodeBack(keys[0], Word(m[keys[0]]) + rest);
      TakeWordBack(m[keys[0]], rest);
      TakeEntriesBack(m, keys[1..], known[keys[0] := m[keys[0]]], tail);
      assert forall k :: k in keys <==> k == keys[0] || k in keys[1..];
    }
  }

  /** A reply arrives as it was sent, naming its sender where it said "myself"; and it is as long as the model says. */
  lemma ResponseRoundTrip(from: NodeIdent, id: (uint32, uint32), magic: uint32, node: NodeIdent, m: Latencies)
    requires |m| <= UINT_MAX
    ensures |PutResponse(id, magic, node, m)| == PacketSize(RetResponse(node, m))
    ensures ParseResponse(from, magic, PutResponse(id, magic, node, m)) == Some((Resolve(node, from), m))
  {
    var keys := Ascending(m.Keys);
    var entries := PutEntries(m, keys, []);
    var body := Word(|m|) + entries;
    TakeHeaderBack(RET_RESPONSE, id, magic, PutNode(node, body));
    TakeNodeBack(node, body);
    TakeWordBack(|m|, entries);
    TakeEntriesBack(m, keys, map[], []);
    assert |keys| == |m.Keys| == |m|;
    var all := TakeEntries(Reader(entries, false), |keys|, map[]).0;
    assert all.Keys == m.Keys && all == m;
  }

  /** Whatever the datagram, what parses as a reply had room for its entries: at most one for every ten bytes. */
  lemma {:induction false} EntriesPaidFor(rd: Reader, n: nat, m: Latencies)
    ensures var (all, next) := TakeEntries(rd, n, m);
      !next.error ==> 10 * n == |rd.rest| - |next.rest| && |all| <= |m| + n
    decreases n
  {
    if n > 0 && !rd.error {
      var (node, r1) := TakeNode(rd);
      var (latencyUS, r2) := TakeWord(r1);
      var m1 := m[node := latencyUS];
      assert m1.Keys == m.Keys + {node};
      assert |m1| <= |m| + 1 by { SubsetSize(m1.Keys - {node}, m.Keys); }
      EntriesPaidFor(r2, n - 1, m1);
    }
  }

  /** So a reply that came in a datagram fits one when it is passed on. */
  lemma ParsedFits(from: NodeIdent, magic: uint32, b: seq<byte>)
    requires |b| <= MAX_UDP_PACKET_SIZE
    ensures Fits(Response(ParseResponse(from, magic, b)))
  {
    var (ok, r1) := TakeHeader(Reader(b, false), RET_RESPONSE, magic);
    if ok {
      var (node, r2) := TakeNode(r1);
      var (n, r3) := TakeWord(r2);
      if !r3.error { EntriesPaidFor(r3, n, map[]); } else { EntriesErr(r3, n); }
    }
  }

  lemma EntriesErr(rd: Reader, n: nat)
    requires rd.error
    ensures TakeEntries(rd, n, map[]).1.error
  {}

  // ---------------------------------------------------------------- building and parsing in place

  method EmitHeader(pkt: RealPacket, kind: byte, id: (uint32, uint32), magic: uint32, ghost w0: Writer,
                    ghost rest: seq<byte>, ghost all: seq<byte>) returns (ghost done: seq<byte>)
    requires pkt.Valid() && w0 == pkt.State() && |w0.bytes| <= w0.maxSize && all == PutHeader(kind, id, magic, rest)
    modifies pkt, pkt.packet
    ensures pkt.Valid() && Wrote(w0, pkt.State(), done) && done + rest == all
  {
    var id0 := ToNetwork(id.0);
    var id1 := ToNetwork(id.1);
    var m := ToNetwork(magic);
    done := [];
    Emit(pkt, [kind], w0, done, id0 + (id1 + (m + rest)), all);
    done := done + [kind];
    Emit(pkt, id0, w0, done, id1 + (m + rest), all);
    done := done + id0;
    Emit(pkt, id1, w0, done, m + rest, all);
    done := done + id1;
    Emit(pkt, m, w0, done, rest, all);
    done := done + m;
  }

  method EmitNode(pkt: RealPacket, n: NodeIdent, ghost w0: Writer, ghost before: seq<byte>, ghost rest: seq<byte>,
                  ghost all: seq<byte>) returns (ghost done: seq<byte>)
    requires pkt.Valid() && Wrote(w0, pkt.State(), before) && before + PutNode(n, rest) == all
    modifies pkt, pkt.packet
    ensures pkt.Valid() && Wrote(w0, pkt.State(), done) && done + rest == all
  {
    var addr := ToNetwork(n.addr);
    var port := ToNetworkShort(n.port);
    Emit(pkt, addr, w0, before, port + rest, all);
    Emit(pkt, port, w0, before + addr, rest, all);
    done := before + addr + port;
  }

  /** RetResponse::createRealPacket: 0 when the reply fits the packet, -1 otherwise. */
  method CreateResponse(id: (uint32, uint32), magic: uint32, node: NodeIdent, m: Latencies, pkt: RealPacket)
    returns (ret: int)
    requires pkt.Valid() && pkt.State() == Writer([], true, pkt.packet.Length) && |m| <= UINT_MAX
    modifies pkt, pkt.packet
    ensures pkt.Valid() && Wrote(old(pkt.State()), pkt.State(), PutResponse(id, magic, node, m))
    ensures ret == if PacketSize(RetResponse(node, m)) <= pkt.packet.Length then 0 else -1
  {
    ghost var w0, all := pkt.State(), PutResponse(id, magic, node, m);
    var keys := Iterate(m.Keys);
    ghost var entries := PutEntries(m, keys, []);
    ghost var body := Word(|m|) + entries;
    ghost var done := EmitHeader(pkt, RET_RESPONSE, id, magic, w0, PutNode(node, body), all);
    done := EmitNode(pkt, node, w0, done, body, all);
    var count := ToNetwork(|m|);
    Emit(pkt, count, w0, done, entries, all);
    done := done + count;
    EmitEntries(pkt, m, keys, w0, done, all);
    assert |keys| == |m.Keys| == |m|;
    ret := if pkt.complete then 0 else -1;
  }

  method EmitEntries(pkt: RealPacket, m: Latencies, keys: seq<NodeIdent>, ghost w0: Writer, ghost before: seq<byte>,
                     ghost all: seq<byte>)
    requires pkt.Valid() && forall k :: k in keys ==> k in m
    requires Wrote(w0, pkt.State(), before) && before + PutEntries(m, keys, []) == all
    modifies pkt, pkt.packet
    ensures pkt.Valid() && Wrote(w0, pkt.State(), all)
  {
    ghost var done := before;
    var i := 0;
    assert keys[0..] == keys;
    while i < |keys|
      invariant i <= |keys| && pkt.Valid() && Wrote(w0, pkt.State(), done)
      invariant done + PutEntries(m, keys[i..], []) == all
    {
      assert keys[i..][1..] == keys[i + 1..];
      ghost var rest := PutEntries(m, keys[i + 1..], []);
      done := EmitNode(pkt, keys[i], w0, done, Word(m[keys[i]]) + rest, all);
      var latencyUS := ToNetwork(m[keys[i]]);
      Emit(pkt, latencyUS, w0, done, rest, all);
      done := done + latencyUS;
      i := i + 1;
    }
    assert done == all;
  }

  method RetrieveHeader(bw: BufferWrapper, kind: byte, magic: uint32) returns (ok: bool)
    requires bw.Valid()
    modifies bw
    ensures bw.Valid() && (ok, bw.State()) == TakeHeader(old(bw.State()), kind, magic)
  {
    var queryType := bw.RetrieveChar();
    var _ := bw.RetrieveUInt();
    var _ := bw.RetrieveUInt();
    var magicNumber := bw.RetrieveUInt();
    ok := !bw.errorFlag && queryType == kind && magicNumber == magic;
  }

  method RetrieveNode(bw: BufferWrapper) returns (n: NodeIdent)
    requires bw.Valid()
    modifies bw
    ensures bw.Valid() && (n, bw.State()) == TakeNode(old(bw.State()))
  {
    var addr := bw.RetrieveUInt();
    var port := bw.RetrieveUShort();
    n := NodeIdent(addr, port);
  }

  /** RetResponse::parse. */
  method ParseResponsePacket(inRemote: NodeIdent, magic: uint32, buf: seq<byte>)
    returns (r: Option<(NodeIdent, Latencies)>)
    ensures r == ParseResponse(inRemote, magic, buf)
  {
    var bw := new BufferWrapper(buf);
    var ok := RetrieveHeader(bw, RET_RESPONSE, magic);
    if !ok {
      return None;
    }
    var closest := RetrieveNode(bw);
    if closest == NOBODY {
      closest := inRemote;
    }
    var numEntry := bw.RetrieveUInt();
    var m := RetrieveEntries(bw, numEntry);
    r := if bw.errorFlag then None else Some((closest, m));
  }

  method RetrieveEntries(bw: BufferWrapper, n: nat) returns (m: Latencies)
    requires bw.Valid()
    modifies bw
    ensures bw.Valid() && (m, bw.State()) == TakeEntries(old(bw.State()), n, map[])
  {
    ghost var rd := bw.State();
    m := map[];
    var i := 0;
    while i < n && !bw.errorFlag
      invariant i <= n && bw.Valid()
      invariant TakeEntries(bw.State(), n - i, m) == TakeEntries(rd, n, map[])
      decreases n - i
    {
      var node := RetrieveNode(bw);
      var latencyUS := bw.RetrieveUInt();
      m := m[node := latencyUS];
      i := i + 1;
    }
  }
}
