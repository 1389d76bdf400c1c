/**
  The rendezvous tunnel. A packet for a node behind a firewall is wrapped as PUSH, sent to the node's rendezvous host,
  turned there into a PULL frame, and cut out of the TCP stream again at its destination.
 */
module Rendezvous {
  import opened Base
  import opened Averages
  import opened Wire
  import opened Packets
  import opened ClosestModel

  // ---------------------------------------------------------------- PUSH and PULL

  ghost function PushBytes(dest: NodeIdent, payload: seq<byte>, magic: uint32): (b: seq<byte>)
    ensures |b| == 19 + |payload|
  {
    PutHeader(PUSH, (0, 0), magic, PutNode(dest, payload))
  }

  /** A PULL header announcing n bytes of payload, and what follows. */
  ghost function PullBytes(src: NodeIdent, n: nat, magic: uint32, tail: seq<byte>): (b: seq<byte>)
    ensures |b| == 23 + |tail|
  {
    PutHeader(PULL, (0, 0), magic, PutNode(src, Word(n) + tail))
  }

  ghost function Frame(m: Message, magic: uint32): (b: seq<byte>)
    ensures |b| == 23 + |m.payload|
  {
    PullBytes(m.src, |m.payload|, magic, m.payload)
  }

  /** What comes out of the tunnel: the bytes one node sent, and its address. */
  datatype Message = Message(src: NodeIdent, payload: seq<byte>)

  /** The PUSH case at the rendezvous host: whom to relay to, and what was pushed. */
  function TakePush(b: seq<byte>, magic: uint32): Option<(NodeIdent, seq<byte>)> {
    var (ok, r1) := TakeHeader(Reader(b, false), PUSH, magic);
    if !ok then None
    else
      var (dest, r2) := TakeNode(r1);
      if r2.error then None else Some((dest, r2.rest))
  }

  /** PushPacket::parse at the host that got b from `from`: the frame to relay, unless it does not fit a packet. */
  ghost function Relayed(from: NodeIdent, b: seq<byte>, magic: uint32): Option<(NodeIdent, seq<byte>)> {
    var p := TakePush(b, magic);
    if p.None? || 23 + |p.value.1| > MAX_UDP_PACKET_SIZE then None
    else Some((p.value.0, Frame(Message(from, p.value.1), magic)))
  }

  /** performSend for a node with a rendezvous host. */
  ghost function Wrapped(dest: NodeIdent, payload: seq<byte>, magic: uint32): Option<seq<byte>> {
    if 19 + |payload| > MAX_UDP_PACKET_SIZE then None else Some(PushBytes(dest, payload, magic))
  }

  /** PullPacket::parse: the first message of the buffer, if all of it is there, and what stays behind it. */
  function TakePull(b: seq<byte>, magic: uint32): Option<(Message, seq<byte>)> {
    var (ok, r1) := TakeHeader(Reader(b, false), PULL, magic);
    if !ok then None
    else
      var (src, r2) := TakeNode(r1);
      var (n, r3) := TakeWord(r2);
      if r3.error || |r3.rest| < n then None
      else Some((Message(src, r3.rest[..n]), r3.rest[n..]))
  }

  lemma PushBack(dest: NodeIdent, payload: seq<byte>, magic: uint32)
    ensures TakePush(PushBytes(dest, payload, magic), magic) == Some((dest, payload))
  {
    TakeHeaderBack(PUSH, (0, 0), magic, PutNode(dest, payload));
    TakeNodeBack(dest, payload);
  }

  lemma PullBack(src: NodeIdent, n: nat, magic: uint32, tail: seq<byte>)
    requires n <= UINT_MAX
    ensures TakePull(PullBytes(src, n, magic, tail), magic)
         == if |tail| < n then None else Some((Message(src, tail[..n]), tail[n..]))
  {
    TakeHeaderBack(PULL, (0, 0), magic, PutNode(src, Word(n) + tail));
    TakeNodeBack(src, Word(n) + tail);
    TakeWordBack(n, tail);
  }

  lemma PullAssoc(src: NodeIdent, n: nat, magic: uint32, a: seq<byte>, b: seq<byte>)
    ensures PullBytes(src, n, magic, a + b) == PullBytes(src, n, magic, a) + b
  {
    var x := Word(n) + (a + b);
    assert x == Word(n) + a + b;
    NodeAssoc(src, Word(n) + a, b);
    HeaderAssoc(PULL, (0, 0), magic, PutNode(src, Word(n) + a), b);
  }

  lemma NodeAssoc(src: NodeIdent, a: seq<byte>, b: seq<byte>)
    ensures PutNode(src, a + b) == PutNode(src, a) + b
  {}

  lemma HeaderAssoc(kind: byte, id: (uint32, uint32), magic: uint32, a: seq<byte>, b: seq<byte>)
    ensures PutHeader(kind, id, magic, a + b) == PutHeader(kind, id, magic, a) + b
  {
    assert Word(magic) + (a + b) == Word(magic) + a + b;
    assert Word(id.1) + (Word(magic) + a + b) == Word(id.1) + (Word(magic) + a) + b;
  }

  /**
    End to end: a payload that fits a PULL frame is wrapped, relayed to the right host, and comes out of the tunnel
    unchanged with its sender's address, whatever follows it in the stream.
   */
  lemma TunnelDelivers(from: NodeIdent, dest: NodeIdent, payload: seq<byte>, magic: uint32, later: seq<byte>)
    requires 23 + |payload| <= MAX_UDP_PACKET_SIZE
    ensures var pushed := Wrapped(dest, payload, magic);
      && pushed.Some?
      && var relayed := Relayed(from, pushed.value, magic);
      && relayed.Some? && relayed.value.0 == dest
      && TakePull(relayed.value.1 + later, magic) == Some((Message(from, payload), later))
  {
    PushBack(dest, payload, magic);
    FrameThenLater(Message(from, payload), magic, later);
  }

  lemma FrameThenLater(m: Message, magic: uint32, later: seq<byte>)
    requires |m.payload| <= UINT_MAX
    ensures TakePull(Frame(m, magic) + later, magic) == Some((m, later))
  {
    PullAssoc(m.src, |m.payload|, magic, m.payload, later);
    PullBack(m.src, |m.payload|, magic, m.payload + later);
    assert (m.payload + later)[..|m.payload|] == m.payload && (m.payload + later)[|m.payload|..] == later;
  }

  /** The sender's check is weaker: payloads of 1378 to 1381 bytes are sent off but cannot be relayed. */
  lemma LostAtTheHost(from: NodeIdent, dest: NodeIdent, payload: seq<byte>, magic: uint32)
    ensures Wrapped(dest, payload, magic).Some? && Relayed(from, PushBytes(dest, payload, magic), magic).None?
      <==> 1378 <= |payload| <= 1381
  {
    PushBack(dest, payload, magic);
  }

  // ---------------------------------------------------------------- the stream

  /** The frames of messages one after the other. */
  ghost function Stream(ms: seq<Message>, magic: uint32): seq<byte> {
    if ms == [] then [] else Frame(ms[0], magic) + Stream(ms[1..], magic)
  }

  lemma {:induction false} StreamAppend(ms: seq<Message>, m: Message, magic: uint32)
    ensures Stream(ms + [m], magic) == Stream(ms, magic) + Frame(m, magic)
  {
    if ms == [] {
      assert ms + [m] == [m];
      assert Stream([m], magic) == Frame(m, magic) + Stream([], magic);
    } else {
      assert (ms + [m])[1..] == ms[1..] + [m];
      StreamAppend(ms[1..], m, magic);
    }
  }

  predicate Small(ms: seq<Message>) {
    forall i :: 0 <= i < |ms| ==> 23 + |ms[i].payload| <= MAX_UDP_PACKET_SIZE
  }

  /** The receive buffer after a read: it holds the beginning of what is still to come. */
  ghost predicate Begins(buffer: seq<byte>, ms: seq<Message>, magic: uint32) {
    buffer <= Stream(ms, magic)
  }

  lemma ShortBuffer(b: seq<byte>, magic: uint32)
    requires |b| < 23
    ensures TakePull(b, magic).None?
  {}

  /** A frame is cut off exactly when all of its bytes have arrived. */
  lemma PullFromStream(buffer: seq<byte>, ms: seq<Message>, magic: uint32)
    requires Begins(buffer, ms, magic) && Small(ms)
    ensures var whole := ms != [] && |Frame(ms[0], magic)| <= |buffer|;
      if whole then
        TakePull(buffer, magic) == Some((ms[0], buffer[|Frame(ms[0], magic)|..]))
        && Begins(buffer[|Frame(ms[0], magic)|..], ms[1..], magic)
      else TakePull(buffer, magic).None? && |buffer| < MAX_UDP_PACKET_SIZE
  {
    if ms == [] || |buffer| < 23 {
      ShortBuffer(buffer, magic);
    } else {
      var f, rest := Frame(ms[0], magic), Stream(ms[1..], magic);
      if |f| <= |buffer| {
        var later := buffer[|f|..];
        assert buffer == f + later && later <= rest;
        FrameThenLater(ms[0], magic, later);
      } else {
        PartOfFrame(buffer, ms[0], magic, rest);
      }
    }
  }

  lemma PartOfFrame(buffer: seq<byte>, m: Message, magic: uint32, rest: seq<byte>)
    requires 23 <= |buffer| < |Frame(m, magic)| <= MAX_UDP_PACKET_SIZE && buffer <= Frame(m, magic) + rest
    ensures TakePull(buffer, magic).None?
  {
    var k := |buffer| - 23;
    PullAssoc(m.src, |m.payload|, magic, m.payload[..k], m.payload[k..]);
    assert m.payload == m.payload[..k] + m.payload[k..];
    assert buffer == PullBytes(m.src, |m.payload|, magic, m.payload[..k]);
    PullBack(m.src, |m.payload|, magic, m.payload[..k]);
  }

  /** The buffer, and the messages handed on so far. */
  datatype Tunnel = Tunnel(buffer: seq<byte>, delivered: seq<Message>)

  /** Cuts at most one message off the buffer. */
  function Cut(t: Tunnel, magic: uint32): Tunnel {
    match TakePull(t.buffer, magic)
    case None => t
    case Some((m, rest)) => Tunnel(rest, t.delivered + [m])
  }

  /** One read and one parse. */
  function Receive(t: Tunnel, chunk: seq<byte>, magic: uint32): Tunnel {
    Cut(t.(buffer := t.buffer + chunk), magic)
  }

  /** recv is given the free part of the buffer, so a read returns at least one byte and no more than fit. */
  predicate Fills(t: Tunnel, chunk: seq<byte>) {
    1 <= |chunk| <= MAX_UDP_PACKET_SIZE - |t.buffer|
  }

  ghost predicate IsRun(states: seq<Tunnel>, chunks: seq<seq<byte>>, magic: uint32) {
    && |states| == |chunks| + 1 && states[0] == Tunnel([], [])
    && forall i :: 0 <= i < |chunks| ==> Reads(states[i], chunks[i], states[i + 1], magic)
  }

  ghost predicate Reads(t: Tunnel, chunk: seq<byte>, next: Tunnel, magic: uint32) {
    Fills(t, chunk) && next == Receive(t, chunk, magic)
  }

  function Joined(chunks: seq<seq<byte>>): seq<byte> {
    if chunks == [] then [] else Joined(chunks[..|chunks| - 1]) + chunks[|chunks| - 1]
  }

  /** Everything received is accounted for: some messages delivered in order, the beginning of the others buffered. */
  ghost predicate Accounted(t: Tunnel, received: seq<byte>, ms: seq<Message>, magic: uint32) {
    && t.delivered <= ms
    && Stream(t.delivered, magic) + t.buffer == received
    && Begins(t.buffer, ms[|t.delivered|..], magic)
    && |t.buffer| < MAX_UDP_PACKET_SIZE
  }

  lemma {:induction false} StreamSplits(ms: seq<Message>, k: nat, magic: uint32)
    requires k <= |ms|
    ensures Stream(ms, magic) == Stream(ms[..k], magic) + Stream(ms[k..], magic)
  {
    if k > 0 {
      StreamSplits(ms[1..], k - 1, magic);
      assert ms[1..][..k - 1] == ms[..k][1..] && ms[1..][k - 1..] == ms[k..];
      assert ms[..k][0] == ms[0];
    } else {
      assert ms[..0] == [] && ms[0..] == ms;
    }
  }

  lemma BufferBegins(t: Tunnel, received: seq<byte>, chunk: seq<byte>, ms: seq<Message>, magic: uint32)
    requires Accounted(t, received, ms, magic) && received + chunk <= Stream(ms, magic)
    ensures Begins(t.buffer + chunk, ms[|t.delivered|..], magic)
  {
    var k := |t.delivered|;
    StreamSplits(ms, k, magic);
    assert ms[..k] == t.delivered;
    var head, tail := Stream(t.delivered, magic), Stream(ms[k..], magic);
    assert received + chunk == head + (t.buffer + chunk);
    assert (head + tail)[|head|..] == tail;
    assert t.buffer + chunk == (received + chunk)[|head|..];
  }

  lemma NextDelivered(delivered: seq<Message>, m: Message, magic: uint32, buffer: seq<byte>, all: seq<byte>)
    requires |Frame(m, magic)| <= |buffer| && buffer[..|Frame(m, magic)|] == Frame(m, magic)
    requires Stream(delivered, magic) + buffer == all
    ensures Stream(delivered + [m], magic) + buffer[|Frame(m, magic)|..] == all
  {
    StreamAppend(delivered, m, magic);
    var f := Frame(m, magic);
    assert buffer == f + buffer[|f|..];
    assert Stream(delivered, magic) + f + buffer[|f|..] == Stream(delivered, magic) + (f + buffer[|f|..]);
  }

  lemma FrameInFront(buffer: seq<byte>, ms: seq<Message>, magic: uint32)
    requires Begins(buffer, ms, magic) && ms != [] && |Frame(ms[0], magic)| <= |buffer|
    ensures buffer[..|Frame(ms[0], magic)|] == Frame(ms[0], magic)
  {
    var f, rest := Frame(ms[0], magic), Stream(ms[1..], magic);
    assert (f + rest)[..|f|] == f;
  }

  lemma DeliveredAccounted(delivered: seq<Message>, buffer: seq<byte>, received: seq<byte>, ms: seq<Message>,
                           magic: uint32)
    requires delivered < ms && Begins(buffer, ms[|delivered|..], magic) && |buffer| <= MAX_UDP_PACKET_SIZE
    requires Stream(delivered, magic) + buffer == received
    requires var f := Frame(ms[|delivered|], magic);
      |f| <= |buffer| && Begins(buffer[|f|..], ms[|delivered| + 1..], magic)
    ensures var m := ms[|delivered|];
      Accounted(Tunnel(buffer[|Frame(m, magic)|..], delivered + [m]), received, ms, magic)
  {
    var k := |delivered|;
    FrameInFront(buffer, ms[k..], magic);
    NextDelivered(delivered, ms[k], magic, buffer, received);
    assert delivered + [ms[k]] == ms[..k + 1];
  }

  /** What the parse makes of a buffer that accounts for everything received. */
  lemma ParseAccounted(delivered: seq<Message>, buffer: seq<byte>, received: seq<byte>, ms: seq<Message>, magic: uint32)
    requires delivered <= ms && Small(ms) && |buffer| <= MAX_UDP_PACKET_SIZE
    requires Begins(buffer, ms[|delivered|..], magic) && Stream(delivered, magic) + buffer == received
    ensures Accounted(Cut(Tunnel(buffer, delivered), magic), received, ms, magic)
  {
    var rest := ms[|delivered|..];
    PullFromStream(buffer, rest, magic);
    if rest != [] && |Frame(rest[0], magic)| <= |buffer| {
      assert rest[0] == ms[|delivered|] && rest[1..] == ms[|delivered| + 1..];
      DeliveredAccounted(delivered, buffer, received, ms, magic);
    }
  }

  lemma ReceiveAccounted(t: Tunnel, chunk: seq<byte>, received: seq<byte>, ms: seq<Message>, magic: uint32)
    requires Accounted(t, received, ms, magic) && Fills(t, chunk) && Small(ms)
    requires received + chunk <= Stream(ms, magic)
    ensures Accounted(Receive(t, chunk, magic), received + chunk, ms, magic)
  {
    BufferBegins(t, received, chunk, ms, magic);
    assert Stream(t.delivered, magic) + (t.buffer + chunk) == received + chunk;
    ParseAccounted(t.delivered, t.buffer + chunk, received + chunk, ms, magic);
  }

  /**
    Reassembly, for every way the stream of frames may be cut into reads: what was delivered are the first messages,
    complete and in order; their frames followed by the buffer are exactly the bytes received; and the buffer has
    room for the next read.
   */
  lemma {:induction false} StreamReassembles(states: seq<Tunnel>, chunks: seq<seq<byte>>, ms: seq<Message>,
                                             magic: uint32, k: nat)
    requires IsRun(states, chunks, magic) && Small(ms) && Joined(chunks) <= Stream(ms, magic) && k <= |chunks|
    ensures Accounted(states[k], Joined(chunks[..k]), ms, magic)
  {
    if k == 0 {
      assert chunks[..0] == [] && Stream([], magic) == [];
    } else {
      StreamReassembles(states, chunks, ms, magic, k - 1);
      assert Reads(states[k - 1], chunks[k - 1], states[k - 1 + 1], magic);
      assert chunks[..k][..k - 1] == chunks[..k - 1];
      JoinedPrefix(chunks, k);
      ReceiveAccounted(states[k - 1], chunks[k - 1], Joined(chunks[..k - 1]), ms, magic);
    }
  }

  lemma {:induction false} JoinedPrefix(chunks: seq<seq<byte>>, k: nat)
    requires k <= |chunks|
    ensures Joined(chunks[..k]) <= Joined(chunks)
    decreases |chunks|
  {
    if k < |chunks| {
      JoinedPrefix(chunks[..|chunks| - 1], k);
      assert chunks[..|chunks| - 1][..k] == chunks[..k];
    } else {
      assert chunks[..k] == chunks;
    }
  }

  // ---------------------------------------------------------------- frames left waiting

  /** Where the k-th frame begins, and the one before it ends, counted in bytes of the stream. */
  ghost function Offset(ms: seq<Message>, k: nat, magic: uint32): nat
    requires k <= |ms|
  {
    |Stream(ms[..k], magic)|
  }

  lemma {:induction false} OffsetsGrow(ms: seq<Message>, j: nat, k: nat, magic: uint32)
    requires j < k <= |ms|
    ensures Offset(ms, j, magic) < Offset(ms, k, magic)
    decreases k
  {
    assert ms[..k] == ms[..k - 1] + [ms[k - 1]];
    StreamAppend(ms[..k - 1], ms[k - 1], magic);
    if j < k - 1 { OffsetsGrow(ms, j, k - 1, magic); }
  }

  /** A complete frame has been read but not handed on. */
  predicate Waiting(t: Tunnel, magic: uint32) {
    TakePull(t.buffer, magic).Some?
  }

  /** With d frames handed on, the next one is complete among n bytes. */
  ghost predicate Pending(ms: seq<Message>, magic: uint32, d: nat, n: nat) {
    d < |ms| && Offset(ms, d + 1, magic) <= n
  }

  /** After any number of reads: a frame is left waiting exactly when the bytes read reach the end of the next one. */
  lemma FrameLeftWaiting(states: seq<Tunnel>, chunks: seq<seq<byte>>, ms: seq<Message>, magic: uint32, k: nat)
    requires IsRun(states, chunks, magic) && Small(ms) && Joined(chunks) <= Stream(ms, magic) && k <= |chunks|
    ensures var d := |states[k].delivered|;
      && d <= |ms| && Offset(ms, d, magic) <= |Joined(chunks[..k])|
      && (Waiting(states[k], magic) <==> Pending(ms, magic, d, |Joined(chunks[..k])|))
  {
    StreamReassembles(states, chunks, ms, magic, k);
    WaitingIsPending(states[k], Joined(chunks[..k]), ms, magic);
  }

  lemma WaitingIsPending(t: Tunnel, received: seq<byte>, ms: seq<Message>, magic: uint32)
    requires Accounted(t, received, ms, magic) && Small(ms)
    ensures var d := |t.delivered|;
      && d <= |ms| && Offset(ms, d, magic) <= |received|
      && (Waiting(t, magic) <==> Pending(ms, magic, d, |received|))
  {
    var d := |t.delivered|;
    assert t.delivered == ms[..d];
    PullFromStream(t.buffer, ms[d..], magic);
    if d < |ms| { OffsetOfNext(ms, d, magic); }
  }

  lemma OffsetOfNext(ms: seq<Message>, d: nat, magic: uint32)
    requires d < |ms|
    ensures Offset(ms, d + 1, magic) == Offset(ms, d, magic) + |Frame(ms[d], magic)|
  {
    assert ms[..d + 1] == ms[..d] + [ms[d]];
    StreamAppend(ms[..d], ms[d], magic);
  }

  /** Going from n bytes to n' completes two frames. */
  ghost predicate CompletesTwo(ms: seq<Message>, magic: uint32, n: nat, n': nat) {
    exists j :: 0 <= j < |ms| - 1 && EndsBoth(ms, magic, n, n', j)
  }

  ghost predicate EndsBoth(ms: seq<Message>, magic: uint32, n: nat, n': nat, j: nat)
    requires j + 1 < |ms|
  {
    n < Offset(ms, j + 1, magic) && Offset(ms, j + 2, magic) <= n'
  }

  lemma PendingMeansTwo(ms: seq<Message>, magic: uint32, d: nat, n: nat, n': nat)
    requires d <= |ms| && !Pending(ms, magic, d, n) && Offset(ms, d, magic) <= n
    ensures CompletesTwo(ms, magic, n, n') <==> Pending(ms, magic, d + 1, n')
  {
    if Pending(ms, magic, d + 1, n') { assert EndsBoth(ms, magic, n, n', d); }
    if j :| 0 <= j < |ms| - 1 && EndsBoth(ms, magic, n, n', j) {
      if j + 1 < d { OffsetsGrow(ms, j + 1, d, magic); }
      if d + 2 < j + 2 { OffsetsGrow(ms, d + 2, j + 2, magic); }
    }
  }

  lemma PendingAfter(ms: seq<Message>, magic: uint32, d: nat, e: nat, n: nat, n': nat, waits: bool)
    requires d <= |ms| && !Pending(ms, magic, d, n) && Offset(ms, d, magic) <= n
    requires (waits <==> Pending(ms, magic, e, n')) && (e == d + 1 || (e == d && !waits))
    ensures waits <==> CompletesTwo(ms, magic, n, n')
  {
    PendingMeansTwo(ms, magic, d, n, n');
    if d + 2 <= |ms| { OffsetsGrow(ms, d + 1, d + 2, magic); }
  }

  lemma OneAtATime(t: Tunnel, chunk: seq<byte>, magic: uint32)
    ensures var t' := Receive(t, chunk, magic);
      |t'.delivered| == |t.delivered| + 1 || (t'.delivered == t.delivered && !Waiting(t', magic))
  {}

  /** If nothing waits before a read, something waits after it exactly when the read completes two frames. */
  lemma ReadLeavesWaiting(states: seq<Tunnel>, chunks: seq<seq<byte>>, ms: seq<Message>, magic: uint32, k: nat)
    requires IsRun(states, chunks, magic) && Small(ms) && Joined(chunks) <= Stream(ms, magic) && k < |chunks|
    requires !Waiting(states[k], magic)
    ensures Waiting(states[k + 1], magic)
      <==> CompletesTwo(ms, magic, |Joined(chunks[..k])|, |Joined(chunks[..k + 1])|)
  {
    FrameLeftWaiting(states, chunks, ms, magic, k);
    FrameLeftWaiting(states, chunks, ms, magic, k + 1);
    assert Reads(states[k], chunks[k], states[k + 1], magic);
    OneAtATime(states[k], chunks[k], magic);
    PendingAfter(ms, magic, |states[k].delivered|, |states[k + 1].delivered|, |Joined(chunks[..k])|,
                 |Joined(chunks[..k + 1])|, Waiting(states[k + 1], magic));
  }

  /** Some read of the run completes two frames. */
  ghost predicate TwoInOneRead(chunks: seq<seq<byte>>, ms: seq<Message>, magic: uint32, k: nat)
    requires k < |chunks|
  {
    CompletesTwo(ms, magic, |Joined(chunks[..k])|, |Joined(chunks[..k + 1])|)
  }

  /** Over a whole run no complete frame is ever left waiting exactly when no single read completes two frames. */
  lemma {:induction false} NeverWaiting(states: seq<Tunnel>, chunks: seq<seq<byte>>, ms: seq<Message>, magic: uint32)
    requires IsRun(states, chunks, magic) && Small(ms) && Joined(chunks) <= Stream(ms, magic)
    ensures (forall k :: 0 <= k <= |chunks| ==> !Waiting(states[k], magic))
      <==> forall k :: 0 <= k < |chunks| ==> !TwoInOneRead(chunks, ms, magic, k)
  {
    if forall k :: 0 <= k <= |chunks| ==> !Waiting(states[k], magic) {
      forall k | 0 <= k < |chunks| ensures !TwoInOneRead(chunks, ms, magic, k) {
        ReadLeavesWaiting(states, chunks, ms, magic, k);
      }
    }
    if forall k :: 0 <= k < |chunks| ==> !TwoInOneRead(chunks, ms, magic, k) {
      forall k | 0 <= k <= |chunks| ensures !Waiting(states[k], magic) {
        NotWaitingYet(states, chunks, ms, magic, k);
      }
    }
  }

  lemma {:induction false} NotWaitingYet(states: seq<Tunnel>, chunks: seq<seq<byte>>, ms: seq<Message>, magic: uint32,
                                         k: nat)
    requires IsRun(states, chunks, magic) && Small(ms) && Joined(chunks) <= Stream(ms, magic) && k <= |chunks|
    requires forall i :: 0 <= i < |chunks| ==> !TwoInOneRead(chunks, ms, magic, i)
    ensures !Waiting(states[k], magic)
  {
    if k == 0 {
      ShortBuffer(states[0].buffer, magic);
    } else {
      NotWaitingYet(states, chunks, ms, magic, k - 1);
      assert !TwoInOneRead(chunks, ms, magic, k - 1);
      ReadLeavesWaiting(states, chunks, ms, magic, k - 1);
    }
  }

  /** Two frames that fit one read together: the second waits for the next read, however late that comes. */
  lemma SecondFrameWaits(a: Message, b: Message, magic: uint32)
    requires Fills(Tunnel([], []), Frame(a, magic) + Frame(b, magic))
    ensures var t := Receive(Tunnel([], []), Frame(a, magic) + Frame(b, magic), magic);
      t == Tunnel(Frame(b, magic), [a]) && Waiting(t, magic)
  {
    FrameThenLater(a, magic, Frame(b, magic));
    FrameAlone(b, magic);
    CutFirst(Frame(a, magic) + Frame(b, magic), a, Frame(b, magic), magic);
  }

  lemma CutFirst(buffer: seq<byte>, m: Message, rest: seq<byte>, magic: uint32)
    requires TakePull(buffer, magic) == Some((m, rest))
    ensures Receive(Tunnel([], []), buffer, magic) == Tunnel(rest, [m])
  {
    assert [] + buffer == buffer && [] + [m] == [m];
  }

  lemma FrameAlone(m: Message, magic: uint32)
    requires |m.payload| <= UINT_MAX
    ensures TakePull(Frame(m, magic), magic).Some?
  {
    FrameThenLater(m, magic, []);
    assert Frame(m, magic) + [] == Frame(m, magic);
  }

  // ---------------------------------------------------------------- the two hosts

  /** performSend for a firewalled destination: -1 when the wrapped packet does not fit. */
  method WrapPacket(dest: NodeIdent, payload: seq<byte>, magic: uint32, pkt: RealPacket) returns (ret: int)
    requires pkt.Valid() && pkt.State() == Writer([], true, MAX_UDP_PACKET_SIZE)
    modifies pkt, pkt.packet
    ensures pkt.Valid()
    ensures ret == if Wrapped(dest, payload, magic).Some? then 0 else -1
    ensures ret == 0 ==> Some(pkt.State().bytes) == Wrapped(dest, payload, magic)
  {
    ghost var w0, all := pkt.State(), PushBytes(dest, payload, magic);
    ghost var done := EmitHeader(pkt, PUSH, (0, 0), magic, w0, PutNode(dest, payload), all);
    done := EmitNode(pkt, dest, w0, done, payload, all);
    assert payload + [] == payload;
    Emit(pkt, payload, w0, done, [], all);
    assert done + payload == all && [] + all == all;
    ret := if pkt.complete then 0 else -1;
  }

  /** PushPacket::parse: writes the frame to relay, None when b is no PUSH or the frame does not fit. */
  method ParsePush(remoteNode: NodeIdent, b: seq<byte>, magic: uint32, pkt: RealPacket)
    returns (dest: Option<NodeIdent>)
    requires pkt.Valid() && pkt.State() == Writer([], true, MAX_UDP_PACKET_SIZE) && |b| <= UINT_MAX
    modifies pkt, pkt.packet
    ensures pkt.Valid()
    ensures dest.None? <==> Relayed(remoteNode, b, magic).None?
    ensures dest.Some? ==> Relayed(remoteNode, b, magic) == Some((dest.value, pkt.State().bytes))
  {
    var bw := new BufferWrapper(b);
    var ok := RetrieveHeader(bw, PUSH, magic);
    if !ok {
      return None;
    }
    var destIdent := RetrieveNode(bw);
    if bw.errorFlag {
      return None;
    }
    var payload := b[bw.counter..];
    ghost var f := Frame(Message(remoteNode, payload), magic);
    assert [] + f == f && TakePush(b, magic) == Some((destIdent, payload));
    WriteFrame(Message(remoteNode, payload), magic, pkt);
    dest := if pkt.complete then Some(destIdent) else None;
  }

  method WriteFrame(m: Message, magic: uint32, pkt: RealPacket)
    requires pkt.Valid() && pkt.State() == Writer([], true, MAX_UDP_PACKET_SIZE) && |m.payload| <= UINT_MAX
    modifies pkt, pkt.packet
    ensures pkt.Valid() && Wrote(old(pkt.State()), pkt.State(), Frame(m, magic))
  {
    ghost var w0, all := pkt.State(), Frame(m, magic);
    ghost var body := Word(|m.payload|) + m.payload;
    ghost var done := EmitHeader(pkt, PULL, (0, 0), magic, w0, PutNode(m.src, body), all);
    done := EmitNode(pkt, m.src, w0, done, body, all);
    var size := ToNetwork(|m.payload|);
    Emit(pkt, size, w0, done, m.payload, all);
    assert m.payload + [] == m.payload;
    Emit(pkt, m.payload, w0, done + size, [], all);
    assert done + size + m.payload == all;
  }

  /** The receiving end: one fixed buffer, its unread bytes moved to the front after every frame. */
  class Receiver {
    const packet: array<byte>
    var size: nat
    var delivered: seq<Message>

    ghost predicate Valid()
      reads this
    {
      size <= packet.Length == MAX_UDP_PACKET_SIZE
    }

    ghost function State(): Tunnel
      requires Valid()
      reads this, packet
    {
      Tunnel(packet[..size], delivered)
    }

    constructor ()
      ensures Valid() && State() == Tunnel([], []) && fresh(packet)
    {
      packet := new byte[MAX_UDP_PACKET_SIZE];
      size, delivered := 0, [];
    }

    /** handleRendavous: what recv put behind the buffer, then at most one frame off its front. */
    method HandleRead(chunk: seq<byte>, magic: uint32)
      requires Valid() && Fills(State(), chunk)
      modifies this, packet
      ensures Valid() && State() == Receive(old(State()), chunk, magic)
    {
      forall i | 0 <= i < |chunk| {
        packet[size + i] := chunk[i];
      }
      size := size + |chunk|;
      ghost var buffer := packet[..size];
      assert buffer == old(packet[..size]) + chunk;
      var m := ParsePull(magic);
      if m.Some? {
        delivered := delivered + [m.value];
      }
    }

    /** PullPacket::parse on the buffer: the bytes behind the frame move to the front. */
    method ParsePull(magic: uint32) returns (m: Option<Message>)
      requires Valid()
      modifies this`size, packet
      ensures Valid()
      ensures m.None? ==> TakePull(old(packet[..size]), magic).None? && packet[..size] == old(packet[..size])
      ensures m.Some? ==> TakePull(old(packet[..size]), magic) == Some((m.value, packet[..size]))
    {
      var h := PullHeader(packet[..size], magic);
      if h.None? {
        return None;
      }
      var (srcNode, pos, payLoadSize) := h.value;
      m := Some(Message(srcNode, packet[..size][pos..pos + payLoadSize]));
      MoveToFront(pos + payLoadSize);
    }

    /** memmove: the source and the target may overlap. */
    method MoveToFront(end: nat)
      requires Valid() && end <= size
      modifies this`size, packet
      ensures Valid() && packet[..size] == old(packet[..size])[end..]
    {
      forall i | 0 <= i < size - end {
        packet[i] := packet[end + i];
      }
      size := size - end;
    }
  }

  /** Reads a PULL header: the source, where the payload begins and how long it is, if all of it is there. */
  method PullHeader(b: seq<byte>, magic: uint32) returns (h: Option<(NodeIdent, nat, nat)>)
    ensures h.None? ==> TakePull(b, magic).None?
    ensures h.Some? ==> var (src, pos, n) := h.value;
      pos + n <= |b| && TakePull(b, magic) == Some((Message(src, b[pos..pos + n]), b[pos + n..]))
  {
    var bw := new BufferWrapper(b);
    var ok := RetrieveHeader(bw, PULL, magic);
    if !ok {
      return None;
    }
    var srcNode := RetrieveNode(bw);
    var payLoadSize := bw.RetrieveUInt();
    if bw.errorFlag || |b| - bw.counter < payLoadSize {
      return None;
    }
    h := Some((srcNode, bw.counter, payLoadSize));
    SliceOfRest(b, bw.counter, payLoadSize);
  }

  lemma SliceOfRest(b: seq<byte>, at: nat, n: nat)
    requires at + n <= |b|
    ensures b[at..][..n] == b[at..at + n] && b[at..][n..] == b[at + n..]
  {}
}
