/** Bytes on the wire: big-endian numbers, the reader every packet is parsed with and the buffer it is built in. */
module Wire {
  import opened Base

  type byte = x: int | 0 <= x <= 0xFF

  function Pow256(n: nat): (p: nat)
    ensures p > 0
  {
    if n == 0 then 1 else 256 * Pow256(n - 1)
  }

  /** x in n bytes, most significant first. */
  function BigEndian(x: nat, n: nat): (b: seq<byte>)
    ensures |b| == n
  {
    if n == 0 then [] else BigEndian(x / 256, n - 1) + [x % 256]
  }

  function FromBigEndian(b: seq<byte>): (x: nat)
    ensures x < Pow256(|b|)
  {
    if b == [] then 0 else 256 * FromBigEndian(b[..|b| - 1]) + b[|b| - 1]
  }

  lemma {:induction false} BigEndianRoundTrip(x: nat, n: nat)
    requires x < Pow256(n)
    ensures FromBigEndian(BigEndian(x, n)) == x
  {
    if n > 0 {
      var b := BigEndian(x, n);
      BigEndianRoundTrip(x / 256, n - 1);
      assert b[..n - 1] == BigEndian(x / 256, n - 1);
    }
  }

  lemma {:induction false} FromBigEndianRoundTrip(b: seq<byte>)
    ensures BigEndian(FromBigEndian(b), |b|) == b
  {
    if b != [] {
      FromBigEndianRoundTrip(b[..|b| - 1]);
      assert b == b[..|b| - 1] + [b[|b| - 1]];
    }
  }

  lemma WordSizes()
    ensures Pow256(2) == 0x1_0000 && Pow256(4) == 0x1_0000_0000
  {
    assert Pow256(1) == 256 && Pow256(3) == 0x100_0000;
  }

  const TWO_TO_32: nat := 0x1_0000_0000

  lemma WordExists(x: nat)
    ensures exists b: seq<byte> :: |b| == 4 && FromBigEndian(b) == x % TWO_TO_32
  {
    WordSizes();
    BigEndianRoundTrip(x % TWO_TO_32, 4);
    var b := BigEndian(x % TWO_TO_32, 4);
    assert |b| == 4 && FromBigEndian(b) == x % TWO_TO_32;
  }

  /** htonl: the four bytes that spell x, cut to 32 bits, most significant first. */
  ghost function Word(x: nat): (b: seq<byte>)
    ensures |b| == 4 && FromBigEndian(b) == x % TWO_TO_32
  {
    WordExists(x);
    var b: seq<byte> :| |b| == 4 && FromBigEndian(b) == x % TWO_TO_32;
    b
  }

  lemma WordIsUnique(x: nat, b: seq<byte>)
    requires |b| == 4 && FromBigEndian(b) == x % TWO_TO_32
    ensures b == Word(x)
  {
    FromBigEndianRoundTrip(b);
    FromBigEndianRoundTrip(Word(x));
  }

  method ToNetwork(x: uint32) returns (b: seq<byte>)
    ensures b == Word(x)
  {
    WordSizes();
    b := BigEndian(x, 4);
    BigEndianRoundTrip(x, 4);
    WordIsUnique(x, b);
  }

  const TWO_TO_16: nat := 0x1_0000

  lemma HalfExists(x: nat)
    ensures exists b: seq<byte> :: |b| == 2 && FromBigEndian(b) == x % TWO_TO_16
  {
    WordSizes();
    BigEndianRoundTrip(x % TWO_TO_16, 2);
    var b := BigEndian(x % TWO_TO_16, 2);
    assert |b| == 2 && FromBigEndian(b) == x % TWO_TO_16;
  }

  /** htons: the two bytes that spell x, cut to 16 bits. */
  ghost function Half(x: nat): (b: seq<byte>)
    ensures |b| == 2 && FromBigEndian(b) == x % TWO_TO_16
  {
    HalfExists(x);
    var b: seq<byte> :| |b| == 2 && FromBigEndian(b) == x % TWO_TO_16;
    b
  }

  method ToNetworkShort(x: uint16) returns (b: seq<byte>)
    ensures b == Half(x)
  {
    WordSizes();
    b := BigEndian(x, 2);
    BigEndianRoundTrip(x, 2);
    FromBigEndianRoundTrip(b);
    FromBigEndianRoundTrip(Half(x));
  }

  /** A 32-bit pattern as the signed number the code keeps it in, and back. */

  type int32 = x: int | -0x8000_0000 <= x <= 0x7FFF_FFFF

  function Signed(x: uint32): int32 {
    if x >= 0x8000_0000 then x - 0x1_0000_0000 else x
  }

  function Unsigned(x: int32): uint32 {
    if x < 0 then x + 0x1_0000_0000 else x
  }

  // ---------------------------------------------------------------- reading

  /** What is left to read, and whether a read has gone past the end. */
  datatype Reader = Reader(rest: seq<byte>, error: bool)

  /** A read of size bytes; none and an error when there are not that many, or size came out negative as an int. */
  function Take(rd: Reader, size: uint32): (r: (seq<byte>, Reader))
    ensures !r.1.error ==> !rd.error && |r.0| == size && rd.rest == r.0 + r.1.rest
    ensures r.1.error ==> r == ([], Reader(rd.rest, true))
  {
    if !rd.error && size <= 0x7FFF_FFFF && size <= |rd.rest| then (rd.rest[..size], Reader(rd.rest[size..], false))
    else ([], Reader(rd.rest, true))
  }

  function TakeWord(rd: Reader): (r: (uint32, Reader))
    ensures r.1.error ==> r == (0, Reader(rd.rest, true))
    ensures !r.1.error ==> !rd.error && |r.1.rest| == |rd.rest| - 4
  {
    var (b, next) := Take(rd, 4);
    WordSizes();
    (if next.error then 0 else FromBigEndian(b), next)
  }

  function TakeHalf(rd: Reader): (r: (uint16, Reader))
    ensures r.1.error ==> r == (0, Reader(rd.rest, true))
    ensures !r.1.error ==> !rd.error && |r.1.rest| == |rd.rest| - 2
  {
    var (b, next) := Take(rd, 2);
    WordSizes();
    (if next.error then 0 else FromBigEndian(b), next)
  }

  function TakeByte(rd: Reader): (r: (byte, Reader))
    ensures r.1.error ==> r == (0, Reader(rd.rest, true))
    ensures !r.1.error ==> !rd.error && |r.1.rest| == |rd.rest| - 1
  {
    var (b, next) := Take(rd, 1);
    (if next.error then 0 else b[0], next)
  }

  lemma TakeBack(b: seq<byte>, tail: seq<byte>)
    requires |b| <= 0x7FFF_FFFF
    ensures Take(Reader(b + tail, false), |b|) == (b, Reader(tail, false))
  {
    assert (b + tail)[..|b|] == b && (b + tail)[|b|..] == tail;
  }

  lemma TakeWordBack(x: uint32, tail: seq<byte>)
    ensures TakeWord(Reader(Word(x) + tail, false)) == (x, Reader(tail, false))
  {
    TakeBack(Word(x), tail);
  }

  lemma TakeHalfBack(x: uint16, tail: seq<byte>)
    ensures TakeHalf(Reader(Half(x) + tail, false)) == (x, Reader(tail, false))
  {
    TakeBack(Half(x), tail);
  }

  lemma TakeByteBack(x: byte, tail: seq<byte>)
    ensures TakeByte(Reader([x] + tail, false)) == (x, Reader(tail, false))
  {
    TakeBack([x], tail);
  }

  class BufferWrapper {
    const buf: seq<byte>
    var errorFlag: bool
    var counter: nat

    ghost predicate Valid()
      reads this
    {
      counter <= |buf|
    }

    ghost function State(): Reader
      requires Valid()
      reads this
    {
      Reader(buf[counter..], errorFlag)
    }

    constructor (inBuf: seq<byte>)
      ensures Valid() && State() == Reader(inBuf, false) && buf == inBuf
    {
      buf, errorFlag, counter := inBuf, false, 0;
    }

    method RetrieveBuf(inBufSize: uint32) returns (r: seq<byte>)
      requires Valid()
      modifies this
      ensures Valid() && (r, State()) == Take(old(State()), inBufSize)
    {
      if !errorFlag && Signed(inBufSize) >= 0 && counter + inBufSize <= |buf| {
        r := buf[counter..counter + inBufSize];
        assert r == buf[counter..][..inBufSize] && buf[counter..][inBufSize..] == buf[counter + inBufSize..];
        counter := counter + inBufSize;
        return;
      }
      errorFlag := true;
      r := [];
    }

    method RetrieveUInt() returns (r: uint32)
      requires Valid()
      modifies this
      ensures Valid() && (r, State()) == TakeWord(old(State()))
    {
      if !errorFlag && counter + 4 <= |buf| {
        assert buf[counter..counter + 4] == buf[counter..][..4];
        WordSizes();
        r := FromBigEndian(buf[counter..counter + 4]);
        counter := counter + 4;
        return;
      }
      errorFlag := true;
      r := 0;
    }

    method RetrieveUShort() returns (r: uint16)
      requires Valid()
      modifies this
      ensures Valid() && (r, State()) == TakeHalf(old(State()))
    {
      if !errorFlag && counter + 2 <= |buf| {
        assert buf[counter..counter + 2] == buf[counter..][..2];
        WordSizes();
        r := FromBigEndian(buf[counter..counter + 2]);
        counter := counter + 2;
        return;
      }
      errorFlag := true;
      r := 0;
    }

    method RetrieveChar() returns (r: byte)
      requires Valid()
      modifies this
      ensures Valid() && (r, State()) == TakeByte(old(State()))
    {
      if !errorFlag && counter + 1 <= |buf| {
        r := buf[counter];
        counter := counter + 1;
        return;
      }
      errorFlag := true;
      r := 0;
    }
  }

  // ---------------------------------------------------------------- writing

  /** What has been written, of at most maxSize bytes; once something did not fit the packet stays incomplete. */
  datatype Writer = Writer(bytes: seq<byte>, complete: bool, maxSize: nat)

  function Append(w: Writer, b: seq<byte>): Writer {
    if !w.complete || b == [] then w
    else if |w.bytes| + |b| <= w.maxSize then w.(bytes := w.bytes + b)
    else w.(complete := false)
  }

  /** Appending in pieces: all of it arrives exactly when all of it fits. */
  lemma AppendTwice(w: Writer, a: seq<byte>, b: seq<byte>)
    requires |w.bytes| <= w.maxSize
    ensures Append(Append(w, a), b).complete <==> Append(w, a + b).complete
    ensures Append(w, a + b).complete ==> Append(Append(w, a), b) == Append(w, a + b)
  {
    assert w.bytes + a + b == w.bytes + (a + b);
    if a == [] { assert a + b == b; }
    if b == [] { assert a + b == a; }
  }

  class RealPacket {
    const packet: array<byte>
    var size: nat
    var complete: bool

    ghost predicate Valid()
      reads this
    {
      size <= packet.Length <= 0x7FFF_FFFF
    }

    ghost function State(): Writer
      requires Valid()
      reads this, packet
    {
      Writer(packet[..size], complete, packet.Length)
    }

    constructor (maxPacketSize: nat)
      requires maxPacketSize <= 0x7FFF_FFFF
      ensures Valid() && State() == Writer([], true, maxPacketSize) && fresh(packet)
    {
      packet := new byte[maxPacketSize];
      size, complete := 0, true;
    }

    /** append_str; append_uint and append_int are this on the four bytes of htonl of their argument. */
    method AppendStr(b: seq<byte>)
      requires Valid()
      modifies this, packet
      ensures Valid() && State() == Append(old(State()), b)
    {
      if !complete || |b| <= 0 {
        return;
      }
      complete := size + |b| <= packet.Length;
      if complete {
        forall i | 0 <= i < |b| {
          packet[size + i] := b[i];
        }
        size := size + |b|;
        assert packet[..size] == old(packet[..size]) + b;
      }
    }
  }

  // ---------------------------------------------------------------- writing in pieces

  /** From w0 to w exactly b was written, or it did not fit and the packet is spoilt. */
  ghost predicate Wrote(w0: Writer, w: Writer, b: seq<byte>) {
    && w.maxSize == w0.maxSize
    && if w0.complete && |w0.bytes| + |b| <= w0.maxSize then w == w0.(bytes := w0.bytes + b) else !w.complete
  }

  lemma WroteMore(w0: Writer, w1: Writer, w2: Writer, a: seq<byte>, b: seq<byte>)
    requires Wrote(w0, w1, a) && Wrote(w1, w2, b)
    ensures Wrote(w0, w2, a + b)
  {
    assert w0.bytes + a + b == w0.bytes + (a + b);
  }

  /** One more piece of what is to be written; once it does not fit, nothing after it matters. */
  lemma Progress(w1: Writer, w: Writer, w': Writer, done: seq<byte>, b: seq<byte>, rest: seq<byte>, all: seq<byte>)
    requires Wrote(w1, w, done) && Wrote(w, w', b) && done + (b + rest) == all
    ensures Wrote(w1, w', done + b) && done + b + rest == all
    ensures !w'.complete ==> Wrote(w1, w', all)
  {
    WroteMore(w1, w, w', done, b);
    assert done + b + rest == done + (b + rest);
  }

  method AppendWord(pkt: RealPacket, x: uint32)
    requires pkt.Valid()
    modifies pkt, pkt.packet
    ensures pkt.Valid() && Wrote(old(pkt.State()), pkt.State(), Word(x))
  {
    var b := ToNetwork(x);
    pkt.AppendStr(b);
  }

  method AppendCount(pkt: RealPacket, n: nat)
    requires pkt.Valid()
    modifies pkt, pkt.packet
    ensures pkt.Valid() && Wrote(old(pkt.State()), pkt.State(), Word(n))
  {
    var b := ToNetwork(n % TWO_TO_32);
    WordIsUnique(n, b);
    pkt.AppendStr(b);
  }

  /** Writes the next piece of all; rest is still to come. */
  method Emit(pkt: RealPacket, b: seq<byte>, ghost w0: Writer, ghost done: seq<byte>, ghost rest: seq<byte>,
              ghost all: seq<byte>)
    requires pkt.Valid() && Wrote(w0, pkt.State(), done) && done + (b + rest) == all
    modifies pkt, pkt.packet
    ensures pkt.Valid() && Wrote(w0, pkt.State(), done + b) && done + b + rest == all
  {
    ghost var w := pkt.State();
    pkt.AppendStr(b);
    Progress(w0, w, pkt.State(), done, b, rest, all);
  }
}
