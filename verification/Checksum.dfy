/** The ICMP checksum: one accumulator, two folds, and what section 1 of RFC 1071 asks of it. */
module Checksum {
  import opened Base
  import opened Wire

  type int31 = x: int | 0 <= x < 0x8000_0000

  /** Two adjacent bytes of memory as the 16-bit number the machine loads. */
  function Load(little: bool, b0: byte, b1: byte): uint16 {
    if little then b1 * 256 + b0 else b0 * 256 + b1
  }

  function Word16(little: bool, b: seq<byte>): uint16
    requires b != []
  {
    Load(little, b[0], if |b| == 1 then 0 else b[1])
  }

  function Rest(b: seq<byte>): (r: seq<byte>)
    requires b != []
    ensures |r| < |b|
  {
    if |b| == 1 then [] else b[2..]
  }

  /** The plain sum of the words; an odd byte at the end is padded with a zero byte. */
  function WordSum(little: bool, b: seq<byte>): nat
    decreases |b|
  {
    if b == [] then 0 else Word16(little, b) + WordSum(little, Rest(b))
  }

  // ---------------------------------------------------------------- the reference: one's complement arithmetic

  /** One's complement addition of 16-bit numbers: a carry out of the top comes back in at the bottom. */
  function OnesAdd(x: uint16, y: uint16): uint16 {
    if x + y > 0xFFFF then x + y - 0xFFFF else x + y
  }

  function OnesSum(little: bool, b: seq<byte>, start: uint16): uint16
    decreases |b|
  {
    if b == [] then start else OnesSum(little, Rest(b), OnesAdd(start, Word16(little, b)))
  }

  function Complement(x: uint16): uint16 {
    0xFFFF - x
  }

  /** x stands for the number n in one's complement: the same remainder modulo 65535, and zero only for zero. */
  predicate Stands(x: uint16, n: nat) {
    x % 0xFFFF == n % 0xFFFF && (x == 0 <==> n == 0)
  }

  lemma StandsUnique(x: uint16, y: uint16, n: nat)
    requires Stands(x, n) && Stands(y, n)
    ensures x == y
  {}

  lemma {:induction false} OnesSumStands(little: bool, b: seq<byte>, start: uint16, n: nat)
    requires Stands(start, n)
    ensures Stands(OnesSum(little, b, start), n + WordSum(little, b))
    decreases |b|
  {
    if b != [] {
      var w := Word16(little, b);
      OnesAddStands(start, w, n);
      OnesSumStands(little, Rest(b), OnesAdd(start, w), n + w);
    }
  }

  lemma OnesAddStands(x: uint16, y: uint16, n: nat)
    requires Stands(x, n)
    ensures Stands(OnesAdd(x, y), n + y)
  {
    var q, r := n / 0xFFFF, n % 0xFFFF;
    assert n == q * 0xFFFF + r;
    SameRemainder(x + y, n + y, x, n, y);
  }

  lemma SameRemainder(a: nat, b: nat, x: nat, n: nat, y: nat)
    requires a == x + y && b == n + y && x % 0xFFFF == n % 0xFFFF
    ensures a % 0xFFFF == b % 0xFFFF
  {
    var q, p := n / 0xFFFF, x / 0xFFFF;
    assert b - a == (q - p) * 0xFFFF;
    MultipleApart(a, b, q - p);
  }

  lemma MultipleApart(a: nat, b: nat, k: int)
    requires b == a + k * 0xFFFF
    ensures a % 0xFFFF == b % 0xFFFF
  {}

  // ---------------------------------------------------------------- the two folds

  /** The carries of the accumulator added back twice; the result is cut to 16 bits when it is stored. */
  function Fold(sum: int31): uint16 {
    var once := sum / 0x1_0000 + sum % 0x1_0000;
    (once + once / 0x1_0000) % 0x1_0000
  }

  /** Two folds are enough for every sum the accumulator can hold. */
  lemma FoldStands(sum: int31)
    ensures Stands(Fold(sum), sum)
  {
    var hi, lo := sum / 0x1_0000, sum % 0x1_0000;
    var once := hi + lo;
    assert sum == hi * 0x1_0000 + lo && 0 <= hi <= 0x7FFF;
    MultipleApart(once, sum, hi);
    if once >= 0x1_0000 {
      MultipleApart(Fold(sum), once, 1);
    }
  }

  /** in_cksum: the complement of the folded sum is the one's complement checksum of the bytes. */
  method InCksum(little: bool, addr: array<byte>, csum: uint16) returns (answer: uint16)
    requires csum + WordSum(little, addr[..]) < 0x8000_0000
    ensures answer == Complement(OnesSum(little, addr[..], csum))
  {
    var nleft, w := addr.Length, 0;
    var sum: int31 := csum;
    assert addr[..][0..] == addr[..];
    while nleft > 1
      invariant nleft + w == addr.Length && 0 <= nleft
      invariant sum + WordSum(little, addr[..][w..]) == csum + WordSum(little, addr[..])
    {
      TwoMore(little, addr[..], w);
      sum := sum + Load(little, addr[w], addr[w + 1]);
      w := w + 2;
      nleft := nleft - 2;
    }
    if nleft == 1 {
      OneLeft(little, addr[..], w);
      sum := sum + Load(little, addr[w], 0);
    }
    Folded(little, addr[..], csum, sum);
    answer := Complement(Fold(sum));
  }

  lemma Folded(little: bool, b: seq<byte>, csum: uint16, sum: int31)
    requires sum == csum + WordSum(little, b)
    ensures Fold(sum) == OnesSum(little, b, csum)
  {
    FoldStands(sum);
    assert Stands(csum, csum);
    OnesSumStands(little, b, csum, csum);
    StandsUnique(Fold(sum), OnesSum(little, b, csum), sum);
  }

  /** One turn of the loop: two bytes further. */
  lemma TwoMore(little: bool, b: seq<byte>, w: nat)
    requires w + 1 < |b|
    ensures WordSum(little, b[w..]) == Load(little, b[w], b[w + 1]) + WordSum(little, b[w + 2..])
  {
    assert Rest(b[w..]) == b[w + 2..];
  }

  lemma OneLeft(little: bool, b: seq<byte>, w: nat)
    requires w + 1 == |b|
    ensures WordSum(little, b[w..]) == Load(little, b[w], 0)
  {
    assert Rest(b[w..]) == [];
  }

  // ---------------------------------------------------------------- what a checksum is for

  /** A word stored at an even offset. */
  function Stored(little: bool, b: seq<byte>, at: nat, x: uint16): (r: seq<byte>)
    requires at + 1 < |b|
    ensures |r| == |b|
  {
    if little then b[at := x % 256][at + 1 := x / 256] else b[at := x / 256][at + 1 := x % 256]
  }

  lemma {:induction false} StoredSum(little: bool, b: seq<byte>, at: nat, x: uint16)
    requires at + 1 < |b| && at % 2 == 0 && b[at] == 0 && b[at + 1] == 0
    ensures WordSum(little, Stored(little, b, at, x)) == WordSum(little, b) + x
    decreases at
  {
    var r := Stored(little, b, at, x);
    if at == 0 {
      assert r[2..] == b[2..];
      assert Load(little, r[0], r[1]) == x && Load(little, b[0], b[1]) == 0;
    } else {
      assert r[2..] == Stored(little, b[2..], at - 2, x);
      StoredSum(little, b[2..], at - 2, x);
      assert r[0] == b[0] && r[1] == b[1];
    }
  }

  /**
    A receiver's check: with the checksum stored in the zeroed field it was computed over, checksumming the message
    again gives zero.
   */
  lemma StoredChecksumVerifies(little: bool, b: seq<byte>, at: nat)
    requires at + 1 < |b| && at % 2 == 0 && b[at] == 0 && b[at + 1] == 0
    ensures Complement(OnesSum(little, Stored(little, b, at, Complement(OnesSum(little, b, 0))), 0)) == 0
  {
    var s := OnesSum(little, b, 0);
    var c := Complement(s);
    var n := WordSum(little, b);
    assert Stands(0, 0);
    OnesSumStands(little, b, 0, 0);
    StoredSum(little, b, at, c);
    OnesSumStands(little, Stored(little, b, at, c), 0, 0);
    ComplementCancels(s, n);
    StandsUnique(OnesSum(little, Stored(little, b, at, c), 0), 0xFFFF, n + c);
  }

  lemma ComplementCancels(s: uint16, n: nat)
    requires Stands(s, n)
    ensures Stands(0xFFFF, n + Complement(s))
  {
    SameRemainder(s + Complement(s), n + Complement(s), s, n, Complement(s));
  }

  function SwapBytes(x: uint16): uint16 {
    x % 256 * 256 + x / 256
  }

  lemma SwapStands(x: uint16, n: nat)
    requires Stands(x, n)
    ensures Stands(SwapBytes(x), 256 * n)
  {
    var hi, lo := x / 256, x % 256;
    assert x == 256 * hi + lo && 256 * x == SwapBytes(x) + hi * 0xFFFF;
    MultipleApart(SwapBytes(x), 256 * x, hi);
    var q, p := n / 0xFFFF, x / 0xFFFF;
    assert 256 * n == 256 * x + (256 * (q - p)) * 0xFFFF;
    MultipleApart(256 * x, 256 * n, 256 * (q - p));
  }

  lemma {:induction false} OtherOrderSum(b: seq<byte>)
    ensures exists k: int :: WordSum(false, b) + k * 0xFFFF == 256 * WordSum(true, b)
    ensures WordSum(false, b) == 0 <==> WordSum(true, b) == 0
    decreases |b|
  {
    if b == [] {
      assert WordSum(false, b) + 0 * 0xFFFF == 256 * WordSum(true, b);
    } else {
      OtherOrderSum(Rest(b));
      var k: int :| WordSum(false, Rest(b)) + k * 0xFFFF == 256 * WordSum(true, Rest(b));
      var b1: int := if |b| == 1 then 0 else b[1];
      assert 256 * Load(true, b[0], b1) == Load(false, b[0], b1) + b1 * 0xFFFF;
      assert WordSum(false, b) + (k + b1) * 0xFFFF == 256 * WordSum(true, b);
    }
  }

  /**
    Byte order does not matter: a machine that loads words the other way round computes the same checksum bytes.
    That is why the code may sum words of network data in host order and store the result unswapped.
   */
  lemma ByteOrderIndependent(b: seq<byte>)
    ensures OnesSum(false, b, 0) == SwapBytes(OnesSum(true, b, 0))
    ensures Complement(OnesSum(false, b, 0)) == SwapBytes(Complement(OnesSum(true, b, 0)))
  {
    assert Stands(0, 0);
    OnesSumStands(true, b, 0, 0);
    OnesSumStands(false, b, 0, 0);
    OtherOrderSum(b);
    var k: int :| WordSum(false, b) + k * 0xFFFF == 256 * WordSum(true, b);
    SwapAgrees(OnesSum(true, b, 0), OnesSum(false, b, 0), WordSum(true, b), WordSum(false, b), k);
    SwapComplement(OnesSum(true, b, 0));
  }

  lemma SwapAgrees(x: uint16, y: uint16, n: nat, m: nat, k: int)
    requires Stands(x, n) && Stands(y, m) && m + k * 0xFFFF == 256 * n && (m == 0 <==> n == 0)
    ensures y == SwapBytes(x)
  {
    MultipleApart(m, 256 * n, k);
    SwapStands(x, n);
    StandsUnique(y, SwapBytes(x), m);
  }

  lemma SwapComplement(x: uint16)
    ensures SwapBytes(Complement(x)) == Complement(SwapBytes(x))
  {
    var hi, lo := x / 256, x % 256;
    assert Complement(x) == 256 * (255 - hi) + (255 - lo);
  }
}
