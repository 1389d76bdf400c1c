/** Shared vocabulary: node identities, their order, machine bounds and rounding. */
module Base {
  const UINT_MAX: nat := 0xFFFF_FFFF

  type uint32 = x: int | 0 <= x <= 0xFFFF_FFFF
  type uint16 = x: int | 0 <= x <= 0xFFFF

  datatype Option<+T> = None | Some(value: T)

  /** An overlay node: IPv4 address and port. */
  datatype NodeIdent = NodeIdent(addr: uint32, port: uint16)

  /** The all-zero node, used as "nobody" (and, in replies, as "myself"). */
  const NOBODY: NodeIdent := NodeIdent(0, 0)

  /** A node and the rendezvous host that relays to it (NOBODY when it is reachable directly). */
  datatype NodeIdentRendv = NodeIdentRendv(node: NodeIdent, rendv: NodeIdent)

  /** One latency measurement. */
  datatype NodeIdentLat = NodeIdentLat(node: NodeIdent, latencyUS: uint32)

  /** The order every std::set and std::map keyed by a node iterates in. */
  predicate NodeLess(a: NodeIdent, b: NodeIdent) {
    a.addr < b.addr || (a.addr == b.addr && a.port < b.port)
  }

  // ---------------------------------------------------------------- sequences without repetition

  predicate Distinct<T(==)>(s: seq<T>) {
    forall i, j :: 0 <= i < j < |s| ==> s[i] != s[j]
  }

  function Elements<T>(s: seq<T>): set<T> {
    set x | x in s
  }

  /** A sequence without repetition is as long as its set of elements is large. */
  lemma {:induction false} DistinctCardinality<T>(s: seq<T>)
    requires Distinct(s)
    ensures |Elements(s)| == |s|
  {
    if s == [] {
      assert Elements(s) == {};
    } else {
      var front := s[..|s| - 1];
      DistinctCardinality(front);
      assert Elements(s) == Elements(front) + {s[|s| - 1]};
      assert s[|s| - 1] !in front;
    }
  }

  /** Conversely, a sequence exactly as long as its set of elements repeats nothing. */
  lemma {:induction false} CardinalityDistinct<T>(s: seq<T>)
    ensures |Elements(s)| <= |s|
    ensures |Elements(s)| == |s| ==> Distinct(s)
  {
    if s == [] {
      assert Elements(s) == {};
    } else {
      var front, last := s[..|s| - 1], s[|s| - 1];
      CardinalityDistinct(front);
      assert Elements(s) == Elements(front) + {last};
      if last in front {
        assert Elements(s) == Elements(front);
      } else {
        assert forall i :: 0 <= i < |front| ==> front[i] == s[i];
      }
    }
  }

  lemma DistinctMultiset<T>(s: seq<T>)
    ensures Distinct(s) <==> forall x :: multiset(s)[x] <= 1
  {
    if Distinct(s) { DistinctOnce(s); }
    if !Distinct(s) { RepeatedTwice(s); }
  }

  lemma DistinctOnce<T>(s: seq<T>)
    requires Distinct(s)
    ensures forall x :: multiset(s)[x] <= 1
  {
    forall x ensures multiset(s)[x] <= 1 {
      if x in s {
        var i :| 0 <= i < |s| && s[i] == x;
        assert s == s[..i] + [s[i]] + s[i + 1..];
        assert x !in s[..i] && x !in s[i + 1..];
      }
    }
  }

  lemma RepeatedTwice<T>(s: seq<T>)
    requires !Distinct(s)
    ensures exists x :: multiset(s)[x] >= 2
  {
    var i, j :| 0 <= i < j < |s| && s[i] == s[j];
    assert s == s[..i] + [s[i]] + s[i + 1..j] + [s[j]] + s[j + 1..];
    assert multiset(s)[s[i]] >= 2;
  }

  /** The first position of x in s. */
  function IndexOf<T(==)>(s: seq<T>, x: T): (i: nat)
    requires x in s
    ensures i < |s| && s[i] == x && x !in s[..i]
  {
    if s[0] == x then 0 else 1 + IndexOf(s[1..], x)
  }

  lemma {:induction false} IndexOfFirst<T>(s: seq<T>, x: T, i: nat)
    requires i < |s| && s[i] == x && x !in s[..i]
    ensures IndexOf(s, x) == i
  {
    if i > 0 {
      assert s[0] == s[..i][0];
      assert s[1..][..i - 1] == s[..i][1..];
      IndexOfFirst(s[1..], x, i - 1);
    }
  }

  /** Removal by overwriting with the last element and shortening. */
  function SwapRemove<T>(s: seq<T>, i: nat): (r: seq<T>)
    requires i < |s|
    ensures |r| == |s| - 1
    ensures forall k :: 0 <= k < |r| ==> r[k] == if k == i then s[|s| - 1] else s[k]
  {
    s[i := s[|s| - 1]][..|s| - 1]
  }

  lemma SwapRemoveMultiset<T>(s: seq<T>, i: nat)
    requires i < |s|
    ensures multiset(SwapRemove(s, i)) == multiset(s) - multiset{s[i]}
  {
    var last := |s| - 1;
    var r := SwapRemove(s, i);
    assert s == s[..last] + [s[last]];
    if i < last {
      assert s[..last] == s[..i] + [s[i]] + s[i + 1..last];
      assert r == s[..i] + [s[last]] + s[i + 1..last];
    } else {
      assert r == s[..last];
    }
  }

  /** Removal that closes the gap and keeps the order. */
  function RemoveAt<T>(s: seq<T>, i: nat): (r: seq<T>)
    requires i < |s|
    ensures |r| == |s| - 1
    ensures forall k :: 0 <= k < |r| ==> r[k] == if k < i then s[k] else s[k + 1]
  {
    s[..i] + s[i + 1..]
  }

  lemma SwapRemoveDistinct<T>(s: seq<T>, i: nat)
    requires i < |s| && Distinct(s)
    ensures Distinct(SwapRemove(s, i))
    ensures forall x :: x in SwapRemove(s, i) <==> x in s && x != s[i]
  {
    var last := |s| - 1;
    var r := SwapRemove(s, i);
    forall x | x in s && x != s[i] ensures x in r {
      var k :| 0 <= k < |s| && s[k] == x;
      assert r[if k == last then i else k] == x;
    }
  }

  lemma RemoveAtDistinct<T>(s: seq<T>, i: nat)
    requires i < |s| && Distinct(s)
    ensures Distinct(RemoveAt(s, i))
    ensures forall x :: x in RemoveAt(s, i) <==> x in s && x != s[i]
  {
    var r := RemoveAt(s, i);
    forall x | x in s && x != s[i] ensures x in r {
      var k :| 0 <= k < |s| && s[k] == x;
      assert r[if k > i then k - 1 else k] == x;
    }
  }

  // ---------------------------------------------------------------- sizes of sets

  lemma {:induction false} SubsetSize<T>(a: set<T>, b: set<T>)
    requires a <= b
    ensures |a| <= |b|
  {
    if a != {} {
      var x :| x in a;
      SubsetSize(a - {x}, b - {x});
    }
  }

  /** A subset of the same size is the whole set. */
  lemma SubsetFull<T>(a: set<T>, b: set<T>)
    requires a <= b && |a| == |b|
    ensures a == b
  {
    if !(b <= a) {
      var x :| x in b && x !in a;
      SubsetSize(a, b - {x});
    }
  }

  // ---------------------------------------------------------------- ordered iteration

  lemma {:induction false} LeastExists(s: set<NodeIdent>)
    requires s != {}
    ensures exists x :: x in s && forall y :: y in s && y != x ==> NodeLess(x, y)
  {
    var x :| x in s;
    if s != {x} {
      LeastExists(s - {x});
      var m :| m in s - {x} && forall y :: y in s - {x} && y != m ==> NodeLess(m, y);
      var least := if NodeLess(x, m) then x else m;
      forall y | y in s && y != least ensures NodeLess(least, y) {
        assert y == x || y == m || NodeLess(m, y);
      }
    }
  }

  function Least(s: set<NodeIdent>): (x: NodeIdent)
    requires s != {}
    ensures x in s && forall y :: y in s && y != x ==> NodeLess(x, y)
  {
    LeastExists(s);
    var x :| x in s && forall y :: y in s && y != x ==> NodeLess(x, y);
    x
  }

  /** r lists the elements of s in increasing order. */
  ghost predicate IsAscending(s: set<NodeIdent>, r: seq<NodeIdent>) {
    && |r| == |s|
    && (forall x :: x in r <==> x in s)
    && (forall i, j :: 0 <= i < j < |r| ==> NodeLess(r[i], r[j]))
  }

  lemma {:induction false} AscendingExists(s: set<NodeIdent>) returns (r: seq<NodeIdent>)
    ensures IsAscending(s, r)
  {
    if s == {} {
      r := [];
    } else {
      var x := Least(s);
      var rest := AscendingExists(s - {x});
      r := [x] + rest;
      forall i, j | 0 <= i < j < |r| ensures NodeLess(r[i], r[j]) {
        assert rest[j - 1] in rest;
        if i > 0 { assert NodeLess(rest[i - 1], rest[j - 1]); }
      }
    }
  }

  lemma {:induction false} AscendingUnique(s: set<NodeIdent>, r1: seq<NodeIdent>, r2: seq<NodeIdent>)
    requires IsAscending(s, r1) && IsAscending(s, r2)
    ensures r1 == r2
  {
    if s != {} {
      SameFirst(s, r1, r2);
      TailAscending(s, r1);
      TailAscending(s, r2);
      AscendingUnique(s - {r1[0]}, r1[1..], r2[1..]);
      assert r1 == [r1[0]] + r1[1..] && r2 == [r2[0]] + r2[1..];
    }
  }

  lemma SameFirst(s: set<NodeIdent>, r1: seq<NodeIdent>, r2: seq<NodeIdent>)
    requires s != {} && IsAscending(s, r1) && IsAscending(s, r2)
    ensures r1 != [] && r2 != [] && r1[0] == r2[0]
  {
    var x, y := r1[0], r2[0];
    assert x in r1 && y in r2;
    var i :| 0 <= i < |r2| && r2[i] == x;
    var j :| 0 <= j < |r1| && r1[j] == y;
  }

  lemma TailAscending(s: set<NodeIdent>, r: seq<NodeIdent>)
    requires s != {} && IsAscending(s, r)
    ensures r != [] && IsAscending(s - {r[0]}, r[1..])
  {
    var t := r[1..];
    assert r[0] in r;
    forall x ensures x in t <==> x in s - {r[0]} {
      if x in t {
        var i :| 0 <= i < |t| && t[i] == x;
        assert r[i + 1] == x;
        assert NodeLess(r[0], r[i + 1]);
      }
      if x in s - {r[0]} {
        var i :| 0 <= i < |r| && r[i] == x;
        assert t[i - 1] == x;
      }
    }
  }

  lemma AscendingWellDefined(s: set<NodeIdent>)
    ensures exists r :: IsAscending(s, r)
    ensures forall r1, r2 :: IsAscending(s, r1) && IsAscending(s, r2) ==> r1 == r2
  {
    var r := AscendingExists(s);
    forall r1, r2 | IsAscending(s, r1) && IsAscending(s, r2) ensures r1 == r2 { AscendingUnique(s, r1, r2); }
  }

  /** The elements of a set in the order an iterator visits them. */
  ghost function Ascending(s: set<NodeIdent>): (r: seq<NodeIdent>)
    ensures IsAscending(s, r)
  {
    AscendingWellDefined(s);
    var r :| IsAscending(s, r);
    r
  }

  /** Visits a set like an iterator does, always going to the least element not seen yet. */
  method Iterate(s: set<NodeIdent>) returns (r: seq<NodeIdent>)
    ensures r == Ascending(s)
  {
    r := [];
    var rest := s;
    while rest != {}
      invariant r + Ascending(rest) == Ascending(s)
      decreases |rest|
    {
      var x := Least(rest);
      AscendingStep(rest);
      r := r + [x];
      rest := rest - {x};
    }
  }

  lemma AscendingStep(s: set<NodeIdent>)
    requires s != {}
    ensures Ascending(s) == [Least(s)] + Ascending(s - {Least(s)})
  {
    var r := Ascending(s);
    TailAscending(s, r);
    assert r[0] in r && Least(s) in r;
    var i :| 0 <= i < |r| && r[i] == Least(s);
    AscendingUnique(s - {r[0]}, r[1..], Ascending(s - {r[0]}));
  }

  lemma AscendingDistinct(s: set<NodeIdent>)
    ensures Distinct(Ascending(s)) && Elements(Ascending(s)) == s
  {}

  // ---------------------------------------------------------------- rounding

  /** llround on the non-negative reals: halves round up. */
  function Round(x: real): (r: nat)
    requires x >= 0.0
    ensures x - 0.5 < r as real <= x + 0.5
  {
    (x + 0.5).Floor
  }

  function Ceil(x: real): (r: int)
    ensures x <= r as real < x + 1.0
  {
    -((-x).Floor)
  }

  lemma RoundMonotone(x: real, y: real)
    requires 0.0 <= x <= y
    ensures Round(x) <= Round(y)
  {}

  lemma RoundExact(n: nat)
    ensures Round(n as real) == n
  {}
}
