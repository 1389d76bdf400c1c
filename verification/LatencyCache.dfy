/** The latency cache: measurements that expire, at most maxSize of them, the one measured longest ago evicted first. */
module LatencyCaches {
  import opened Base
  import opened TimerIndex

  datatype Entry = Entry(expiry: Timeval, latencyUS: uint32)

  datatype Cache = Cache(maxSize: nat, periodUS: nat,
                         entries: map<NodeIdent, Entry>, buckets: map<Timeval, seq<NodeIdent>>)

  function Ix(c: Cache): Index<NodeIdent> {
    Index(map n | n in c.entries :: c.entries[n].expiry, c.buckets)
  }

  ghost predicate Inv(c: Cache) {
    && Twin(Ix(c))
    && |c.entries| <= c.maxSize
    && forall n :: n in c.entries ==> c.entries[n].expiry.usec < MICRO_IN_SECOND
  }

  function EraseEntry(c: Cache, n: NodeIdent): Cache
    requires Twin(Ix(c))
  {
    if n in c.entries then
      assert n in Ix(c).due && Ix(c).due[n] == c.entries[n].expiry;
      c.(entries := c.entries - {n}, buckets := DropBucket(c.buckets, n, c.entries[n].expiry))
    else c
  }

  /** timeradd of the clock and the period. */
  function TimerAdd(now: Timeval, periodUS: nat): (t: Timeval)
    requires now.usec < MICRO_IN_SECOND
    ensures Instant(t) == Instant(now) + periodUS && t.usec < MICRO_IN_SECOND
  {
    PeriodSplits(periodUS);
    var sec, usec := now.sec + periodUS / MICRO_IN_SECOND, now.usec + periodUS % MICRO_IN_SECOND;
    if usec >= MICRO_IN_SECOND then Timeval(sec + 1, usec - MICRO_IN_SECOND) else Timeval(sec, usec)
  }

  lemma PeriodSplits(periodUS: nat)
    ensures periodUS == periodUS / MICRO_IN_SECOND * MICRO_IN_SECOND + periodUS % MICRO_IN_SECOND
    ensures 0 <= periodUS % MICRO_IN_SECOND < MICRO_IN_SECOND
  {}

  /** The first entry of the first bucket goes when there is no room. */
  function Victim(c: Cache): Option<NodeIdent>
    requires Twin(Ix(c))
  {
    if |c.entries| >= c.maxSize && c.buckets.Keys != {} then Some(c.buckets[Earliest(c.buckets.Keys)][0]) else None
  }

  function MakeRoom(c: Cache): Cache
    requires Twin(Ix(c))
  {
    if Victim(c).Some? then EraseEntry(c, Victim(c).value) else c
  }

  function PutEntry(c: Cache, n: NodeIdent, e: Entry): Cache {
    c.(entries := c.entries[n := e], buckets := AddBucket(c.buckets, n, e.expiry))
  }

  function InsertMeasurement(c: Cache, n: NodeIdent, latencyUS: uint32, now: Timeval): Cache
    requires Inv(c) && now.usec < MICRO_IN_SECOND
  {
    if c.maxSize == 0 then c
    else
      EraseKeepsInv(c, n);
      PutEntry(MakeRoom(EraseEntry(c, n)), n, Entry(TimerAdd(now, c.periodUS), latencyUS))
  }

  /** An expired entry is not reported, though it stays. */
  function GetLatency(c: Cache, n: NodeIdent, now: Timeval): Option<uint32> {
    if n in c.entries && !NotAfter(c.entries[n].expiry, Normalize(now)) then Some(c.entries[n].latencyUS) else None
  }

  // ---------------------------------------------------------------- what the operations do

  lemma EraseKeepsInv(c: Cache, n: NodeIdent)
    requires Inv(c)
    ensures Inv(EraseEntry(c, n)) && EraseEntry(c, n).entries == c.entries - {n}
    ensures n in c.entries ==> |EraseEntry(c, n).entries| == |c.entries| - 1
  {
    if n in c.entries {
      RemoveKeepsTwin(Ix(c), n);
      assert Ix(EraseEntry(c, n)) == Remove(Ix(c), n);
      assert (c.entries - {n}).Keys == c.entries.Keys - {n};
    } else {
      assert c.entries - {n} == c.entries;
    }
  }

  /** When the cache is full the victim is a cached node, and no cached node expires before it. */
  lemma VictimExpiresFirst(c: Cache, n: NodeIdent)
    requires Inv(c) && n in c.entries && |c.entries| >= c.maxSize
    ensures Victim(c).Some? && Victim(c).value in c.entries
    ensures Instant(c.entries[Victim(c).value].expiry) <= Instant(c.entries[n].expiry)
  {
    EarliestIsMinimum(Ix(c), n);
    var t := Earliest(c.buckets.Keys);
    var v := c.buckets[t][0];
    assert v in c.buckets[t] && v in Ix(c).due && Ix(c).due[v] == t;
    OrderIsChronological(t, c.entries[n].expiry);
  }

  lemma MakeRoomEffect(c: Cache)
    requires Inv(c) && c.maxSize > 0
    ensures Inv(MakeRoom(c)) && |MakeRoom(c).entries| < c.maxSize
    ensures MakeRoom(c).entries == if Victim(c).Some? then c.entries - {Victim(c).value} else c.entries
  {
    if |c.entries| >= c.maxSize {
      var n :| n in c.entries;
      VictimExpiresFirst(c, n);
      EraseKeepsInv(c, Victim(c).value);
    }
  }

  lemma PutKeepsInv(c: Cache, n: NodeIdent, e: Entry)
    requires Inv(c) && n !in c.entries && |c.entries| < c.maxSize && e.expiry.usec < MICRO_IN_SECOND
    ensures Inv(PutEntry(c, n, e))
  {
    AddKeepsTwin(Ix(c), n, e.expiry);
    PutIx(c, n, e);
    assert c.entries[n := e].Keys == c.entries.Keys + {n};
  }

  lemma PutIx(c: Cache, n: NodeIdent, e: Entry)
    ensures Ix(PutEntry(c, n, e)) == Add(Ix(c), n, e.expiry)
  {}

  datatype Op = Insert(node: NodeIdent, latencyUS: uint32, now: Timeval) | Erase(node: NodeIdent)

  predicate ClockOk(op: Op) {
    op.Insert? ==> op.now.usec < MICRO_IN_SECOND
  }

  function Apply(c: Cache, op: Op): Cache
    requires Inv(c) && ClockOk(op)
  {
    match op
    case Insert(n, latencyUS, now) => InsertMeasurement(c, n, latencyUS, now)
    case Erase(n) => EraseEntry(c, n)
  }

  /** op displaces what is cached for n: it erases or overwrites it, or evicts it to make room for another node. */
  predicate Displaces(c: Cache, op: Op, n: NodeIdent)
    requires Inv(c)
  {
    if op.node == n then op.Erase? || c.maxSize > 0
    else
      op.Insert? && c.maxSize > 0 && Victim(EraseKept(c, op.node)) == Some(n)
  }

  ghost predicate Stores(c: Cache, op: Op, n: NodeIdent, e: Entry) {
    && op.Insert? && op.node == n && c.maxSize > 0 && ClockOk(op)
    && e == Entry(TimerAdd(op.now, c.periodUS), op.latencyUS)
  }

  ghost predicate Holds(c: Cache, n: NodeIdent, e: Entry) {
    n in c.entries && c.entries[n] == e
  }

  lemma InsertEffect(c: Cache, n: NodeIdent, latencyUS: uint32, now: Timeval)
    requires Inv(c) && now.usec < MICRO_IN_SECOND && c.maxSize > 0
    ensures var d, victim := InsertMeasurement(c, n, latencyUS, now), Victim(EraseKept(c, n));
      && Inv(d) && d.maxSize == c.maxSize && d.periodUS == c.periodUS
      && d.entries == (c.entries - {n} - if victim.Some? then {victim.value} else {})
                      [n := Entry(TimerAdd(now, c.periodUS), latencyUS)]
  {
    EraseKeepsInv(c, n);
    InsertAfterErase(EraseEntry(c, n), n, Entry(TimerAdd(now, c.periodUS), latencyUS));
  }

  lemma InsertAfterErase(c1: Cache, n: NodeIdent, e: Entry)
    requires Inv(c1) && c1.maxSize > 0 && n !in c1.entries && e.expiry.usec < MICRO_IN_SECOND
    ensures var d := PutEntry(MakeRoom(c1), n, e);
      && Inv(d) && d.maxSize == c1.maxSize && d.periodUS == c1.periodUS
      && d.entries == (c1.entries - if Victim(c1).Some? then {Victim(c1).value} else {})[n := e]
  {
    InsertWithRoom(c1, n, e);
    MakeRoomEntries(c1, MakeRoom(c1).entries, Victim(c1));
  }

  lemma MakeRoomEntries(c1: Cache, m: map<NodeIdent, Entry>, victim: Option<NodeIdent>)
    requires Inv(c1) && c1.maxSize > 0 && m == MakeRoom(c1).entries && victim == Victim(c1)
    ensures m == c1.entries - if victim.Some? then {victim.value} else {}
  {
    MakeRoomEffect(c1);
  }

  lemma InsertWithRoom(c1: Cache, n: NodeIdent, e: Entry)
    requires Inv(c1) && c1.maxSize > 0 && n !in c1.entries && e.expiry.usec < MICRO_IN_SECOND
    ensures var d := PutEntry(MakeRoom(c1), n, e);
      && Inv(d) && d.maxSize == c1.maxSize && d.periodUS == c1.periodUS
      && d.entries == MakeRoom(c1).entries[n := e]
  {
    MakeRoomEffect(c1);
    var c2 := MakeRoom(c1);
    assert c2.maxSize == c1.maxSize && c2.periodUS == c1.periodUS;
    assert c2.entries.Keys <= c1.entries.Keys;
    PutOnto(c1, c2, n, e);
  }

  lemma PutOnto(c1: Cache, c2: Cache, n: NodeIdent, e: Entry)
    requires Inv(c2) && |c2.entries| < c2.maxSize && c2.maxSize == c1.maxSize && c2.periodUS == c1.periodUS
    requires n !in c1.entries && c2.entries.Keys <= c1.entries.Keys && e.expiry.usec < MICRO_IN_SECOND
    ensures var d := PutEntry(c2, n, e);
      Inv(d) && d.maxSize == c1.maxSize && d.periodUS == c1.periodUS && d.entries == c2.entries[n := e]
  {
    PutKeepsInv(c2, n, e);
  }

  function EraseKept(c: Cache, n: NodeIdent): (d: Cache)
    requires Inv(c)
    ensures Inv(d)
  {
    EraseKeepsInv(c, n);
    EraseEntry(c, n)
  }

  lemma ApplyKeepsInv(c: Cache, op: Op)
    requires Inv(c) && ClockOk(op)
    ensures Inv(Apply(c, op))
    ensures Apply(c, op).maxSize == c.maxSize && Apply(c, op).periodUS == c.periodUS
  {
    match op
    case Insert(n, latencyUS, now) => if c.maxSize > 0 { InsertEffect(c, n, latencyUS, now); }
    case Erase(n) => EraseKeepsInv(c, n);
  }

  lemma ReplacedIn(m: map<NodeIdent, Entry>, m': map<NodeIdent, Entry>, k: NodeIdent, victim: Option<NodeIdent>,
                   f: Entry, n: NodeIdent, e: Entry)
    requires m' == (m - {k} - if victim.Some? then {victim.value} else {})[k := f]
    ensures (n in m' && m'[n] == e) <==> (n == k && e == f) || (n in m && m[n] == e && n != k && victim != Some(n))
  {}

  /** One operation against the plain map: what it stores is there, the rest stays unless displaced. */
  lemma ApplyEffect(c: Cache, op: Op, n: NodeIdent, e: Entry)
    requires Inv(c) && ClockOk(op)
    ensures Holds(Apply(c, op), n, e) <==> Stores(c, op, n, e) || (Holds(c, n, e) && !Displaces(c, op, n))
  {
    match op
    case Insert(k, latencyUS, now) =>
      if c.maxSize > 0 {
        InsertEffect(c, k, latencyUS, now);
        var f := Entry(TimerAdd(now, c.periodUS), latencyUS);
        ReplacedIn(c.entries, Apply(c, op).entries, k, Victim(EraseKept(c, k)), f, n, e);
      }
    case Erase(k) => EraseKeepsInv(c, k);
  }

  // ---------------------------------------------------------------- the history of an entry

  function New(maxSize: nat, periodUS: nat): (c: Cache)
    ensures Inv(c)
  {
    Cache(maxSize, periodUS, map[], map[])
  }

  /** states is what a new cache goes through. */
  ghost predicate IsRun(states: seq<Cache>, ops: seq<Op>) {
    && |states| == |ops| + 1 && states[0] == New(states[0].maxSize, states[0].periodUS)
    && forall i: nat :: i < |ops| ==> FollowsAt(states, ops, i)
  }

  ghost predicate FollowsAt(states: seq<Cache>, ops: seq<Op>, i: nat)
    requires |states| == |ops| + 1 && i < |ops|
  {
    Follows(states[i], ops[i], states[i + 1])
  }

  ghost predicate Follows(c: Cache, op: Op, d: Cache) {
    ClockOk(op) && (Inv(c) ==> d == Apply(c, op))
  }

  /** Over every run the indexes stay exact inverses, the size bounded and the configuration fixed. */
  lemma {:induction false} RunKeepsInv(states: seq<Cache>, ops: seq<Op>, k: nat)
    requires IsRun(states, ops) && k < |states|
    ensures Inv(states[k]) && states[k].maxSize == states[0].maxSize && states[k].periodUS == states[0].periodUS
  {
    if k > 0 {
      RunKeepsInv(states, ops, k - 1);
      assert FollowsAt(states, ops, k - 1);
      ApplyKeepsInv(states[k - 1], ops[k - 1]);
    }
  }

  /** Operation i stored e for n, and nothing between i and k displaced it. */
  ghost predicate LastsFrom(states: seq<Cache>, ops: seq<Op>, n: NodeIdent, e: Entry, i: nat, k: nat)
    requires IsRun(states, ops) && k < |states|
  {
    && i < k && Stores(states[i], ops[i], n, e)
    && forall j :: i < j < k ==> !DisplacesAt(states, ops, j, n)
  }

  ghost predicate DisplacesAt(states: seq<Cache>, ops: seq<Op>, j: nat, n: NodeIdent)
    requires IsRun(states, ops) && j < |ops|
  {
    Inv(states[j]) && Displaces(states[j], ops[j], n)
  }

  /** What is stored stays until displaced: h tells when something is held, s when it is stored, d when displaced. */
  lemma {:induction false} HeldSince(h: seq<bool>, s: seq<bool>, d: seq<bool>, k: nat)
    requires |h| == |s| + 1 == |d| + 1 && !h[0] && k < |h|
    requires forall i :: 0 <= i < |s| ==> h[i + 1] == (s[i] || (h[i] && !d[i]))
    ensures h[k] <==> exists i :: 0 <= i < k && s[i] && forall j :: i < j < k ==> !d[j]
  {
    if k > 0 {
      HeldSince(h, s, d, k - 1);
      assert h[k - 1 + 1] == (s[k - 1] || (h[k - 1] && !d[k - 1]));
    }
  }

  lemma Flags(states: seq<Cache>, ops: seq<Op>, n: NodeIdent, e: Entry)
    returns (h: seq<bool>, s: seq<bool>, d: seq<bool>)
    requires IsRun(states, ops)
    ensures |h| == |states| && forall i :: 0 <= i < |h| ==> h[i] == Holds(states[i], n, e)
    ensures |s| == |ops| && forall i :: 0 <= i < |s| ==> s[i] == Stores(states[i], ops[i], n, e)
    ensures |d| == |ops| && forall i :: 0 <= i < |d| ==> d[i] == DisplacesAt(states, ops, i, n)
  {
    h := seq(|states|, i requires 0 <= i < |states| => Holds(states[i], n, e));
    s := seq(|ops|, i requires 0 <= i < |ops| => Stores(states[i], ops[i], n, e));
    d := seq(|ops|, i requires 0 <= i < |ops| => DisplacesAt(states, ops, i, n));
  }

  lemma FlagsFollow(states: seq<Cache>, ops: seq<Op>, n: NodeIdent, e: Entry, h: seq<bool>, s: seq<bool>, d: seq<bool>)
    requires IsRun(states, ops) && |h| == |states| && |s| == |d| == |ops|
    requires forall i :: 0 <= i < |h| ==> h[i] == Holds(states[i], n, e)
    requires forall i :: 0 <= i < |s| ==> s[i] == Stores(states[i], ops[i], n, e)
    requires forall i :: 0 <= i < |d| ==> d[i] == DisplacesAt(states, ops, i, n)
    ensures forall i :: 0 <= i < |ops| ==> h[i + 1] == (s[i] || (h[i] && !d[i]))
  {
    forall i | 0 <= i < |ops| ensures h[i + 1] == (s[i] || (h[i] && !d[i])) {
      StepHolds(states, ops, n, e, i);
    }
  }

  lemma StepHolds(states: seq<Cache>, ops: seq<Op>, n: NodeIdent, e: Entry, i: nat)
    requires IsRun(states, ops) && i < |ops|
    ensures Holds(states[i + 1], n, e) ==
      (Stores(states[i], ops[i], n, e) || (Holds(states[i], n, e) && !DisplacesAt(states, ops, i, n)))
  {
    RunKeepsInv(states, ops, i);
    assert FollowsAt(states, ops, i);
    ApplyEffect(states[i], ops[i], n, e);
  }

  lemma HeldSinceStored(states: seq<Cache>, ops: seq<Op>, n: NodeIdent, e: Entry, k: nat)
    requires IsRun(states, ops) && k < |states|
    ensures Holds(states[k], n, e) <==> exists i: nat :: LastsFrom(states, ops, n, e, i, k)
  {
    var h, s, d := Flags(states, ops, n, e);
    FlagsFollow(states, ops, n, e, h, s, d);
    HeldSince(h, s, d, k);
    FlagsAgree(states, ops, n, e, k, s, d);
  }

  lemma FlagsAgree(states: seq<Cache>, ops: seq<Op>, n: NodeIdent, e: Entry, k: nat, s: seq<bool>, d: seq<bool>)
    requires IsRun(states, ops) && k < |states| && |s| == |d| == |ops|
    requires forall i :: 0 <= i < |s| ==> s[i] == Stores(states[i], ops[i], n, e)
    requires forall i :: 0 <= i < |d| ==> d[i] == DisplacesAt(states, ops, i, n)
    ensures (exists i: nat :: LastsFrom(states, ops, n, e, i, k)) <==>
      exists i :: 0 <= i < k && s[i] && forall j :: i < j < k ==> !d[j]
  {
    if i :| 0 <= i < k && s[i] && forall j :: i < j < k ==> !d[j] {
      FlagsTell(states, ops, n, e, i, k, s, d);
    }
    if i: nat :| LastsFrom(states, ops, n, e, i, k) {
      FlagsTell(states, ops, n, e, i, k, s, d);
    }
  }

  lemma FlagsTell(states: seq<Cache>, ops: seq<Op>, n: NodeIdent, e: Entry, i: nat, k: nat, s: seq<bool>, d: seq<bool>)
    requires IsRun(states, ops) && i < k < |states| && |s| == |d| == |ops|
    requires s[i] == Stores(states[i], ops[i], n, e)
    requires forall j :: 0 <= j < |d| ==> d[j] == DisplacesAt(states, ops, j, n)
    ensures LastsFrom(states, ops, n, e, i, k) <==> s[i] && forall j :: i < j < k ==> !d[j]
  {}

  /**
    A lookup hits exactly when some measurement of the node was stored, nothing since has overwritten, erased or
    evicted it, and its period has not passed; it then returns that measurement.
   */
  lemma LookupAnswersHistory(states: seq<Cache>, ops: seq<Op>, n: NodeIdent, k: nat, now: Timeval, l: uint32)
    requires IsRun(states, ops) && k < |states| && now.usec < MICRO_IN_SECOND
    ensures GetLatency(states[k], n, now) == Some(l) <==>
      exists i: nat, e :: LastsFrom(states, ops, n, e, i, k) && e.latencyUS == l && Instant(now) < Instant(e.expiry)
  {
    RunKeepsInv(states, ops, k);
    if n in states[k].entries {
      DueIsChronological(states[k].entries[n].expiry, now);
      HeldSinceStored(states, ops, n, states[k].entries[n], k);
    }
    if i: nat, e :| LastsFrom(states, ops, n, e, i, k) { HeldSinceStored(states, ops, n, e, k); }
    forall i: nat, e | LastsFrom(states, ops, n, e, i, k) ensures Holds(states[k], n, e) {
      HeldSinceStored(states, ops, n, e, k);
    }
  }

  /** A full cache evicts the measurement taken longest ago. */
  lemma VictimIsOldest(states: seq<Cache>, ops: seq<Op>, k: nat, v: NodeIdent, n: NodeIdent, e: Entry, f: Entry,
                       i: nat, j: nat)
    requires IsRun(states, ops) && k < |states| && Twin(Ix(states[k])) && Victim(states[k]) == Some(v)
    requires LastsFrom(states, ops, v, e, i, k) && LastsFrom(states, ops, n, f, j, k)
    ensures Instant(ops[i].now) <= Instant(ops[j].now)
  {
    RunKeepsInv(states, ops, k);
    HeldSinceStored(states, ops, v, e, k);
    HeldSinceStored(states, ops, n, f, k);
    VictimExpiresFirst(states[k], n);
    RunKeepsInv(states, ops, i);
    RunKeepsInv(states, ops, j);
  }

  // ---------------------------------------------------------------- who is evicted, and when

  /** v expires before every other cached node but k, or at the same time. */
  ghost predicate ExpiresFirst(c: Cache, v: NodeIdent, k: NodeIdent) {
    && v in c.entries && v != k
    && forall m :: m in c.entries && m != k ==> Instant(c.entries[v].expiry) <= Instant(c.entries[m].expiry)
  }

  /**
    An insertion of k keeps everybody else unless as many others are cached as the cache holds; then it removes exactly
    one of them, one that expires first. k itself is cached until its period has passed.
   */
  lemma InsertionEvicts(c: Cache, k: NodeIdent, latencyUS: uint32, now: Timeval)
    requires Inv(c) && now.usec < MICRO_IN_SECOND && c.maxSize > 0
    ensures var d, others := Apply(c, Insert(k, latencyUS, now)), c.entries.Keys - {k};
      && k in d.entries && d.entries[k].latencyUS == latencyUS
      && Instant(d.entries[k].expiry) == Instant(now) + c.periodUS
      && (forall m :: m in d.entries && m != k ==> m in c.entries && d.entries[m] == c.entries[m])
      && (|others| < c.maxSize ==> others <= d.entries.Keys)
      && (|others| >= c.maxSize ==> exists v :: ExpiresFirst(c, v, k) && others - {v} == d.entries.Keys - {k})
  {
    InsertEffect(c, k, latencyUS, now);
    var c1 := EraseKept(c, k);
    EraseKeepsInv(c, k);
    assert c1.entries.Keys == c.entries.Keys - {k} && |c1.entries| == |c1.entries.Keys|;
    FullOrNot(c1);
    ReplacedFrom(c.entries, Apply(c, Insert(k, latencyUS, now)).entries, k, Victim(c1),
                 Entry(TimerAdd(now, c.periodUS), latencyUS));
    if |c1.entries| >= c.maxSize { assert ExpiresFirst(c, Victim(c1).value, k); }
  }

  lemma ReplacedFrom(m: map<NodeIdent, Entry>, m': map<NodeIdent, Entry>, k: NodeIdent, victim: Option<NodeIdent>,
                     f: Entry)
    requires m' == (m - {k} - if victim.Some? then {victim.value} else {})[k := f]
    requires victim.Some? ==> victim.value != k
    ensures k in m' && m'[k] == f && forall x :: x in m' && x != k ==> x in m && m'[x] == m[x]
    ensures victim.None? ==> m.Keys - {k} <= m'.Keys
    ensures victim.Some? ==> m.Keys - {k} - {victim.value} == m'.Keys - {k}
  {}

  /** Without room the victim is a cached node that expires first; with room there is none. */
  lemma FullOrNot(c: Cache)
    requires Inv(c) && c.maxSize > 0
    ensures |c.entries| < c.maxSize ==> Victim(c).None?
    ensures |c.entries| >= c.maxSize ==>
      && Victim(c).Some? && Victim(c).value in c.entries
      && forall x :: x in c.entries ==> Instant(c.entries[Victim(c).value].expiry) <= Instant(c.entries[x].expiry)
  {
    if |c.entries| >= c.maxSize {
      var m :| m in c.entries;
      VictimExpiresFirst(c, m);
      forall x | x in c.entries ensures Instant(c.entries[Victim(c).value].expiry) <= Instant(c.entries[x].expiry) {
        VictimExpiresFirst(c, x);
      }
    }
  }

  /** The nodes other than n inserted after operation i, or before it by a clock that did not show less. */
  ghost function Rivals(ops: seq<Op>, n: NodeIdent, i: nat, k: nat): set<NodeIdent>
    requires i < k <= |ops| && ops[i].Insert?
  {
    set j | 0 <= j < k && IsRival(ops, n, i, j) :: ops[j].node
  }

  ghost predicate IsRival(ops: seq<Op>, n: NodeIdent, i: nat, j: nat)
    requires i < |ops| && j < |ops| && ops[i].Insert?
  {
    ops[j].Insert? && ops[j].node != n && (j > i || Instant(ops[j].now) >= Instant(ops[i].now))
  }

  /** Nothing between i and k is done to n. */
  ghost predicate LeftAlone(ops: seq<Op>, n: NodeIdent, i: nat, k: nat)
    requires k <= |ops|
  {
    forall j: nat :: i < j < k ==> Elsewhere(ops, j, n)
  }

  ghost predicate Elsewhere(ops: seq<Op>, j: nat, n: NodeIdent)
    requires j < |ops|
  {
    ops[j].node != n
  }

  /** Whoever is cached and expires no earlier than n is n or one of its rivals. */
  lemma CachedRival(states: seq<Cache>, ops: seq<Op>, n: NodeIdent, e: Entry, i: nat, k: nat, m: NodeIdent)
    requires IsRun(states, ops) && i < k < |states| && Stores(states[i], ops[i], n, e)
    requires m != n && m in states[k].entries && Instant(e.expiry) <= Instant(states[k].entries[m].expiry)
    ensures m in Rivals(ops, n, i, k)
  {
    var f := states[k].entries[m];
    HeldSinceStored(states, ops, m, f, k);
    var j: nat :| LastsFrom(states, ops, m, f, j, k);
    RunKeepsInv(states, ops, i);
    RunKeepsInv(states, ops, j);
    assert IsRival(ops, n, i, j);
  }

  /**
    What was stored for n is still held as long as nothing else was done to n and it has had fewer rivals than the
    cache holds. Whatever the clock shows, nodes inserted later are rivals; earlier ones are only where the clock had
    already shown as much.
   */
  lemma StillHeld(states: seq<Cache>, ops: seq<Op>, n: NodeIdent, e: Entry, i: nat, k: nat)
    requires IsRun(states, ops) && i < k < |states| && Stores(states[i], ops[i], n, e)
    requires LeftAlone(ops, n, i, k) && |Rivals(ops, n, i, k)| < states[0].maxSize
    ensures Holds(states[k], n, e)
  {
    var h := HeldFlags(states, n, e);
    JustStored(states, ops, n, e, i);
    forall j: nat | i < j < k ensures h[j] ==> h[j + 1] {
      HeldStep(states, ops, n, e, i, j, k);
    }
    StaysSo(h, i + 1, k);
  }

  ghost function HeldFlags(states: seq<Cache>, n: NodeIdent, e: Entry): (h: seq<bool>)
    ensures |h| == |states| && forall j: nat :: j < |h| ==> (h[j] <==> Holds(states[j], n, e))
  {
    seq(|states|, j requires 0 <= j < |states| => Holds(states[j], n, e))
  }

  lemma {:induction false} StaysSo(h: seq<bool>, i: nat, k: nat)
    requires i <= k < |h| && h[i] && forall j: nat :: i <= j < k ==> (h[j] ==> h[j + 1])
    ensures h[k]
    decreases k
  {
    if i < k {
      StaysSo(h, i, k - 1);
      assert h[k - 1] ==> h[k - 1 + 1];
    }
  }

  lemma HeldStep(states: seq<Cache>, ops: seq<Op>, n: NodeIdent, e: Entry, i: nat, j: nat, k: nat)
    requires IsRun(states, ops) && i < j < k < |states| && Stores(states[i], ops[i], n, e)
    requires LeftAlone(ops, n, i, k) && |Rivals(ops, n, i, k)| < states[0].maxSize
    ensures Holds(states[j], n, e) ==> Holds(states[j + 1], n, e)
  {
    assert Elsewhere(ops, j, n);
    FewerRivals(ops, n, i, j + 1, k);
    if Holds(states[j], n, e) { HeldAfterNext(states, ops, n, e, i, j); }
  }

  lemma JustStored(states: seq<Cache>, ops: seq<Op>, n: NodeIdent, e: Entry, i: nat)
    requires IsRun(states, ops) && i < |ops| && Stores(states[i], ops[i], n, e)
    ensures Holds(states[i + 1], n, e)
  {
    StepOfRun(states, ops, i);
    ApplyEffect(states[i], ops[i], n, e);
  }

  lemma StepOfRun(states: seq<Cache>, ops: seq<Op>, k: nat)
    requires IsRun(states, ops) && k < |ops|
    ensures Inv(states[k]) && ClockOk(ops[k]) && states[k + 1] == Apply(states[k], ops[k])
    ensures states[k].maxSize == states[0].maxSize
  {
    RunKeepsInv(states, ops, k);
    assert FollowsAt(states, ops, k);
  }

  lemma HeldAfterNext(states: seq<Cache>, ops: seq<Op>, n: NodeIdent, e: Entry, i: nat, k: nat)
    requires IsRun(states, ops) && i < k < |ops| && Stores(states[i], ops[i], n, e)
    requires Holds(states[k], n, e) && ops[k].node != n && |Rivals(ops, n, i, k + 1)| < states[0].maxSize
    ensures Holds(states[k + 1], n, e)
  {
    StepOfRun(states, ops, k);
    RivalsCover(states, ops, n, e, i, k);
    HeldByOp(states[k], ops[k], n, e, Rivals(ops, n, i, k + 1));
  }

  lemma RivalsCover(states: seq<Cache>, ops: seq<Op>, n: NodeIdent, e: Entry, i: nat, k: nat)
    requires IsRun(states, ops) && i < k < |ops| && Stores(states[i], ops[i], n, e) && ops[k].node != n
    ensures ops[k].Insert? ==> ops[k].node in Rivals(ops, n, i, k + 1)
    ensures forall m ::
      m != n && m in states[k].entries && Instant(e.expiry) <= Instant(states[k].entries[m].expiry) ==>
        m in Rivals(ops, n, i, k + 1)
  {
    if ops[k].Insert? { assert IsRival(ops, n, i, k); }
    forall m | m != n && m in states[k].entries && Instant(e.expiry) <= Instant(states[k].entries[m].expiry)
      ensures m in Rivals(ops, n, i, k + 1)
    {
      CachedRival(states, ops, n, e, i, k, m);
    }
  }

  lemma HeldByOp(c: Cache, op: Op, n: NodeIdent, e: Entry, rivals: set<NodeIdent>)
    requires Inv(c) && ClockOk(op) && Holds(c, n, e) && op.node != n && |rivals| < c.maxSize
    requires op.Insert? ==> op.node in rivals
    requires forall m :: m != n && m in c.entries && Instant(e.expiry) <= Instant(c.entries[m].expiry) ==> m in rivals
    ensures Holds(Apply(c, op), n, e)
  {
    EraseKeepsInv(c, op.node);
    if op.Insert? {
      InsertionEvicts(c, op.node, op.latencyUS, op.now);
      if n !in Apply(c, op).entries { EvictedByRivals(c, op.node, n, rivals); }
    }
  }

  lemma EvictedByRivals(c: Cache, k: NodeIdent, n: NodeIdent, rivals: set<NodeIdent>)
    requires |c.entries.Keys - {k}| >= c.maxSize && k in rivals && ExpiresFirst(c, n, k)
    requires forall m :: m != n && m in c.entries && Instant(c.entries[n].expiry) <= Instant(c.entries[m].expiry) ==>
      m in rivals
    ensures |rivals| >= c.maxSize
  {
    SubsetSize(c.entries.Keys - {k} - {n} + {k}, rivals);
  }

  lemma FewerRivals(ops: seq<Op>, n: NodeIdent, i: nat, j: nat, k: nat)
    requires i < j <= k <= |ops| && ops[i].Insert?
    ensures |Rivals(ops, n, i, j)| <= |Rivals(ops, n, i, k)|
  {
    SubsetSize(Rivals(ops, n, i, j), Rivals(ops, n, i, k));
  }

  /** With a clock that had shown less at every earlier insertion, only nodes inserted since are rivals. */
  lemma RivalsAreLater(ops: seq<Op>, n: NodeIdent, i: nat, k: nat)
    requires i < k <= |ops| && ops[i].Insert? && ops[i].node == n
    requires forall j :: 0 <= j < i && ops[j].Insert? ==> Instant(ops[j].now) < Instant(ops[i].now)
    ensures Rivals(ops, n, i, k) == set j | i < j < k && ops[j].Insert? && ops[j].node != n :: ops[j].node
  {
    forall j | 0 <= j < k && IsRival(ops, n, i, j) ensures i < j < k {}
    forall j | i < j < k && ops[j].Insert? && ops[j].node != n ensures IsRival(ops, n, i, j) {}
  }

  /**
    From operation i on nothing is erased, and the clock shows more at every later insertion, less at every earlier.
   */
  ghost predicate Advancing(ops: seq<Op>, i: nat, k: nat)
    requires i < k <= |ops| && ops[i].Insert?
  {
    && (forall j :: 0 <= j < i && ops[j].Insert? ==> Instant(ops[j].now) < Instant(ops[i].now))
    && forall j :: i < j < k ==> ops[j].Insert? && Instant(ops[j].now) > Instant(ops[i].now)
  }

  ghost predicate AllLater(c: Cache, nodes: set<NodeIdent>, e: Entry) {
    forall m :: m in nodes ==> m in c.entries && Instant(c.entries[m].expiry) > Instant(e.expiry)
  }

  ghost predicate LaterHeld(c: Cache, nodes: set<NodeIdent>, n: NodeIdent, e: Entry) {
    Holds(c, n, e) ==> AllLater(c, nodes, e)
  }

  ghost function LaterFlags(states: seq<Cache>, ops: seq<Op>, n: NodeIdent, e: Entry, i: nat): (h: seq<bool>)
    requires |states| == |ops| + 1 && i < |ops| && ops[i].Insert?
    ensures |h| == |states|
    ensures forall j: nat :: i < j < |h| ==> (h[j] <==> LaterHeld(states[j], Rivals(ops, n, i, j), n, e))
  {
    seq(|states|, j requires 0 <= j < |states| => i < j && LaterHeld(states[j], Rivals(ops, n, i, j), n, e))
  }

  /** As long as n is held nobody who came later goes. */
  lemma LaterOnesStay(states: seq<Cache>, ops: seq<Op>, n: NodeIdent, e: Entry, i: nat, k: nat)
    requires IsRun(states, ops) && i < k < |states| && Stores(states[i], ops[i], n, e)
    requires LeftAlone(ops, n, i, k) && Advancing(ops, i, k) && Holds(states[k], n, e)
    ensures AllLater(states[k], Rivals(ops, n, i, k), e)
  {
    var h := LaterFlags(states, ops, n, e, i);
    NobodyLater(states[i + 1], ops, n, e, i, k);
    forall j: nat | i < j < k && h[j] ensures h[j + 1] {
      LaterAtNext(states, ops, n, e, i, j, k);
    }
    StaysSo(h, i + 1, k);
  }

  lemma NobodyLater(c: Cache, ops: seq<Op>, n: NodeIdent, e: Entry, i: nat, k: nat)
    requires i < k <= |ops| && ops[i].Insert? && ops[i].node == n && LeftAlone(ops, n, i, k) && Advancing(ops, i, k)
    ensures LaterHeld(c, Rivals(ops, n, i, i + 1), n, e)
  {
    RivalsNext(ops, n, i, i + 1);
  }

  lemma NextRival(ops: seq<Op>, n: NodeIdent, i: nat, j: nat, k: nat)
    requires i < j < k <= |ops| && ops[i].Insert? && ops[i].node == n && LeftAlone(ops, n, i, k) && Advancing(ops, i, k)
    ensures ops[j].Insert? && ops[j].node != n && Instant(ops[i].now) < Instant(ops[j].now)
    ensures Rivals(ops, n, i, j + 1) == Rivals(ops, n, i, j) + {ops[j].node}
  {
    AdvancingUpTo(ops, n, i, j + 1, k);
    RivalsNext(ops, n, i, j + 1);
  }

  lemma LaterAtNext(states: seq<Cache>, ops: seq<Op>, n: NodeIdent, e: Entry, i: nat, j: nat, k: nat)
    requires IsRun(states, ops) && i < j < k <= |ops| && Stores(states[i], ops[i], n, e)
    requires LeftAlone(ops, n, i, k) && Advancing(ops, i, k) && LaterHeld(states[j], Rivals(ops, n, i, j), n, e)
    ensures LaterHeld(states[j + 1], Rivals(ops, n, i, j + 1), n, e)
  {
    NextRival(ops, n, i, j, k);
    LaterStep(states, ops, n, e, i, j, Rivals(ops, n, i, j));
  }

  lemma LaterStep(states: seq<Cache>, ops: seq<Op>, n: NodeIdent, e: Entry, i: nat, j: nat, rivals: set<NodeIdent>)
    requires IsRun(states, ops) && i < j < |ops| && Stores(states[i], ops[i], n, e)
    requires ops[j].Insert? && ops[j].node != n && Instant(ops[i].now) < Instant(ops[j].now)
    requires LaterHeld(states[j], rivals, n, e)
    ensures LaterHeld(states[j + 1], rivals + {ops[j].node}, n, e)
  {
    if Holds(states[j + 1], n, e) {
      HeldBefore(states, ops, n, e, j);
      NextOneStays(states, ops, n, e, i, j, rivals);
    }
  }

  lemma AdvancingUpTo(ops: seq<Op>, n: NodeIdent, i: nat, j: nat, k: nat)
    requires i + 1 < j <= k <= |ops| && ops[i].Insert? && LeftAlone(ops, n, i, k) && Advancing(ops, i, k)
    ensures LeftAlone(ops, n, i, j) && Advancing(ops, i, j)
    ensures ops[j - 1].Insert? && ops[j - 1].node != n && Instant(ops[i].now) < Instant(ops[j - 1].now)
  {
    assert Elsewhere(ops, j - 1, n);
  }

  lemma HeldBefore(states: seq<Cache>, ops: seq<Op>, n: NodeIdent, e: Entry, k: nat)
    requires IsRun(states, ops) && k < |ops| && ops[k].node != n && Holds(states[k + 1], n, e)
    ensures Holds(states[k], n, e)
  {
    StepOfRun(states, ops, k);
    ApplyEffect(states[k], ops[k], n, e);
  }

  lemma NextOneStays(states: seq<Cache>, ops: seq<Op>, n: NodeIdent, e: Entry, i: nat, k: nat, rivals: set<NodeIdent>)
    requires IsRun(states, ops) && i < k < |ops| && Stores(states[i], ops[i], n, e)
    requires ops[k].Insert? && ops[k].node != n && Instant(ops[i].now) < Instant(ops[k].now)
    requires Holds(states[k], n, e) && Holds(states[k + 1], n, e) && AllLater(states[k], rivals, e)
    ensures AllLater(states[k + 1], rivals + {ops[k].node}, e)
  {
    StepOfRun(states, ops, k);
    RunKeepsInv(states, ops, k);
    RunKeepsInv(states, ops, i);
    LaterThan(states[k], ops[k], n, e, ops[i].now);
  }

  lemma RivalsNext(ops: seq<Op>, n: NodeIdent, i: nat, k: nat)
    requires i < k <= |ops| && ops[i].Insert? && ops[i].node == n && LeftAlone(ops, n, i, k) && Advancing(ops, i, k)
    ensures Rivals(ops, n, i, k) == if k == i + 1 then {} else Rivals(ops, n, i, k - 1) + {ops[k - 1].node}
  {
    if k > i + 1 {
      assert Elsewhere(ops, k - 1, n);
      assert IsRival(ops, n, i, k - 1);
    }
  }

  /** Of those that expire after n none is evicted before n is. */
  lemma LaterThan(c: Cache, op: Op, n: NodeIdent, e: Entry, since: Timeval)
    requires Inv(c) && ClockOk(op) && c.maxSize > 0 && op.Insert? && op.node != n
    requires Holds(c, n, e) && Holds(Apply(c, op), n, e)
    requires Instant(e.expiry) == Instant(since) + c.periodUS && Instant(since) < Instant(op.now)
    ensures var d := Apply(c, op);
      && op.node in d.entries && Instant(d.entries[op.node].expiry) > Instant(e.expiry)
      && forall m :: m != op.node && m in c.entries && Instant(c.entries[m].expiry) > Instant(e.expiry) ==>
           m in d.entries && d.entries[m] == c.entries[m]
  {
    InsertionEvicts(c, op.node, op.latencyUS, op.now);
    var d, others := Apply(c, op), c.entries.Keys - {op.node};
    forall m | m != op.node && m in c.entries && Instant(c.entries[m].expiry) > Instant(e.expiry)
      ensures m in d.entries
    {
      assert m in others && n in others;
      if |others| >= c.maxSize {
        var v :| ExpiresFirst(c, v, op.node) && others - {v} == d.entries.Keys - {op.node};
        assert m != v;
        assert m in others - {v};
      }
    }
  }

  /**
    With a clock that advances and nothing erased, a measurement left alone is held for exactly as long as fewer other
    nodes have been measured since than the cache holds.
   */
  lemma HeldExactly(states: seq<Cache>, ops: seq<Op>, n: NodeIdent, e: Entry, i: nat, k: nat)
    requires IsRun(states, ops) && i < k < |states| && Stores(states[i], ops[i], n, e)
    requires LeftAlone(ops, n, i, k) && Advancing(ops, i, k)
    ensures Holds(states[k], n, e) <==>
      |set j | i < j < k && ops[j].Insert? && ops[j].node != n :: ops[j].node| < states[0].maxSize
  {
    RivalsAreLater(ops, n, i, k);
    if Holds(states[k], n, e) {
      LaterOnesStay(states, ops, n, e, i, k);
      RunKeepsInv(states, ops, k);
      OneMore(Rivals(ops, n, i, k), n, states[k].entries.Keys);
    } else if |Rivals(ops, n, i, k)| < states[0].maxSize {
      StillHeld(states, ops, n, e, i, k);
    }
  }

  lemma OneMore(rivals: set<NodeIdent>, n: NodeIdent, all: set<NodeIdent>)
    requires rivals <= all && n in all && n !in rivals
    ensures |rivals| < |all|
  {
    SubsetSize(rivals + {n}, all);
  }

  /** A cache for three with these nodes in one bucket, all measured at one moment. */
  ghost predicate AtOnce(c: Cache, now: Timeval, bucket: seq<NodeIdent>)
    requires now.usec < MICRO_IN_SECOND
  {
    var t := TimerAdd(now, c.periodUS);
    && c.maxSize == 3 && c.buckets == map[t := bucket] && c.entries.Keys == Elements(bucket)
    && forall k :: k in c.entries ==> c.entries[k].expiry == t
  }

  lemma AtOnceInv(c: Cache, now: Timeval, bucket: seq<NodeIdent>)
    requires now.usec < MICRO_IN_SECOND && AtOnce(c, now, bucket) && Distinct(bucket) && 0 < |bucket| <= 3
    ensures Inv(c) && |c.entries| == |bucket|
  {
    DistinctCardinality(bucket);
    assert |c.entries| == |c.entries.Keys|;
  }

  /** One more measurement at that moment. */
  lemma OnceMoreAtOnce(c: Cache, now: Timeval, bucket: seq<NodeIdent>, k: NodeIdent)
    requires now.usec < MICRO_IN_SECOND && AtOnce(c, now, bucket) && Distinct(bucket + [k]) && 0 < |bucket| < 3
    ensures Inv(c) && AtOnce(Apply(c, Insert(k, 0, now)), now, bucket + [k])
  {
    OneMoreDistinct(bucket, k);
    AtOnceInv(c, now, bucket);
    JustPut(c, k, now);
    PutAtOnce(c, now, bucket, k);
  }

  lemma PutAtOnce(c: Cache, now: Timeval, bucket: seq<NodeIdent>, k: NodeIdent)
    requires now.usec < MICRO_IN_SECOND && AtOnce(c, now, bucket)
    ensures AtOnce(PutEntry(c, k, Entry(TimerAdd(now, c.periodUS), 0)), now, bucket + [k])
  {
    assert Elements(bucket + [k]) == Elements(bucket) + {k};
  }

  lemma OneMoreDistinct(bucket: seq<NodeIdent>, k: NodeIdent)
    requires Distinct(bucket + [k])
    ensures Distinct(bucket) && k !in bucket
  {
    assert forall i :: 0 <= i < |bucket| ==> bucket[i] == (bucket + [k])[i];
    assert (bucket + [k])[|bucket|] == k;
  }

  lemma JustPut(c: Cache, k: NodeIdent, now: Timeval)
    requires Inv(c) && now.usec < MICRO_IN_SECOND && k !in c.entries && |c.entries| < c.maxSize
    ensures Apply(c, Insert(k, 0, now)) == PutEntry(c, k, Entry(TimerAdd(now, c.periodUS), 0))
  {}

  /** A measurement of the first node again: the last one takes its place. */
  lemma FirstAgainAtOnce(c: Cache, now: Timeval, x: NodeIdent, a: NodeIdent, n: NodeIdent)
    requires now.usec < MICRO_IN_SECOND && AtOnce(c, now, [x, a, n]) && Distinct([x, a, n])
    ensures Inv(c) && AtOnce(Apply(c, Insert(x, 0, now)), now, [n, a, x])
  {
    AtOnceInv(c, now, [x, a, n]);
    assert IndexOf([x, a, n], x) == 0 && SwapRemove([x, a, n], 0) == [n, a];
    var d := EraseEntry(c, x);
    assert AtOnce(d, now, [n, a]);
    assert [n, a] + [x] == [n, a, x];
    OnceMoreAtOnce(d, now, [n, a], x);
    assert Apply(d, Insert(x, 0, now)) == Apply(c, Insert(x, 0, now));
  }

  lemma FirstEvictedAtOnce(c: Cache, now: Timeval, x: NodeIdent, a: NodeIdent, n: NodeIdent, b: NodeIdent)
    requires now.usec < MICRO_IN_SECOND && AtOnce(c, now, [n, a, x]) && Distinct([n, a, x]) && b !in [n, a, x]
    ensures Inv(c) && n !in Apply(c, Insert(b, 0, now)).entries
  {
    AtOnceInv(c, now, [n, a, x]);
    assert TimerAdd(now, c.periodUS) in c.buckets.Keys;
    MakeRoomEffect(c);
  }

  /**
    The clock matters. Five measurements of four nodes at one moment, in a cache for three: the node measured third is
    evicted although only two others have been measured since.
   */
  lemma EvictedEarly(states: seq<Cache>, ops: seq<Op>, now: Timeval, x: NodeIdent, a: NodeIdent, n: NodeIdent,
                     b: NodeIdent)
    requires now.usec < MICRO_IN_SECOND && x != a && a != n && x != n && b !in {x, a, n}
    requires IsRun(states, ops) && states[0].maxSize == 3
    requires ops == [Insert(x, 0, now), Insert(a, 0, now), Insert(n, 0, now), Insert(x, 0, now), Insert(b, 0, now)]
    ensures n in states[3].entries && n !in states[5].entries
  {
    FirstTwoAtOnce(states, ops, now, x, a);
    assert [x, a] + [n] == [x, a, n];
    assert FollowsAt(states, ops, 2);
    OnceMoreAtOnce(states[2], now, [x, a], n);
    LastTwoAtOnce(states, ops, now, x, a, n, b);
  }

  lemma FirstTwoAtOnce(states: seq<Cache>, ops: seq<Op>, now: Timeval, x: NodeIdent, a: NodeIdent)
    requires now.usec < MICRO_IN_SECOND && x != a && IsRun(states, ops) && states[0].maxSize == 3 && |ops| >= 2
    requires ops[0] == Insert(x, 0, now) && ops[1] == Insert(a, 0, now)
    ensures AtOnce(states[2], now, [x, a])
  {
    assert FollowsAt(states, ops, 0);
    JustPut(states[0], x, now);
    assert AtOnce(states[1], now, [x]);
    assert [x] + [a] == [x, a];
    assert FollowsAt(states, ops, 1);
    OnceMoreAtOnce(states[1], now, [x], a);
  }

  lemma LastTwoAtOnce(states: seq<Cache>, ops: seq<Op>, now: Timeval, x: NodeIdent, a: NodeIdent, n: NodeIdent,
                      b: NodeIdent)
    requires now.usec < MICRO_IN_SECOND && x != a && a != n && x != n && b !in {x, a, n}
    requires IsRun(states, ops) && |ops| == 5 && ops[3] == Insert(x, 0, now) && ops[4] == Insert(b, 0, now)
    requires AtOnce(states[3], now, [x, a, n])
    ensures n in states[3].entries && n !in states[5].entries
  {
    assert FollowsAt(states, ops, 3);
    FirstAgainAtOnce(states[3], now, x, a, n);
    assert FollowsAt(states, ops, 4);
    FirstEvictedAtOnce(states[4], now, x, a, n, b);
  }

  // ---------------------------------------------------------------- the class

  class LatencyCache {
    const maxSize: nat
    const periodUS: nat
    var latencyMap: map<NodeIdent, Entry>
    var timeoutMap: map<Timeval, seq<NodeIdent>>

    ghost function State(): Cache
      reads this
    {
      Cache(maxSize, periodUS, latencyMap, timeoutMap)
    }

    constructor (inMaxSize: nat, inPeriodUS: nat)
      ensures State() == New(inMaxSize, inPeriodUS)
    {
      maxSize, periodUS, latencyMap, timeoutMap := inMaxSize, inPeriodUS, map[], map[];
    }

    /** getLatency: None for a miss. */
    method Lookup(inNode: NodeIdent, curTime: Timeval) returns (latencyUS: Option<uint32>)
      ensures latencyUS == GetLatency(State(), inNode, curTime)
    {
      if inNode in latencyMap {
        var s1, now := latencyMap[inNode].expiry, Normalize(curTime);
        if s1.sec < now.sec || (s1.sec == now.sec && s1.usec <= now.usec) {
          return None;
        }
        return Some(latencyMap[inNode].latencyUS);
      }
      latencyUS := None;
    }

    method RemoveEntry(inNode: NodeIdent)
      requires Inv(State())
      modifies this
      ensures Inv(State()) && State() == EraseEntry(old(State()), inNode)
    {
      EraseKeepsInv(State(), inNode);
      if inNode in latencyMap {
        var t := latencyMap[inNode].expiry;
        assert Ix(State()).due[inNode] == t;
        latencyMap := latencyMap - {inNode};
        var bucket := timeoutMap[t];
        var i := 0;
        while bucket[i] != inNode
          invariant i < |bucket| && inNode in bucket && inNode !in bucket[..i]
          decreases |bucket| - i
        {
          i := i + 1;
        }
        IndexOfFirst(bucket, inNode, i);
        bucket := bucket[i := bucket[|bucket| - 1]][..|bucket| - 1];
        timeoutMap := if |bucket| == 0 then timeoutMap - {t} else timeoutMap[t := bucket];
      }
    }

    method Insert(inNode: NodeIdent, latencyUS: uint32, curTime: Timeval)
      requires Inv(State()) && curTime.usec < MICRO_IN_SECOND
      modifies this
      ensures Inv(State()) && State() == InsertMeasurement(old(State()), inNode, latencyUS, curTime)
    {
      if maxSize == 0 {
        return;
      }
      RemoveEntry(inNode);
      MakeRoomEffect(State());
      if |latencyMap| >= maxSize {
        var n :| n in latencyMap;
        VictimExpiresFirst(State(), n);
        RemoveEntry(timeoutMap[Earliest(timeoutMap.Keys)][0]);
      }
      var nextTimeOut := Normalize(TimerAdd(curTime, periodUS));
      PutKeepsInv(State(), inNode, Entry(nextTimeOut, latencyUS));
      timeoutMap := AddBucket(timeoutMap, inNode, nextTimeOut);
      latencyMap := latencyMap[inNode := Entry(nextTimeOut, latencyUS)];
    }
  }
}
