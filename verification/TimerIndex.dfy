/**
  Deadlines and the pair of maps both QueryTable and LatencyCache keep: from a key to its deadline, and from a deadline
  to the bucket of keys that share it.
 */
module TimerIndex {
  import opened Base

  const MICRO_IN_SECOND: nat := 1_000_000

  /** struct timeval with non-negative microseconds. */
  datatype Timeval = Timeval(sec: int, usec: nat)

  /** timevalLT: seconds first. It assumes its arguments are normalised. */
  predicate TimeLess(a: Timeval, b: Timeval) {
    a.sec < b.sec || (a.sec == b.sec && a.usec < b.usec)
  }

  /** The comparison written out in handleTimeout and getLatency: a is not after b. */
  predicate NotAfter(a: Timeval, b: Timeval) {
    a.sec < b.sec || (a.sec == b.sec && a.usec <= b.usec)
  }

  /** normalizeTime; exactly one million microseconds is left as it is. */
  function Normalize(tv: Timeval): (n: Timeval)
  {
    if tv.usec > MICRO_IN_SECOND then
      var extraSeconds := tv.usec / MICRO_IN_SECOND;
      Timeval(tv.sec + extraSeconds, tv.usec - extraSeconds * MICRO_IN_SECOND)
    else tv
  }

  /** The moment a timeval stands for, in microseconds. */
  function Instant(tv: Timeval): int {
    tv.sec * MICRO_IN_SECOND + tv.usec
  }

  /**
    Normalising keeps the moment and leaves less than a second of microseconds, unless there was exactly one second.
   */
  lemma NormalizeKeepsInstant(tv: Timeval)
    ensures Instant(Normalize(tv)) == Instant(tv)
    ensures Normalize(tv).usec <= MICRO_IN_SECOND
    ensures Normalize(tv).usec == MICRO_IN_SECOND <==> tv.usec == MICRO_IN_SECOND
    ensures Normalize(Normalize(tv)) == Normalize(tv)
  {
    if tv.usec > MICRO_IN_SECOND {
      var q, r := tv.usec / MICRO_IN_SECOND, tv.usec % MICRO_IN_SECOND;
      assert tv.usec == q * MICRO_IN_SECOND + r;
    }
  }

  /**
    On normalised times the map order is the order of moments, with one exception in which it separates two names of
    the same moment: (s, 1000000) sorts before (s + 1, 0).
   */
  lemma OrderIsChronological(a: Timeval, b: Timeval)
    requires a.usec <= MICRO_IN_SECOND && b.usec <= MICRO_IN_SECOND
    ensures TimeLess(a, b) <==>
      Instant(a) < Instant(b) || (a.usec == MICRO_IN_SECOND && b == Timeval(a.sec + 1, 0))
  {}

  /** Against a clock reading, whose microseconds stay below one second, the comparison is exact. */
  lemma DueIsChronological(a: Timeval, now: Timeval)
    requires a.usec <= MICRO_IN_SECOND && now.usec < MICRO_IN_SECOND
    ensures NotAfter(a, now) <==> Instant(a) <= Instant(now)
  {}

  // ---------------------------------------------------------------- the two maps

  datatype Index<K> = Index(due: map<K, Timeval>, buckets: map<Timeval, seq<K>>)

  /** The maps are exact inverses: no key missing, none listed twice or under a wrong deadline, no empty bucket. */
  ghost predicate Twin<K>(ix: Index<K>) {
    && (forall t :: t in ix.buckets ==> ix.buckets[t] != [] && Distinct(ix.buckets[t]))
    && (forall t, k :: t in ix.buckets && k in ix.buckets[t] ==> k in ix.due && ix.due[k] == t)
    && (forall k :: k in ix.due ==> ix.due[k] in ix.buckets && k in ix.buckets[ix.due[k]])
  }

  function AddBucket<K>(buckets: map<Timeval, seq<K>>, k: K, t: Timeval): map<Timeval, seq<K>> {
    buckets[t := if t in buckets then buckets[t] + [k] else [k]]
  }

  function Add<K>(ix: Index<K>, k: K, t: Timeval): Index<K> {
    Index(ix.due[k := t], AddBucket(ix.buckets, k, t))
  }

  /** The bucket without k: its last element takes k's place. */
  function DropBucket<K(==)>(buckets: map<Timeval, seq<K>>, k: K, t: Timeval): map<Timeval, seq<K>>
    requires t in buckets && k in buckets[t]
  {
    var rest := SwapRemove(buckets[t], IndexOf(buckets[t], k));
    if rest == [] then buckets - {t} else buckets[t := rest]
  }

  function Remove<K(==)>(ix: Index<K>, k: K): Index<K>
    requires k in ix.due && ix.due[k] in ix.buckets && k in ix.buckets[ix.due[k]]
  {
    Index(ix.due - {k}, DropBucket(ix.buckets, k, ix.due[k]))
  }

  lemma AddKeepsTwin<K>(ix: Index<K>, k: K, t: Timeval)
    requires Twin(ix) && k !in ix.due
    ensures Twin(Add(ix, k, t))
  {
    var next := Add(ix, k, t);
    assert t in ix.buckets ==> k !in ix.buckets[t];
    forall u, j | u in next.buckets && j in next.buckets[u] ensures j in next.due && next.due[j] == u {
      if u == t && j != k { assert j in ix.buckets[t]; }
    }
  }

  lemma RemoveKeepsTwin<K>(ix: Index<K>, k: K)
    requires Twin(ix) && k in ix.due
    ensures Twin(Remove(ix, k))
  {
    var t := ix.due[k];
    var i := IndexOf(ix.buckets[t], k);
    SwapRemoveDistinct(ix.buckets[t], i);
    var next := Remove(ix, k);
    forall j | j in next.due ensures next.due[j] in next.buckets && j in next.buckets[next.due[j]] {
      if ix.due[j] == t { assert j in SwapRemove(ix.buckets[t], i); }
    }
  }

  // ---------------------------------------------------------------- the first deadline

  lemma {:induction false} EarliestExists(times: set<Timeval>)
    requires times != {}
    ensures exists t :: IsEarliest(times, t)
  {
    var x :| x in times;
    if times == {x} {
      assert IsEarliest(times, x);
    } else {
      EarliestExists(times - {x});
      var m :| IsEarliest(times - {x}, m);
      var first := if TimeLess(x, m) then x else m;
      forall y | y in times ensures y == first || TimeLess(first, y) {
        if y != x { assert y in times - {x}; }
      }
      assert IsEarliest(times, first);
    }
  }

  predicate IsEarliest(times: set<Timeval>, t: Timeval) {
    t in times && forall y :: y in times ==> y == t || TimeLess(t, y)
  }

  /** begin() of a map keyed by timeval. */
  function Earliest(times: set<Timeval>): (t: Timeval)
    requires times != {}
    ensures IsEarliest(times, t)
  {
    EarliestExists(times);
    var t :| IsEarliest(times, t);
    t
  }

  /** The first bucket holds a least deadline of all keys. */
  lemma EarliestIsMinimum<K>(ix: Index<K>, k: K)
    requires Twin(ix) && k in ix.due
    ensures ix.buckets.Keys != {} && var t := Earliest(ix.buckets.Keys);
      && ix.buckets[t] != []
      && (forall j :: j in ix.buckets[t] ==> ix.due[j] == t)
      && (ix.due[k] == t || TimeLess(t, ix.due[k]))
  {
    assert ix.due[k] in ix.buckets.Keys;
  }
}
