/** Rounded averages of latency maps, the forwarding threshold, and how both behave. */
module Averages {
  import opened Base

  type Latencies = map<NodeIdent, uint32>

  // ---------------------------------------------------------------- averages

  function SumAlong(m: Latencies, keys: seq<NodeIdent>): (s: nat)
    requires forall k :: k in keys ==> k in m
    ensures s <= |keys| * UINT_MAX
  {
    if keys == [] then 0 else SumAlong(m, keys[..|keys| - 1]) + m[keys[|keys| - 1]]
  }

  /** The mean latency. */
  ghost function Mean(m: Latencies): real
    requires m != map[]
  {
    SumAlong(m, Ascending(m.Keys)) as real / |m| as real
  }

  /** getMaxAndAverage: a single entry as it is, otherwise the rounded mean clamped to u_int. */
  ghost function Average(m: Latencies): (a: nat)
    requires m != map[]
    ensures a <= UINT_MAX
  {
    if |m| == 1 then m[Ascending(m.Keys)[0]]
    else ClampedMean(SumAlong(m, Ascending(m.Keys)), |m|)
  }

  /** A rounded number as the u_int the code stores it in. */
  function ToUInt(rounded: nat): (u: uint32)
    ensures u <= rounded
    ensures rounded <= UINT_MAX ==> u == rounded
  {
    if rounded > UINT_MAX then UINT_MAX else rounded
  }

  function ClampedMean(sum: nat, n: nat): (a: nat)
    requires n > 0
    ensures a <= UINT_MAX
  {
    ToUInt(Round(sum as real / n as real))
  }

  lemma MeanBounded(sum: nat, n: nat)
    requires n > 0 && sum <= n * UINT_MAX
    ensures 0.0 <= sum as real / n as real <= UINT_MAX as real
  {
    assert sum as real <= n as real * UINT_MAX as real;
  }

  /** The special case and the clamp never show: the average is always the mean rounded to the nearest integer. */
  lemma AverageIsRoundedMean(m: Latencies)
    requires m != map[]
    ensures 0.0 <= Mean(m) <= UINT_MAX as real
    ensures Average(m) == Round(Mean(m))
  {
    var keys := Ascending(m.Keys);
    assert |keys| == |m|;
    MeanBounded(SumAlong(m, keys), |m|);
    if |m| == 1 {
      assert keys[..0] == [];
      assert SumAlong(m, keys) == m[keys[0]];
      RoundExact(m[keys[0]]);
    }
  }

  lemma {:induction false} SumBetween(m: Latencies, keys: seq<NodeIdent>, lo: nat, hi: nat)
    requires forall k :: k in keys ==> k in m && lo <= m[k] <= hi
    ensures |keys| * lo <= SumAlong(m, keys) <= |keys| * hi
  {
    if keys != [] {
      var n := |keys| - 1;
      SumBetween(m, keys[..n], lo, hi);
      OnceMore(n, lo);
      OnceMore(n, hi);
    }
  }

  lemma OnceMore(n: nat, x: nat)
    ensures (n + 1) * x == n * x + x
  {}

  /** The sum splits anywhere, and the sum along one key is its value. */
  lemma {:induction false} SumSplits(m: Latencies, p: seq<NodeIdent>, q: seq<NodeIdent>)
    requires forall k :: k in p + q ==> k in m
    ensures (forall k :: k in p ==> k in m) && (forall k :: k in q ==> k in m)
    ensures SumAlong(m, p + q) == SumAlong(m, p) + SumAlong(m, q)
    ensures |q| == 1 ==> SumAlong(m, q) == m[q[0]]
    decreases |q|
  {
    assert forall k :: k in p || k in q ==> k in p + q;
    if q == [] {
      assert p + q == p;
    } else {
      var n := |q| - 1;
      assert p + q == p + q[..n] + [q[n]] && (p + q)[..|p + q| - 1] == p + q[..n];
      SumSplits(m, p, q[..n]);
    }
  }

  /** Along keys without repetition every entry counts once: raising any one of them raises the sum by as much. */
  lemma {:induction false} SumOfRaised(m: Latencies, keys: seq<NodeIdent>, k: NodeIdent, d: nat)
    requires Distinct(keys) && (forall x :: x in keys ==> x in m) && k in m && m[k] + d <= UINT_MAX
    ensures SumAlong(m[k := m[k] + d], keys) == SumAlong(m, keys) + if k in keys then d else 0
    decreases |keys|
  {
    if keys != [] {
      var n := |keys| - 1;
      assert keys == keys[..n] + [keys[n]];
      SumOfRaised(m, keys[..n], k, d);
      assert keys[n] !in keys[..n];
    }
  }

  /** Raising one latency by d raises the mean by d over the number of entries, whichever latency it is. */
  lemma MeanOfRaised(m: Latencies, k: NodeIdent, d: nat)
    requires k in m && m[k] + d <= UINT_MAX
    ensures var raised := m[k := m[k] + d]; k in raised && Mean(raised) == Mean(m) + d as real / |m| as real
  {
    var keys, m' := Ascending(m.Keys), m[k := m[k] + d];
    AscendingDistinct(m.Keys);
    SumOfRaised(m, keys, k, d);
    assert m'.Keys == m.Keys && |m'| == |m'.Keys| == |m|;
    assert k in keys;
    SumOfFractions(SumAlong(m, keys) as real, d as real, |m| as real);
  }

  lemma SumOfFractions(x: real, y: real, n: real)
    requires n != 0.0
    ensures (x + y) / n == x / n + y / n
  {}

  /** The mean of equal latencies is that latency; with MeanOfRaised this leaves no other function. */
  lemma MeanOfEqual(m: Latencies, x: uint32)
    requires m != map[] && forall k :: k in m ==> m[k] == x
    ensures Mean(m) == x as real
  {
    var keys := Ascending(m.Keys);
    SumBetween(m, keys, x, x);
    assert |keys| == |m.Keys| == |m|;
    TimesOver(SumAlong(m, keys), |keys|, x);
  }

  lemma TimesOver(s: nat, n: nat, x: nat)
    requires n > 0 && n * x <= s <= n * x
    ensures s as real / n as real == x as real
  {
    assert s as real == n as real * x as real;
    Quotient(s as real, n as real);
    Cancel(s as real / n as real, x as real, n as real);
  }

  // ---------------------------------------------------------------- the threshold

  /** A ratio that is not strictly between 0 and 1 counts as one half. */
  function EffectiveBeta(beta: real): (b: real)
    ensures 0.0 < b < 1.0
  {
    if beta <= 0.0 || beta >= 1.0 then 0.5 else beta
  }

  /** The ratio a request carries as two 16-bit numbers. */
  function Beta(num: uint16, den: uint16): (b: real)
    requires den > 0
    ensures 0.0 < b < 1.0
  {
    EffectiveBeta(num as real / den as real)
  }

  /** A proper fraction counts as what it is, anything else as one half. */
  lemma BetaIsTheRatio(num: uint16, den: uint16)
    requires den > 0
    ensures 0 < num < den ==> Beta(num, den) * den as real == num as real
    ensures num == 0 || num >= den ==> Beta(num, den) * 2.0 == 1.0
  {
    var b, d := num as real / den as real, den as real;
    Quotient(num as real, d);
    if 0 < num < den {
      FractionOfOne(b, d, num as real);
    } else if num >= den {
      WholeOrMore(b, d, num as real);
    }
  }

  lemma FractionOfOne(b: real, d: real, n: real)
    requires b * d == n && 0.0 < n < d
    ensures 0.0 < b < 1.0
  {
    if b <= 0.0 { FractionLarger(d, b, 0.0); }
    if b >= 1.0 { FractionLarger(d, 1.0, b); }
  }

  lemma WholeOrMore(b: real, d: real, n: real)
    requires b * d == n && 0.0 < d <= n
    ensures b >= 1.0
  {
    if b < 1.0 { Remainder(b, d, n); }
  }

  /** A member must have at most this average to be forwarded to. */
  function Threshold(beta: real, avg: nat): (t: nat)
    requires 0.0 < beta < 1.0
  {
    ToUInt(ScaledDown(beta, avg))
  }

  function Scale(beta: real, avg: nat): real {
    beta * avg as real
  }

  function ScaledDown(beta: real, avg: nat): nat
    requires 0.0 < beta < 1.0
  {
    ScaleBetween(beta, avg);
    Round(Scale(beta, avg))
  }

  lemma ScaleBetween(beta: real, avg: nat)
    requires 0.0 < beta < 1.0
    ensures 0.0 <= Scale(beta, avg) <= avg as real
  {
    FractionOf(beta, avg as real);
  }

  lemma FractionOf(b: real, x: real)
    requires 0.0 <= b <= 1.0 && x >= 0.0
    ensures 0.0 <= b * x <= x
  {}

  /** One hop: the threshold is within one half of beta times the average, and never above the average. */
  lemma ThresholdBounds(beta: real, avg: nat)
    requires 0.0 < beta < 1.0 && avg <= UINT_MAX
    ensures Threshold(beta, avg) <= avg
    ensures Scale(beta, avg) - 0.5 <= Threshold(beta, avg) as real <= Scale(beta, avg) + 0.5
  {
    ScaleBetween(beta, avg);
    RoundMonotone(Scale(beta, avg), avg as real);
    RoundExact(avg);
  }

  /** The threshold is strictly below the average exactly when (1 - beta) times the average exceeds one half. */
  lemma ThresholdStrict(beta: real, avg: nat)
    requires 0.0 < beta < 1.0 && avg <= UINT_MAX
    ensures Threshold(beta, avg) < avg <==> (1.0 - beta) * avg as real > 0.5
  {
    ThresholdBounds(beta, avg);
    ScaleBetween(beta, avg);
    Complement(beta, avg as real);
  }

  lemma Complement(b: real, x: real)
    ensures (1.0 - b) * x == x - b * x
  {}

  /** The ratio of two 16-bit numbers leaves enough room below 1 that UINT_MAX cannot pass as a latency. */
  lemma SentinelCannotPass(num: uint16, den: uint16, avg: nat)
    requires den > 0 && avg <= UINT_MAX
    ensures Threshold(Beta(num, den), avg) < UINT_MAX
  {
    var beta := Beta(num, den);
    BetaGap(num, den);
    GapTimes(beta, avg);
    ThresholdBounds(beta, avg);
  }

  lemma BetaGap(num: uint16, den: uint16)
    requires den > 0
    ensures Beta(num, den) * 65535.0 <= 65534.0
  {
    var b := num as real / den as real;
    Quotient(num as real, den as real);
    if 0.0 < b < 1.0 { RatioGap(b, num, den); }
  }

  lemma Quotient(n: real, d: real)
    requires d != 0.0
    ensures (n / d) * d == n
  {}

  lemma RatioGap(b: real, n: int, d: int)
    requires 0 < d <= 65535 && 0.0 < b < 1.0 && b * d as real == n as real
    ensures b * 65535.0 <= 65534.0
  {
    var x, y := d as real, n as real;
    Remainder(b, x, y);
    assert y < x;
    assert n < d;
    WidenGap(1.0 - b, x);
  }

  lemma Remainder(b: real, d: real, n: real)
    requires b < 1.0 && d > 0.0 && b * d == n
    ensures (1.0 - b) * d == d - n > 0.0
  {}

  lemma WidenGap(c: real, d: real)
    requires c > 0.0 && c * d >= 1.0 && d <= 65535.0
    ensures c * 65535.0 >= 1.0
  {
    assert c * (65535.0 - d) >= 0.0;
  }

  lemma FractionLarger(c: real, x: real, y: real)
    requires c >= 0.0 && x <= y
    ensures c * x <= c * y
  {}

  lemma GapTimes(beta: real, avg: nat)
    requires 0.0 < beta && beta * 65535.0 <= 65534.0 && avg <= UINT_MAX
    ensures Scale(beta, avg) + 0.5 < UINT_MAX as real
  {
    FractionLarger(beta, avg as real, UINT_MAX as real);
    assert beta * UINT_MAX as real == (beta * 65535.0) * 65537.0;
  }

  // ---------------------------------------------------------------- hops in sequence

  function RealPower(b: real, h: nat): real {
    if h == 0 then 1.0 else b * RealPower(b, h - 1)
  }

  /** What h hops can leave of an initial average a: each multiplies by beta and loses at most one half to rounding. */
  function HopBound(beta: real, a: real, h: nat): real {
    if h == 0 then a else beta * HopBound(beta, a, h - 1) + 0.5
  }

  /** p a + (1 - p) / (2 (1 - beta)) for p = beta^h: the geometric decay plus the accumulated rounding. */
  function DecayBound(beta: real, a: real, p: real): real
    requires beta != 1.0
  {
    p * a + (1.0 - p) / (2.0 * (1.0 - beta))
  }

  lemma {:induction false} HopBoundClosedForm(beta: real, a: real, h: nat)
    requires beta != 1.0
    ensures HopBound(beta, a, h) == DecayBound(beta, a, RealPower(beta, h))
  {
    if h == 0 {
      var d := 2.0 * (1.0 - beta);
      Quotient(1.0 - 1.0, d);
      Cancel((1.0 - 1.0) / d, 0.0, d);
    } else {
      HopBoundClosedForm(beta, a, h - 1);
      ClosedFormStep(beta, a, RealPower(beta, h - 1), RealPower(beta, h), HopBound(beta, a, h - 1),
                     HopBound(beta, a, h));
    }
  }

  lemma ClosedFormStep(beta: real, a: real, p: real, p': real, x: real, x': real)
    requires beta != 1.0 && p' == beta * p
    requires x == DecayBound(beta, a, p) && x' == beta * x + 0.5
    ensures x' == DecayBound(beta, a, p')
  {
    var d := 2.0 * (1.0 - beta);
    var q, r := (1.0 - p) / d, (1.0 - p') / d;
    Quotient(1.0 - p, d);
    Quotient(1.0 - p', d);
    assert (beta * q + 0.5) * d == beta * (q * d) + 0.5 * d;
    Cancel(beta * q + 0.5, r, d);
    Distribute(beta, p * a, q);
    assert beta * (p * a) == p' * a;
  }

  lemma Distribute(b: real, x: real, y: real)
    ensures b * (x + y) == b * x + b * y
  {}

  lemma Cancel(x: real, y: real, d: real)
    requires d != 0.0 && x * d == y * d
    ensures x == y
  {}

  /** Levels each of which passes the threshold its predecessor sets. */
  predicate Descending(beta: real, levels: seq<uint32>)
    requires 0.0 < beta < 1.0
  {
    forall i :: 0 <= i < |levels| - 1 ==> Passes(beta, levels[i], levels[i + 1])
  }

  predicate Passes(beta: real, a: uint32, b: uint32)
    requires 0.0 < beta < 1.0
  {
    b <= Threshold(beta, a)
  }

  lemma OneMoreHop(beta: real, a: uint32, b: uint32, x: real)
    requires 0.0 < beta < 1.0 && Passes(beta, a, b) && a as real <= x
    ensures b <= a && b as real <= beta * x + 0.5
  {
    ThresholdBounds(beta, a);
    var y := a as real;
    FractionLarger(beta, y, x);
    assert Scale(beta, a) == beta * y;
  }

  /** After h hops at most the geometric decay plus the accumulated rounding is left. */
  lemma {:induction false} LevelsDecay(beta: real, levels: seq<uint32>, h: nat)
    requires 0.0 < beta < 1.0 && Descending(beta, levels) && h < |levels|
    ensures levels[h] as real <= DecayBound(beta, levels[0] as real, RealPower(beta, h))
  {
    LevelsWithin(beta, levels, h);
    HopBoundClosedForm(beta, levels[0] as real, h);
  }

  lemma {:induction false} LevelsWithin(beta: real, levels: seq<uint32>, h: nat)
    requires 0.0 < beta < 1.0 && Descending(beta, levels) && h < |levels|
    ensures levels[h] as real <= HopBound(beta, levels[0] as real, h)
  {
    if h > 0 {
      LevelsWithin(beta, levels, h - 1);
      assert Passes(beta, levels[h - 1], levels[h - 1 + 1]);
      OneMoreHop(beta, levels[h - 1], levels[h], HopBound(beta, levels[0] as real, h - 1));
    }
  }

  lemma {:induction false} LevelsNeverGrow(beta: real, levels: seq<uint32>, g: nat, h: nat)
    requires 0.0 < beta < 1.0 && Descending(beta, levels) && g <= h < |levels|
    ensures levels[h] <= levels[g]
  {
    if g < h {
      LevelsNeverGrow(beta, levels, g, h - 1);
      assert Passes(beta, levels[h - 1], levels[h - 1 + 1]);
      ThresholdBounds(beta, levels[h - 1]);
    }
  }

  /** Levels that come back to where they began never moved, and are too low for the threshold to lie below them. */
  lemma LevelsThatReturn(beta: real, levels: seq<uint32>, g: nat)
    requires 0.0 < beta < 1.0 && Descending(beta, levels) && g < |levels|
    requires |levels| > 1 && levels[|levels| - 1] == levels[0]
    ensures levels[g] == levels[0] && Threshold(beta, levels[g]) == levels[g]
  {
    LevelsNeverGrow(beta, levels, 0, g);
    LevelsNeverGrow(beta, levels, g, |levels| - 1);
    LevelsNeverGrow(beta, levels, 1, |levels| - 1);
    assert Passes(beta, levels[0], levels[0 + 1]);
    ThresholdBounds(beta, levels[0]);
  }
}
