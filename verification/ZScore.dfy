/** The online z-score observer. Welford's one-pass update is compared with the
    two-pass definitions of mean and squared deviations, over the reals. */
module ZScore {
  import opened Wrappers

  // ----- Two-pass definitions ----------------------------------------------

  function Sum(xs: seq<real>): real {
    if xs == [] then 0.0 else Sum(xs[..|xs| - 1]) + xs[|xs| - 1]
  }

  function Mean(xs: seq<real>): real {
    if xs == [] then 0.0 else Sum(xs) / |xs| as real
  }

  function Times(x: real, y: real): real {
    x * y
  }

  function Square(x: real): real {
    Times(x, x)
  }

  /** Sum of the squared distances of `xs` from `center`. */
  function Spread(xs: seq<real>, center: real): real {
    if xs == [] then 0.0 else Spread(xs[..|xs| - 1], center) + Square(xs[|xs| - 1] - center)
  }

  function SquaredDeviations(xs: seq<real>): real {
    Spread(xs, Mean(xs))
  }

  function Variance(xs: seq<real>): real
    requires |xs| >= 2
  {
    SquaredDeviations(xs) / (|xs| as real - 1.0)
  }

  // ----- The update --------------------------------------------------------

  lemma TimesLaws(x: real, y: real, z: real)
    ensures Times(x, y + z) == Times(x, y) + Times(x, z)
    ensures Times(x + y, z) == Times(x, z) + Times(y, z)
    ensures Times(-x, -y) == Times(x, y) && Times(x, 0.0) == 0.0 && Times(x, 1.0) == Times(1.0, x) == x
    ensures x > 0.0 && y > 0.0 ==> Times(x, y) > 0.0
  {
  }

  lemma SquareExpands(x: real, c: real)
    ensures Square(x - c) == Square(x) - 2.0 * Times(c, x) + Square(c)
  {
  }

  lemma SquareSign(x: real)
    ensures Square(x) >= 0.0 && (Square(x) > 0.0 <==> x != 0.0)
  {
    hide Times;
    TimesLaws(x, x, 0.0);
    TimesLaws(-x, -x, 0.0);
  }

  lemma {:induction false} SpreadExpands(xs: seq<real>, c: real)
    ensures Spread(xs, c) == Spread(xs, 0.0) - 2.0 * Times(c, Sum(xs)) + Times(|xs| as real, Square(c))
  {
    hide Times, Square;
    if xs == [] {
      TimesLaws(c, 0.0, 0.0);
      ZeroTimes(Square(c));
    } else {
      var front, x := xs[..|xs| - 1], xs[|xs| - 1];
      SpreadExpands(front, c);
      SquareExpands(x, c);
      assert x - 0.0 == x;
      TimesLaws(c, Sum(front), x);
      TimesLaws(|front| as real, 1.0, Square(c));
      TimesLaws(Square(c), 0.0, 0.0);
      assert |xs| as real == |front| as real + 1.0;
    }
  }

  lemma ZeroTimes(x: real)
    ensures Times(0.0, x) == 0.0
  {
  }

  lemma MeanTimesCount(xs: seq<real>)
    ensures |xs| as real * Mean(xs) == Sum(xs)
  {
    if xs != [] {
      var n, total := |xs| as real, Sum(xs);
      assert n * (total / n) == total;
    }
  }

  /** Squared deviations without the second pass. */
  lemma {:induction false} DeviationsExpand(xs: seq<real>)
    ensures SquaredDeviations(xs) == Spread(xs, 0.0) - Times(|xs| as real, Square(Mean(xs)))
  {
    hide Spread, Sum, Mean;
    var m, n := Mean(xs), |xs| as real;
    SpreadExpands(xs, m);
    MeanTimesCount(xs);
    assert Times(m, n * m) == Times(n, Square(m));
  }

  lemma UpdateAlgebra(n: real, m: real, v: real, m': real)
    requires (n + 1.0) * m' == n * m + v
    ensures Square(v) - Times(n + 1.0, Square(m')) + Times(n, Square(m)) == (v - m) * (v - m')
  {
    var p := n * m;
    assert Times(n + 1.0, Square(m')) == m' * (p + v);
    assert Times(n, Square(m)) == p * m;
    assert n * m' == p + v - m';
    assert p * m' == m * (n * m');
  }

  lemma MeanStep(n: real, m: real, v: real, m': real)
    requires n >= 0.0 && (n + 1.0) * m' == n * m + v
    ensures m' == m + (v - m) / (n + 1.0)
  {
    var k := n + 1.0;
    assert k * (m + (v - m) / k) == k * m + (v - m);
    assert k * m == n * m + m;
  }

  /** One step of the online update is one step of the definitions. */
  lemma WelfordStep(xs: seq<real>, v: real)
    ensures Mean(xs + [v]) == Mean(xs) + (v - Mean(xs)) / (|xs| as real + 1.0)
    ensures SquaredDeviations(xs + [v]) == SquaredDeviations(xs) + (v - Mean(xs)) * (v - Mean(xs + [v]))
  {
    hide Mean, Times, Square, SquaredDeviations;
    var ys := xs + [v];
    var n, m, m' := |xs| as real, Mean(xs), Mean(ys);
    assert ys[..|xs|] == xs;
    MeanTimesCount(xs);
    MeanTimesCount(ys);
    MeanStep(n, m, v, m');
    DeviationsExpand(xs);
    DeviationsExpand(ys);
    assert v - 0.0 == v;
    UpdateAlgebra(n, m, v, m');
  }

  lemma {:induction false} SpreadIsNonNegative(xs: seq<real>, center: real)
    ensures Spread(xs, center) >= 0.0
  {
    hide Square;
    if xs != [] {
      SpreadIsNonNegative(xs[..|xs| - 1], center);
      SquareSign(xs[|xs| - 1] - center);
    }
  }

  // ----- Order independence ------------------------------------------------

  function Without(xs: seq<real>, i: nat): seq<real>
    requires i < |xs|
  {
    xs[..i] + xs[i + 1..]
  }

  lemma {:induction false} TakeOut(xs: seq<real>, i: nat, c: real)
    requires i < |xs|
    ensures Sum(xs) == Sum(Without(xs, i)) + xs[i]
    ensures Spread(xs, c) == Spread(Without(xs, i), c) + Square(xs[i] - c)
  {
    hide Square;
    var n := |xs| - 1;
    var rest := Without(xs, i);
    if i == n {
      assert rest == xs[..n];
    } else {
      TakeOut(xs[..n], i, c);
      assert rest[..n - 1] == Without(xs[..n], i);
    }
  }

  lemma WithoutLength(xs: seq<real>, i: nat)
    requires i < |xs|
    ensures |Without(xs, i)| == |xs| - 1
  {
  }

  lemma TakeOutOfMultiset(xs: seq<real>, i: nat)
    requires i < |xs|
    ensures multiset(Without(xs, i)) == multiset(xs) - multiset{xs[i]}
  {
    assert xs == xs[..i] + [xs[i]] + xs[i + 1..];
  }

  lemma {:induction false} SumsAreOrderIndependent(xs: seq<real>, ys: seq<real>, c: real)
    requires multiset(xs) == multiset(ys)
    ensures |xs| == |ys| && Sum(xs) == Sum(ys) && Spread(xs, c) == Spread(ys, c)
    decreases |xs|
  {
    hide Square, Sum, Spread, Without;
    assert |multiset(xs)| == |xs| && |multiset(ys)| == |ys|;
    if xs == [] {
      assert ys == xs;
    } else {
      var n := |xs| - 1;
      assert xs[n] in multiset(ys);
      var i :| 0 <= i < |ys| && ys[i] == xs[n];
      TakeOut(xs, n, c);
      TakeOut(ys, i, c);
      TakeOutOfMultiset(xs, n);
      TakeOutOfMultiset(ys, i);
      WithoutLength(xs, n);
      WithoutLength(ys, i);
      SumsAreOrderIndependent(Without(xs, n), Without(ys, i), c);
    }
  }

  /** The baseline does not depend on the order of the observations. */
  lemma OrderIndependent(xs: seq<real>, ys: seq<real>)
    requires multiset(xs) == multiset(ys)
    ensures Mean(xs) == Mean(ys) && SquaredDeviations(xs) == SquaredDeviations(ys)
  {
    SumsAreOrderIndependent(xs, ys, Mean(xs));
  }

  // ----- The decision ------------------------------------------------------

  function Abs(x: real): real {
    if x < 0.0 then -x else x
  }

  lemma SquareDifference(a: real, b: real)
    ensures Square(a) - Square(b) == Times(a - b, a + b)
  {
  }

  lemma CompareSquares(a: real, b: real)
    requires a >= 0.0 && b > 0.0
    ensures a >= b <==> Square(a) >= Square(b)
  {
    hide Times, Square;
    SquareDifference(a, b);
    SquareDifference(b, a);
    TimesLaws(a - b, a + b, 0.0);
    TimesLaws(b - a, b + a, 0.0);
  }

  /** Comparing the z-score with the threshold is comparing squares. */
  lemma ScoreBySquares(deviation: real, sd: real, threshold: real)
    requires sd > 0.0
    ensures Abs(deviation / sd) >= threshold <==>
            threshold <= 0.0 || Square(deviation) >= Square(threshold) * Square(sd)
    ensures Square(deviation / sd) * Square(sd) == Square(deviation)
  {
    var z := deviation / sd;
    assert z * sd == deviation;
    assert Square(z) * Square(sd) == Square(z * sd);
    assert Square(threshold) * Square(sd) == Square(threshold * sd);
    assert Abs(z) * sd == Abs(deviation);
    assert (Abs(z) - threshold) * sd == Abs(deviation) - threshold * sd;
    assert Square(Abs(deviation)) == Square(deviation);
    if threshold > 0.0 {
      CompareSquares(Abs(deviation), threshold * sd);
      if Abs(z) >= threshold {
        assert (Abs(z) - threshold) * sd >= 0.0;
      }
    }
  }

  lemma ScoreSign(deviation: real, sd: real)
    requires sd > 0.0
    ensures deviation / sd > 0.0 <==> deviation > 0.0
    ensures deviation / sd < 0.0 <==> deviation < 0.0
  {
    assert deviation / sd * sd == deviation;
    TimesLaws(deviation / sd, sd, 0.0);
    TimesLaws(-(deviation / sd), sd, 0.0);
  }

  /** The sample variance of two values, the smallest baseline there is. */
  lemma VarianceOfTwo(a: real, b: real)
    ensures Mean([a, b]) == (a + b) / 2.0
    ensures Variance([a, b]) == (a - b) * (a - b) / 2.0
  {
    assert [a, b][..1] == [a] && [a][..0] == [];
    assert Sum([a]) == Sum([]) + a && Sum([a, b]) == Sum([a]) + b;
    var m := (a + b) / 2.0;
    assert Spread([a], m) == Spread([], m) + Square(a - m);
    assert Spread([a, b], m) == Spread([a], m) + Square(b - m);
  }

  /** What an anomaly means, from the values seen before `v` alone. */
  ghost predicate IsAnomalous(history: seq<real>, v: real, threshold: real) {
    || threshold <= 0.0
    || (|history| >= 2 && Variance(history) > 0.0 &&
        Square(v - Mean(history)) >= Square(threshold) * Variance(history))
  }

  datatype Anomaly = Anomaly(value: real, score: real)

  class ZScoreObserver {
    const threshold: real
    const minSamples: nat
    var samples: nat
    var mean: real
    var m2: real
    ghost var history: seq<real>

    ghost predicate Valid()
      reads this
    {
      samples == |history| && mean == Mean(history) && m2 == SquaredDeviations(history) && minSamples >= 2
    }

    constructor (threshold: real, minSamples: nat)
      ensures Valid() && history == [] && this.threshold == threshold
      ensures this.minSamples == if minSamples < 2 then 2 else minSamples
    {
      this.threshold := threshold;
      this.minSamples := if minSamples < 2 then 2 else minSamples;
      samples, mean, m2, history := 0, 0.0, 0.0, [];
    }

    /** `sd` stands for the square root the observer takes of the variance. */
    method Observe(value: real, sd: real) returns (r: Option<Anomaly>)
      requires Valid()
      requires samples >= 2 ==> sd >= 0.0 && Square(sd) == m2 / (samples as real - 1.0)
      modifies this
      ensures Valid() && history == old(history) + [value]
      ensures r.Some? <==> |history| >= minSamples && IsAnomalous(old(history), value, threshold)
      ensures r.Some? ==> r.value.value == value
      ensures r.Some? && |old(history)| >= 2 && Variance(old(history)) > 0.0 ==>
                && Square(r.value.score) * Variance(old(history)) == Square(value - Mean(old(history)))
                && (r.value.score > 0.0 <==> value > Mean(old(history)))
                && (r.value.score < 0.0 <==> value < Mean(old(history)))
      ensures r.Some? && !(|old(history)| >= 2 && Variance(old(history)) > 0.0) ==> r.value.score == 0.0
    {
      hide Spread, Sum, Times, Square, Mean, SquaredDeviations;
      var z := 0.0;
      if samples >= 2 && sd > 0.0 {
        z := (value - mean) / sd;
        ScoreBySquares(value - mean, sd, threshold);
        ScoreSign(value - mean, sd);
        SquareSign(sd);
      } else if samples >= 2 {
        SquareSign(sd);
      }
      WelfordStep(history, value);
      samples := samples + 1;
      var delta := value - mean;
      mean := mean + delta / samples as real;
      var delta2 := value - mean;
      m2 := m2 + delta * delta2;
      history := history + [value];
      if samples < minSamples {
        return None;
      }
      if Abs(z) >= threshold {
        return Some(Anomaly(value, z));
      }
      return None;
    }

    method Reset()
      requires Valid()
      modifies this
      ensures Valid() && history == []
    {
      samples, mean, m2, history := 0, 0.0, 0.0, [];
    }
  }
}
