/** The averaging loop of BenchSuite::Log in utils/bench-scheduler.cc, over the reals. */
module Welford {
  datatype PhaseResult = PhaseResult(time: real, rate: real, period: real)
  datatype Result = Result(init: PhaseResult, run: PhaseResult)

  // The six measured values of a result.
  datatype Field = InitTime | InitRate | InitPeriod | RunTime | RunRate | RunPeriod

  function Get(r: Result, f: Field): real {
    match f
    case InitTime => r.init.time
    case InitRate => r.init.rate
    case InitPeriod => r.init.period
    case RunTime => r.run.time
    case RunRate => r.run.rate
    case RunPeriod => r.run.period
  }

  // The samples of one field.
  ghost function Column(rs: seq<Result>, f: Field): seq<real> {
    seq(|rs|, i requires 0 <= i < |rs| => Get(rs[i], f))
  }

  ghost function Sum(xs: seq<real>): real {
    if xs == [] then 0.0 else Sum(xs[..|xs| - 1]) + xs[|xs| - 1]
  }

  function Square(x: real): real { x * x }

  // Sum of squared deviations from a.
  ghost function Deviation(xs: seq<real>, a: real): real {
    if xs == [] then 0.0 else Deviation(xs[..|xs| - 1], a) + Square(xs[|xs| - 1] - a)
  }

  // The average is the mean of the samples, and the moment their squared deviation from it.
  ghost predicate Averaged(xs: seq<real>, average: real, moment2: real) {
    average * (|xs| as real) == Sum(xs) && moment2 == Deviation(xs, average)
  }

  ghost predicate Accumulated(sample: real, average0: real, moment0: real, count: nat, average: real, moment2: real)
    requires count > 0
  {
    && average == average0 + (sample - average0) / (count as real)
    && moment2 == moment0 + (sample - average0) * (sample - average)
  }

  // ACCUMULATE for one field.
  method Accumulate(sample: real, average0: real, moment0: real, count: nat) returns (average: real, moment2: real)
    requires count > 0
    ensures Accumulated(sample, average0, moment0, count, average, moment2)
  {
    var deltaPre := sample - average0;
    average := average0 + deltaPre / (count as real);
    var deltaPost := sample - average;
    moment2 := moment0 + deltaPre * deltaPost;
  }

  // How far the samples add up to more than a each.
  ghost function Excess(xs: seq<real>, a: real): real { Sum(xs) - (|xs| as real) * a }

  // What moving the point of reference by e adds to the deviation of k samples with excess z.
  ghost function Shift(e: real, z: real, k: real): real { k * Square(e) - 2.0 * e * z }

  lemma {:induction false} DeviationShift(xs: seq<real>, a: real, e: real)
    ensures Deviation(xs, a + e) == Deviation(xs, a) + Shift(e, Excess(xs, a), |xs| as real)
  {
    hide Square, Shift, Excess;
    if xs == [] {
      ShiftNone(e, a);
    } else {
      var k := |xs| - 1;
      DeviationShift(xs[..k], a, e);
      ExcessStep(xs, a);
      ShiftStep(xs[k], a, e, Excess(xs[..k], a), k as real);
    }
  }

  lemma ShiftNone(e: real, a: real)
    ensures Shift(e, Excess([], a), 0.0) == 0.0
  {
  }

  lemma ExcessStep(xs: seq<real>, a: real)
    requires xs != []
    ensures Excess(xs, a) == Excess(xs[..|xs| - 1], a) + (xs[|xs| - 1] - a)
  {
    var k := (|xs| - 1) as real;
    assert |xs| as real == k + 1.0;
    assert (k + 1.0) * a == k * a + a;
  }

  lemma ShiftStep(x: real, a: real, e: real, z: real, k: real)
    ensures Shift(e, z, k) + Square(x - (a + e)) == Square(x - a) + Shift(e, z + (x - a), k + 1.0)
  {
    var d := x - a;
    assert x - (a + e) == d - e;
    assert Square(d - e) == Square(d) - 2.0 * e * d + Square(e);
    assert 2.0 * e * (z + d) == 2.0 * e * z + 2.0 * e * d;
  }

  lemma DivTimes(d: real, c: real)
    requires c != 0.0
    ensures d / c * c == d
  {
  }

  lemma AccumulateOk(xs: seq<real>, x: real, average0: real, moment0: real, average: real, moment2: real)
    requires xs != [] ==> Averaged(xs, average0, moment0)
    requires xs == [] ==> moment0 == 0.0
    requires Accumulated(x, average0, moment0, |xs| + 1, average, moment2)
    ensures Averaged(xs + [x], average, moment2)
  {
    hide Square, Shift, Excess;
    var k, e, r := |xs| as real, average - average0, xs + [x];
    assert r[..|xs|] == xs && r[|xs|] == x && (|r| as real) == k + 1.0;
    DivTimes(x - average0, k + 1.0);
    assert Sum(r) == Sum(xs) + x && Deviation(r, average) == Deviation(xs, average) + Square(x - average);
    if xs == [] {
      assert e == x - average0 && average == x;
      SquareZero(x - average);
    } else {
      DeviationShift(xs, average0, e);
      assert average0 + e == average;
      NoExcess(xs, average0, e);
      MeanStep(average0, average, x, e, k, Sum(xs));
      MomentStep(average0, average, x, e, k);
    }
  }

  lemma SquareZero(d: real)
    requires d == 0.0
    ensures Square(d) == 0.0
  {
  }

  // Around the mean there is no excess.
  lemma NoExcess(xs: seq<real>, a: real, e: real)
    requires a * (|xs| as real) == Sum(xs)
    ensures Shift(e, Excess(xs, a), |xs| as real) == (|xs| as real) * Square(e)
  {
    assert (|xs| as real) * a == a * (|xs| as real);
    assert Excess(xs, a) == 0.0;
  }

  lemma MeanStep(a: real, b: real, x: real, e: real, k: real, s: real)
    requires e * (k + 1.0) == x - a && e == b - a && a * k == s
    ensures b * (k + 1.0) == s + x
  {
    assert b * (k + 1.0) == a * (k + 1.0) + e * (k + 1.0);
  }

  // The product of the two deltas is what the shift of the mean adds.
  lemma MomentStep(a: real, b: real, x: real, e: real, k: real)
    requires e * (k + 1.0) == x - a && e == b - a
    ensures (x - a) * (x - b) == k * Square(e) + Square(x - b)
  {
    var d := e * k;
    assert x - b == d && x - a == d + e;
    assert (d + e) * d == d * d + e * d;
    assert e * d == k * (e * e);
  }

  lemma {:induction false} DeviationNonNegative(xs: seq<real>, a: real)
    ensures Deviation(xs, a) >= 0.0
  {
    if xs != [] {
      DeviationNonNegative(xs[..|xs| - 1], a);
      SquareNonNegative(xs[|xs| - 1] - a);
    }
  }

  lemma SquareNonNegative(d: real)
    ensures Square(d) >= 0.0
  {
  }

  // The six ACCUMULATE lines.
  method AccumulateAll(sample: Result, average0: Result, moment0: Result, count: nat) returns (average: Result,
                       moment2: Result)
    requires count > 0
    ensures forall f: Field :: Accumulated(Get(sample, f), Get(average0, f), Get(moment0, f), count,
                                            Get(average, f), Get(moment2, f))
  {
    hide Accumulated;
    var a, b, c, x, y, z;
    a, x := Accumulate(sample.init.time, average0.init.time, moment0.init.time, count);
    b, y := Accumulate(sample.init.rate, average0.init.rate, moment0.init.rate, count);
    c, z := Accumulate(sample.init.period, average0.init.period, moment0.init.period, count);
    var d, e, f, u, v, w;
    d, u := Accumulate(sample.run.time, average0.run.time, moment0.run.time, count);
    e, v := Accumulate(sample.run.rate, average0.run.rate, moment0.run.rate, count);
    f, w := Accumulate(sample.run.period, average0.run.period, moment0.run.period, count);
    average := Result(PhaseResult(a, b, c), PhaseResult(d, e, f));
    moment2 := Result(PhaseResult(x, y, z), PhaseResult(u, v, w));
  }

  // Nothing is averaged for fewer than two results; the square roots of the variances are logged.
  datatype Summary = Nothing | Summary(average: Result, moment2: Result, variance: Result)

  // Starting from the first sample, the loop ends with mean and squared deviation of all samples,
  // so the arguments of the square roots are not negative.
  method Log(results: seq<Result>) returns (summary: Summary)
    ensures summary.Nothing? <==> |results| < 2
    ensures summary.Summary? ==> forall f: Field ::
              && Averaged(Column(results, f), Get(summary.average, f), Get(summary.moment2, f))
              && Get(summary.variance, f) == Get(summary.moment2, f) / (|results| as real)
              && Get(summary.variance, f) >= 0.0
  {
    if |results| < 2 {
      return Nothing;
    }
    var n: nat, average: Result, moment2: Result;
    var zero := PhaseResult(0.0, 0.0, 0.0);
    n, average, moment2 := 0, results[0], Result(zero, zero);
    while n < |results|
      invariant n <= |results|
      invariant n == 0 ==> forall f: Field :: Get(moment2, f) == 0.0
      invariant n > 0 ==> forall f: Field :: Averaged(Column(results[..n], f), Get(average, f), Get(moment2, f))
    {
      hide Averaged, Column, Get, Accumulated;
      ghost var average0, moment0 := average, moment2;
      var sample := results[n];
      average, moment2 := AccumulateAll(sample, average, moment2, n + 1);
      assert results[..n + 1] == results[..n] + [sample];
      forall f: Field ensures Averaged(Column(results[..n + 1], f), Get(average, f), Get(moment2, f)) {
        ColumnEmpty(f);
        ColumnSnoc(results[..n], sample, f);
        AccumulateOk(Column(results[..n], f), Get(sample, f), Get(average0, f), Get(moment0, f), Get(average, f),
                     Get(moment2, f));
      }
      n := n + 1;
    }
    assert results[..n] == results;
    var variance := Result(Divide(moment2.init, n as real), Divide(moment2.run, n as real));
    forall f: Field ensures Get(variance, f) == Get(moment2, f) / (n as real) && Get(variance, f) >= 0.0 {
      assert Averaged(Column(results, f), Get(average, f), Get(moment2, f));
      DeviationNonNegative(Column(results, f), Get(average, f));
      NonNegativeQuotient(Get(moment2, f), n as real);
    }
    return Summary(average, moment2, variance);
  }

  function Divide(p: PhaseResult, n: real): PhaseResult
    requires n != 0.0
  {
    PhaseResult(p.time / n, p.rate / n, p.period / n)
  }

  lemma ColumnEmpty(f: Field)
    ensures Column([], f) == []
  {
  }

  lemma ColumnSnoc(rs: seq<Result>, r: Result, f: Field)
    ensures Column(rs + [r], f) == Column(rs, f) + [Get(r, f)] && |Column(rs, f)| == |rs|
  {
  }

  lemma NonNegativeQuotient(m: real, n: real)
    requires m >= 0.0 && n > 0.0
    ensures m / n >= 0.0
  {
  }
}
