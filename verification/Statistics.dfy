/** Mean and variance over the reals: the two-pass form of the feature collector and the online form
    of the scheduler benchmark. */
module Statistics {
  import opened Finite

  ghost function Sum(v: seq<real>): real {
    if v == [] then 0.0 else Sum(v[..|v| - 1]) + v[|v| - 1]
  }

  /** Sum of the squared deviations from `m`. */
  ghost function Deviations(v: seq<real>, m: real): real {
    if v == [] then 0.0 else Deviations(v[..|v| - 1], m) + Square(v[|v| - 1] - m)
  }

  function Square(x: real): real {
    x * x
  }

  function Times(x: real, n: nat): real {
    x * n as real
  }

  /** The population mean, 0 for no samples. */
  ghost function Mean(v: seq<real>): real {
    if v == [] then 0.0 else Sum(v) / |v| as real
  }

  /** The square of the population standard deviation, 0 for no samples. */
  ghost function Variance(v: seq<real>): real {
    if v == [] then 0.0 else Deviations(v, Mean(v)) / |v| as real
  }

  method ComputeMean(v: seq<real>) returns (r: real)
    ensures r == Mean(v)
  {
    if v == [] { return 0.0; }
    var s := 0.0;
    for i := 0 to |v|
      invariant s == Sum(v[..i])
    {
      assert v[..i + 1][..i] == v[..i];
      s := s + v[i];
    }
    assert v[..|v|] == v;
    return s / |v| as real;
  }

  /** The standard deviation before its square root. */
  method ComputeVariance(v: seq<real>) returns (r: real)
    ensures r == Variance(v)
  {
    if v == [] { return 0.0; }
    var m := ComputeMean(v);
    hide Mean;
    var s := 0.0;
    for i := 0 to |v|
      invariant s == Deviations(v[..i], m)
    {
      assert v[..i + 1][..i] == v[..i];
      var d := v[i] - m;
      s := s + Square(d);
    }
    assert v[..|v|] == v;
    return s / |v| as real;
  }

  // ---------------------------------------------------------------------------
  // Moving the reference point of the deviations
  // ---------------------------------------------------------------------------

  lemma SquareOfSum(x: real, a: real, b: real)
    ensures Square(x - b) == Square(x - a) + 2.0 * (x - a) * (a - b) + Square(a - b)
  {
    var u, v := x - a, a - b;
    assert x - b == u + v;
    assert (u + v) * (u + v) == u * u + 2.0 * u * v + v * v;
  }

  lemma Distribute(s: real, n: real, x: real, a: real, w: real)
    ensures 2.0 * (s - n * a) * w + 2.0 * (x - a) * w == 2.0 * (s + x - (n + 1.0) * a) * w
  {
    var p, q := s - n * a, x - a;
    assert p + q == s + x - (n + 1.0) * a;
    assert 2.0 * p * w + 2.0 * q * w == 2.0 * (p + q) * w;
  }

  /** Deviations `d` from `a`, of `n` samples with sum `s`, taken from `b` instead. */
  ghost function Moved(d: real, s: real, n: real, a: real, b: real): real {
    d + 2.0 * (s - n * a) * (a - b) + n * Square(a - b)
  }

  lemma MovedStep(d: real, s: real, n: real, a: real, b: real, x: real)
    ensures Moved(d, s, n, a, b) + Square(x - b) == Moved(d + Square(x - a), s + x, n + 1.0, a, b)
  {
    SquareOfSum(x, a, b);
    hide Square;
    var w, ww := a - b, Square(a - b);
    Distribute(s, n, x, a, w);
    assert (n + 1.0) * ww == n * ww + ww;
  }

  lemma {:induction false} MoveReference(v: seq<real>, a: real, b: real)
    ensures Deviations(v, b) == Moved(Deviations(v, a), Sum(v), |v| as real, a, b)
    decreases |v|
  {
    if v == [] {
      MovedFromNothing(a, b);
    } else {
      hide Square, Moved;
      var u, x := v[..|v| - 1], v[|v| - 1];
      MoveReference(u, a, b);
      MovedStep(Deviations(u, a), Sum(u), |u| as real, a, b, x);
    }
  }

  lemma MovedFromNothing(a: real, b: real)
    ensures Moved(0.0, 0.0, 0.0, a, b) == 0.0
  {
  }

  lemma MovedFromMean(d: real, s: real, n: real, a: real, b: real)
    requires a * n == s
    ensures Moved(d, s, n, a, b) == d + n * Square(a - b)
  {
    hide Square;
    var z := s - n * a;
    assert z == 0.0;
    assert 2.0 * z * (a - b) == 0.0;
  }

  /** From the mean, deviations grow by `n` times the squared distance to the new reference. */
  lemma MoveFromMean(v: seq<real>, a: real, b: real)
    requires Times(a, |v|) == Sum(v)
    ensures Deviations(v, b) == Deviations(v, a) + Times(Square(a - b), |v|)
  {
    hide Square, Moved;
    MoveReference(v, a, b);
    MovedFromMean(Deviations(v, a), Sum(v), |v| as real, a, b);
  }

  // ---------------------------------------------------------------------------
  // Welford's update
  // ---------------------------------------------------------------------------

  /** Running average and second moment. */
  datatype Moments = Moments(average: real, moment2: real) {
    ghost predicate Describe(v: seq<real>) {
      && Times(average, |v|) == Sum(v)
      && moment2 == Deviations(v, average)
    }
  }

  /** One accumulation step, for the `count`-th sample. */
  function Accumulate(acc: Moments, x: real, count: nat): Moments
    requires count > 0
  {
    var deltaPre := x - acc.average;
    var average := acc.average + deltaPre / count as real;
    var deltaPost := x - average;
    Moments(average, acc.moment2 + deltaPre * deltaPost)
  }

  lemma Quotient(d: real, c: real) returns (e: real)
    requires c > 0.0
    ensures e == d / c && e * c == d
  {
    e := d / c;
  }

  /** With `e` the move of the average and `n e` the remaining deviation, the product of the two deltas
      is exactly what the deviations gain. */
  lemma CrossTerm(n: real, e: real, post: real)
    requires n * e == post
    ensures (post + e) * post == n * Square(0.0 - e) + Square(post)
  {
    assert n * (e * e) == (n * e) * e;
    assert Square(0.0 - e) == e * e;
    assert (post + e) * post == post * post + post * e;
  }

  /** What one step does to a running average and second moment of `count` samples. */
  lemma AccumulateStep(acc: Moments, x: real, count: nat)
    ensures var next := Accumulate(acc, x, count + 1);
            && Times(next.average, count + 1) == Times(acc.average, count) + x
            && next.moment2 ==
               acc.moment2 + Times(Square(acc.average - next.average), count) + Square(x - next.average)
  {
    var next, n := Accumulate(acc, x, count + 1), count as real;
    var e := Quotient(x - acc.average, n + 1.0);
    assert next.average == acc.average + e;
    StepMean(acc.average, n, e, x, acc.average * n);
    RemainingDeviation(acc.average, n, e, x);
    CrossTerm(n, e, x - next.average);
    assert acc.average - next.average == 0.0 - e;
  }

  lemma AppendSample(v: seq<real>, x: real, m: real)
    ensures Sum(v + [x]) == Sum(v) + x && Deviations(v + [x], m) == Deviations(v, m) + Square(x - m)
  {
    assert (v + [x])[..|v|] == v;
  }

  lemma AccumulateDescribes(acc: Moments, v: seq<real>, x: real)
    requires acc.Describe(v)
    ensures Accumulate(acc, x, |v| + 1).Describe(v + [x])
  {
    hide Square, Times, Accumulate, Sum, Deviations;
    var next := Accumulate(acc, x, |v| + 1);
    AppendSample(v, x, next.average);
    AccumulateStep(acc, x, |v|);
    MoveFromMean(v, acc.average, next.average);
    assert |v + [x]| == |v| + 1;
  }

  lemma RemainingDeviation(a: real, n: real, e: real, x: real)
    requires e * (n + 1.0) == x - a
    ensures n * e == x - (a + e)
  {
  }

  lemma StepMean(a: real, n: real, e: real, x: real, s: real)
    requires a * n == s && e * (n + 1.0) == x - a
    ensures (a + e) * (n + 1.0) == s + x
  {
    assert (a + e) * (n + 1.0) == a * n + a + e * (n + 1.0);
  }

  /** Accumulated moments are the mean and `n` times the variance. */
  lemma MomentsAreMeanAndVariance(acc: Moments, v: seq<real>)
    requires v != [] && acc.Describe(v)
    ensures acc.average == Mean(v) && acc.moment2 / |v| as real == Variance(v)
  {
    var n := |v| as real;
    var m := Quotient(Sum(v), n);
    assert (acc.average - m) * n == 0.0;
  }

  // ---------------------------------------------------------------------------
  // The benchmark summary
  // ---------------------------------------------------------------------------

  datatype PhaseResult<T> = PhaseResult(time: T, rate: T, period: T)

  datatype Result<T> = Result(init: PhaseResult<T>, run: PhaseResult<T>)

  type Sample = Result<real>

  /** The six measured columns. */
  datatype Column = InitTime | InitRate | InitPeriod | RunTime | RunRate | RunPeriod

  function Field<T>(r: Result<T>, c: Column): T {
    match c
    case InitTime => r.init.time
    case InitRate => r.init.rate
    case InitPeriod => r.init.period
    case RunTime => r.run.time
    case RunRate => r.run.rate
    case RunPeriod => r.run.period
  }

  ghost function ColumnOf(results: seq<Sample>, c: Column): (v: seq<real>)
    ensures |v| == |results| && forall i :: 0 <= i < |results| ==> v[i] == Field(results[i], c)
  {
    seq(|results|, i requires 0 <= i < |results| => Field(results[i], c))
  }

  function AccumulateAll(acc: Result<Moments>, r: Sample, count: nat): (next: Result<Moments>)
    requires count > 0
    ensures forall c: Column :: Field(next, c) == Accumulate(Field(acc, c), Field(r, c), count)
  {
    Result(PhaseResult(Accumulate(acc.init.time, r.init.time, count),
                       Accumulate(acc.init.rate, r.init.rate, count),
                       Accumulate(acc.init.period, r.init.period, count)),
           PhaseResult(Accumulate(acc.run.time, r.run.time, count),
                       Accumulate(acc.run.rate, r.run.rate, count),
                       Accumulate(acc.run.period, r.run.period, count)))
  }

  /** The averages and variances logged for a suite of runs; nothing is logged for fewer than two. */
  method Summarise(results: seq<Sample>) returns (r: Option<(Sample, Sample)>)
    ensures r.None? <==> |results| < 2
    ensures r.Some? ==> forall c: Column ::
              && Field(r.value.0, c) == Mean(ColumnOf(results, c))
              && Field(r.value.1, c) == Variance(ColumnOf(results, c))
  {
    if |results| < 2 { return None; }
    var first := results[0];
    var acc := Result(
      PhaseResult(Moments(first.init.time, 0.0), Moments(first.init.rate, 0.0), Moments(first.init.period, 0.0)),
      PhaseResult(Moments(first.run.time, 0.0), Moments(first.run.rate, 0.0), Moments(first.run.period, 0.0)));
    for n := 0 to |results|
      invariant forall c: Column :: Field(acc, c).Describe(ColumnOf(results[..n], c))
    {
      forall c: Column
        ensures Accumulate(Field(acc, c), Field(results[n], c), n + 1).Describe(ColumnOf(results[..n + 1], c))
      {
        AccumulateDescribes(Field(acc, c), ColumnOf(results[..n], c), Field(results[n], c));
        assert ColumnOf(results[..n + 1], c) == ColumnOf(results[..n], c) + [Field(results[n], c)];
      }
      acc := AccumulateAll(acc, results[n], n + 1);
    }
    assert results[..|results|] == results;
    forall c: Column
      ensures Field(acc, c).average == Mean(ColumnOf(results, c))
      ensures Field(acc, c).moment2 / |results| as real == Variance(ColumnOf(results, c))
    {
      MomentsAreMeanAndVariance(Field(acc, c), ColumnOf(results, c));
    }
    var n := |results| as real;
    r := Some((
      Result(PhaseResult(acc.init.time.average, acc.init.rate.average, acc.init.period.average),
             PhaseResult(acc.run.time.average, acc.run.rate.average, acc.run.period.average)),
      Result(PhaseResult(acc.init.time.moment2 / n, acc.init.rate.moment2 / n, acc.init.period.moment2 / n),
             PhaseResult(acc.run.time.moment2 / n, acc.run.rate.moment2 / n, acc.run.period.moment2 / n))));
  }
}
