/** `CalculateMetricStatisticsBasedOnDataAndPeriod` over exact reals. */
module PerformanceStats {
  import opened Sorting
  import opened RealArithmetic

  datatype Stats = Stats(average: real, p99: real, max: real, min: real, period: int, std: real)

  predicate LeReal(a: real, b: real) {
    a <= b
  }

  lemma LeRealOrder()
    ensures LinearOrder(LeReal)
  {
  }

  function Sum(s: seq<real>): real {
    if s == [] then 0.0 else Sum(s[..|s| - 1]) + s[|s| - 1]
  }

  /** The sum of the squared distances from `a`. */
  function Deviation(s: seq<real>, a: real): real {
    if s == [] then 0.0 else Deviation(s[..|s| - 1], a) + Squared(a - s[|s| - 1])
  }

  function Average(s: seq<real>): real
    requires s != []
  {
    Mean(Sum(s), |s|)
  }

  function Variance(s: seq<real>): real
    requires s != []
  {
    Mean(Deviation(s, Average(s)), |s|)
  }

  /** The square root of the standard library. */
  ghost predicate IsSquareRoot(sqrt: real -> real) {
    forall x :: x >= 0.0 ==> sqrt(x) >= 0.0 && Squared(sqrt(x)) == x
  }

  /** `int(float64(n) * .99) - 1`, without rounding. */
  function P99Index(n: nat): int {
    99 * n / 100 - 1
  }

  /** A conversion to `int` drops the fraction. */
  function Truncate(x: real): int {
    if x >= 0.0 then x.Floor else -(-x).Floor
  }

  /** The statistics of a list of samples; a single sample makes the code index out of range. */
  function StatsOf(s: seq<real>, dataPeriod: real, sqrt: real -> real): Stats
    requires |s| != 1
  {
    if s == [] then Stats(0.0, 0.0, 0.0, 0.0, 0, 0.0)
    else
      IndexInRange(|s|);
      var sorted := Sort(s, LeReal);
      LeRealOrder();
      SortSorts(s, LeReal);
      Stats(Average(s), sorted[P99Index(|s|)], sorted[|s| - 1], sorted[0], Truncate(Mean(dataPeriod, |s|)), sqrt(Variance(s)))
  }

  lemma IndexInRange(n: nat)
    requires n >= 2
    ensures 0 <= P99Index(n) < n - 1
  {
  }

  // ----- sums do not depend on the order -----

  lemma SumEmpty()
    ensures Sum([]) == 0.0 && forall m :: Deviation([], m) == 0.0
  {
  }

  lemma SumPrefix(s: seq<real>, i: nat, m: real)
    requires i < |s|
    ensures Sum(s[..i + 1]) == Sum(s[..i]) + s[i]
    ensures Deviation(s[..i + 1], m) == Deviation(s[..i], m) + Squared(m - s[i])
  {
    assert s[..i + 1] == s[..i] + [s[i]];
    SumSnoc(s[..i], s[i], m);
  }

  lemma SumSnoc(s: seq<real>, x: real, m: real)
    ensures Sum(s + [x]) == Sum(s) + x
    ensures Deviation(s + [x], m) == Deviation(s, m) + Squared(m - x)
  {
    assert (s + [x])[..|s + [x]| - 1] == s;
  }

  lemma {:induction false} SumConcat(a: seq<real>, b: seq<real>, m: real)
    ensures Sum(a + b) == Sum(a) + Sum(b) && Deviation(a + b, m) == Deviation(a, m) + Deviation(b, m)
    decreases |b|
  {
    if b == [] {
      assert a + b == a;
    } else {
      var front, x := b[..|b| - 1], b[|b| - 1];
      SumSnoc(a + front, x, m);
      SumSnoc(front, x, m);
      assert a + b == (a + front) + [x] && b == front + [x];
      hide Sum, Deviation;
      SumConcat(a, front, m);
    }
  }

  lemma {:induction false} InsertSum(x: real, s: seq<real>, m: real)
    ensures Sum(Insert(x, s, LeReal)) == x + Sum(s)
    ensures Deviation(Insert(x, s, LeReal), m) == Squared(m - x) + Deviation(s, m)
  {
    One(x, m);
    if s == [] || LeReal(x, s[0]) {
      SumConcat([x], s, m);
    } else {
      var first, rest := s[0], s[1..];
      assert s == [first] + rest;
      assert Insert(x, s, LeReal) == [first] + Insert(x, rest, LeReal);
      hide Insert, Sum, Deviation;
      InsertSum(x, rest, m);
      SumConcat([first], Insert(x, rest, LeReal), m);
      SumConcat([first], rest, m);
    }
  }

  lemma One(x: real, m: real)
    ensures Sum([x]) == x && Deviation([x], m) == Squared(m - x)
  {
    assert [x][..0] == [];
  }

  lemma {:induction false} SortSum(s: seq<real>, m: real)
    ensures Sum(Sort(s, LeReal)) == Sum(s) && Deviation(Sort(s, LeReal), m) == Deviation(s, m)
  {
    if s != [] {
      var first, rest := s[0], s[1..];
      assert s == [first] + rest;
      assert Sort(s, LeReal) == Insert(first, Sort(rest, LeReal), LeReal);
      One(first, m);
      hide Sort, Insert, Sum, Deviation;
      SortSum(rest, m);
      InsertSum(first, Sort(rest, LeReal), m);
      SumConcat([first], rest, m);
    }
  }

  /** Each statistic by itself. */
  lemma StatsFields(s: seq<real>, dataPeriod: real, sqrt: real -> real)
    requires |s| >= 2
    ensures 0 <= P99Index(|s|) < |s| - 1 && |Sort(s, LeReal)| == |s|
    ensures var st, sorted := StatsOf(s, dataPeriod, sqrt), Sort(s, LeReal);
      && st.average == Average(s) && st.std == sqrt(Variance(s)) && st.period == Truncate(Mean(dataPeriod, |s|))
      && st.min == sorted[0] && st.max == sorted[|s| - 1] && st.p99 == sorted[P99Index(|s|)]
  {
    LeRealOrder();
    SortSorts(s, LeReal);
    IndexInRange(|s|);
  }

  lemma StatsFromSums(s: seq<real>, dataPeriod: real, sqrt: real -> real, avg: real, deviation: real)
    requires |s| >= 2 && avg == Mean(Sum(s), |s|) && deviation == Deviation(s, avg)
    ensures StatsOf(s, dataPeriod, sqrt).average == avg
    ensures StatsOf(s, dataPeriod, sqrt).std == sqrt(Mean(deviation, |s|))
  {
    StatsFields(s, dataPeriod, sqrt);
    hide StatsOf, Sort, Sum, Deviation;
  }

  // ----- the method -----

  method SortFloats(data: array<real>)
    modifies data
    ensures data[..] == Sort(old(data[..]), LeReal)
  {
    var sorted := Sort(data[..], LeReal);
    LeRealOrder();
    SortSorts(data[..], LeReal);
    hide *;
    for i := 0 to data.Length
      invariant forall k | 0 <= k < i :: data[k] == sorted[k]
    {
      data[i] := sorted[i];
    }
  }

  method CalculateMetricStatistics(data: array<real>, dataPeriod: real, sqrt: real -> real) returns (stats: Stats)
    requires data.Length != 1
    modifies data
    ensures data[..] == Sort(old(data[..]), LeReal)
    ensures stats == StatsOf(old(data[..]), dataPeriod, sqrt)
    ensures data.Length == 0 ==> stats == Stats(0.0, 0.0, 0.0, 0.0, 0, 0.0)
  {
    ghost var samples := data[..];
    var length := data.Length;
    if length == 0 {
      return Stats(0.0, 0.0, 0.0, 0.0, 0, 0.0);
    }
    StatsFields(samples, dataPeriod, sqrt);
    SumEmpty();
    hide *;
    SortFloats(data);
    ghost var sorted := data[..];
    assert sorted[..0] == [] && sorted[..length] == sorted;
    var min, max := data[0], data[length - 1];

    var sum := 0.0;
    for i := 0 to length
      invariant data[..] == sorted && sum == Sum(sorted[..i])
    {
      SumPrefix(sorted, i, 0.0);
      assert data[i] == sorted[i];
      sum := sum + data[i];
    }
    var avg := Mean(sum, length);

    var p99Val := data[P99Index(length)];

    var stdDevSum := 0.0;
    for i := 0 to length
      invariant data[..] == sorted && stdDevSum == Deviation(sorted[..i], avg)
    {
      SumPrefix(sorted, i, avg);
      stdDevSum := stdDevSum + Squared(avg - data[i]);
    }
    SortSum(samples, avg);
    StatsFromSums(samples, dataPeriod, sqrt, avg, stdDevSum);
    stats := Stats(avg, p99Val, max, min, Truncate(Mean(dataPeriod, length)), sqrt(Mean(stdDevSum, length)));
  }

  // ----- order of the statistics -----

  /** Min and Max are the least and the greatest sample, and P99 lies between them. */
  lemma Extremes(s: seq<real>, dataPeriod: real, sqrt: real -> real)
    requires |s| >= 2
    ensures var st := StatsOf(s, dataPeriod, sqrt);
      && st.min in s && st.max in s && st.p99 in s
      && (forall x | x in s :: st.min <= x <= st.max)
  {
    StatsFields(s, dataPeriod, sqrt);
    hide StatsOf, Sort, P99Index;
    LeRealOrder();
    SortSorts(s, LeReal);
    var sorted := Sort(s, LeReal);
    SameMembers(s, sorted);
    forall x | x in s ensures sorted[0] <= x <= sorted[|s| - 1] {
      assert x in sorted;
      var i :| 0 <= i < |sorted| && sorted[i] == x;
      SortedBetween(sorted, i);
    }
  }

  lemma SortedBetween(sorted: seq<real>, i: nat)
    requires Sorted(sorted, LeReal) && i < |sorted|
    ensures sorted[0] <= sorted[i] <= sorted[|sorted| - 1]
  {
    assert i > 0 ==> LeReal(sorted[0], sorted[i]);
    assert i < |sorted| - 1 ==> LeReal(sorted[i], sorted[|sorted| - 1]);
  }

  lemma {:induction false} SumBounds(s: seq<real>, lo: real, hi: real)
    requires forall x | x in s :: lo <= x <= hi
    ensures Times(|s| as real, lo) <= Sum(s) <= Times(|s| as real, hi)
  {
    if s != [] {
      var front, v := s[..|s| - 1], s[|s| - 1];
      assert s == front + [v] && v in s && forall x | x in front :: x in s;
      SumSnoc(front, v, 0.0);
      assert |s| == |front| + 1;
      hide *;
      SumBounds(front, lo, hi);
      OneMore(|front|, lo);
      OneMore(|front|, hi);
    }
  }

  lemma AverageBetween(s: seq<real>, lo: real, hi: real)
    requires s != [] && forall x | x in s :: lo <= x <= hi
    ensures lo <= Average(s) <= hi
  {
    SumBounds(s, lo, hi);
    hide Sum;
    MeanBounds(Sum(s), |s|, lo);
    MeanBounds(Sum(s), |s|, hi);
  }

  /** The average lies between Min and Max. */
  lemma AverageBounds(s: seq<real>, dataPeriod: real, sqrt: real -> real)
    requires |s| >= 2
    ensures var st := StatsOf(s, dataPeriod, sqrt); st.min <= st.average <= st.max
  {
    StatsFields(s, dataPeriod, sqrt);
    Extremes(s, dataPeriod, sqrt);
    hide *;
    var st := StatsOf(s, dataPeriod, sqrt);
    AverageBetween(s, st.min, st.max);
  }

  // ----- the variance bound -----

  function Room(a: real, lo: real, hi: real): real {
    (hi - a) * (a - lo)
  }

  function Slope(a: real, lo: real, hi: real): real {
    hi + lo - 2.0 * a
  }

  /** For one sample between `lo` and `hi`. */
  lemma OneSample(a: real, v: real, lo: real, hi: real)
    requires lo <= v <= hi
    ensures Squared(a - v) <= Room(a, lo, hi) + Times(Slope(a, lo, hi), v - a)
  {
    var x, y := hi - v, v - lo;
    assert x * y >= 0.0;
    assert (hi - a) * (a - lo) + (hi + lo - 2.0 * a) * (v - a) - (a - v) * (a - v) == x * y;
  }

  /** What `OneSample` allows `n` samples with this sum, `p` and `c` being its two coefficients. */
  function Allowance(n: nat, sum: real, a: real, p: real, c: real): real {
    n as real * p + c * (sum - n as real * a)
  }

  lemma AllowNone(a: real, p: real, c: real)
    ensures Allowance(0, 0.0, a, p, c) == 0.0
  {
    assert c * 0.0 == 0.0;
  }

  lemma AllowOneMore(n: nat, sum: real, v: real, a: real, p: real, c: real)
    ensures Allowance(n + 1, sum + v, a, p, c) == Allowance(n, sum, a, p, c) + p + Times(c, v - a)
  {
    OneMore(n, p);
    OneMore(n, a);
    Distribute(c, sum - n as real * a, v - a);
  }

  lemma AllowAtAverage(n: nat, sum: real, a: real, p: real, c: real)
    requires n as real * a == sum
    ensures Allowance(n, sum, a, p, c) == n as real * p
  {
    assert c * 0.0 == 0.0;
  }

  lemma {:induction false} DeviationBound(s: seq<real>, a: real, lo: real, hi: real)
    requires forall x | x in s :: lo <= x <= hi
    ensures Deviation(s, a) <= Allowance(|s|, Sum(s), a, Room(a, lo, hi), Slope(a, lo, hi))
  {
    var p, c := Room(a, lo, hi), Slope(a, lo, hi);
    if s == [] {
      AllowNone(a, p, c);
    } else {
      var front, v := s[..|s| - 1], s[|s| - 1];
      assert s == front + [v] && v in s && forall x | x in front :: x in s;
      SumSnoc(front, v, a);
      hide *;
      DeviationBound(front, a, lo, hi);
      OneSample(a, v, lo, hi);
      AllowOneMore(|front|, Sum(front), v, a, p, c);
    }
  }

  lemma VarianceAtMost(s: seq<real>, lo: real, hi: real)
    requires s != [] && forall x | x in s :: lo <= x <= hi
    ensures Variance(s) <= Room(Average(s), lo, hi)
  {
    var n, a := |s|, Average(s);
    MeanTotal(Sum(s), n);
    hide Sum, Deviation, Allowance, Average, Room, Slope;
    var p, c := Room(a, lo, hi), Slope(a, lo, hi);
    DeviationBound(s, a, lo, hi);
    AllowAtAverage(n, Sum(s), a, p, c);
    MeanBounds(Deviation(s, a), n, p);
  }

  /** The variance is at most (Max - Average) * (Average - Min). */
  lemma VarianceBound(s: seq<real>, dataPeriod: real, sqrt: real -> real)
    requires |s| >= 2
    ensures var st := StatsOf(s, dataPeriod, sqrt); Variance(s) <= (st.max - st.average) * (st.average - st.min)
  {
    StatsFields(s, dataPeriod, sqrt);
    Extremes(s, dataPeriod, sqrt);
    var st := StatsOf(s, dataPeriod, sqrt);
    RoomIs(st.average, st.min, st.max);
    hide *;
    VarianceAtMost(s, st.min, st.max);
  }

  lemma RoomIs(a: real, lo: real, hi: real)
    ensures Room(a, lo, hi) == (hi - a) * (a - lo)
  {
  }

  // ----- the standard deviation -----

  lemma {:induction false} DeviationZero(s: seq<real>, a: real)
    ensures Deviation(s, a) >= 0.0
    ensures Deviation(s, a) == 0.0 <==> forall x | x in s :: x == a
  {
    if s != [] {
      var front, v := s[..|s| - 1], s[|s| - 1];
      assert s == front + [v] && v in s;
      SumSnoc(front, v, a);
      hide *;
      DeviationZero(front, a);
      SquaredSign(a - v);
      AllSnoc(front, v, a);
    }
  }

  lemma AllSnoc(front: seq<real>, v: real, a: real)
    ensures (forall x | x in front + [v] :: x == a) <==> v == a && forall x | x in front :: x == a
  {
    assert v in front + [v] && forall x | x in front :: x in front + [v];
  }

  ghost predicate AllEqual(s: seq<real>) {
    forall x, y | x in s && y in s :: x == y
  }

  lemma AverageOfEqual(s: seq<real>)
    requires s != [] && AllEqual(s)
    ensures forall x | x in s :: x == Average(s)
  {
    var v := s[0];
    assert v in s;
    SumBounds(s, v, v);
    MeanBounds(Sum(s), |s|, v);
  }

  /** The standard deviation is the non-negative root of the variance, and zero exactly when all samples are equal. */
  lemma StdMeans(s: seq<real>, dataPeriod: real, sqrt: real -> real)
    requires |s| >= 2 && IsSquareRoot(sqrt)
    ensures var st := StatsOf(s, dataPeriod, sqrt);
      && st.std >= 0.0 && Squared(st.std) == Variance(s)
      && (st.std == 0.0 <==> AllEqual(s))
  {
    StatsFields(s, dataPeriod, sqrt);
    hide StatsOf, Sort, Variance, Average, Squared;
    VarianceZero(s);
    if AllEqual(s) {
      AverageOfEqual(s);
    }
    SquaredSign(sqrt(Variance(s)));
  }

  lemma VarianceZero(s: seq<real>)
    requires s != []
    ensures Variance(s) >= 0.0
    ensures Variance(s) == 0.0 <==> forall x | x in s :: x == Average(s)
  {
    DeviationZero(s, Average(s));
    MeanBounds(Deviation(s, Average(s)), |s|, 0.0);
  }

  // ----- order of the input -----

  /** The statistics do not depend on the order of the samples. */
  lemma OrderIrrelevant(a: seq<real>, b: seq<real>, dataPeriod: real, sqrt: real -> real)
    requires multiset(a) == multiset(b) && |a| != 1
    ensures |a| == |b| && StatsOf(a, dataPeriod, sqrt) == StatsOf(b, dataPeriod, sqrt)
  {
    assert |multiset(a)| == |a| && |multiset(b)| == |b|;
    LeRealOrder();
    SortOfPermutation(a, b, LeReal);
    SortSum(a, 0.0);
    SortSum(b, 0.0);
    if a != [] {
      SortSum(a, Average(a));
      SortSum(b, Average(a));
    }
  }

  // ----- scaling -----

  function Scale(s: seq<real>, c: real): seq<real> {
    seq(|s|, i requires 0 <= i < |s| => Times(c, s[i]))
  }

  lemma ScaleCons(x: real, s: seq<real>, c: real)
    ensures Scale([x] + s, c) == [Times(c, x)] + Scale(s, c)
    ensures Scale([x] + s, c)[0] == Times(c, x) && Scale([x] + s, c)[1..] == Scale(s, c)
  {
    hide Times;
    assert Scale([x] + s, c) == [Times(c, x)] + Scale(s, c);
  }

  lemma ScaleSnoc(s: seq<real>, x: real, c: real)
    ensures Scale(s + [x], c) == Scale(s, c) + [Times(c, x)]
  {
    hide Times;
  }

  lemma ScaleOrder(c: real, x: real, y: real)
    requires c > 0.0
    ensures LeReal(Times(c, x), Times(c, y)) == LeReal(x, y)
  {
    Compare(c, x, y);
  }

  lemma {:induction false} InsertScale(x: real, s: seq<real>, c: real)
    requires c > 0.0
    ensures Insert(Times(c, x), Scale(s, c), LeReal) == Scale(Insert(x, s, LeReal), c)
  {
    ScaleCons(x, s, c);
    if s != [] {
      var first, rest := s[0], s[1..];
      assert s == [first] + rest;
      ScaleCons(first, rest, c);
      ScaleOrder(c, x, first);
      hide Times, LeReal;
      if !LeReal(x, first) {
        InsertScale(x, rest, c);
        ScaleCons(first, Insert(x, rest, LeReal), c);
      }
    }
  }

  lemma {:induction false} SortScale(s: seq<real>, c: real)
    requires c > 0.0
    ensures Sort(Scale(s, c), LeReal) == Scale(Sort(s, LeReal), c)
  {
    if s != [] {
      var first, rest := s[0], s[1..];
      assert s == [first] + rest;
      ScaleCons(first, rest, c);
      assert Sort(s, LeReal) == Insert(first, Sort(rest, LeReal), LeReal);
      assert Sort(Scale(s, c), LeReal) == Insert(Times(c, first), Sort(Scale(rest, c), LeReal), LeReal);
      hide *;
      SortScale(rest, c);
      InsertScale(first, Sort(rest, LeReal), c);
    }
  }

  lemma ScaleDifference(c: real, x: real, y: real)
    ensures Times(c, x) - Times(c, y) == Times(c, x - y)
    ensures Times(c, x) + Times(c, y) == Times(c, x + y)
  {
    Distribute(c, x, y);
  }

  lemma {:induction false} SumScale(s: seq<real>, c: real, m: real)
    ensures Sum(Scale(s, c)) == Times(c, Sum(s))
    ensures Deviation(Scale(s, c), Times(c, m)) == Times(Squared(c), Deviation(s, m))
  {
    if s != [] {
      var front, v := s[..|s| - 1], s[|s| - 1];
      assert s == front + [v];
      hide *;
      ScaleSnoc(front, v, c);
      SumSnoc(front, v, m);
      SumSnoc(Scale(front, c), Times(c, v), Times(c, m));
      SumScale(front, c, m);
      ScaleDifference(c, m, v);
      SquaredTimes(c, m - v);
      ScaleDifference(c, Sum(front), v);
      ScaleDifference(Squared(c), Deviation(front, m), Squared(m - v));
    }
  }

  lemma VarianceScale(s: seq<real>, c: real)
    requires s != []
    ensures Average(Scale(s, c)) == Times(c, Average(s)) && Variance(Scale(s, c)) == Times(Squared(c), Variance(s))
  {
    SumScale(s, c, Average(s));
    hide Times, Squared, Sum, Deviation;
    MeanScaled(c, Sum(s), |s|);
    MeanScaled(Squared(c), Deviation(s, Average(s)), |s|);
  }

  lemma RootScale(c: real, v: real, sqrt: real -> real)
    requires c > 0.0 && v >= 0.0 && Times(Squared(c), v) >= 0.0 && IsSquareRoot(sqrt)
    ensures sqrt(Times(Squared(c), v)) == Times(c, sqrt(v))
  {
    var root := sqrt(v);
    Compare(c, 0.0, root);
    assert Times(c, root) >= 0.0;
    hide Times, Squared;
    SquaredTimes(c, root);
    RootUnique(sqrt(Times(Squared(c), v)), Times(c, root));
  }

  /** Scaling all samples, as the conversion from bytes to megabytes does, scales every statistic but the period. */
  lemma ScaleInvariance(s: seq<real>, c: real, dataPeriod: real, sqrt: real -> real)
    requires |s| >= 2 && c > 0.0 && IsSquareRoot(sqrt)
    ensures var a, b := StatsOf(s, dataPeriod, sqrt), StatsOf(Scale(s, c), dataPeriod, sqrt);
      && b.average == Times(c, a.average) && b.p99 == Times(c, a.p99) && b.max == Times(c, a.max)
      && b.min == Times(c, a.min) && b.std == Times(c, a.std) && b.period == a.period
  {
    var t := Scale(s, c);
    StatsFields(s, dataPeriod, sqrt);
    StatsFields(t, dataPeriod, sqrt);
    hide StatsOf, Sort, Variance, Average, P99Index, Times, Squared, Truncate, IsSquareRoot;
    SortScale(s, c);
    VarianceScale(s, c);
    VarianceZero(s);
    VarianceZero(t);
    RootScale(c, Variance(s), sqrt);
  }

  // ----- the index and the period -----

  /** P99 is the sample, in sorted order, whose place from 1 is 99 of 100 of the number of samples, rounded down. */
  lemma P99Means(s: seq<real>, dataPeriod: real, sqrt: real -> real, k: nat)
    requires |s| >= 2 && 100 * (k + 1) <= 99 * |s| < 100 * (k + 2)
    ensures k < |s| == |Sort(s, LeReal)| && StatsOf(s, dataPeriod, sqrt).p99 == Sort(s, LeReal)[k]
  {
    StatsFields(s, dataPeriod, sqrt);
  }

  lemma SortedSplits(sorted: seq<real>, k: nat, low: seq<real>, high: seq<real>)
    requires Sorted(sorted, LeReal) && k < |sorted| && low == sorted[..k + 1] && high == sorted[k + 1..]
    ensures (forall x | x in low :: x <= sorted[k]) && (forall x | x in high :: sorted[k] <= x)
  {
    forall x | x in low ensures x <= sorted[k] {
      var i :| 0 <= i < |low| && low[i] == x;
      assert i < k ==> LeReal(sorted[i], sorted[k]);
    }
    forall x | x in high ensures sorted[k] <= x {
      var i :| 0 <= i < |high| && high[i] == x;
      assert LeReal(sorted[k], sorted[k + 1 + i]);
    }
  }

  lemma P99Place(n: nat) returns (k: nat)
    requires n >= 2
    ensures k < n && 100 * (k + 1) <= 99 * n < 100 * (k + 2)
  {
    k := 99 * n / 100 - 1;
  }

  /** By counting: the samples fall into 99 of 100 of them, rounded down, none greater than P99, and the others, none less. */
  lemma P99Splits(s: seq<real>, dataPeriod: real, sqrt: real -> real) returns (low: seq<real>, high: seq<real>)
    requires |s| >= 2
    ensures multiset(low + high) == multiset(s) && 100 * |low| <= 99 * |s| < 100 * (|low| + 1)
    ensures var p99 := StatsOf(s, dataPeriod, sqrt).p99;
      p99 in low && (forall x | x in low :: x <= p99) && (forall x | x in high :: p99 <= x)
  {
    var k := P99Place(|s|);
    hide *;
    P99Means(s, dataPeriod, sqrt, k);
    LeRealOrder();
    SortSorts(s, LeReal);
    var sorted := Sort(s, LeReal);
    low, high := sorted[..k + 1], sorted[k + 1..];
    SortedSplits(sorted, k, low, high);
    assert low + high == sorted && sorted[k] == low[k];
  }

  /** The period is the time per sample without its fraction. */
  lemma PeriodMeans(s: seq<real>, dataPeriod: real, sqrt: real -> real)
    requires |s| >= 2
    ensures var period, n := StatsOf(s, dataPeriod, sqrt).period, |s| as real;
      if dataPeriod >= 0.0 then Times(n, period as real) <= dataPeriod < Times(n, (period + 1) as real)
      else Times(n, (period - 1) as real) < dataPeriod <= Times(n, period as real)
  {
    hide *;
    StatsFields(s, dataPeriod, sqrt);
    TruncateMeans(Mean(dataPeriod, |s|));
    var p := StatsOf(s, dataPeriod, sqrt).period;
    MeanLimits(dataPeriod, |s|, p as real);
    MeanLimits(dataPeriod, |s|, (p + 1) as real);
    MeanLimits(dataPeriod, |s|, (p - 1) as real);
    MeanLimits(dataPeriod, |s|, 0.0);
    TimesZero(|s| as real);
  }

  lemma TimesZero(n: real)
    ensures Times(n, 0.0) == 0.0
  {
  }

  lemma MeanLimits(total: real, n: nat, bound: real)
    requires n > 0
    ensures Times(n as real, bound) <= total <==> bound <= Mean(total, n)
    ensures total <= Times(n as real, bound) <==> Mean(total, n) <= bound
  {
    hide Mean;
    MeanBounds(total, n, bound);
  }

  lemma TruncateMeans(x: real)
    ensures if x >= 0.0 then Truncate(x) as real <= x < (Truncate(x) + 1) as real
      else (Truncate(x) - 1) as real < x <= Truncate(x) as real
  {
  }

  // ----- what the average and the deviation are -----

  function SumOfSquares(s: seq<real>): real {
    if s == [] then 0.0 else SumOfSquares(s[..|s| - 1]) + Squared(s[|s| - 1])
  }

  lemma SquaredDifference(a: real, v: real)
    ensures Squared(a - v) == Squared(a) - Times(2.0 * a, v) + Squared(v)
  {
    Distribute(a - v, a, v);
    Distribute(a, a, v);
    Distribute(v, a, v);
  }

  /** The sum of squared distances from any number, by the sum and the sum of squares. */
  lemma {:induction false} DeviationIs(s: seq<real>, a: real)
    ensures Deviation(s, a) == SumOfSquares(s) - Times(2.0 * a, Sum(s)) + Times(|s| as real, Squared(a))
  {
    if s != [] {
      var front, v := s[..|s| - 1], s[|s| - 1];
      LastSquare(s);
      assert s == front + [v];
      SumSnoc(front, v, a);
      assert |s| == |front| + 1;
      hide *;
      DeviationIs(front, a);
      SquaredDifference(a, v);
      ScaleDifference(2.0 * a, Sum(front), v);
      OneMore(|front|, Squared(a));
    }
  }

  lemma LastSquare(s: seq<real>)
    requires s != []
    ensures SumOfSquares(s) == SumOfSquares(s[..|s| - 1]) + Squared(s[|s| - 1])
  {
  }

  /**
    Average and Std by the sum and the sum of squares of the samples: n times the average is the sum,
    and n times the square of Std is the sum of squares less n times the square of the average.
   */
  lemma MomentsMean(s: seq<real>, dataPeriod: real, sqrt: real -> real)
    requires |s| >= 2 && IsSquareRoot(sqrt)
    ensures var st, n := StatsOf(s, dataPeriod, sqrt), |s| as real;
      && Times(n, st.average) == Sum(s)
      && Times(n, Squared(st.std)) == SumOfSquares(s) - Times(n, Squared(st.average))
  {
    var n, a := |s|, Average(s);
    AverageTotals(s);
    hide *;
    StatsFields(s, dataPeriod, sqrt);
    StdMeans(s, dataPeriod, sqrt);
    TwiceSquared(n as real, a);
    DeviationIs(s, a);
  }

  lemma AverageTotals(s: seq<real>)
    requires s != []
    ensures Times(|s| as real, Average(s)) == Sum(s) && Times(|s| as real, Variance(s)) == Deviation(s, Average(s))
  {
    hide Mean, Sum, Deviation;
    MeanTotal(Sum(s), |s|);
    MeanTotal(Deviation(s, Average(s)), |s|);
  }

  lemma TwiceSquared(n: real, a: real)
    ensures Times(2.0 * a, Times(n, a)) == Times(n, Squared(a)) + Times(n, Squared(a))
  {
    Associate(n, a, a);
    Associate(2.0 * a, n, a);
    assert (2.0 * a) * n == 2.0 * (n * a);
    Associate(2.0, n * a, a);
  }

  /** A sum is made of its samples: nothing of none, the sample of one, and the sums of its parts. */
  lemma SumMeans(a: seq<real>, b: seq<real>, v: real)
    ensures Sum([]) == 0.0 && Sum([v]) == v && Sum(a + b) == Sum(a) + Sum(b)
    ensures SumOfSquares([]) == 0.0 && SumOfSquares([v]) == v * v && SumOfSquares(a + b) == SumOfSquares(a) + SumOfSquares(b)
  {
    assert [v][..0] == [];
    SumConcat(a, b, 0.0);
    DeviationIs(a, 0.0);
    DeviationIs(b, 0.0);
    DeviationIs(a + b, 0.0);
    assert forall x :: Times(0.0, x) == 0.0 && Times(x, Squared(0.0)) == 0.0;
  }

  // ----- the log note -----

  /** Up to 100 samples P99 is the second greatest sample in sorted order: it equals Max only if the two greatest are equal. */
  lemma P99IsSecondGreatest(s: seq<real>, dataPeriod: real, sqrt: real -> real)
    requires 2 <= |s| <= 100
    ensures |Sort(s, LeReal)| == |s|
    ensures var st, sorted := StatsOf(s, dataPeriod, sqrt), Sort(s, LeReal);
      st.p99 == sorted[|s| - 2] && (st.p99 == st.max <==> sorted[|s| - 2] == sorted[|s| - 1])
  {
    StatsFields(s, dataPeriod, sqrt);
    assert P99Index(|s|) == |s| - 2;
  }

  /** Two samples: P99 is the smaller one. */
  lemma P99BelowMax(dataPeriod: real, sqrt: real -> real)
    ensures var st := StatsOf([1.0, 2.0], dataPeriod, sqrt); st.p99 == 1.0 && st.max == 2.0
  {
    var one, s: seq<real> := [2.0], [1.0, 2.0];
    assert one[1..] == [] && s[1..] == one;
    assert Sort(one, LeReal) == one && Sort(s, LeReal) == s;
    P99IsSecondGreatest(s, dataPeriod, sqrt);
    StatsFields(s, dataPeriod, sqrt);
  }
}
