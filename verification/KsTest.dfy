/** The two-sample Kolmogorov-Smirnov test of the analyzer: sorted copies, merge loop, p-value.

`KsTest` is the imperative program; `Statistic` and `PValue` are the functions it is proved against.
The theorems relate the computed statistic to the true one (`KsDistance`) and state what the p-value
depends on. */
module KsTest {
  import opened Ecdf
  import opened KsMerge
  import opened Exponential

  // ----- the computed statistic and its p-value -----

  /** The distance d the merge loop computes. */
  function Statistic(reference: seq<real>, current: seq<real>): (d: real)
    ensures d >= 0.0
  {
    Merge(Sort(reference), Sort(current), 0, 0)
  }

  function Clamp(p: real): real {
    if p > 1.0 then 1.0 else if p < 0.0 then 0.0 else p
  }

  function Exponent(d: real, n: nat, m: nat): real
    requires n + m > 0
  {
    -2.0 * d * d * n as real * m as real / (n + m) as real
  }

  /** Smirnov's formula for the statistic d of windows of n and m values. */
  function Smirnov(exp: real -> real, d: real, n: nat, m: nat): real
    requires n + m > 0
  {
    Clamp(2.0 * exp(Exponent(d, n, m)))
  }

  function PValue(exp: real -> real, reference: seq<real>, current: seq<real>): real {
    if |reference| < 2 || |current| < 2 then 1.0
    else Smirnov(exp, Statistic(reference, current), |reference|, |current|)
  }

  /** Ascending library sort, in place. */
  method SortFloats(s: array<real>)
    modifies s
    ensures s[..] == Sort(old(s[..]))
  {
    var sorted := Sort(s[..]);
    forall i | 0 <= i < s.Length { s[i] := sorted[i]; }
  }

  method KsTest(exp: real -> real, reference: seq<real>, current: seq<real>) returns (p: real)
    ensures p == PValue(exp, reference, current)
  {
    hide Sort, Merge;
    var n, m := |reference|, |current|;
    if n < 2 || m < 2 {
      return 1.0;
    }
    var refSorted := new real[n](i requires 0 <= i < n => reference[i]);
    var curSorted := new real[m](i requires 0 <= i < m => current[i]);
    assert refSorted[..] == reference && curSorted[..] == current;
    SortFloats(refSorted);
    SortFloats(curSorted);
    var d := MergeLoop(refSorted, curSorted);
    p := 2.0 * exp(Exponent(d, n, m));
    if p > 1.0 {
      return 1.0;
    }
    if p < 0.0 {
      return 0.0;
    }
  }

  /** The loop of the test: the largest vertical gap it samples on its way through both sorted windows. */
  method MergeLoop(refSorted: array<real>, curSorted: array<real>) returns (d: real)
    requires refSorted.Length > 0 && curSorted.Length > 0
    ensures d == Merge(refSorted[..], curSorted[..], 0, 0)
  {
    var n, m := refSorted.Length, curSorted.Length;
    d := 0.0;
    var i, j := 0, 0;
    while i < n && j < m
      invariant 0 <= i <= n && 0 <= j <= m && d >= 0.0
      invariant Max(d, Merge(refSorted[..], curSorted[..], i, j)) == Merge(refSorted[..], curSorted[..], 0, 0)
      decreases n - i + m - j
    {
      var xi, xj := refSorted[i], curSorted[j];
      var diff := Abs(Frac(i + 1, n) - Frac(j + 1, m));
      if diff > d {
        d := diff;
      }
      if xi < xj {
        i := i + 1;
      } else if xj < xi {
        j := j + 1;
      } else {
        i := i + 1;
        j := j + 1;
      }
    }
  }

  // ----- distance from the true statistic -----

  lemma SortedDistance(a: seq<real>, b: seq<real>)
    requires |a| > 0 && |b| > 0
    ensures KsDistance(Sort(a), Sort(b)) == KsDistance(a, b)
  {
    KsDistanceIsSupremum(a, b);
    KsDistanceIsSupremum(Sort(a), Sort(b));
    var x :| Distance(a, b, x) == KsDistance(a, b);
    var y :| Distance(Sort(a), Sort(b), y) == KsDistance(Sort(a), Sort(b));
    DistanceSort(a, b, x);
    DistanceSort(a, b, y);
  }

  /** How far the computed statistic can be from the true one, for windows of any sizes with any
      repeats: never more than one step of the smaller window below it, and above it by at most the
      difference of the two steps, once more for every unevenly repeated copy. */
  lemma StatisticNearDistance(reference: seq<real>, current: seq<real>, k: nat)
    requires |reference| > 0 && |current| > 0
    requires TiesAtMost(reference, current, k)
    ensures var d, D := Statistic(reference, current), KsDistance(reference, current);
            && D - d <= Frac(1, Min(|reference|, |current|))
            && d - D <= Slack(k + 1, Abs(Skew(|reference|, |current|)))
  {
    StatisticBelow(reference, current);
    StatisticAbove(reference, current, k);
  }

  lemma TieSkewSort(a: seq<real>, b: seq<real>, v: real)
    ensures TieSkew(Sort(a), Sort(b), v) == TieSkew(a, b, v)
  {
    CountSort(a, v, false);
    CountSort(a, v, true);
    CountSort(b, v, false);
    CountSort(b, v, true);
  }

  lemma StatisticBelow(reference: seq<real>, current: seq<real>)
    requires |reference| > 0 && |current| > 0
    ensures KsDistance(reference, current)
            <= Statistic(reference, current) + Frac(1, Min(|reference|, |current|))
  {
    SortedDistance(reference, current);
    var a, b := Sort(reference), Sort(current);
    SortCorrect(reference);
    SortCorrect(current);
    KsDistanceIsSupremum(a, b);
    var x :| Distance(a, b, x) == KsDistance(a, b);
    DistanceAtMost(a, b, x);
  }

  lemma TiesAtMostSort(a: seq<real>, b: seq<real>, k: nat)
    requires TiesAtMost(a, b, k)
    ensures TiesAtMost(Sort(a), Sort(b), k)
  {
    forall v ensures TieSkew(Sort(a), Sort(b), v) <= k {
      assert TieSkew(a, b, v) <= k;
      TieSkewSort(a, b, v);
    }
  }

  lemma StatisticAbove(reference: seq<real>, current: seq<real>, k: nat)
    requires |reference| > 0 && |current| > 0
    requires TiesAtMost(reference, current, k)
    ensures Statistic(reference, current)
            <= KsDistance(reference, current) + Slack(k + 1, Abs(Skew(|reference|, |current|)))
  {
    SortedDistance(reference, current);
    SortCorrect(reference);
    SortCorrect(current);
    TiesAtMostSort(reference, current, k);
    MergeAtMost(Sort(reference), Sort(current), k);
  }

  /** Two windows of the same size: the statistic is never above the true distance, and below it by at
      most one step, however the values repeat. */
  lemma SameSizeBounds(reference: seq<real>, current: seq<real>)
    requires |reference| == |current| > 0
    ensures Statistic(reference, current) <= KsDistance(reference, current)
            <= Statistic(reference, current) + Frac(1, |reference|)
  {
    var k := |reference| + |current|;
    forall v ensures TieSkew(reference, current, v) <= k {}
    StatisticNearDistance(reference, current, k);
    AbsSlack(k + 1, 0.0);
  }

  lemma TiesWithoutRepeats(a: seq<real>, b: seq<real>)
    requires NoRepeats(a) && NoRepeats(b)
    ensures TiesAtMost(a, b, 0)
  {
    forall v ensures TieSkew(a, b, v) <= 0 {
      TieSkewSort(a, b, v);
      AtMostOneCopy(a, v);
      AtMostOneCopy(b, v);
    }
  }

  lemma AtMostOneCopy(s: seq<real>, v: real)
    requires NoRepeats(s)
    ensures 0 <= CountLe(Sort(s), v) - CountLt(Sort(s), v) <= 1
  {
    var a := Sort(s);
    SortCorrect(s);
    SortStrict(s);
    CountMonotone(a, v, v, true, false);
    var i := CountLt(a, v);
    if CountLe(a, v) > i + 1 {
      SortedCount(a, i, v, true);
      SortedCount(a, i + 1, v, false);
      assert false;
    }
  }

  /** Windows without repeats, of any sizes: |1/n - 1/m| above and one step of the smaller below. */
  lemma DistinctValuesBounds(reference: seq<real>, current: seq<real>)
    requires |reference| > 0 && |current| > 0
    requires NoRepeats(reference) && NoRepeats(current)
    ensures var d, D := Statistic(reference, current), KsDistance(reference, current);
            -Abs(Skew(|reference|, |current|)) <= D - d <= Frac(1, Min(|reference|, |current|))
  {
    TiesWithoutRepeats(reference, current);
    StatisticNearDistance(reference, current, 0);
  }

  // ----- the exact value for windows without repeats -----

  /** Some value of each window lies above x. */
  predicate BelowBothMaxima(a: seq<real>, b: seq<real>, x: real) {
    CountLe(a, x) < |a| && CountLe(b, x) < |b|
  }

  /** The distance at x with both functions read one rank late. */
  function ShiftedDistance(a: seq<real>, b: seq<real>, x: real): real
    requires |a| > 0 && |b| > 0
  {
    Abs(Frac(CountLe(a, x), |a|) - Frac(CountLe(b, x), |b|) + Skew(|a|, |b|))
  }

  /** In strictly sorted windows every pointer position of the merge is a pair of counts. */
  lemma {:induction false} MergeAttained(a: seq<real>, b: seq<real>, x: real) returns (y: real)
    requires StrictlySorted(a) && StrictlySorted(b) && BelowBothMaxima(a, b, x)
    ensures BelowBothMaxima(a, b, y)
    ensures Gap(CountLe(a, y), CountLe(b, y), |a|, |b|) == Merge(a, b, CountLe(a, x), CountLe(b, x))
    decreases |a| - CountLe(a, x) + |b| - CountLe(b, x)
  {
    var i, j := CountLe(a, x), CountLe(b, x);
    var v := Head(a, b, i, j);
    var (i', j') := Step(a, b, i, j);
    if i > 0 { SortedCount(a, i - 1, x, false); }
    if j > 0 { SortedCount(b, j - 1, x, false); }
    SortedCount(a, i, x, false);
    SortedCount(b, j, x, false);
    CountIs(a, i', v, false);
    CountIs(b, j', v, false);
    y := x;
    if i' < |a| && j' < |b| {
      var z := MergeAttained(a, b, v);
      if Gap(i, j, |a|, |b|) < Merge(a, b, i', j') {
        y := z;
      }
    }
  }

  /** For all windows the shifted distance below both maxima never exceeds the statistic. */
  lemma ShiftedDistanceAtMost(reference: seq<real>, current: seq<real>, x: real)
    requires |reference| > 0 && |current| > 0 && BelowBothMaxima(reference, current, x)
    ensures ShiftedDistance(reference, current, x) <= Statistic(reference, current)
  {
    var a, b := Sort(reference), Sort(current);
    SortCorrect(reference);
    SortCorrect(current);
    CountSort(reference, x, false);
    CountSort(current, x, false);
    Covers(a, b, 0, 0, x);
    GapIsShifted(CountLe(a, x), CountLe(b, x), |a|, |b|);
  }

  lemma FarBelow(a: seq<real>, b: seq<real>) returns (x: real)
    requires Sorted(a) && Sorted(b) && |a| > 0 && |b| > 0
    ensures CountLe(a, x) == 0 && CountLe(b, x) == 0
  {
    x := Head(a, b, 0, 0) - 1.0;
    CountIs(a, 0, x, false);
    CountIs(b, 0, x, false);
  }

  /** Without repeats the statistic is exactly the supremum of the shifted distance below both maxima. */
  lemma DistinctValuesExact(reference: seq<real>, current: seq<real>)
    requires |reference| > 0 && |current| > 0
    requires NoRepeats(reference) && NoRepeats(current)
    ensures forall x | BelowBothMaxima(reference, current, x) ::
              ShiftedDistance(reference, current, x) <= Statistic(reference, current)
    ensures exists x :: BelowBothMaxima(reference, current, x)
                        && ShiftedDistance(reference, current, x) == Statistic(reference, current)
  {
    forall x | BelowBothMaxima(reference, current, x)
      ensures ShiftedDistance(reference, current, x) <= Statistic(reference, current)
    {
      ShiftedDistanceAtMost(reference, current, x);
    }
    var a, b := Sort(reference), Sort(current);
    SortCorrect(reference);
    SortCorrect(current);
    SortStrict(reference);
    SortStrict(current);
    var x := FarBelow(a, b);
    var y := MergeAttained(a, b, x);
    CountSort(reference, y, false);
    CountSort(current, y, false);
    GapIsShifted(CountLe(a, y), CountLe(b, y), |a|, |b|);
    assert BelowBothMaxima(reference, current, y);
  }

  lemma SameSizeUnshifted(a: seq<real>, b: seq<real>, x: real)
    requires |a| == |b| > 0
    ensures ShiftedDistance(a, b, x) == Distance(a, b, x)
  {}

  lemma SameSizeReached(reference: seq<real>, current: seq<real>) returns (x: real)
    requires |reference| == |current| > 0 && Statistic(reference, current) == KsDistance(reference, current)
    ensures BelowBothMaxima(reference, current, x) && Distance(reference, current, x) == KsDistance(reference, current)
  {
    var a, b := Sort(reference), Sort(current);
    SortCorrect(reference);
    SortCorrect(current);
    SortedDistance(reference, current);
    KsDistanceIsSupremum(a, b);
    StartOnRoute(a, b);
    var i, j := MergeReached(a, b, 0, 0);
    x := ReachedBefore(a, b, i, j, KsDistance(a, b));
    CountSort(reference, x, false);
    CountSort(current, x, false);
  }

  /** Two windows of the same size, however their values repeat: the statistic is the true distance if and
      only if the true distance is reached before either window is used up. */
  lemma SameSizeExact(reference: seq<real>, current: seq<real>)
    requires |reference| == |current| > 0
    ensures Statistic(reference, current) == KsDistance(reference, current)
            <==> exists x :: BelowBothMaxima(reference, current, x)
                             && Distance(reference, current, x) == KsDistance(reference, current)
  {
    SameSizeBounds(reference, current);
    forall x | BelowBothMaxima(reference, current, x)
      ensures Distance(reference, current, x) <= Statistic(reference, current)
    {
      SameSizeUnshifted(reference, current, x);
      ShiftedDistanceAtMost(reference, current, x);
    }
    if Statistic(reference, current) == KsDistance(reference, current) {
      var x := SameSizeReached(reference, current);
    }
  }

  /** Windows that do not overlap at all are at true distance 1, but the merge stops one step short. */
  lemma SeparatedWindows(reference: seq<real>, current: seq<real>)
    requires |reference| >= 2 && |current| >= 2
    requires forall x, y | x in reference && y in current :: x < y
    ensures Statistic(reference, current) == 1.0 - Frac(1, |current|)
    ensures KsDistance(reference, current) == 1.0
  {
    var a, b := Sort(reference), Sort(current);
    SortCorrect(reference);
    SortCorrect(current);
    forall i, j | 0 <= i < |a| && 0 <= j < |b| ensures a[i] < b[j] {
      assert a[i] in multiset(a) && b[j] in multiset(b);
      assert a[i] in reference && b[j] in current;
    }
    SeparatedMerge(a, b, 0);
    SortedDistance(reference, current);
    KsDistanceIsSupremum(a, b);
    var n := |a|;
    var top := a[n-1];
    CountIs(a, n, top, false);
    CountIs(b, 0, top, false);
    FracWhole(n);
    FracZero(|b|);
    assert Distance(a, b, top) == 1.0;
    var x :| Distance(a, b, x) == KsDistance(a, b);
    DistanceAtMostOne(a, b, x);
  }

  lemma {:induction false} SeparatedMerge(a: seq<real>, b: seq<real>, i: nat)
    requires |a| >= 2 && |b| >= 2 && i < |a|
    requires forall i, j | 0 <= i < |a| && 0 <= j < |b| :: a[i] < b[j]
    ensures Merge(a, b, i, 0) == 1.0 - Frac(1, |b|)
    decreases |a| - i
  {
    var n, m := |a|, |b|;
    FracWhole(n);
    FracMonotone(i + 1, n, n);
    FracMonotone(0, i + 1, n);
    FracZero(n);
    FracAntitone(2, m);
    if i + 1 < n {
      SeparatedMerge(a, b, i + 1);
    }
  }

  lemma DistanceAtMostOne(a: seq<real>, b: seq<real>, x: real)
    requires |a| > 0 && |b| > 0
    ensures Distance(a, b, x) <= 1.0
  {
    FracWhole(|a|);
    FracWhole(|b|);
    FracZero(|a|);
    FracZero(|b|);
    FracMonotone(CountLe(a, x), |a|, |a|);
    FracMonotone(CountLe(b, x), |b|, |b|);
    FracMonotone(0, CountLe(a, x), |a|);
    FracMonotone(0, CountLe(b, x), |b|);
  }

  // ----- constant windows: where sizes differ the statistic is not a distance -----

  function Repeat(v: real, n: nat): (s: seq<real>)
    ensures |s| == n && forall i :: 0 <= i < n ==> s[i] == v
  {
    seq(n, _ => v)
  }

  lemma {:induction false} ConstantMerge(a: seq<real>, b: seq<real>, k: nat)
    requires k < |a| && k < |b|
    requires forall i, j | 0 <= i < |a| && 0 <= j < |b| :: a[i] == b[j]
    ensures Merge(a, b, k, k) == Abs(Frac(Min(|a|, |b|), |a|) - Frac(Min(|a|, |b|), |b|))
    decreases |a| - k
  {
    var n, m := |a|, |b|;
    var low := Min(n, m);
    DiagonalGrows(k + 1, low, n, m);
    if k + 1 < low {
      ConstantMerge(a, b, k + 1);
    }
  }

  /** Along the diagonal the rank difference only grows. */
  lemma DiagonalGrows(k: nat, l: nat, n: nat, m: nat)
    requires n > 0 && m > 0 && k <= l
    ensures Abs(Frac(k, n) - Frac(k, m)) <= Abs(Frac(l, n) - Frac(l, m))
  {
    RankDiffDiagonal(0, 0, k, n, m);
    RankDiffDiagonal(0, 0, l, n, m);
    FracZero(n);
    FracZero(m);
    AbsSlack(k, Skew(n, m));
    AbsSlack(l, Skew(n, m));
    SlackMonotone(k, l, Abs(Skew(n, m)));
  }

  /** What the merge reports for constant windows of n and m values: 1 - min(n,m)/max(n,m). */
  function ConstantStatistic(n: nat, m: nat): real
    requires n > 0 && m > 0
  {
    1.0 - Frac(Min(n, m), if n < m then m else n)
  }

  /** Two constant windows with the same value have true distance 0. The merge reports the distance if
      and only if the sizes are equal. */
  lemma ConstantWindows(v: real, n: nat, m: nat)
    requires n > 0 && m > 0
    ensures KsDistance(Repeat(v, n), Repeat(v, m)) == 0.0
    ensures Statistic(Repeat(v, n), Repeat(v, m)) == ConstantStatistic(n, m)
    ensures Statistic(Repeat(v, n), Repeat(v, m)) == KsDistance(Repeat(v, n), Repeat(v, m)) <==> n == m
  {
    var r, c := Repeat(v, n), Repeat(v, m);
    var a, b := Sort(r), Sort(c);
    SortCorrect(r);
    SortCorrect(c);
    forall i, j | 0 <= i < |a| && 0 <= j < |b| ensures a[i] == b[j] {
      assert a[i] in multiset(a) && b[j] in multiset(b);
    }
    ConstantMerge(a, b, 0);
    ConstantStatisticValue(n, m);
    ConstantDistance(v, n, m);
  }

  lemma ConstantStatisticValue(n: nat, m: nat)
    requires n > 0 && m > 0
    ensures ConstantStatistic(n, m) == Abs(Frac(Min(n, m), n) - Frac(Min(n, m), m))
    ensures ConstantStatistic(n, m) == 0.0 <==> n == m
  {
    FracWhole(n);
    FracWhole(m);
    if n < m { FracStrict(n, m); }
    if m < n { FracStrict(m, n); }
  }

  lemma FracStrict(k: nat, n: nat)
    requires k < n
    ensures Frac(k, n) < 1.0
  {}

  lemma ConstantDistance(v: real, n: nat, m: nat)
    requires n > 0 && m > 0
    ensures KsDistance(Repeat(v, n), Repeat(v, m)) == 0.0
  {
    var r, c := Repeat(v, n), Repeat(v, m);
    KsDistanceIsSupremum(r, c);
    var x :| Distance(r, c, x) == KsDistance(r, c);
    ConstantCount(r, v, x);
    ConstantCount(c, v, x);
    FracWhole(n);
    FracWhole(m);
    FracZero(n);
    FracZero(m);
  }

  lemma {:induction false} ConstantCount(s: seq<real>, v: real, x: real)
    requires forall i :: 0 <= i < |s| ==> s[i] == v
    ensures CountLe(s, x) == if v <= x then |s| else 0
  {
    if s != [] {
      ConstantCount(s[1..], v, x);
    }
  }

  /** On constant windows the p-value is a function of the two sizes alone. */
  lemma ConstantPValue(exp: real -> real, v: real, n: nat, m: nat)
    requires n >= 2 && m >= 2
    ensures PValue(exp, Repeat(v, n), Repeat(v, m)) == Smirnov(exp, ConstantStatistic(n, m), n, m)
  {
    ConstantWindows(v, n, m);
  }

  /** For 60 and 30 constant values the p-value is below 0.05. */
  lemma ConstantPValueExample(exp: real -> real)
    requires IsExp(exp)
    ensures Smirnov(exp, ConstantStatistic(60, 30), 60, 30) < 0.05
  {
    assert ConstantStatistic(60, 30) == 0.5;
    assert Exponent(0.5, 60, 30) == -10.0;
    ExpMinusTen(exp);
  }

  // ----- what the p-value depends on -----

  /** Only the values matter, not their order in either window. */
  lemma PValuePermutation(exp: real -> real, r: seq<real>, c: seq<real>, r': seq<real>, c': seq<real>)
    requires multiset(r) == multiset(r') && multiset(c) == multiset(c')
    ensures PValue(exp, r, c) == PValue(exp, r', c')
  {
    assert |r| == |multiset(r)| == |multiset(r')| == |r'|;
    assert |c| == |multiset(c)| == |multiset(c')| == |c'|;
    SortCorrect(r);
    SortCorrect(r');
    SortCorrect(c);
    SortCorrect(c');
    SortedUnique(Sort(r), Sort(r'));
    SortedUnique(Sort(c), Sort(c'));
  }

  /** The roles of the two windows can be exchanged. */
  lemma PValueSymmetric(exp: real -> real, r: seq<real>, c: seq<real>)
    ensures PValue(exp, r, c) == PValue(exp, c, r)
  {
    MergeSymmetric(Sort(r), Sort(c), 0, 0);
    if |r| >= 2 && |c| >= 2 {
      var d, n, m := Statistic(r, c), |r|, |c|;
      assert -2.0 * d * d * n as real * m as real == -2.0 * d * d * m as real * n as real;
    }
  }

  ghost predicate StrictlyIncreasing(f: real -> real) {
    forall x, y :: x < y ==> f(x) < f(y)
  }

  function MapSeq(f: real -> real, s: seq<real>): (r: seq<real>)
    ensures |r| == |s| && forall i :: 0 <= i < |s| ==> r[i] == f(s[i])
  {
    seq(|s|, i requires 0 <= i < |s| => f(s[i]))
  }

  lemma {:induction false} InsertCommutes(f: real -> real, x: real, s: seq<real>)
    requires StrictlyIncreasing(f)
    ensures Insert(f(x), MapSeq(f, s)) == MapSeq(f, Insert(x, s))
  {
    if s != [] {
      assert f(x) <= f(s[0]) <==> x <= s[0];
      assert MapSeq(f, s)[1..] == MapSeq(f, s[1..]);
      if x > s[0] {
        InsertCommutes(f, x, s[1..]);
      }
    }
  }

  lemma {:induction false} SortCommutes(f: real -> real, s: seq<real>)
    requires StrictlyIncreasing(f)
    ensures Sort(MapSeq(f, s)) == MapSeq(f, Sort(s))
  {
    if s != [] {
      assert MapSeq(f, s)[1..] == MapSeq(f, s[1..]);
      SortCommutes(f, s[1..]);
      InsertCommutes(f, s[0], Sort(s[1..]));
    }
  }

  lemma {:induction false} MergeCommutes(f: real -> real, a: seq<real>, b: seq<real>, i: nat, j: nat)
    requires StrictlyIncreasing(f) && i <= |a| && j <= |b|
    ensures Merge(MapSeq(f, a), MapSeq(f, b), i, j) == Merge(a, b, i, j)
    decreases |a| - i + |b| - j
  {
    if i < |a| && j < |b| {
      assert f(a[i]) < f(b[j]) <==> a[i] < b[j];
      assert f(b[j]) < f(a[i]) <==> b[j] < a[i];
      var (i', j') := Step(a, b, i, j);
      MergeCommutes(f, a, b, i', j');
    }
  }

  /** Only the ranks matter: any strictly increasing rescaling leaves the p-value alone. */
  lemma PValueRanksOnly(exp: real -> real, f: real -> real, r: seq<real>, c: seq<real>)
    requires StrictlyIncreasing(f)
    ensures PValue(exp, MapSeq(f, r), MapSeq(f, c)) == PValue(exp, r, c)
  {
    SortCommutes(f, r);
    SortCommutes(f, c);
    MergeCommutes(f, Sort(r), Sort(c), 0, 0);
  }

  lemma ExponentAntitone(d: real, e: real, n: nat, m: nat)
    requires 0.0 <= d <= e && n + m > 0
    ensures Exponent(e, n, m) <= Exponent(d, n, m) <= 0.0
  {
    var w := n as real * m as real / (n + m) as real;
    assert w >= 0.0 by { assert n as real * m as real >= 0.0; }
    assert d * d <= e * e;
    ExponentFactored(d, n, m, w);
    ExponentFactored(e, n, m, w);
    assert (e * e - d * d) * w >= 0.0;
    assert d * d * w >= 0.0;
  }

  lemma ExponentFactored(d: real, n: nat, m: nat, w: real)
    requires n + m > 0 && w == n as real * m as real / (n + m) as real
    ensures Exponent(d, n, m) == -2.0 * (d * d * w)
  {
    var s := (n + m) as real;
    assert -2.0 * d * d * n as real * m as real == (-2.0 * d * d) * (n as real * m as real);
    assert w * s == n as real * m as real;
    assert (-2.0 * d * d) * (w * s) == (-2.0 * d * d * w) * s;
  }

  /** The p-value is a probability, shrinks as the statistic grows, and is 1 where the statistic is 0. */
  lemma SmirnovAntitone(exp: real -> real, d: real, e: real, n: nat, m: nat)
    requires IsExp(exp) && 0.0 <= d <= e && n + m > 0
    ensures 0.0 <= Smirnov(exp, e, n, m) <= Smirnov(exp, d, n, m) <= 1.0
    ensures d == 0.0 ==> Smirnov(exp, d, n, m) == 1.0
  {
    ExponentAntitone(d, e, n, m);
    ExpMonotone(exp, Exponent(e, n, m), Exponent(d, n, m));
    if d == 0.0 {
      ExponentFactored(d, n, m, n as real * m as real / (n + m) as real);
      assert Exponent(d, n, m) == 0.0;
      ExpOfZero(exp);
    }
  }

  /** The exponent without its sign. */
  function Scaling(d: real, n: nat, m: nat): real
    requires n + m > 0
  {
    2.0 * d * d * n as real * m as real / (n + m) as real
  }

  lemma ScalingIs(d: real, n: nat, m: nat, x: real)
    requires n + m > 0 && x == 2.0 * d * d * n as real * m as real / (n + m) as real
    ensures x == Scaling(d, n, m)
  {}

  lemma ScalingIsNegated(d: real, n: nat, m: nat)
    requires n + m > 0
    ensures Exponent(d, n, m) == -Scaling(d, n, m)
  {}

  /** Scaled by E = exp(2 d^2 nm/(n+m)), Smirnov's p-value is 2 until it is cut off at 1. */
  lemma SmirnovScaled(exp: real -> real, d: real, n: nat, m: nat)
    requires IsExp(exp) && n + m > 0
    ensures var p, E := Smirnov(exp, d, n, m), exp(Scaling(d, n, m));
            && E > 0.0 && (p < 1.0 ==> p * E == 2.0) && (p == 1.0 <==> E <= 2.0) && p <= 1.0
  {
    hide Exponent, Scaling;
    ScalingIsNegated(d, n, m);
    ExpInverse(exp, Scaling(d, n, m));
    CutOff(exp(-Scaling(d, n, m)), exp(Scaling(d, n, m)));
  }

  lemma CutOff(e: real, E: real)
    requires e > 0.0 && E > 0.0 && e * E == 1.0
    ensures 2.0 * e < 1.0 ==> 2.0 * e * E == 2.0
    ensures 2.0 * e >= 1.0 <==> E <= 2.0
  {
    if 2.0 * e >= 1.0 {
      ProductGrows(1.0, 2.0 * e, E);
    } else {
      ProductGrowsStrictly(2.0 * e, 1.0, E);
    }
  }

  lemma BelowLevel(p: real, E: real, level: real)
    requires E > 0.0 && level <= 1.0 && p <= 1.0 && (p < 1.0 ==> p * E == 2.0) && (p == 1.0 <==> E <= 2.0)
    ensures p < level <==> level * E > 2.0
  {
    var scaled := level * E;
    if p < level {
      ProductGrowsStrictly(p, level, E);
      assert scaled > 2.0;
    } else {
      if p < 1.0 {
        ProductGrows(level, p, E);
        assert scaled <= 2.0;
      } else {
        ProductGrows(level, 1.0, E);
        assert scaled <= 2.0;
      }
    }
  }

  /** The p-value in plain arithmetic, for windows of n and m values, at least two each, with the computed
      statistic d: let x be 2 d^2 nm/(n+m) and E = exp(x). It is 2/E where that is below 1, and 1 exactly if E
      is at most 2; it falls below a level exactly if the level times E exceeds 2. */
  lemma PValueFormula(exp: real -> real, r: seq<real>, c: seq<real>, n: nat, m: nat, d: real, x: real, E: real, p: real, level: real)
    requires IsExp(exp) && n == |r| >= 2 && m == |c| >= 2 && d == Merge(Sort(r), Sort(c), 0, 0)
    requires x == 2.0 * d * d * n as real * m as real / (n + m) as real && E == exp(x)
    requires p == PValue(exp, r, c)
    ensures (p < 1.0 ==> p * E == 2.0) && (p == 1.0 <==> E <= 2.0) && p <= 1.0
    ensures level <= 1.0 ==> (p < level <==> level * E > 2.0)
  {
    hide Sort, Merge, IsExp, Smirnov, Scaling;
    ScalingIs(d, n, m, x);
    SmirnovScaled(exp, d, n, m);
    if level <= 1.0 {
      BelowLevel(p, E, level);
    }
  }

  /** Windows of fewer than two values never look different. */
  lemma PValueOfSmallWindow(exp: real -> real, r: seq<real>, c: seq<real>)
    ensures |r| < 2 || |c| < 2 ==> PValue(exp, r, c) == 1.0
  {}

  lemma PValueInUnitInterval(exp: real -> real, r: seq<real>, c: seq<real>)
    requires IsExp(exp)
    ensures 0.0 <= PValue(exp, r, c) <= 1.0
  {
    if |r| >= 2 && |c| >= 2 {
      SmirnovAntitone(exp, Statistic(r, c), Statistic(r, c), |r|, |c|);
    }
  }

  lemma {:induction false} MergeWithItself(a: seq<real>, i: nat)
    requires i <= |a|
    ensures Merge(a, a, i, i) == 0.0
    decreases |a| - i
  {
    if i < |a| {
      MergeWithItself(a, i + 1);
    }
  }

  /** Windows that hold the same values pass the test with certainty. */
  lemma PValueOfPermutedWindow(exp: real -> real, r: seq<real>, c: seq<real>)
    requires IsExp(exp) && multiset(r) == multiset(c)
    ensures PValue(exp, r, c) == 1.0
  {
    PValuePermutation(exp, r, c, r, r);
    MergeWithItself(Sort(r), 0);
    if |r| >= 2 {
      SmirnovAntitone(exp, 0.0, 0.0, |r|, |r|);
    }
  }
}
