/** The two-pointer merge that stands in for the Kolmogorov-Smirnov statistic.

`Merge` is the largest gap sampled while two sorted windows are merged. The gap at (i, j) is taken
before the pointers move, at ranks i+1 and j+1, so it is not the distance of the two distribution
functions. The lemmas below say exactly how far from it it can be. */
module KsMerge {
  import opened Ecdf

  /** The gap sampled at pointer positions (i, j) in windows of n and m values. */
  function Gap(i: nat, j: nat, n: nat, m: nat): (g: real)
    requires n > 0 && m > 0
    ensures g >= 0.0
  {
    Abs(Frac(i + 1, n) - Frac(j + 1, m))
  }

  /** The pointer positions after one step: the smaller head moves, equal heads move together. */
  function Step(a: seq<real>, b: seq<real>, i: nat, j: nat): (nat, nat)
    requires i < |a| && j < |b|
  {
    if a[i] < b[j] then (i + 1, j)
    else if b[j] < a[i] then (i, j + 1)
    else (i + 1, j + 1)
  }

  /** The largest gap sampled from (i, j) until one window is used up. */
  function Merge(a: seq<real>, b: seq<real>, i: nat, j: nat): (d: real)
    requires i <= |a| && j <= |b|
    ensures d >= 0.0
    decreases |a| - i + |b| - j
  {
    if i == |a| || j == |b| then 0.0
    else
      var (i', j') := Step(a, b, i, j);
      Max(Gap(i, j, |a|, |b|), Merge(a, b, i', j'))
  }

  // ----- arithmetic of fractions -----

  /** The constant by which every sampled gap is shifted: 1/n - 1/m. */
  function Skew(n: nat, m: nat): real
    requires n > 0 && m > 0
  {
    Frac(1, n) - Frac(1, m)
  }

  lemma FracAdd(i: int, k: int, n: int)
    requires n > 0
    ensures Frac(i + k, n) == Frac(i, n) + Frac(k, n)
  {}

  lemma FracMonotone(i: int, j: int, n: int)
    requires n > 0 && i <= j
    ensures Frac(i, n) <= Frac(j, n)
  {}

  lemma FracIncreases(i: int, j: int, n: int)
    requires n > 0 && i < j
    ensures Frac(i, n) < Frac(j, n)
  {}

  lemma FracWhole(n: int)
    requires n > 0
    ensures Frac(n, n) == 1.0
  {}

  lemma FracUnit(n: int)
    requires n > 0
    ensures 0.0 < Frac(1, n) <= 1.0
  {}

  lemma FracAntitone(n: int, m: int)
    requires 0 < n <= m
    ensures Frac(1, m) <= Frac(1, n)
  {
    var u, w := Frac(1, n), Frac(1, m);
    assert u * n as real == 1.0 == w * m as real;
    assert u * (m - n) as real >= 0.0;
    assert (u - w) * m as real >= 0.0;
  }

  /** A sampled gap is the rank difference shifted by the skew. */
  lemma GapIsShifted(i: nat, j: nat, n: nat, m: nat)
    requires n > 0 && m > 0
    ensures Gap(i, j, n, m) == Abs(Frac(i, n) - Frac(j, m) + Skew(n, m))
  {
    FracAdd(i, 1, n);
    FracAdd(j, 1, m);
  }

  // ----- every separated pair of counts is sampled -----

  /** The merge passes through the pair of counts at every x below both maxima, whatever repeats the
      windows hold. */
  lemma {:induction false} Covers(a: seq<real>, b: seq<real>, i: nat, j: nat, x: real)
    requires Sorted(a) && Sorted(b)
    requires i <= CountLe(a, x) < |a| && j <= CountLe(b, x) < |b|
    ensures Gap(CountLe(a, x), CountLe(b, x), |a|, |b|) <= Merge(a, b, i, j)
    decreases |a| - i + |b| - j
  {
    var p, q := CountLe(a, x), CountLe(b, x);
    if i != p || j != q {
      SortedCount(a, i, x, false);
      SortedCount(b, j, x, false);
      var (i', j') := Step(a, b, i, j);
      Covers(a, b, i', j', x);
    }
  }

  // ----- once one window is used up -----

  /** Beyond the largest value of a, the remaining distance is at most one step of b more than a
      sampled gap. */
  lemma {:induction false} ExitBound(a: seq<real>, b: seq<real>, i: nat, j: nat, x: real)
    requires Sorted(a) && Sorted(b)
    requires i < |a| && j < |b| && j <= CountLe(b, x)
    requires CountLe(a, x) == |a|
    ensures 1.0 - Frac(CountLe(b, x), |b|) <= Merge(a, b, i, j) + Frac(1, |b|)
    decreases |a| - i + |b| - j
  {
    var n, m, q := |a|, |b|, CountLe(b, x);
    if i + 1 == n && a[i] <= b[j] {
      FracWhole(n);
      FracAdd(j, 1, m);
      FracMonotone(j, q, m);
    } else {
      SortedCount(a, i, x, false);
      SortedCount(b, j, x, false);
      var (i', j') := Step(a, b, i, j);
      if j' == m {
        FracWhole(m);
        FracUnit(m);
      } else {
        ExitBound(a, b, i', j', x);
      }
    }
  }

  lemma {:induction false} MergeSymmetric(a: seq<real>, b: seq<real>, i: nat, j: nat)
    requires i <= |a| && j <= |b|
    ensures Merge(a, b, i, j) == Merge(b, a, j, i)
    decreases |a| - i + |b| - j
  {
    if i < |a| && j < |b| {
      var (i', j') := Step(a, b, i, j);
      MergeSymmetric(a, b, i', j');
    }
  }

  function Min(n: nat, m: nat): nat {
    if n < m then n else m
  }

  lemma SkewSmall(n: nat, m: nat)
    requires n > 0 && m > 0
    ensures Abs(Skew(n, m)) <= Frac(1, Min(n, m))
    ensures Frac(1, n) <= Frac(1, Min(n, m)) && Frac(1, m) <= Frac(1, Min(n, m))
  {
    FracUnit(n);
    FracUnit(m);
    FracAntitone(Min(n, m), n);
    FracAntitone(Min(n, m), m);
  }

  /** The true distance at any point is at most one step of the smaller window above the merge result.
      This holds for all windows: any sizes, any repeats. */
  lemma DistanceAtMost(a: seq<real>, b: seq<real>, x: real)
    requires Sorted(a) && Sorted(b) && |a| > 0 && |b| > 0
    ensures Distance(a, b, x) <= Merge(a, b, 0, 0) + Frac(1, Min(|a|, |b|))
  {
    var n, m, p, q := |a|, |b|, CountLe(a, x), CountLe(b, x);
    SkewSmall(n, m);
    if p < n && q < m {
      Covers(a, b, 0, 0, x);
      GapIsShifted(p, q, n, m);
    } else if p == n {
      ExitBound(a, b, 0, 0, x);
      FracWhole(n);
      FracWhole(m);
      FracMonotone(q, m, m);
    } else {
      MergeSymmetric(a, b, 0, 0);
      ExitBound(b, a, 0, 0, x);
      FracWhole(n);
      FracWhole(m);
      FracMonotone(p, n, n);
    }
  }

  // ----- no sampled gap is far above the distance -----

  /** How unevenly the value v is repeated: the copies the merge pairs off before the two counts at v
      are both complete. It is 0 wherever neither window repeats v. */
  function TieSkew(a: seq<real>, b: seq<real>, v: real): int {
    var p, q := CountLe(a, v) - CountLt(a, v), CountLe(b, v) - CountLt(b, v);
    if p == q then p - 1 else if p < q then p else q
  }

  ghost predicate TiesAtMost(a: seq<real>, b: seq<real>, k: nat) {
    forall v :: TieSkew(a, b, v) <= k
  }

  /** (i, j) lies on the route the merge takes through the copies of v: pairs first, then the surplus. */
  ghost predicate OnRoute(a: seq<real>, b: seq<real>, i: nat, j: nat, v: real) {
    var i0, j0, i1, j1 := CountLt(a, v), CountLt(b, v), CountLe(a, v), CountLe(b, v);
    && i0 <= i <= i1 && j0 <= j <= j1
    && (i - i0 == j - j0 || (j == j1 && i - i0 >= j - j0) || (i == i1 && j - j0 >= i - i0))
  }

  ghost function Head(a: seq<real>, b: seq<real>, i: nat, j: nat): real
    requires i < |a| && j < |b|
  {
    if a[i] < b[j] then a[i] else b[j]
  }

  /** The counts strictly below v are the counts at some point, so their difference is a distance. */
  lemma StrictCountsSeparated(a: seq<real>, b: seq<real>, v: real) returns (x: real)
    requires Sorted(a) && Sorted(b)
    ensures CountLe(a, x) == CountLt(a, v) && CountLe(b, x) == CountLt(b, v)
  {
    var i, j := CountLt(a, v), CountLt(b, v);
    x := v - 1.0;
    if i > 0 {
      SortedCount(a, i - 1, v, true);
      if a[i-1] > x { x := a[i-1]; }
    }
    if j > 0 {
      SortedCount(b, j - 1, v, true);
      if b[j-1] > x { x := b[j-1]; }
    }
    if i < |a| { SortedCount(a, i, v, true); }
    if j < |b| { SortedCount(b, j, v, true); }
    CountIs(a, i, x, false);
    CountIs(b, j, x, false);
  }

  /** The difference of ranks at (i, j), as fractions of the two windows. */
  function RankDiff(i: int, j: int, n: nat, m: nat): real
    requires n > 0 && m > 0
  {
    Frac(i, n) - Frac(j, m)
  }

  lemma {:induction false} RankDiffDiagonal(i: int, j: int, k: nat, n: nat, m: nat)
    requires n > 0 && m > 0
    ensures RankDiff(i + k, j + k, n, m) == RankDiff(i, j, n, m) + Slack(k, Skew(n, m))
  {
    if k > 0 {
      RankDiffDiagonal(i, j, k - 1, n, m);
      FracAdd(i + k - 1, 1, n);
      FracAdd(j + k - 1, 1, m);
    }
  }

  /** k times c, spelled as a sum so that bounds built from it stay linear. */
  function Slack(k: nat, c: real): real {
    if k == 0 then 0.0 else Slack(k - 1, c) + c
  }

  lemma {:induction false} SlackIsProduct(k: nat, c: real)
    ensures Slack(k, c) == k as real * c
  {
    if k > 0 {
      SlackIsProduct(k - 1, c);
    }
  }

  lemma {:induction false} SlackMonotone(k: nat, bound: nat, c: real)
    requires k <= bound && c >= 0.0
    ensures 0.0 <= Slack(k, c) <= Slack(bound, c)
  {
    if bound > 0 {
      SlackMonotone(if k == bound then k - 1 else k, bound - 1, c);
    }
  }

  lemma {:induction false} AbsSlack(k: nat, c: real)
    ensures Abs(Slack(k, c)) == Slack(k, Abs(c))
    ensures c >= 0.0 ==> Slack(k, c) >= 0.0
    ensures c <= 0.0 ==> Slack(k, c) <= 0.0
  {
    if k > 0 {
      AbsSlack(k - 1, c);
    }
  }

  lemma OnDiagonal(i0: nat, j0: nat, k: nat, n: nat, m: nat, d: real, bound: nat)
    requires n > 0 && m > 0 && k <= bound
    requires Abs(RankDiff(i0, j0, n, m)) <= d
    ensures Abs(RankDiff(i0 + k, j0 + k, n, m)) <= d + Slack(bound, Abs(Skew(n, m)))
  {
    RankDiffDiagonal(i0, j0, k, n, m);
    AbsSlack(k, Skew(n, m));
    SlackMonotone(k, bound, Abs(Skew(n, m)));
  }

  lemma BetweenRanks(lo: int, i: int, hi: int, j: int, n: nat, m: nat, e: real)
    requires n > 0 && m > 0 && lo <= i <= hi
    requires Abs(RankDiff(lo, j, n, m)) <= e && Abs(RankDiff(hi, j, n, m)) <= e
    ensures Abs(RankDiff(i, j, n, m)) <= e
  {
    FracMonotone(lo, i, n);
    FracMonotone(i, hi, n);
  }

  lemma RankDiffSwap(i: int, j: int, n: nat, m: nat)
    requires n > 0 && m > 0
    ensures Abs(RankDiff(i, j, n, m)) == Abs(RankDiff(j, i, m, n))
    ensures Abs(Skew(n, m)) == Abs(Skew(m, n))
  {}

  /** Rank bound on a route that starts at (i0, j0), pairs off copies and ends with the surplus of a. */
  lemma RouteBound(i0: nat, j0: nat, p: nat, q: nat, i: nat, j: nat, n: nat, m: nat, d: real, bound: nat)
    requires n > 0 && m > 0
    requires Abs(RankDiff(i0, j0, n, m)) <= d && Abs(RankDiff(i0 + p, j0 + q, n, m)) <= d
    requires i0 <= i <= i0 + p && j0 <= j <= j0 + q
    requires (if p == q then p - 1 else if p < q then p else q) <= bound
    requires i - i0 == j - j0 || (j == j0 + q && i - i0 >= q)
    ensures Abs(RankDiff(i, j, n, m)) <= d + Slack(bound, Abs(Skew(n, m)))
  {
    SlackMonotone(0, bound, Abs(Skew(n, m)));
    if i == i0 + p && j == j0 + q {
    } else if i - i0 == j - j0 {
      OnDiagonal(i0, j0, i - i0, n, m, d, bound);
    } else {
      OnDiagonal(i0, j0, q, n, m, d, bound);
      BetweenRanks(i0 + q, i, i0 + p, j, n, m, d + Slack(bound, Abs(Skew(n, m))));
    }
  }

  lemma DistanceIsRankDiff(a: seq<real>, b: seq<real>, x: real)
    requires |a| > 0 && |b| > 0
    ensures Distance(a, b, x) == Abs(RankDiff(CountLe(a, x), CountLe(b, x), |a|, |b|))
  {}

  /** Both ends of the route at v are distances. */
  lemma RouteEnds(a: seq<real>, b: seq<real>, v: real, d: real)
    requires Sorted(a) && Sorted(b) && |a| > 0 && |b| > 0
    requires forall x :: Distance(a, b, x) <= d
    ensures CountLt(a, v) <= CountLe(a, v) && CountLt(b, v) <= CountLe(b, v)
    ensures Abs(RankDiff(CountLt(a, v), CountLt(b, v), |a|, |b|)) <= d
    ensures Abs(RankDiff(CountLe(a, v), CountLe(b, v), |a|, |b|)) <= d
  {
    CountMonotone(a, v, v, true, false);
    CountMonotone(b, v, v, true, false);
    var x := StrictCountsSeparated(a, b, v);
    DistanceIsRankDiff(a, b, x);
    DistanceIsRankDiff(a, b, v);
    assert Distance(a, b, x) <= d && Distance(a, b, v) <= d;
  }

  lemma OnRouteBound(a: seq<real>, b: seq<real>, i: nat, j: nat, v: real, d: real, k: nat)
    requires Sorted(a) && Sorted(b) && |a| > 0 && |b| > 0
    requires forall x :: Distance(a, b, x) <= d
    requires TieSkew(a, b, v) <= k && OnRoute(a, b, i, j, v)
    ensures Abs(RankDiff(i, j, |a|, |b|)) <= d + Slack(k, Abs(Skew(|a|, |b|)))
  {
    RouteEnds(a, b, v, d);
    RouteCases(CountLt(a, v), CountLt(b, v), CountLe(a, v), CountLe(b, v), i, j, |a|, |b|, d, k);
  }

  lemma RouteCases(i0: nat, j0: nat, i1: nat, j1: nat, i: nat, j: nat, n: nat, m: nat, d: real, k: nat)
    requires n > 0 && m > 0
    requires Abs(RankDiff(i0, j0, n, m)) <= d && Abs(RankDiff(i1, j1, n, m)) <= d
    requires i0 <= i <= i1 && j0 <= j <= j1
    requires (if i1 - i0 == j1 - j0 then i1 - i0 - 1 else if i1 - i0 < j1 - j0 then i1 - i0 else j1 - j0) <= k
    requires i - i0 == j - j0 || (j == j1 && i - i0 >= j - j0) || (i == i1 && j - j0 >= i - i0)
    ensures Abs(RankDiff(i, j, n, m)) <= d + Slack(k, Abs(Skew(n, m)))
  {
    if i - i0 == j - j0 || (j == j1 && i - i0 >= j - j0) {
      RouteBound(i0, j0, i1 - i0, j1 - j0, i, j, n, m, d, k);
    } else {
      RankDiffSwap(i0, j0, n, m);
      RankDiffSwap(i1, j1, n, m);
      RankDiffSwap(i, j, n, m);
      RouteBound(j0, i0, j1 - j0, i1 - i0, j, i, m, n, d, k);
    }
  }

  /** Every pointer position stays on the route of its smaller head. */
  lemma StepKeepsRoute(a: seq<real>, b: seq<real>, i: nat, j: nat)
    requires Sorted(a) && Sorted(b)
    requires i < |a| && j < |b| && OnRoute(a, b, i, j, Head(a, b, i, j))
    requires Step(a, b, i, j).0 < |a| && Step(a, b, i, j).1 < |b|
    ensures var (i', j') := Step(a, b, i, j); OnRoute(a, b, i', j', Head(a, b, i', j'))
  {
    var v := Head(a, b, i, j);
    var (i', j') := Step(a, b, i, j);
    var w := Head(a, b, i', j');
    SortedCount(a, i, v, false);
    SortedCount(b, j, v, false);
    SortedCount(a, i', v, false);
    SortedCount(b, j', v, false);
    assert v <= w;
    if v < w {
      if i > 0 { SortedCount(a, i - 1, v, false); }
      if j > 0 { SortedCount(b, j - 1, v, false); }
      assert a[i'] >= w && b[j'] >= w;
      CountIs(a, i', w, true);
      CountIs(b, j', w, true);
      CountMonotone(a, w, w, true, false);
      CountMonotone(b, w, w, true, false);
    }
  }

  lemma StartOnRoute(a: seq<real>, b: seq<real>)
    requires Sorted(a) && Sorted(b) && |a| > 0 && |b| > 0
    ensures OnRoute(a, b, 0, 0, Head(a, b, 0, 0))
  {
    var v := Head(a, b, 0, 0);
    CountIs(a, 0, v, true);
    CountIs(b, 0, v, true);
  }

  lemma GapAtMost(i: nat, j: nat, n: nat, m: nat, d: real, k: nat)
    requires n > 0 && m > 0
    requires Abs(RankDiff(i, j, n, m)) <= d + Slack(k, Abs(Skew(n, m)))
    ensures Gap(i, j, n, m) <= d + Slack(k + 1, Abs(Skew(n, m)))
  {
    GapIsShifted(i, j, n, m);
  }

  /** A bound for the gaps at all positions on their route bounds the merge result. */
  lemma {:induction false} MergeOnRouteAtMost(a: seq<real>, b: seq<real>, i: nat, j: nat, e: real)
    requires Sorted(a) && Sorted(b) && e >= 0.0
    requires i < |a| && j < |b| && OnRoute(a, b, i, j, Head(a, b, i, j))
    requires forall p: nat, q: nat | p < |a| && q < |b| && OnRoute(a, b, p, q, Head(a, b, p, q)) ::
               Gap(p, q, |a|, |b|) <= e
    ensures Merge(a, b, i, j) <= e
    decreases |a| - i + |b| - j
  {
    var (i', j') := Step(a, b, i, j);
    if i' < |a| && j' < |b| {
      StepKeepsRoute(a, b, i, j);
      MergeOnRouteAtMost(a, b, i', j', e);
    }
  }

  lemma GapOnRoute(a: seq<real>, b: seq<real>, i: nat, j: nat, k: nat, d: real)
    requires Sorted(a) && Sorted(b) && TiesAtMost(a, b, k)
    requires i < |a| && j < |b| && OnRoute(a, b, i, j, Head(a, b, i, j))
    requires forall x :: Distance(a, b, x) <= d
    ensures Gap(i, j, |a|, |b|) <= d + Slack(k + 1, Abs(Skew(|a|, |b|)))
  {
    var v := Head(a, b, i, j);
    assert TieSkew(a, b, v) <= k;
    OnRouteBound(a, b, i, j, v, d, k);
    GapAtMost(i, j, |a|, |b|, d, k);
  }

  lemma MergeAtMostBound(a: seq<real>, b: seq<real>, k: nat, d: real)
    requires Sorted(a) && Sorted(b) && |a| > 0 && |b| > 0
    requires TiesAtMost(a, b, k)
    requires d >= 0.0 && forall x :: Distance(a, b, x) <= d
    ensures Merge(a, b, 0, 0) <= d + Slack(k + 1, Abs(Skew(|a|, |b|)))
  {
    var e := d + Slack(k + 1, Abs(Skew(|a|, |b|)));
    forall p: nat, q: nat | p < |a| && q < |b| && OnRoute(a, b, p, q, Head(a, b, p, q))
      ensures Gap(p, q, |a|, |b|) <= e
    {
      GapOnRoute(a, b, p, q, k, d);
    }
    SlackMonotone(0, k + 1, Abs(Skew(|a|, |b|)));
    StartOnRoute(a, b);
    MergeOnRouteAtMost(a, b, 0, 0, e);
  }

  /** The merge result exceeds the true distance by at most k + 1 times the skew. */
  lemma MergeAtMost(a: seq<real>, b: seq<real>, k: nat)
    requires Sorted(a) && Sorted(b) && |a| > 0 && |b| > 0
    requires TiesAtMost(a, b, k)
    ensures Merge(a, b, 0, 0) <= KsDistance(a, b) + Slack(k + 1, Abs(Skew(|a|, |b|)))
  {
    KsDistanceIsSupremum(a, b);
    MergeAtMostBound(a, b, k, KsDistance(a, b));
  }

  // ----- where windows of equal size reach their distance -----

  /** The merge result is the gap at one of its positions. */
  lemma {:induction false} MergeReached(a: seq<real>, b: seq<real>, i: nat, j: nat) returns (p: nat, q: nat)
    requires Sorted(a) && Sorted(b)
    requires i < |a| && j < |b| && OnRoute(a, b, i, j, Head(a, b, i, j))
    ensures p < |a| && q < |b| && OnRoute(a, b, p, q, Head(a, b, p, q))
    ensures Gap(p, q, |a|, |b|) == Merge(a, b, i, j)
    decreases |a| - i + |b| - j
  {
    hide OnRoute;
    var (i', j') := Step(a, b, i, j);
    p, q := i, j;
    if i' < |a| && j' < |b| && Merge(a, b, i', j') > Gap(i, j, |a|, |b|) {
      StepKeepsRoute(a, b, i, j);
      p, q := MergeReached(a, b, i', j');
    }
  }

  /** With equal sizes the rank difference does not change along the diagonal. */
  lemma FlatDiagonal(i: nat, j: nat, k: nat, n: nat)
    requires n > 0
    ensures RankDiff(i + k, j + k, n, n) == RankDiff(i, j, n, n)
  {
    RankDiffDiagonal(i, j, k, n, n);
    SlackIsProduct(k, 0.0);
  }

  /** Inside the surplus of one window, between two rank differences of at most d, none reaches d. */
  lemma SurplusBelow(lo: nat, i: nat, hi: nat, j: nat, n: nat, d: real)
    requires n > 0 && lo < i < hi
    requires Abs(RankDiff(lo, j, n, n)) <= d && Abs(RankDiff(hi, j, n, n)) <= d
    ensures Abs(RankDiff(i, j, n, n)) < d
  {
    FracIncreases(lo, i, n);
    FracIncreases(i, hi, n);
  }

  /** On the route through the copies of a value, a position that reaches the largest distance lies on the
      diagonal. */
  lemma ReachedOnDiagonal(i0: nat, j0: nat, i1: nat, j1: nat, i: nat, j: nat, n: nat, d: real)
    requires n > 0
    requires Abs(RankDiff(i0, j0, n, n)) <= d && Abs(RankDiff(i1, j1, n, n)) <= d
    requires i0 <= i <= i1 && j0 <= j <= j1 && (i < i1 || j < j1)
    requires i - i0 == j - j0 || (j == j1 && i - i0 >= j - j0) || (i == i1 && j - j0 >= i - i0)
    requires Abs(RankDiff(i, j, n, n)) == d
    ensures i - i0 == j - j0
  {
    FlatDiagonal(i0, j0, j1 - j0, n);
    FlatDiagonal(i0, j0, i1 - i0, n);
    if j == j1 && i - i0 > j - j0 {
      SurplusBelow(i0 + (j1 - j0), i, i1, j, n, d);
    } else if i == i1 && j - j0 > i - i0 {
      RankDiffSwap(j0 + (i1 - i0), i, n, n);
      RankDiffSwap(j1, i, n, n);
      RankDiffSwap(j, i, n, n);
      SurplusBelow(j0 + (i1 - i0), j, j1, i, n, d);
    }
  }

  /** So the distance is reached at a point below both maxima: where the counts are those strictly below the
      value at hand. */
  lemma ReachedBefore(a: seq<real>, b: seq<real>, i: nat, j: nat, d: real) returns (x: real)
    requires Sorted(a) && Sorted(b) && |a| == |b|
    requires i < |a| && j < |b| && OnRoute(a, b, i, j, Head(a, b, i, j))
    requires Gap(i, j, |a|, |b|) == d && forall x :: Distance(a, b, x) <= d
    ensures CountLe(a, x) < |a| && CountLe(b, x) < |b| && Distance(a, b, x) == d
  {
    var v := Head(a, b, i, j);
    var i0, j0 := CountLt(a, v), CountLt(b, v);
    RouteEnds(a, b, v, d);
    SortedCount(a, i, v, false);
    SortedCount(b, j, v, false);
    GapIsShifted(i, j, |a|, |b|);
    ReachedOnDiagonal(i0, j0, CountLe(a, v), CountLe(b, v), i, j, |a|, d);
    FlatDiagonal(i0, j0, i - i0, |a|);
    x := StrictCountsSeparated(a, b, v);
    DistanceIsRankDiff(a, b, x);
  }
}
