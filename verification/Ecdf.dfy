/** Samples, their sorted forms and their empirical distribution functions.

A sample is a sequence of reals. `Count` counts the elements below a point, weakly or strictly, and
`Distance` is the vertical distance between two empirical distribution functions at one point. */
module Ecdf {
  import opened Sequences

  function Abs(x: real): real {
    if x < 0.0 then -x else x
  }

  function Max(x: real, y: real): real {
    if x < y then y else x
  }

  // ----- sorting -----

  ghost predicate Sorted(s: seq<real>) {
    forall i, j :: 0 <= i < j < |s| ==> s[i] <= s[j]
  }

  /** Sorted and without repeats. */
  ghost predicate StrictlySorted(s: seq<real>) {
    forall i, j :: 0 <= i < j < |s| ==> s[i] < s[j]
  }

  ghost predicate NoRepeats(s: seq<real>) {
    forall i, j :: 0 <= i < j < |s| ==> s[i] != s[j]
  }

  function Insert(x: real, s: seq<real>): (r: seq<real>)
    ensures |r| == |s| + 1
  {
    if s == [] || x <= s[0] then [x] + s else [s[0]] + Insert(x, s[1..])
  }

  lemma {:induction false} InsertKeepsElements(x: real, s: seq<real>)
    ensures multiset(Insert(x, s)) == multiset(s) + multiset{x}
  {
    if s == [] || x <= s[0] {
    } else {
      assert s == [s[0]] + s[1..];
      InsertKeepsElements(x, s[1..]);
    }
  }

  lemma {:induction false} InsertSorted(x: real, s: seq<real>)
    requires Sorted(s)
    ensures Sorted(Insert(x, s))
    ensures s != [] ==> Insert(x, s)[0] == if x <= s[0] then x else s[0]
  {
    if s == [] || x <= s[0] {
    } else {
      InsertSorted(x, s[1..]);
      var rest := Insert(x, s[1..]);
      assert s[0] <= rest[0];
      forall i | 0 <= i < |rest| ensures s[0] <= rest[i] {}
    }
  }

  /** The ascending order that the library sort leaves behind. */
  function Sort(s: seq<real>): (r: seq<real>)
    ensures |r| == |s|
  {
    if s == [] then [] else Insert(s[0], Sort(s[1..]))
  }

  lemma {:induction false} SortCorrect(s: seq<real>)
    ensures Sorted(Sort(s))
    ensures multiset(Sort(s)) == multiset(s)
  {
    if s == [] {
    } else {
      hide Insert, Sorted;
      SortCorrect(s[1..]);
      InsertSorted(s[0], Sort(s[1..]));
      InsertKeepsElements(s[0], Sort(s[1..]));
      assert s == [s[0]] + s[1..];
    }
  }

  lemma TailsMatch(a: seq<real>, b: seq<real>)
    requires a != [] && b != [] && a[0] == b[0] && multiset(a) == multiset(b)
    ensures multiset(a[1..]) == multiset(b[1..])
  {
    assert a == [a[0]] + a[1..] && b == [b[0]] + b[1..];
    assert multiset(a[1..]) == multiset(a) - multiset{a[0]};
    assert multiset(b[1..]) == multiset(b) - multiset{b[0]};
  }

  lemma HeadIsLeast(a: seq<real>, x: real)
    requires Sorted(a) && x in multiset(a)
    ensures a[0] <= x
  {
    var i :| 0 <= i < |a| && a[i] == x;
  }

  /** A sorted sequence is determined by its multiset of elements. */
  lemma {:induction false} SortedUnique(a: seq<real>, b: seq<real>)
    requires Sorted(a) && Sorted(b) && multiset(a) == multiset(b)
    ensures a == b
  {
    assert |a| == |multiset(a)| == |multiset(b)| == |b|;
    if a != [] {
      HeadIsLeast(a, b[0]);
      HeadIsLeast(b, a[0]);
      TailsMatch(a, b);
      SortedUnique(a[1..], b[1..]);
      assert a == [a[0]] + a[1..] && b == [b[0]] + b[1..];
    }
  }

  /** Sorting a sample without repeats gives a strictly increasing one. */
  lemma {:induction false} SortStrict(s: seq<real>)
    requires NoRepeats(s)
    ensures StrictlySorted(Sort(s))
  {
    var r := Sort(s);
    SortCorrect(s);
    forall i, j | 0 <= i < j < |r| ensures r[i] < r[j] {
      if r[i] == r[j] {
        TwoIndicesTwoCopies(r, i, j);
        NoRepeatsOneCopy(s, r[i]);
        assert false;
      }
    }
  }

  lemma {:induction false} NoRepeatsOneCopy(s: seq<real>, x: real)
    requires NoRepeats(s)
    ensures multiset(s)[x] <= 1
  {
    if s != [] {
      assert s == [s[0]] + s[1..];
      NoRepeatsOneCopy(s[1..], x);
      if x == s[0] {
        assert x !in s[1..];
      }
    }
  }

  // ----- counting -----

  predicate Below(x: real, v: real, strict: bool) {
    if strict then x < v else x <= v
  }

  /** How many elements of s are below v (strictly, or at most v). */
  function Count(s: seq<real>, v: real, strict: bool): (k: nat)
    ensures k <= |s|
  {
    if s == [] then 0
    else (if Below(s[0], v, strict) then 1 else 0) + Count(s[1..], v, strict)
  }

  function CountLe(s: seq<real>, v: real): nat { Count(s, v, false) }

  function CountLt(s: seq<real>, v: real): nat { Count(s, v, true) }

  lemma {:induction false} CountInsert(x: real, s: seq<real>, v: real, strict: bool)
    ensures Count(Insert(x, s), v, strict) == Count([x] + s, v, strict)
  {
    if s == [] || x <= s[0] {
    } else {
      CountInsert(x, s[1..], v, strict);
      assert ([x] + s)[1..] == s && ([x] + s[1..])[1..] == s[1..];
      assert Insert(x, s)[1..] == Insert(x, s[1..]);
    }
  }

  /** Counting does not depend on the order of the sample. */
  lemma {:induction false} CountSort(s: seq<real>, v: real, strict: bool)
    ensures Count(Sort(s), v, strict) == Count(s, v, strict)
  {
    if s != [] {
      CountSort(s[1..], v, strict);
      CountInsert(s[0], Sort(s[1..]), v, strict);
      assert ([s[0]] + Sort(s[1..]))[1..] == Sort(s[1..]);
    }
  }

  lemma {:induction false} CountNone(s: seq<real>, v: real, strict: bool)
    requires forall i :: 0 <= i < |s| ==> !Below(s[i], v, strict)
    ensures Count(s, v, strict) == 0
  {
    if s != [] {
      CountNone(s[1..], v, strict);
    }
  }

  /** In a sorted sample the elements below v are exactly the first Count(s, v) ones. */
  lemma {:induction false} SortedCount(s: seq<real>, i: nat, v: real, strict: bool)
    requires Sorted(s) && i < |s|
    ensures i < Count(s, v, strict) <==> Below(s[i], v, strict)
  {
    if Below(s[0], v, strict) {
      if i > 0 {
        SortedCount(s[1..], i - 1, v, strict);
      }
    } else {
      CountNone(s, v, strict);
      assert s[0] <= s[i];
    }
  }

  /** The count is pinned by its two neighbours. */
  lemma CountIs(s: seq<real>, k: nat, v: real, strict: bool)
    requires Sorted(s) && k <= |s|
    requires k > 0 ==> Below(s[k-1], v, strict)
    requires k < |s| ==> !Below(s[k], v, strict)
    ensures Count(s, v, strict) == k
  {
    if k > 0 { SortedCount(s, k - 1, v, strict); }
    if k < |s| { SortedCount(s, k, v, strict); }
  }

  lemma {:induction false} CountMonotone(s: seq<real>, v: real, w: real, strictV: bool, strictW: bool)
    requires v < w || (v == w && (strictW ==> strictV))
    ensures Count(s, v, strictV) <= Count(s, w, strictW)
  {
    if s != [] {
      CountMonotone(s[1..], v, w, strictV, strictW);
    }
  }

  // ----- empirical distribution functions -----

  function Frac(k: int, n: int): real
    requires n > 0
  {
    k as real / n as real
  }

  /** |F_a(x) - F_b(x)|, the vertical distance between the two step functions at x. */
  function Distance(a: seq<real>, b: seq<real>, x: real): (r: real)
    requires |a| > 0 && |b| > 0
    ensures r >= 0.0
  {
    Abs(Frac(CountLe(a, x), |a|) - Frac(CountLe(b, x), |b|))
  }

  /** The largest distance over the points of xs. */
  function MaxDistance(a: seq<real>, b: seq<real>, xs: seq<real>): (d: real)
    requires |a| > 0 && |b| > 0
    ensures d >= 0.0
    ensures forall x :: x in xs ==> Distance(a, b, x) <= d
  {
    if xs == [] then 0.0
    else Max(Distance(a, b, xs[0]), MaxDistance(a, b, xs[1..]))
  }

  /** The two-sample Kolmogorov-Smirnov statistic: the distance is piecewise constant and only jumps at
      sample values, so the maximum over the sample values is the supremum over the whole line. */
  function KsDistance(a: seq<real>, b: seq<real>): (d: real)
    requires |a| > 0 && |b| > 0
    ensures d >= 0.0
  {
    MaxDistance(a, b, a + b)
  }

  lemma {:induction false} MaxDistanceAttained(a: seq<real>, b: seq<real>, xs: seq<real>) returns (x: real)
    requires |a| > 0 && |b| > 0 && |xs| > 0
    ensures x in xs && Distance(a, b, x) == MaxDistance(a, b, xs)
  {
    x := xs[0];
    if |xs| > 1 {
      var y := MaxDistanceAttained(a, b, xs[1..]);
      if Distance(a, b, x) < Distance(a, b, y) {
        x := y;
      }
    }
  }

  /** The largest element of s that is at most x, if there is one. */
  lemma {:induction false} Floor(s: seq<real>, x: real) returns (found: bool, y: real)
    ensures !found ==> forall z :: z in s ==> z > x
    ensures found ==> y in s && y <= x && forall z :: z in s && z <= x ==> z <= y
  {
    if s == [] {
      found, y := false, x;
    } else {
      found, y := Floor(s[1..], x);
      if s[0] <= x && (!found || y < s[0]) {
        found, y := true, s[0];
      }
      assert forall z :: z in s ==> z == s[0] || z in s[1..];
    }
  }

  lemma {:induction false} CountGap(s: seq<real>, y: real, x: real)
    requires forall i :: 0 <= i < |s| ==> (s[i] <= y <==> s[i] <= x)
    ensures CountLe(s, y) == CountLe(s, x)
  {
    if s != [] {
      assert s[0] <= y <==> s[0] <= x;
      CountGap(s[1..], y, x);
    }
  }

  lemma FracZero(n: int)
    requires n > 0
    ensures Frac(0, n) == 0.0
  {}

  lemma DistanceBounded(a: seq<real>, b: seq<real>, x: real)
    requires |a| > 0 && |b| > 0
    ensures Distance(a, b, x) <= KsDistance(a, b)
  {
    var found, y := Floor(a + b, x);
    forall i | 0 <= i < |a| ensures a[i] in a + b { assert a[i] == (a + b)[i]; }
    forall i | 0 <= i < |b| ensures b[i] in a + b { assert b[i] == (a + b)[|a| + i]; }
    if found {
      assert CountLe(a, y) == CountLe(a, x) by { CountGap(a, y, x); }
      assert CountLe(b, y) == CountLe(b, x) by { CountGap(b, y, x); }
    } else {
      assert CountLe(a, x) == 0 by { CountNone(a, x, false); }
      assert CountLe(b, x) == 0 by { CountNone(b, x, false); }
      FracZero(|a|);
      FracZero(|b|);
    }
  }

  /** KsDistance really is the supremum of the distance over all reals, and it is attained. */
  lemma KsDistanceIsSupremum(a: seq<real>, b: seq<real>)
    requires |a| > 0 && |b| > 0
    ensures forall x :: Distance(a, b, x) <= KsDistance(a, b)
    ensures exists x :: Distance(a, b, x) == KsDistance(a, b)
  {
    forall x ensures Distance(a, b, x) <= KsDistance(a, b) {
      DistanceBounded(a, b, x);
    }
    var x := MaxDistanceAttained(a, b, a + b);
  }

  lemma DistanceSort(a: seq<real>, b: seq<real>, x: real)
    requires |a| > 0 && |b| > 0
    ensures Distance(Sort(a), Sort(b), x) == Distance(a, b, x)
  {
    CountSort(a, x, false);
    CountSort(b, x, false);
  }
}
