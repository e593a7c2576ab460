/** Evaluating selected elements of a list, each on its own state.

`RunAll` visits positions one after another and updates their states; `Hits` and `States` describe the
result of visiting every selected element once, in list order. */
module Selection {

  /** The positions below n whose element is selected, in order. */
  function Positions<D>(ds: seq<D>, p: D -> bool, n: nat): (r: seq<nat>)
    requires n <= |ds|
    ensures forall i :: 0 <= i < |r| ==> r[i] < n
  {
    if n == 0 then [] else Positions(ds, p, n - 1) + (if p(ds[n-1]) then [n - 1] else [])
  }

  function RunAll<D, B, A>(step: (D, B) -> (B, seq<A>), ds: seq<D>, bs: seq<B>, at: seq<nat>): (r: (seq<B>, seq<A>))
    requires |bs| == |ds|
    requires forall k :: 0 <= k < |at| ==> at[k] < |ds|
    ensures |r.0| == |ds|
  {
    if at == [] then (bs, [])
    else
      var (before, hits) := RunAll(step, ds, bs, at[..|at|-1]);
      var i := at[|at|-1];
      var (next, out) := step(ds[i], before[i]);
      (before[i := next], hits + out)
  }

  /** A selected element is evaluated, any other is left as it is. */
  function StepIf<D, B, A>(step: (D, B) -> (B, seq<A>), p: D -> bool, d: D, b: B): (B, seq<A>) {
    if p(d) then step(d, b) else (b, [])
  }

  /** What the selected ones of the first n elements report, in order, each on its initial state. */
  function Hits<D, B, A>(step: (D, B) -> (B, seq<A>), p: D -> bool, ds: seq<D>, bs: seq<B>, n: nat): seq<A>
    requires |bs| == |ds| && n <= |ds|
  {
    if n == 0 then [] else Hits(step, p, ds, bs, n - 1) + StepIf(step, p, ds[n-1], bs[n-1]).1
  }

  /** Every selected element has moved once from its initial state, the others have not. */
  function States<D, B, A>(step: (D, B) -> (B, seq<A>), p: D -> bool, ds: seq<D>, bs: seq<B>): (r: seq<B>)
    requires |bs| == |ds|
    ensures |r| == |ds| && forall i :: 0 <= i < |r| ==> r[i] == StepIf(step, p, ds[i], bs[i]).0
  {
    seq(|ds|, i requires 0 <= i < |ds| => StepIf(step, p, ds[i], bs[i]).0)
  }

  lemma RunAppend<D, B, A>(step: (D, B) -> (B, seq<A>), ds: seq<D>, bs: seq<B>, at: seq<nat>, i: nat)
    requires |bs| == |ds| && i < |ds|
    requires forall k :: 0 <= k < |at| ==> at[k] < |ds|
    ensures var before := RunAll(step, ds, bs, at);
            var out := step(ds[i], before.0[i]);
            RunAll(step, ds, bs, at + [i]) == (before.0[i := out.0], before.1 + out.1)
  {
    assert (at + [i])[..|at|] == at;
  }

  lemma RunNone<D, B, A>(step: (D, B) -> (B, seq<A>), ds: seq<D>, bs: seq<B>)
    requires |bs| == |ds|
    ensures RunAll(step, ds, bs, []) == (bs, [])
  {}

  lemma {:induction false} RunUpTo<D, B, A>(step: (D, B) -> (B, seq<A>), p: D -> bool, ds: seq<D>, bs: seq<B>, n: nat)
    requires |bs| == |ds| && n <= |ds|
    ensures RunAll(step, ds, bs, Positions(ds, p, n)).1 == Hits(step, p, ds, bs, n)
    ensures forall i :: 0 <= i < |ds| ==>
              RunAll(step, ds, bs, Positions(ds, p, n)).0[i] == if i < n then StepIf(step, p, ds[i], bs[i]).0 else bs[i]
  {
    hide RunAll;
    if n == 0 {
      RunNone(step, ds, bs);
    } else {
      RunUpTo(step, p, ds, bs, n - 1);
      var at := Positions(ds, p, n - 1);
      if p(ds[n-1]) {
        RunAppend(step, ds, bs, at, n - 1);
      } else {
        assert Positions(ds, p, n) == at;
      }
    }
  }

  /** Visiting the selected positions in order evaluates every selected element exactly once. */
  lemma RunSelected<D, B, A>(step: (D, B) -> (B, seq<A>), p: D -> bool, ds: seq<D>, bs: seq<B>)
    requires |bs| == |ds|
    ensures RunAll(step, ds, bs, Positions(ds, p, |ds|)) == (States(step, p, ds, bs), Hits(step, p, ds, bs, |ds|))
  {
    RunUpTo(step, p, ds, bs, |ds|);
    assert RunAll(step, ds, bs, Positions(ds, p, |ds|)).0 == States(step, p, ds, bs);
  }

  /** Reports depend only on what the conditional steps report. */
  lemma {:induction false} SameHits<D, B, A>(step: (D, B) -> (B, seq<A>), p: D -> bool, bs: seq<B>,
                                            step': (D, B) -> (B, seq<A>), p': D -> bool, bs': seq<B>, ds: seq<D>, n: nat)
    requires |bs| == |bs'| == |ds| && n <= |ds|
    requires forall i :: 0 <= i < |ds| ==> StepIf(step, p, ds[i], bs[i]).1 == StepIf(step', p', ds[i], bs'[i]).1
    ensures Hits(step, p, ds, bs, n) == Hits(step', p', ds, bs', n)
  {
    if n > 0 {
      SameHits(step, p, bs, step', p', bs', ds, n - 1);
    }
  }

  lemma SplitStep<D, B, A>(step: (D, B) -> (B, seq<A>), all: D -> bool, p: D -> bool, q: D -> bool, d: D, b: B)
    requires (all(d) <==> p(d) || q(d)) && !(p(d) && q(d))
    ensures multiset(StepIf(step, all, d, b).1) == multiset(StepIf(step, p, d, b).1) + multiset(StepIf(step, q, d, b).1)
  {}

  /** Splitting a selection in two loses and repeats no report. */
  lemma {:induction false} SplitHits<D, B, A>(step: (D, B) -> (B, seq<A>), all: D -> bool, p: D -> bool, q: D -> bool,
                                             ds: seq<D>, bs: seq<B>, n: nat)
    requires |bs| == |ds| && n <= |ds|
    requires forall i :: 0 <= i < |ds| ==> (all(ds[i]) <==> p(ds[i]) || q(ds[i])) && !(p(ds[i]) && q(ds[i]))
    ensures multiset(Hits(step, all, ds, bs, n)) == multiset(Hits(step, p, ds, bs, n)) + multiset(Hits(step, q, ds, bs, n))
  {
    if n > 0 {
      hide StepIf;
      SplitStep(step, all, p, q, ds[n-1], bs[n-1]);
      SplitHits(step, all, p, q, ds, bs, n - 1);
    }
  }

  /** Every report comes from a selected element. */
  lemma {:induction false} HitOrigin<D, B, A>(step: (D, B) -> (B, seq<A>), p: D -> bool, ds: seq<D>, bs: seq<B>, n: nat, a: A)
    returns (i: nat)
    requires |bs| == |ds| && n <= |ds| && a in Hits(step, p, ds, bs, n)
    ensures i < n && p(ds[i]) && a in step(ds[i], bs[i]).1
  {
    if a in StepIf(step, p, ds[n-1], bs[n-1]).1 {
      i := n - 1;
    } else {
      i := HitOrigin(step, p, ds, bs, n - 1, a);
    }
  }

  /** Every report of a selected element is among the hits. */
  lemma {:induction false} HitIncluded<D, B, A>(step: (D, B) -> (B, seq<A>), p: D -> bool, ds: seq<D>, bs: seq<B>, n: nat, i: nat, a: A)
    requires |bs| == |ds| && i < n <= |ds|
    requires p(ds[i]) && a in step(ds[i], bs[i]).1
    ensures a in Hits(step, p, ds, bs, n)
  {
    if i < n - 1 {
      HitIncluded(step, p, ds, bs, n - 1, i, a);
    }
  }

  /** If two selections together never report less than a third one, and more at one element, they report
      more in all. */
  lemma {:induction false} MoreHits<D, B, A>(step: (D, B) -> (B, seq<A>), p: D -> bool, q: D -> bool, r: D -> bool,
                                            ds: seq<D>, bs: seq<B>, bs': seq<B>, n: nat, i: nat)
    requires |bs| == |bs'| == |ds| && n <= |ds| && i < |ds|
    requires forall k :: 0 <= k < |ds| ==>
               |StepIf(step, p, ds[k], bs[k]).1| + |StepIf(step, q, ds[k], bs'[k]).1| >= |StepIf(step, r, ds[k], bs[k]).1|
    requires |StepIf(step, p, ds[i], bs[i]).1| + |StepIf(step, q, ds[i], bs'[i]).1| > |StepIf(step, r, ds[i], bs[i]).1|
    ensures |Hits(step, p, ds, bs, n)| + |Hits(step, q, ds, bs', n)| >= |Hits(step, r, ds, bs, n)| + (if i < n then 1 else 0)
  {
    if n > 0 {
      hide StepIf;
      MoreHits(step, p, q, r, ds, bs, bs', n - 1, i);
    }
  }

  /** Selecting nothing reports nothing. */
  lemma {:induction false} NoHits<D, B, A>(step: (D, B) -> (B, seq<A>), p: D -> bool, ds: seq<D>, bs: seq<B>, n: nat)
    requires |bs| == |ds| && n <= |ds| && forall k :: 0 <= k < |ds| ==> !p(ds[k])
    ensures Hits(step, p, ds, bs, n) == []
  {
    if n > 0 {
      NoHits(step, p, ds, bs, n - 1);
    }
  }
}
