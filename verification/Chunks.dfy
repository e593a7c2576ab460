/** Splitting a batch into chunks that are evaluated separately and merged in any order. */
module Chunks {

  const CHUNK_SIZE: nat := 200

  function NumChunks(n: nat): nat {
    (n + CHUNK_SIZE - 1) / CHUNK_SIZE
  }

  function Min(a: nat, b: nat): nat {
    if a < b then a else b
  }

  function ChunkAt<T>(xs: seq<T>, c: nat): (r: seq<T>)
    requires c < NumChunks(|xs|)
    ensures |r| == Min(CHUNK_SIZE, |xs| - c * CHUNK_SIZE) > 0
  {
    xs[c * CHUNK_SIZE..Min((c + 1) * CHUNK_SIZE, |xs|)]
  }

  /** The results of all elements, in order. */
  function Flat<T, A>(eval: T -> seq<A>, xs: seq<T>): seq<A> {
    if xs == [] then [] else Flat(eval, xs[..|xs|-1]) + eval(xs[|xs|-1])
  }

  ghost predicate ChunkIds(order: seq<nat>, n: nat) {
    forall i :: 0 <= i < |order| ==> order[i] < n
  }

  /** The results of the chunks in the order in which they are merged: one contiguous block per chunk. */
  function Blocks<T, A>(eval: T -> seq<A>, xs: seq<T>, order: seq<nat>): seq<A>
    requires ChunkIds(order, NumChunks(|xs|))
  {
    if order == [] then [] else Blocks(eval, xs, order[..|order|-1]) + Flat(eval, ChunkAt(xs, order[|order|-1]))
  }

  /** Every chunk is merged exactly once. */
  ghost predicate IsOrder(order: seq<nat>, n: nat) {
    forall c: nat :: multiset(order)[c] == if c < n then 1 else 0
  }

  lemma OrderInRange(order: seq<nat>, n: nat)
    requires IsOrder(order, n)
    ensures ChunkIds(order, n)
  {
    forall i | 0 <= i < |order| ensures order[i] < n {
      assert order[i] in multiset(order);
    }
  }

  lemma {:induction false} FlatConcat<T, A>(eval: T -> seq<A>, xs: seq<T>, ys: seq<T>)
    ensures Flat(eval, xs + ys) == Flat(eval, xs) + Flat(eval, ys)
  {
    if ys == [] {
      assert xs + ys == xs;
    } else {
      assert (xs + ys)[..|xs + ys| - 1] == xs + ys[..|ys|-1];
      FlatConcat(eval, xs, ys[..|ys|-1]);
    }
  }

  function UpTo(n: nat): (r: seq<nat>)
    ensures |r| == n && ChunkIds(r, n)
  {
    if n == 0 then [] else UpTo(n - 1) + [n - 1]
  }

  lemma ChunkExtends<T>(xs: seq<T>, c: nat)
    requires c < NumChunks(|xs|)
    ensures xs[..Min(c * CHUNK_SIZE, |xs|)] + ChunkAt(xs, c) == xs[..Min((c + 1) * CHUNK_SIZE, |xs|)]
  {}

  /** The chunks tile the batch: merged in their own order they give the sequential result. */
  lemma {:induction false} ChunksTile<T, A>(eval: T -> seq<A>, xs: seq<T>, k: nat)
    requires k <= NumChunks(|xs|)
    ensures Blocks(eval, xs, UpTo(k)) == Flat(eval, xs[..Min(k * CHUNK_SIZE, |xs|)])
  {
    if k > 0 {
      ChunksTile(eval, xs, k - 1);
      BlocksAppend(eval, xs, UpTo(k - 1), k - 1);
      ChunkExtends(xs, k - 1);
      FlatConcat(eval, xs[..Min((k - 1) * CHUNK_SIZE, |xs|)], ChunkAt(xs, k - 1));
    }
  }

  function Without(order: seq<nat>, i: nat): seq<nat>
    requires i < |order|
  {
    order[..i] + order[i+1..]
  }

  lemma WithoutLeavesRest(order: seq<nat>, i: nat)
    requires i < |order|
    ensures multiset(order) == multiset(Without(order, i)) + multiset{order[i]}
  {
    assert order == order[..i] + [order[i]] + order[i+1..];
  }

  lemma BlocksAppend<T, A>(eval: T -> seq<A>, xs: seq<T>, order: seq<nat>, c: nat)
    requires ChunkIds(order, NumChunks(|xs|)) && c < NumChunks(|xs|)
    ensures Blocks(eval, xs, order + [c]) == Blocks(eval, xs, order) + Flat(eval, ChunkAt(xs, c))
  {
    assert (order + [c])[..|order|] == order;
  }

  /** Taking one chunk out of the order takes exactly its results out. */
  lemma {:induction false} BlocksRemove<T, A>(eval: T -> seq<A>, xs: seq<T>, order: seq<nat>, i: nat)
    requires ChunkIds(order, NumChunks(|xs|)) && i < |order|
    ensures multiset(Blocks(eval, xs, order))
            == multiset(Blocks(eval, xs, Without(order, i))) + multiset(Flat(eval, ChunkAt(xs, order[i])))
  {
    hide Blocks, Flat, ChunkAt;
    var last := |order| - 1;
    var before := order[..last];
    assert order == before + [order[last]];
    BlocksAppend(eval, xs, before, order[last]);
    if i == last {
      assert Without(order, i) == before;
    } else {
      BlocksRemove(eval, xs, before, i);
      assert Without(order, i) == Without(before, i) + [order[last]];
      BlocksAppend(eval, xs, Without(before, i), order[last]);
    }
  }

  lemma LastChunkMerged(order: seq<nat>, k: nat) returns (i: nat)
    requires k > 0 && IsOrder(order, k)
    ensures i < |order| && order[i] == k - 1 && IsOrder(Without(order, i), k - 1)
  {
    var last: nat := k - 1;
    assert multiset(order)[last] == 1;
    assert last in order;
    i :| 0 <= i < |order| && order[i] == last;
    WithoutLeavesRest(order, i);
    forall c: nat ensures multiset(Without(order, i))[c] == if c < k - 1 then 1 else 0 {
      assert multiset(order)[c] == if c < k then 1 else 0;
    }
  }

  lemma NothingMerged(order: seq<nat>)
    requires IsOrder(order, 0)
    ensures order == []
  {
    assert order != [] ==> multiset(order)[order[0]] > 0;
  }

  /** Any merge order yields the same anomalies, each as often, as merging the first k chunks in order. */
  lemma {:induction false} BlocksPermutation<T, A>(eval: T -> seq<A>, xs: seq<T>, order: seq<nat>, k: nat)
    requires k <= NumChunks(|xs|) && IsOrder(order, k) && ChunkIds(order, NumChunks(|xs|))
    ensures multiset(Blocks(eval, xs, order)) == multiset(Blocks(eval, xs, UpTo(k)))
  {
    hide Blocks, Flat, ChunkAt, IsOrder;
    if k == 0 {
      NothingMerged(order);
    } else {
      var i := LastChunkMerged(order, k);
      BlocksPermutation(eval, xs, Without(order, i), k - 1);
      BlocksRemove(eval, xs, order, i);
      BlocksAppend(eval, xs, UpTo(k - 1), k - 1);
    }
  }

  /** Whatever the merge order, the batch yields exactly the sequential anomalies. */
  lemma AnyOrderSameResults<T, A>(eval: T -> seq<A>, xs: seq<T>, order: seq<nat>)
    requires IsOrder(order, NumChunks(|xs|))
    ensures ChunkIds(order, NumChunks(|xs|))
    ensures multiset(Blocks(eval, xs, order)) == multiset(Flat(eval, xs))
  {
    var k := NumChunks(|xs|);
    OrderInRange(order, k);
    BlocksPermutation(eval, xs, order, k);
    ChunksTile(eval, xs, k);
    assert xs[..Min(k * CHUNK_SIZE, |xs|)] == xs;
  }

  // ----- merging one chunk at a time -----

  /** Every chunk below n has been merged once or is still pending. */
  ghost predicate MergedOrPending(order: seq<nat>, pending: set<nat>, n: nat) {
    && (forall c :: c in pending ==> c < n)
    && (forall c: nat :: multiset(order)[c] == if c < n && c !in pending then 1 else 0)
  }

  function Ids(n: nat): (r: set<nat>)
    ensures forall c: nat :: c in r <==> c < n
  {
    if n == 0 then {} else Ids(n - 1) + {n - 1}
  }

  lemma NoneMerged(n: nat)
    ensures MergedOrPending([], Ids(n), n)
  {}

  lemma MergeOne(order: seq<nat>, pending: set<nat>, n: nat, c: nat)
    requires MergedOrPending(order, pending, n) && c in pending
    ensures c < n && MergedOrPending(order + [c], pending - {c}, n)
  {
    forall k: nat ensures multiset(order + [c])[k] == if k < n && k !in pending - {c} then 1 else 0 {
      assert multiset(order)[k] == if k < n && k !in pending then 1 else 0;
    }
  }

  lemma AllMerged(order: seq<nat>, n: nat)
    requires MergedOrPending(order, {}, n)
    ensures IsOrder(order, n)
  {
    forall c: nat ensures multiset(order)[c] == if c < n then 1 else 0 {}
  }
}
