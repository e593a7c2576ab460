/** Facts about sequences and multisets that several modules need. */
module Sequences {

  lemma TwoIndicesTwoCopies<T>(s: seq<T>, i: nat, j: nat)
    requires i < j < |s| && s[i] == s[j]
    ensures multiset(s)[s[i]] >= 2
  {
    assert s == s[..i] + [s[i]] + s[i+1..j] + [s[j]] + s[j+1..];
  }

  lemma CancelSum<T>(m: multiset<T>, a: multiset<T>, b: multiset<T>)
    requires m + a == m + b
    ensures a == b
  {
    forall x ensures a[x] == b[x] {
      assert (m + a)[x] == m[x] + a[x] && (m + b)[x] == m[x] + b[x];
    }
  }

  lemma SwapSummands<T>(a: multiset<T>, b: multiset<T>, c: multiset<T>)
    ensures a + b + c == a + c + b
  {}
}
