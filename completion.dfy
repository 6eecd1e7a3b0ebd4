/** `concurrent.futures.as_completed` seen from the caller: the submitted
    futures, numbered 0 .. n-1, come back one at a time, each exactly once,
    in an order the scheduler chooses. That order is an input of the model. */
module Completion {

  function Range(n: nat): (r: seq<nat>)
    ensures |r| == n && forall i :: 0 <= i < n ==> r[i] == i
  {
    seq(n, i => i)
  }

  /** `order` yields every one of the `n` futures exactly once. */
  predicate IsPermutation(order: seq<nat>, n: nat) {
    multiset(order) == multiset(Range(n))
  }

  predicate InRange(order: seq<nat>, n: nat) {
    forall k :: 0 <= k < |order| ==> order[k] < n
  }

  predicate Distinct<T(==)>(s: seq<T>) {
    forall a, b :: 0 <= a < b < |s| ==> s[a] != s[b]
  }

  /** A completion order names only submitted futures, names each once, and
      has one entry per future. */
  lemma PermutationSpec(order: seq<nat>, n: nat)
    requires IsPermutation(order, n)
    ensures InRange(order, n)
    ensures Distinct(order)
    ensures |order| == n
  {
    forall k | 0 <= k < |order| ensures order[k] < n {
      assert order[k] in multiset(order);
      assert order[k] in Range(n);
    }
    assert |order| == |multiset(order)| == |multiset(Range(n))| == n;
    forall a, b | 0 <= a < b < |order| ensures order[a] != order[b] {
      if order[a] == order[b] {
        DuplicateCount(order, a, b);
        DistinctCount(Range(n), order[a]);
        assert false;
      }
    }
  }

  lemma {:induction false} DistinctCount<T>(s: seq<T>, v: T)
    requires Distinct(s)
    ensures multiset(s)[v] <= 1
  {
    if s != [] {
      var s', x := s[..|s| - 1], s[|s| - 1];
      assert s == s' + [x];
      assert Distinct(s');
      DistinctCount(s', v);
      if x == v {
        assert v !in s';
      }
    }
  }

  lemma DuplicateCount<T>(s: seq<T>, a: nat, b: nat)
    requires a < b < |s| && s[a] == s[b]
    ensures multiset(s)[s[a]] >= 2
  {
    var front := s[..b];
    assert s == front + [s[b]] + s[b + 1..];
    assert front[a] == s[a];
    assert s[a] in multiset(front);
  }
}
