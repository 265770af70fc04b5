/** Order-preserving selection on sequences, shared by the normaliser and the filters. */
module Seqs {

  /** `a` can be obtained from `b` by deleting elements, without reordering the rest. */
  ghost predicate IsSubsequence<T>(a: seq<T>, b: seq<T>)
    decreases |b|
  {
    a == [] || (b != [] && ((a[0] == b[0] && IsSubsequence(a[1..], b[1..])) || IsSubsequence(a, b[1..])))
  }

  /** Keeping or dropping the head of `b` in front of a subsequence of its tail is a subsequence of `b`. */
  lemma SubsequenceStep<T>(x: T, a: seq<T>, b: seq<T>)
    requires IsSubsequence(a, b)
    ensures IsSubsequence([x] + a, [x] + b)
    ensures IsSubsequence(a, [x] + b)
  {
    assert ([x] + b)[1..] == b;
    assert ([x] + a)[1..] == a;
  }

  /** Every element of a subsequence is an element of the whole sequence. */
  lemma {:induction false} SubsequenceMembers<T>(a: seq<T>, b: seq<T>, x: T)
    requires IsSubsequence(a, b)
    ensures x in a ==> x in b
    decreases |b|
  {
    if x in a && b != [] {
      if a[0] == b[0] && IsSubsequence(a[1..], b[1..]) {
        if x != a[0] {
          assert a == [a[0]] + a[1..];
          SubsequenceMembers(a[1..], b[1..], x);
        }
      } else {
        SubsequenceMembers(a, b[1..], x);
      }
    }
  }

  /** A proof step only (it models nothing): concatenation regrouped, stated once so that
      long chains can be regrouped step by step. */
  lemma Regroup<T>(a: seq<T>, b: seq<T>, c: seq<T>)
    ensures a + b + c == a + (b + c)
  {
  }

  /** A proof step only (it models nothing): two singletons joined are a pair. */
  lemma Pair<T>(x: T, y: T)
    ensures [x] + [y] == [x, y]
  {
  }
}
