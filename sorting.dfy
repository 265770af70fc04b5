/**
 * The three sorts of backend.py (`merge_sort`/`merge`, `quick_sort`, `heap_sort`), each
 * ordering candidate tuples by descending experience, and the facts that make them agree:
 * each is a stable descending sort, and a stable descending sort of a list whose ids
 * increase is unique.
 */
module Sorting {
  import opened Seqs

  /** A candidate tuple `(i, Experience_Value, row)` reduced to what the sorts look at: the
      index `i` and the experience value the tuple is sorted by. */
  datatype Entry = Entry(id: nat, key: nat)

  /** Non-increasing experience. */
  predicate Descending(s: seq<Entry>) {
    forall i, j :: 0 <= i < j < |s| ==> s[i].key >= s[j].key
  }

  /** Strictly increasing ids. */
  predicate IdsIncreasing(s: seq<Entry>) {
    forall i, j :: 0 <= i < j < |s| ==> s[i].id < s[j].id
  }

  /** The order all three sorts produce on candidates: higher experience first, equal
      experience by increasing index. */
  predicate Precedes(x: Entry, y: Entry) {
    x.key > y.key || (x.key == y.key && x.id < y.id)
  }

  predicate Ordered(s: seq<Entry>) {
    forall i, j :: 0 <= i < j < |s| ==> Precedes(s[i], s[j])
  }

  /** The entries with experience `k`, in order: `[x for x in arr if x[1] == k]`. For a sort,
      these are the ties of `k`, whose relative order a stable sort keeps. */
  function WithKey(s: seq<Entry>, k: nat): (r: seq<Entry>)
    ensures |r| <= |s|
  {
    if s == [] then [] else (if s[0].key == k then [s[0]] else []) + WithKey(s[1..], k)
  }

  /** `[x for x in arr if x[1] > p]`. */
  function Above(s: seq<Entry>, p: nat): seq<Entry> {
    if s == [] then [] else (if s[0].key > p then [s[0]] else []) + Above(s[1..], p)
  }

  /** `[x for x in arr if x[1] < p]`. */
  function Below(s: seq<Entry>, p: nat): seq<Entry> {
    if s == [] then [] else (if s[0].key < p then [s[0]] else []) + Below(s[1..], p)
  }

  // ---------------------------------------------------------------------------------------
  // Facts about the three filters and about descending order

  lemma {:induction false} WithKeyAppend(a: seq<Entry>, b: seq<Entry>, k: nat)
    ensures WithKey(a + b, k) == WithKey(a, k) + WithKey(b, k)
  {
    if a == [] {
      assert a + b == b;
    } else {
      assert (a + b)[0] == a[0] && (a + b)[1..] == a[1..] + b;
      WithKeyAppend(a[1..], b, k);
      Regroup(if a[0].key == k then [a[0]] else [], WithKey(a[1..], k), WithKey(b, k));
    }
  }

  lemma WithKeyCons(x: Entry, s: seq<Entry>, k: nat)
    ensures WithKey([x] + s, k) == (if x.key == k then [x] else []) + WithKey(s, k)
  {
    assert ([x] + s)[0] == x && ([x] + s)[1..] == s;
  }

  lemma {:induction false} WithKeyMembers(s: seq<Entry>, k: nat, x: Entry)
    ensures x in WithKey(s, k) <==> x in s && x.key == k
  {
    if s != [] {
      WithKeyMembers(s[1..], k, x);
      assert s == [s[0]] + s[1..];
    }
  }

  lemma {:induction false} AboveMembers(s: seq<Entry>, p: nat, x: Entry)
    ensures x in Above(s, p) <==> x in s && x.key > p
  {
    if s != [] {
      AboveMembers(s[1..], p, x);
      assert s == [s[0]] + s[1..];
    }
  }

  lemma {:induction false} BelowMembers(s: seq<Entry>, p: nat, x: Entry)
    ensures x in Below(s, p) <==> x in s && x.key < p
  {
    if s != [] {
      BelowMembers(s[1..], p, x);
      assert s == [s[0]] + s[1..];
    }
  }

  /** The three groups of `quick_sort` split the list: their lengths add up. */
  lemma {:induction false} PartitionSizes(s: seq<Entry>, p: nat)
    ensures |Above(s, p)| + |WithKey(s, p)| + |Below(s, p)| == |s|
  {
    if s != [] {
      PartitionSizes(s[1..], p);
    }
  }

  /** The ties of `k` hold every copy of each entry of key `k`, and nothing else. */
  lemma {:induction false} WithKeyCount(s: seq<Entry>, k: nat, x: Entry)
    ensures multiset(WithKey(s, k))[x] == if x.key == k then multiset(s)[x] else 0
  {
    if s != [] {
      var y, t := s[0], s[1..];
      WithKeyCount(t, k, x);
      assert s == [y] + t;
      assert multiset(s)[x] == multiset([y])[x] + multiset(t)[x];
      var head := if y.key == k then [y] else [];
      assert WithKey(s, k) == head + WithKey(t, k);
      assert multiset(WithKey(s, k))[x] == multiset(head)[x] + multiset(WithKey(t, k))[x];
    }
  }

  /** Two lists with the same ties for every key are permutations of each other. */
  lemma SameTiesPermutes(a: seq<Entry>, b: seq<Entry>)
    requires forall k :: WithKey(a, k) == WithKey(b, k)
    ensures multiset(a) == multiset(b)
  {
    forall x
      ensures multiset(a)[x] == multiset(b)[x]
    {
      WithKeyCount(a, x.key, x);
      WithKeyCount(b, x.key, x);
      assert WithKey(a, x.key) == WithKey(b, x.key);
    }
  }

  /** The group of the pivot's own value is never empty. */
  lemma WithKeyHas(s: seq<Entry>, i: nat)
    requires i < |s|
    ensures WithKey(s, s[i].key) != []
  {
    WithKeyMembers(s, s[i].key, s[i]);
  }

  /** Keeping the entries of key `k` from the entries above `p`. */
  lemma {:induction false} WithKeyOfAbove(s: seq<Entry>, p: nat, k: nat)
    ensures WithKey(Above(s, p), k) == if k > p then WithKey(s, k) else []
  {
    if s != [] {
      WithKeyOfAbove(s[1..], p, k);
      var head := if s[0].key > p then [s[0]] else [];
      WithKeyAppend(head, Above(s[1..], p), k);
    }
  }

  /** Keeping the entries of key `k` from the entries below `p`. */
  lemma {:induction false} WithKeyOfBelow(s: seq<Entry>, p: nat, k: nat)
    ensures WithKey(Below(s, p), k) == if k < p then WithKey(s, k) else []
  {
    if s != [] {
      WithKeyOfBelow(s[1..], p, k);
      var head := if s[0].key < p then [s[0]] else [];
      WithKeyAppend(head, Below(s[1..], p), k);
    }
  }

  /** Keeping the entries of key `k` from the entries of key `p`. */
  lemma {:induction false} WithKeyOfWithKey(s: seq<Entry>, p: nat, k: nat)
    ensures WithKey(WithKey(s, p), k) == if k == p then WithKey(s, k) else []
  {
    if s != [] {
      WithKeyOfWithKey(s[1..], p, k);
      var head := if s[0].key == p then [s[0]] else [];
      WithKeyAppend(head, WithKey(s[1..], p), k);
    }
  }

  /** A descending list whose first key is below `k` holds no entry of key `k`. */
  lemma {:induction false} WithKeyBelowHead(s: seq<Entry>, k: nat)
    requires Descending(s)
    requires s != [] && s[0].key < k
    ensures WithKey(s, k) == []
  {
    if |s| > 1 {
      assert s[1].key <= s[0].key;
      WithKeyBelowHead(s[1..], k);
    }
  }

  /** Descending order built from a head that is at least every later key. */
  lemma DescendingCons(x: Entry, s: seq<Entry>)
    requires Descending(s)
    requires forall y :: y in s ==> x.key >= y.key
    ensures Descending([x] + s)
  {
    var r := [x] + s;
    forall i, j | 0 <= i < j < |r|
      ensures r[i].key >= r[j].key
    {
      assert r[j] == s[j - 1];
      if i > 0 {
        assert r[i] == s[i - 1];
      }
    }
  }

  /** Descending order of a concatenation whose left part is at least its right part. */
  lemma DescendingAppend(a: seq<Entry>, b: seq<Entry>)
    requires Descending(a) && Descending(b)
    requires forall x, y :: x in a && y in b ==> x.key >= y.key
    ensures Descending(a + b)
  {
    var r := a + b;
    forall i, j | 0 <= i < j < |r|
      ensures r[i].key >= r[j].key
    {
      if j < |a| {
        assert r[i] == a[i] && r[j] == a[j];
      } else if i >= |a| {
        assert r[i] == b[i - |a|] && r[j] == b[j - |a|];
      } else {
        assert r[i] == a[i] && r[j] == b[j - |a|];
      }
    }
  }

  // ---------------------------------------------------------------------------------------
  // merge_sort and merge

  /** What `merge` returns: repeatedly the front of `left` when its experience is at least
      that of the front of `right` (`>=`, so ties come from `left`), otherwise the front of
      `right`; then what remains of both. */
  function Merged(left: seq<Entry>, right: seq<Entry>): seq<Entry>
    decreases |left| + |right|
  {
    if left == [] then right
    else if right == [] then left
    else if left[0].key >= right[0].key then [left[0]] + Merged(left[1..], right)
    else [right[0]] + Merged(left, right[1..])
  }

  /** Merging brings in nothing new. */
  lemma {:induction false} MergedMembers(left: seq<Entry>, right: seq<Entry>, y: Entry)
    ensures y in Merged(left, right) ==> y in left || y in right
    decreases |left| + |right|
  {
    if left != [] && right != [] {
      if left[0].key >= right[0].key {
        MergedMembers(left[1..], right, y);
        assert left == [left[0]] + left[1..];
      } else {
        MergedMembers(left, right[1..], y);
        assert right == [right[0]] + right[1..];
      }
    }
  }

  /** `merge`: the `while left and right` loop popping the front of one list onto `result`,
      then `result + left + right`. Its result is `Merged(left0, right0)`, so `MergeSort`,
      which merges with `Merged`, sorts exactly as the loop does. */
  method Merge(left0: seq<Entry>, right0: seq<Entry>) returns (result: seq<Entry>)
    ensures result == Merged(left0, right0)
  {
    var left, right := left0, right0;
    result := [];
    while left != [] && right != []
      invariant result + Merged(left, right) == Merged(left0, right0)
      decreases |left| + |right|
    {
      if left[0].key >= right[0].key {
        Regroup(result, [left[0]], Merged(left[1..], right));
        result := result + [left[0]];
        left := left[1..];
      } else {
        Regroup(result, [right[0]], Merged(left, right[1..]));
        result := result + [right[0]];
        right := right[1..];
      }
    }
    Regroup(result, left, right);
    result := result + left + right;
  }

  /** Merging two descending lists gives a descending list. */
  lemma {:induction false} MergedDescending(left: seq<Entry>, right: seq<Entry>)
    requires Descending(left) && Descending(right)
    ensures Descending(Merged(left, right))
    decreases |left| + |right|
  {
    if left != [] && right != [] {
      if left[0].key >= right[0].key {
        var rest := Merged(left[1..], right);
        MergedDescending(left[1..], right);
        forall y | y in rest
          ensures left[0].key >= y.key
        {
          MergedMembers(left[1..], right, y);
          if y in left[1..] {
            var j :| 0 <= j < |left[1..]| && left[1..][j] == y;
            assert left[j + 1] == y;
          } else {
            assert y in right;
            var j :| 0 <= j < |right| && right[j] == y;
          }
        }
        DescendingCons(left[0], rest);
      } else {
        var rest := Merged(left, right[1..]);
        MergedDescending(left, right[1..]);
        forall y | y in rest
          ensures right[0].key >= y.key
        {
          MergedMembers(left, right[1..], y);
          if y in left {
            var j :| 0 <= j < |left| && left[j] == y;
          } else {
            assert y in right[1..];
            var j :| 0 <= j < |right[1..]| && right[1..][j] == y;
            assert right[j + 1] == y;
          }
        }
        DescendingCons(right[0], rest);
      }
    }
  }

  /** Merging keeps ties in order, those of `left` before those of `right`. */
  lemma {:induction false} MergedWithKey(left: seq<Entry>, right: seq<Entry>, k: nat)
    requires Descending(left)
    ensures WithKey(Merged(left, right), k) == WithKey(left, k) + WithKey(right, k)
    decreases |left| + |right|
  {
    if left == [] {
      assert WithKey(left, k) == [];
    } else if right == [] {
      assert WithKey(right, k) == [];
    } else if left[0].key >= right[0].key {
      var head := if left[0].key == k then [left[0]] else [];
      MergedWithKey(left[1..], right, k);
      WithKeyCons(left[0], Merged(left[1..], right), k);
      Regroup(head, WithKey(left[1..], k), WithKey(right, k));
    } else {
      var head := if right[0].key == k then [right[0]] else [];
      MergedWithKey(left, right[1..], k);
      WithKeyCons(right[0], Merged(left, right[1..]), k);
      if right[0].key == k {
        WithKeyBelowHead(left, k);
      }
      Swap(head, WithKey(left, k), WithKey(right[1..], k));
    }
  }

  /** A part that is empty can move past the other. */
  lemma Swap(h: seq<Entry>, l: seq<Entry>, r: seq<Entry>)
    requires h == [] || l == []
    ensures h + (l + r) == l + (h + r)
  {
    if h == [] {
      assert h + (l + r) == l + r;
    } else {
      assert l + (h + r) == h + r;
    }
  }

  /** `merge_sort`: lists of length at most one are returned as they are; longer ones are
      split at `len // 2`, both halves sorted, and the results merged. */
  function MergeSort(s: seq<Entry>): seq<Entry>
    decreases |s|
  {
    if |s| > 1 then
      var mid := |s| / 2;
      Merged(MergeSort(s[..mid]), MergeSort(s[mid..]))
    else s
  }

  lemma {:induction false} MergeSortDescending(s: seq<Entry>)
    ensures Descending(MergeSort(s))
    decreases |s|
  {
    if |s| > 1 {
      var mid := |s| / 2;
      MergeSortDescending(s[..mid]);
      MergeSortDescending(s[mid..]);
      MergedDescending(MergeSort(s[..mid]), MergeSort(s[mid..]));
    }
  }

  /** `merge_sort` is stable: the entries of each experience value keep their input order. */
  lemma {:induction false} MergeSortWithKey(s: seq<Entry>, k: nat)
    ensures WithKey(MergeSort(s), k) == WithKey(s, k)
    decreases |s|
  {
    if |s| > 1 {
      var mid := |s| / 2;
      MergeSortWithKey(s[..mid], k);
      MergeSortWithKey(s[mid..], k);
      MergeSortDescending(s[..mid]);
      MergedWithKey(MergeSort(s[..mid]), MergeSort(s[mid..]), k);
      assert s == s[..mid] + s[mid..];
      WithKeyAppend(s[..mid], s[mid..], k);
    }
  }

  /** `merge_sort` returns a permutation of its input. */
  lemma MergeSortPermutes(s: seq<Entry>)
    ensures multiset(MergeSort(s)) == multiset(s)
  {
    forall k
      ensures WithKey(MergeSort(s), k) == WithKey(s, k)
    {
      MergeSortWithKey(s, k);
    }
    SameTiesPermutes(MergeSort(s), s);
  }

  // ---------------------------------------------------------------------------------------
  // quick_sort

  /** `quick_sort`: lists of length at most one are returned as they are; otherwise the
      pivot is the experience of the entry at index `len // 2`, and the result is the sorted
      entries above it, then those equal to it in their input order, then the sorted entries
      below it. */
  function QuickSort(s: seq<Entry>): seq<Entry>
    decreases |s|
  {
    if |s| <= 1 then s
    else
      var pivot := s[|s| / 2].key;
      PartitionSizes(s, pivot);
      WithKeyHas(s, |s| / 2);
      QuickSort(Above(s, pivot)) + WithKey(s, pivot) + QuickSort(Below(s, pivot))
  }

  /** Of the ties of `k` in the three groups, only the group that `k` falls into is
      non-empty, and it holds all ties `t` of the input. */
  lemma OneGroup(x: seq<Entry>, y: seq<Entry>, z: seq<Entry>, t: seq<Entry>, p: nat, k: nat)
    requires x == if k > p then t else []
    requires y == if k == p then t else []
    requires z == if k < p then t else []
    ensures x + y + z == t
  {
    if k > p {
      assert t + [] + [] == t;
    } else if k == p {
      assert [] + t + [] == t;
    } else {
      assert [] + [] + t == t;
    }
  }

  /** `quick_sort` is stable: the entries of each experience value keep their input order. */
  lemma {:induction false} QuickSortWithKey(s: seq<Entry>, k: nat)
    ensures WithKey(QuickSort(s), k) == WithKey(s, k)
    decreases |s|
  {
    if |s| > 1 {
      var pivot := s[|s| / 2].key;
      var above, middle, below := Above(s, pivot), WithKey(s, pivot), Below(s, pivot);
      PartitionSizes(s, pivot);
      WithKeyHas(s, |s| / 2);
      QuickSortWithKey(above, k);
      QuickSortWithKey(below, k);
      WithKeyOfAbove(s, pivot, k);
      WithKeyOfWithKey(s, pivot, k);
      WithKeyOfBelow(s, pivot, k);
      WithKeyAppend(QuickSort(above) + middle, QuickSort(below), k);
      WithKeyAppend(QuickSort(above), middle, k);
      OneGroup(WithKey(QuickSort(above), k), WithKey(middle, k), WithKey(QuickSort(below), k),
               WithKey(s, k), pivot, k);
    }
  }

  /** An entry is in the output of `quick_sort` exactly when it is in the input. */
  lemma QuickSortMembers(s: seq<Entry>, x: Entry)
    ensures x in QuickSort(s) <==> x in s
  {
    QuickSortWithKey(s, x.key);
    WithKeyMembers(QuickSort(s), x.key, x);
    WithKeyMembers(s, x.key, x);
  }

  /** Entries of one key are trivially in descending order. */
  lemma WithKeyDescending(s: seq<Entry>, k: nat)
    ensures Descending(WithKey(s, k))
  {
    var w := WithKey(s, k);
    forall i, j | 0 <= i < j < |w|
      ensures w[i].key >= w[j].key
    {
      WithKeyMembers(s, k, w[i]);
      WithKeyMembers(s, k, w[j]);
    }
  }

  lemma {:induction false} QuickSortDescending(s: seq<Entry>)
    ensures Descending(QuickSort(s))
    decreases |s|
  {
    if |s| > 1 {
      var pivot := s[|s| / 2].key;
      var above, middle, below := Above(s, pivot), WithKey(s, pivot), Below(s, pivot);
      PartitionSizes(s, pivot);
      WithKeyHas(s, |s| / 2);
      QuickSortDescending(above);
      QuickSortDescending(below);
      WithKeyDescending(s, pivot);
      forall x, y | x in QuickSort(above) && y in middle
        ensures x.key >= y.key
      {
        QuickSortMembers(above, x);
        AboveMembers(s, pivot, x);
        WithKeyMembers(s, pivot, y);
      }
      DescendingAppend(QuickSort(above), middle);
      forall x, y | x in QuickSort(above) + middle && y in QuickSort(below)
        ensures x.key >= y.key
      {
        QuickSortMembers(above, x);
        AboveMembers(s, pivot, x);
        WithKeyMembers(s, pivot, x);
        QuickSortMembers(below, y);
        BelowMembers(s, pivot, y);
      }
      DescendingAppend(QuickSort(above) + middle, QuickSort(below));
    }
  }

  /** `quick_sort` returns a permutation of its input. */
  lemma QuickSortPermutes(s: seq<Entry>)
    ensures multiset(QuickSort(s)) == multiset(s)
  {
    forall k
      ensures WithKey(QuickSort(s), k) == WithKey(s, k)
    {
      QuickSortWithKey(s, k);
    }
    SameTiesPermutes(QuickSort(s), s);
  }

  // ---------------------------------------------------------------------------------------
  // Why the three sorts agree

  /** The ties of `a` and `b` for every key coincide once the same head is removed. */
  lemma SameTiesTail(a: seq<Entry>, b: seq<Entry>)
    requires a != [] && b != [] && a[0] == b[0]
    requires forall k :: WithKey(a, k) == WithKey(b, k)
    ensures forall k :: WithKey(a[1..], k) == WithKey(b[1..], k)
  {
    forall k
      ensures WithKey(a[1..], k) == WithKey(b[1..], k)
    {
      var head := if a[0].key == k then [a[0]] else [];
      assert a == [a[0]] + a[1..] && b == [b[0]] + b[1..];
      WithKeyCons(a[0], a[1..], k);
      WithKeyCons(b[0], b[1..], k);
      assert (head + WithKey(a[1..], k))[|head|..] == WithKey(a[1..], k);
      assert (head + WithKey(b[1..], k))[|head|..] == WithKey(b[1..], k);
    }
  }

  /** Two descending lists with the same ties start with the same entry: the first entry of
      each is among the ties of the other's first key, so the first keys are equal, and then
      each first entry heads the ties of that key. */
  lemma SameTiesHead(a: seq<Entry>, b: seq<Entry>)
    requires Descending(a) && Descending(b) && a != [] && b != []
    requires WithKey(a, a[0].key) == WithKey(b, a[0].key)
    requires WithKey(a, b[0].key) == WithKey(b, b[0].key)
    ensures a[0] == b[0]
  {
    FirstKeyBound(a, b);
    FirstKeyBound(b, a);
    var m := a[0].key;
    assert a == [a[0]] + a[1..] && b == [b[0]] + b[1..];
    WithKeyCons(a[0], a[1..], m);
    WithKeyCons(b[0], b[1..], m);
    assert WithKey(a, m)[0] == a[0];
  }

  /** The first key of `a` is present among the ties of `b`, so it is at most the first
      key of the descending list `b`. */
  lemma FirstKeyBound(a: seq<Entry>, b: seq<Entry>)
    requires Descending(b) && a != [] && b != []
    requires WithKey(a, a[0].key) == WithKey(b, a[0].key)
    ensures a[0].key <= b[0].key
  {
    WithKeyMembers(a, a[0].key, a[0]);
    WithKeyMembers(b, a[0].key, a[0]);
    var j :| 0 <= j < |b| && b[j] == a[0];
  }

  /** A stable descending sort is unique: two descending lists whose ties of every key are
      the same lists are equal. Merge sort and quick sort are both such sorts of the same
      input, so they return the same list. */
  lemma {:induction false} StableSortUnique(a: seq<Entry>, b: seq<Entry>)
    requires Descending(a) && Descending(b)
    requires forall k :: WithKey(a, k) == WithKey(b, k)
    ensures a == b
    decreases |a|
  {
    SameTiesPermutes(a, b);
    assert |a| == |multiset(a)| == |multiset(b)| == |b|;
    if a != [] {
      SameTiesHead(a, b);
      SameTiesTail(a, b);
      StableSortUnique(a[1..], b[1..]);
      assert a == [a[0]] + a[1..] && b == [b[0]] + b[1..];
    }
  }

  /** The first entry of a list in the order `Precedes` precedes every other entry. */
  lemma FirstPrecedes(s: seq<Entry>, x: Entry)
    requires Ordered(s) && x in s
    ensures x == s[0] || Precedes(s[0], x)
  {
    var j :| 0 <= j < |s| && s[j] == x;
  }

  /** Two lists in the strict order `Precedes` holding the same entries start with the same
      entry: each first entry is in the other list, so each precedes or equals the other. */
  lemma OrderedHead(a: seq<Entry>, b: seq<Entry>)
    requires Ordered(a) && Ordered(b) && a != [] && b != []
    requires multiset(a) == multiset(b)
    ensures a[0] == b[0]
  {
    assert a[0] in multiset(a) && b[0] in multiset(b);
    FirstPrecedes(a, b[0]);
    FirstPrecedes(b, a[0]);
  }

  /** Removing the same first entry from two permutations leaves two permutations. */
  lemma PermutationTail(a: seq<Entry>, b: seq<Entry>)
    requires a != [] && b != [] && a[0] == b[0]
    requires multiset(a) == multiset(b)
    ensures multiset(a[1..]) == multiset(b[1..])
  {
    MultisetTail(a);
    MultisetTail(b);
  }

  /** Removing the first element removes one copy of it. */
  lemma MultisetTail(s: seq<Entry>)
    requires s != []
    ensures multiset(s[1..]) == multiset(s) - multiset{s[0]}
  {
    assert s == [s[0]] + s[1..];
  }

  /** Two lists in the strict order `Precedes` holding the same entries are equal. */
  lemma {:induction false} OrderedUnique(a: seq<Entry>, b: seq<Entry>)
    requires Ordered(a) && Ordered(b)
    requires multiset(a) == multiset(b)
    ensures a == b
    decreases |a|
  {
    assert |a| == |multiset(a)| == |multiset(b)| == |b|;
    if a != [] {
      OrderedHead(a, b);
      PermutationTail(a, b);
      assert Ordered(a[1..]) && Ordered(b[1..]);
      OrderedUnique(a[1..], b[1..]);
      assert a == [a[0]] + a[1..] && b == [b[0]] + b[1..];
    }
  }

  /** Entries of key `k` appear in increasing id order. */
  predicate TiesByIds(s: seq<Entry>, k: nat) {
    forall i, j :: 0 <= i < j < |s| && s[i].key == k && s[j].key == k ==> s[i].id < s[j].id
  }

  /** When the entries of key `k` appear by increasing id, the ties of `k` are ordered. */
  lemma {:induction false} TiesByIdsOrdered(s: seq<Entry>, k: nat)
    requires TiesByIds(s, k)
    ensures Ordered(WithKey(s, k))
  {
    if s != [] {
      var head := if s[0].key == k then [s[0]] else [];
      var rest := WithKey(s[1..], k);
      assert TiesByIds(s[1..], k) by {
        forall i, j | 0 <= i < j < |s[1..]| && s[1..][i].key == k && s[1..][j].key == k
          ensures s[1..][i].id < s[1..][j].id
        {
          assert s[1..][i] == s[i + 1] && s[1..][j] == s[j + 1];
        }
      }
      TiesByIdsOrdered(s[1..], k);
      var r := head + rest;
      forall i, j | 0 <= i < j < |r|
        ensures Precedes(r[i], r[j])
      {
        WithKeyMembers(s[1..], k, r[j]);
        if i >= |head| {
          assert r[i] == rest[i - |head|] && r[j] == rest[j - |head|];
        } else {
          var m :| 0 <= m < |s[1..]| && s[1..][m] == r[j];
          assert s[m + 1] == r[j];
        }
      }
    }
  }

  /** The ties of `k` are ordered by id when the whole list is. */
  lemma IdsIncreasingTies(s: seq<Entry>, k: nat)
    requires IdsIncreasing(s)
    ensures Ordered(WithKey(s, k))
  {
    TiesByIdsOrdered(s, k);
  }

  /** The ties of `k` of a list in the order `Precedes` are in that order too. */
  lemma OrderedTies(s: seq<Entry>, k: nat)
    requires Ordered(s)
    ensures Ordered(WithKey(s, k))
  {
    TiesByIdsOrdered(s, k);
  }

  /** Permutations have the same ties up to order. */
  lemma WithKeyMultiset(a: seq<Entry>, b: seq<Entry>, k: nat)
    requires multiset(a) == multiset(b)
    ensures multiset(WithKey(a, k)) == multiset(WithKey(b, k))
  {
    forall x
      ensures multiset(WithKey(a, k))[x] == multiset(WithKey(b, k))[x]
    {
      WithKeyCount(a, k, x);
      WithKeyCount(b, k, x);
    }
  }

  /** A permutation of a list with increasing ids, put in the order `Precedes`, keeps the
      ties of every key in their input order: it is a stable sort. */
  lemma OrderedIsStable(s: seq<Entry>, r: seq<Entry>, k: nat)
    requires IdsIncreasing(s) && Ordered(r)
    requires multiset(r) == multiset(s)
    ensures WithKey(r, k) == WithKey(s, k)
  {
    OrderedTies(r, k);
    IdsIncreasingTies(s, k);
    WithKeyMultiset(r, s, k);
    OrderedUnique(WithKey(r, k), WithKey(s, k));
  }

  /** `merge_sort` and `quick_sort` return the same list on every input: both are stable
      descending sorts, and there is only one. */
  lemma MergeQuickAgree(s: seq<Entry>)
    ensures MergeSort(s) == QuickSort(s)
  {
    MergeSortDescending(s);
    QuickSortDescending(s);
    forall k
      ensures WithKey(MergeSort(s), k) == WithKey(QuickSort(s), k)
    {
      MergeSortWithKey(s, k);
      QuickSortWithKey(s, k);
    }
    StableSortUnique(MergeSort(s), QuickSort(s));
  }
}
