/**
 * Rank fusion of backend.py: each sorted candidate list becomes a map from candidate index
 * to 0-based position (`build_rank_dict`), the three positions of every candidate are
 * combined, and the candidates are sorted by the result. The average `(a + b + c) / 3` is
 * kept as the integer sum `a + b + c`: dividing by 3 does not change the order.
 */
module Consensus {
  import opened Normalizer
  import opened Sorting
  import opened Seqs
  import opened HeapSorting

  /** `[(i, df.loc[i, 'Experience_Value'], df.loc[i]) for i in df.index]` after
      `reset_index`, so the indices are the positions 0..n-1. The row itself is found again
      by its index. */
  function Candidates(records: seq<Record>): (c: seq<Entry>)
    ensures |c| == |records|
    ensures forall i :: 0 <= i < |c| ==> c[i].id == i && c[i].key == records[i].experienceValue
  {
    seq(|records|, i requires 0 <= i < |records| => Entry(i, records[i].experienceValue))
  }

  /** The candidate ids increase with the position: the sorts' ties by position are ties by id. */
  lemma CandidatesIdsIncreasing(records: seq<Record>)
    ensures IdsIncreasing(Candidates(records))
  {
  }

  // ---------------------------------------------------------------------------------------
  // build_rank_dict

  /** `{item[0]: rank for rank, item in enumerate(sorted_list)}`: positions are entered from
      the front, so a later position of the same id replaces an earlier one. */
  function RankDict(s: seq<Entry>): map<nat, nat>
    decreases |s|
  {
    if s == [] then map[] else RankDict(s[..|s| - 1])[s[|s| - 1].id := |s| - 1]
  }

  /** The ids of `s`. */
  function Ids(s: seq<Entry>): set<nat> {
    set k | 0 <= k < |s| :: s[k].id
  }

  /** The keys of the rank map are the ids of the list, and each id is mapped to its last
      position in the list. */
  lemma {:induction false} RankDictLast(s: seq<Entry>, i: nat)
    ensures i in RankDict(s) <==> i in Ids(s)
    ensures i in RankDict(s) ==> RankDict(s)[i] < |s| && s[RankDict(s)[i]].id == i
    ensures i in RankDict(s) ==> forall k :: RankDict(s)[i] < k < |s| ==> s[k].id != i
    decreases |s|
  {
    if s != [] {
      var n := |s| - 1;
      var init := s[..n];
      RankDictLast(init, i);
      assert forall k :: 0 <= k < n ==> init[k] == s[k];
      if s[n].id != i {
        assert i in Ids(init) ==> i in Ids(s);
        assert i in Ids(s) ==> i in Ids(init) by {
          if i in Ids(s) {
            var k :| 0 <= k < |s| && s[k].id == i;
            assert init[k].id == i;
          }
        }
      } else {
        assert s[n].id in Ids(s);
      }
    }
  }

  /** No id occurs twice. */
  predicate IdsDistinct(s: seq<Entry>) {
    forall a, b :: 0 <= a < b < |s| ==> s[a].id != s[b].id
  }

  /** When no id occurs twice, every id is mapped to its own position. */
  lemma RankDictPosition(s: seq<Entry>, k: nat)
    requires IdsDistinct(s) && k < |s|
    ensures s[k].id in RankDict(s) && RankDict(s)[s[k].id] == k
  {
    RankDictLast(s, s[k].id);
    assert s[k].id in Ids(s);
  }

  /** Every candidate occurs exactly once in the candidate list. */
  lemma CandidateOnce(records: seq<Record>, i: nat)
    requires i < |records|
    ensures multiset(Candidates(records))[Candidates(records)[i]] == 1
  {
    var c := Candidates(records);
    var front, back := c[..i], c[i + 1..];
    assert c == front + [c[i]] + back;
    assert forall k :: 0 <= k < |front| ==> front[k].id < i;
    assert forall k :: 0 <= k < |back| ==> back[k].id > i;
  }

  /** An entry found at two positions of `d` occurs at least twice in it. */
  lemma CountedTwice(d: seq<Entry>, a: nat, b: nat)
    requires a < b < |d| && d[a] == d[b]
    ensures multiset(d)[d[a]] >= 2
  {
    var front, back := d[..b], d[b..];
    assert d == front + back;
    assert front[a] == d[a];
    assert back[0] == d[a];
  }

  /** Any permutation of the candidates (a sort, or any other order) holds each index once,
      and each entry is the candidate its index names. */
  lemma PermutedCandidatesDistinct(records: seq<Record>, d: seq<Entry>)
    requires multiset(d) == multiset(Candidates(records))
    ensures IdsDistinct(d)
    ensures forall k :: 0 <= k < |d| ==> d[k].id < |records|
    ensures forall k :: 0 <= k < |d| ==> d[k] == Candidates(records)[d[k].id]
  {
    var c := Candidates(records);
    forall k | 0 <= k < |d|
      ensures d[k].id < |records| && d[k] == c[d[k].id]
    {
      assert d[k] in multiset(c);
    }
    forall a, b | 0 <= a < b < |d|
      ensures d[a].id != d[b].id
    {
      if d[a].id == d[b].id {
        CountedTwice(d, a, b);
        CandidateOnce(records, d[a].id);
        assert false;
      }
    }
  }

  /** The rank map of a sort of the candidates has exactly the indices 0..n-1 as keys. */
  lemma RankDictIndex(records: seq<Record>, d: seq<Entry>, i: nat)
    requires multiset(d) == multiset(Candidates(records))
    requires forall k :: 0 <= k < |d| ==> d[k].id < |records|
    ensures i in RankDict(d) <==> i < |records|
    ensures i in RankDict(d) ==> RankDict(d)[i] < |d| && d[RankDict(d)[i]].id == i
  {
    var c := Candidates(records);
    RankDictLast(d, i);
    if i < |records| {
      assert c[i] in multiset(d);
      var k :| 0 <= k < |d| && d[k] == c[i];
      assert i in Ids(d);
    }
  }

  /** `build_rank_dict` on any permutation of the candidates (in particular on each of the
      three sorts) is a bijection
      between the indices 0..n-1 and the positions 0..n-1: every index has a position,
      holding that index, and every position is the rank of the index it holds. */
  lemma RankDictBijection(records: seq<Record>, d: seq<Entry>)
    requires multiset(d) == multiset(Candidates(records))
    ensures forall k :: 0 <= k < |d| ==> d[k].id < |records|
    ensures forall i: nat :: i in RankDict(d) <==> i < |records|
    ensures forall i :: 0 <= i < |records| ==> RankDict(d)[i] < |d| && d[RankDict(d)[i]].id == i
    ensures forall k :: 0 <= k < |d| ==> RankDict(d)[d[k].id] == k
  {
    PermutedCandidatesDistinct(records, d);
    forall i: nat
      ensures i in RankDict(d) <==> i < |records|
      ensures i in RankDict(d) ==> RankDict(d)[i] < |d| && d[RankDict(d)[i]].id == i
    {
      RankDictIndex(records, d, i);
    }
    forall k | 0 <= k < |d|
      ensures RankDict(d)[d[k].id] == k
    {
      RankDictPosition(d, k);
    }
  }

  // ---------------------------------------------------------------------------------------
  // Averages and the final sort

  /** The loop building `average_ranks`: for every index `i`, the entry `(i, score)` with the
      score the sum of the three ranks. The maps must hold every index, as the rank maps of
      sorts of the candidates do. */
  method AverageRanks(n: nat, mergeRanks: map<nat, nat>, quickRanks: map<nat, nat>, heapRanks: map<nat, nat>)
    returns (averageRanks: seq<Entry>)
    requires forall i :: 0 <= i < n ==> i in mergeRanks && i in quickRanks && i in heapRanks
    ensures |averageRanks| == n
    ensures forall i :: 0 <= i < n ==>
      averageRanks[i] == Entry(i, mergeRanks[i] + quickRanks[i] + heapRanks[i])
  {
    averageRanks := [];
    var i := 0;
    while i < n
      invariant i <= n && |averageRanks| == i
      invariant forall j :: 0 <= j < i ==>
        averageRanks[j] == Entry(j, mergeRanks[j] + quickRanks[j] + heapRanks[j])
    {
      averageRanks := averageRanks + [Entry(i, mergeRanks[i] + quickRanks[i] + heapRanks[i])];
      i := i + 1;
    }
  }

  /** Non-decreasing score. */
  predicate Ascending(s: seq<Entry>) {
    forall i, j :: 0 <= i < j < |s| ==> s[i].key <= s[j].key
  }

  /** Strictly increasing score. */
  predicate StrictlyAscending(s: seq<Entry>) {
    forall i, j :: 0 <= i < j < |s| ==> s[i].key < s[j].key
  }

  /** Inserts `x` after every entry whose score is at most its own. */
  function Insert(x: Entry, s: seq<Entry>): (r: seq<Entry>)
    ensures |r| == |s| + 1
  {
    if s == [] then [x]
    else if x.key < s[0].key then [x] + s
    else [s[0]] + Insert(x, s[1..])
  }

  /** `sorted(average_ranks, key=lambda x: x[1])`, a stable sort by ascending score,
      computed by inserting the entries one after another from the front. */
  function SortByScore(s: seq<Entry>): (r: seq<Entry>)
    ensures |r| == |s|
  {
    if s == [] then [] else Insert(s[|s| - 1], SortByScore(s[..|s| - 1]))
  }

  lemma {:induction false} InsertMultiset(x: Entry, s: seq<Entry>)
    ensures multiset(Insert(x, s)) == multiset(s) + multiset{x}
  {
    if s != [] && x.key >= s[0].key {
      InsertMultiset(x, s[1..]);
      assert s == [s[0]] + s[1..];
    }
  }

  lemma {:induction false} InsertAscending(x: Entry, s: seq<Entry>)
    requires Ascending(s)
    ensures Ascending(Insert(x, s))
  {
    if s != [] && x.key >= s[0].key {
      var rest := Insert(x, s[1..]);
      InsertAscending(x, s[1..]);
      InsertMultiset(x, s[1..]);
      forall j | 0 <= j < |rest|
        ensures s[0].key <= rest[j].key
      {
        assert rest[j] in multiset(s[1..]) + multiset{x};
        if rest[j] != x {
          var m :| 0 <= m < |s[1..]| && s[1..][m] == rest[j];
          assert s[m + 1] == rest[j];
        }
      }
      var r := [s[0]] + rest;
      forall i, j | 0 <= i < j < |r|
        ensures r[i].key <= r[j].key
      {
        assert r[j] == rest[j - 1];
        if i > 0 {
          assert r[i] == rest[i - 1];
        }
      }
    }
  }

  /** Inserting `x` puts it after the ties of its score. */
  lemma {:induction false} InsertWithKey(x: Entry, s: seq<Entry>, k: nat)
    requires Ascending(s)
    ensures WithKey(Insert(x, s), k) == WithKey(s, k) + (if x.key == k then [x] else [])
  {
    var tail := if x.key == k then [x] else [];
    if s == [] {
      assert WithKey([x], k) == tail + WithKey([], k);
    } else if x.key < s[0].key {
      WithKeyCons(x, s, k);
      if x.key == k {
        AscendingAbove(s, k);
      }
      assert WithKey(s, k) == [] || tail == [];
    } else {
      var head := if s[0].key == k then [s[0]] else [];
      InsertWithKey(x, s[1..], k);
      WithKeyCons(s[0], Insert(x, s[1..]), k);
      assert s == [s[0]] + s[1..];
      WithKeyCons(s[0], s[1..], k);
      Regroup(head, WithKey(s[1..], k), tail);
    }
  }

  /** An ascending list whose first score is above `k` holds no entry of score `k`. */
  lemma {:induction false} AscendingAbove(s: seq<Entry>, k: nat)
    requires Ascending(s)
    requires s != [] && s[0].key > k
    ensures WithKey(s, k) == []
  {
    if |s| > 1 {
      assert s[1].key >= s[0].key;
      AscendingAbove(s[1..], k);
    }
  }

  lemma {:induction false} SortByScoreAscending(s: seq<Entry>)
    ensures Ascending(SortByScore(s))
  {
    if s != [] {
      SortByScoreAscending(s[..|s| - 1]);
      InsertAscending(s[|s| - 1], SortByScore(s[..|s| - 1]));
    }
  }

  /** The final sort returns a permutation of its input. */
  lemma {:induction false} SortByScorePermutes(s: seq<Entry>)
    ensures multiset(SortByScore(s)) == multiset(s)
  {
    if s != [] {
      var init, last := s[..|s| - 1], s[|s| - 1];
      SortByScorePermutes(init);
      InsertMultiset(last, SortByScore(init));
      assert s == init + [last];
    }
  }

  /** The final sort is stable: the entries of each score keep their input order. */
  lemma {:induction false} SortByScoreWithKey(s: seq<Entry>, k: nat)
    ensures WithKey(SortByScore(s), k) == WithKey(s, k)
  {
    if s != [] {
      var init, last := s[..|s| - 1], s[|s| - 1];
      SortByScoreWithKey(init, k);
      SortByScoreAscending(init);
      InsertWithKey(last, SortByScore(init), k);
      assert s == init + [last];
      WithKeyAppend(init, [last], k);
      assert WithKey([last], k) == (if last.key == k then [last] else []) + WithKey([], k);
    }
  }

  /** The first entry of an ascending list has the least score. */
  lemma FirstLeast(s: seq<Entry>, x: Entry)
    requires Ascending(s) && x in s
    ensures s[0].key <= x.key
  {
    var j :| 0 <= j < |s| && s[j] == x;
  }

  /** An ascending permutation of a list with strictly ascending scores is that list. */
  lemma {:induction false} AscendingUnique(a: seq<Entry>, b: seq<Entry>)
    requires Ascending(a) && StrictlyAscending(b)
    requires multiset(a) == multiset(b)
    ensures a == b
    decreases |a|
  {
    assert |a| == |multiset(a)| == |multiset(b)| == |b|;
    if a != [] {
      assert a[0] in multiset(b) && b[0] in multiset(a);
      FirstLeast(a, b[0]);
      var j :| 0 <= j < |b| && b[j] == a[0];
      assert j == 0;
      PermutationTail(a, b);
      assert Ascending(a[1..]) && StrictlyAscending(b[1..]);
      AscendingUnique(a[1..], b[1..]);
      assert a == [a[0]] + a[1..] && b == [b[0]] + b[1..];
    }
  }

  // ---------------------------------------------------------------------------------------
  // Rescoring by rank

  /** An entry re-scored with three times the rank of its id. */
  function Rescored(x: Entry, ranks: map<nat, nat>): Entry {
    Entry(x.id, if x.id in ranks then 3 * ranks[x.id] else 0)
  }

  /** Each entry re-scored with three times the rank of its id. */
  function Rescore(s: seq<Entry>, ranks: map<nat, nat>): (r: seq<Entry>)
    ensures |r| == |s|
    ensures forall k :: 0 <= k < |s| ==> r[k] == Rescored(s[k], ranks)
  {
    seq(|s|, k requires 0 <= k < |s| => Rescored(s[k], ranks))
  }

  /** Removing the element at `j` removes one copy of it. */
  lemma MultisetRemove(t: seq<Entry>, j: nat)
    requires j < |t|
    ensures multiset(t) == multiset(t[..j] + t[j + 1..]) + multiset{t[j]}
    ensures multiset(t[..j] + t[j + 1..]) == multiset(t) - multiset{t[j]}
  {
    assert t == t[..j] + [t[j]] + t[j + 1..];
  }

  /** Re-scoring commutes with removing an element. */
  lemma RescoreRemove(t: seq<Entry>, j: nat, ranks: map<nat, nat>)
    requires j < |t|
    ensures multiset(Rescore(t, ranks)) == multiset(Rescore(t[..j] + t[j + 1..], ranks)) + multiset{Rescored(t[j], ranks)}
  {
    var r := Rescore(t, ranks);
    assert Rescore(t[..j] + t[j + 1..], ranks) == r[..j] + r[j + 1..];
    MultisetRemove(r, j);
  }

  /** Removing the same element from two permutations leaves two permutations. */
  lemma PermutationRemove(s: seq<Entry>, t: seq<Entry>, j: nat)
    requires multiset(s) == multiset(t)
    requires s != [] && j < |t| && t[j] == s[0]
    ensures multiset(s[1..]) == multiset(t[..j] + t[j + 1..])
  {
    var x := s[0];
    MultisetRemove(t, j);
    MultisetTail(s);
    assert multiset(t[..j] + t[j + 1..]) == multiset(t) - multiset{x};
    assert multiset(s[1..]) == multiset(s) - multiset{x};
  }

  /** Re-scoring the first element and the rest. */
  lemma RescoreTail(s: seq<Entry>, ranks: map<nat, nat>)
    requires s != []
    ensures multiset(Rescore(s, ranks)) == multiset(Rescore(s[1..], ranks)) + multiset{Rescored(s[0], ranks)}
  {
    var r := Rescore(s, ranks);
    assert r == [r[0]] + Rescore(s[1..], ranks);
  }

  /** One step of `RescorePermutes`: re-scoring the first element of `s` and the equal
      element at `j` of `t` adds the same entry on both sides. */
  lemma RescoreStep(s: seq<Entry>, t: seq<Entry>, j: nat, ranks: map<nat, nat>)
    requires s != [] && j < |t| && t[j] == s[0]
    requires multiset(Rescore(s[1..], ranks)) == multiset(Rescore(t[..j] + t[j + 1..], ranks))
    ensures multiset(Rescore(s, ranks)) == multiset(Rescore(t, ranks))
  {
    var y := Rescored(s[0], ranks);
    RescoreRemove(t, j, ranks);
    RescoreTail(s, ranks);
    assert multiset(Rescore(t, ranks)) == multiset(Rescore(t[..j] + t[j + 1..], ranks)) + multiset{y};
    assert multiset(Rescore(s, ranks)) == multiset(Rescore(s[1..], ranks)) + multiset{y};
  }

  /** Re-scoring a permutation gives a permutation. */
  lemma {:induction false} RescorePermutes(s: seq<Entry>, t: seq<Entry>, ranks: map<nat, nat>)
    requires multiset(s) == multiset(t)
    ensures multiset(Rescore(s, ranks)) == multiset(Rescore(t, ranks))
    decreases |s|
  {
    if s != [] {
      assert s[0] in multiset(t);
      var j :| 0 <= j < |t| && t[j] == s[0];
      PermutationRemove(s, t, j);
      RescorePermutes(s[1..], t[..j] + t[j + 1..], ranks);
      RescoreStep(s, t, j, ranks);
    } else {
      assert t == [];
    }
  }

  /** With the three rank maps equal to that of a sort `d` of the candidates, the final sort
      puts the candidate at position `k` of `d` at position `k`, with score `3 * k`: the
      consensus order is the common order of the three sorts. */
  lemma FinalOrder(records: seq<Record>, d: seq<Entry>, averageRanks: seq<Entry>)
    requires multiset(d) == multiset(Candidates(records)) && Ordered(d)
    requires |averageRanks| == |records|
    requires forall i :: 0 <= i < |records| ==>
      i in RankDict(d) && averageRanks[i] == Entry(i, RankDict(d)[i] + RankDict(d)[i] + RankDict(d)[i])
    ensures |SortByScore(averageRanks)| == |d|
    ensures forall k :: 0 <= k < |d| ==> SortByScore(averageRanks)[k] == Entry(d[k].id, 3 * k)
  {
    var ranks, c := RankDict(d), Candidates(records);
    RankDictBijection(records, d);
    assert averageRanks == Rescore(c, ranks);
    var target := Rescore(d, ranks);
    assert forall k :: 0 <= k < |d| ==> target[k] == Entry(d[k].id, 3 * k);
    RescorePermutes(d, c, ranks);
    SortByScorePermutes(averageRanks);
    SortByScoreAscending(averageRanks);
    AscendingUnique(SortByScore(averageRanks), target);
  }

  // ---------------------------------------------------------------------------------------
  // The shortlist

  /** A shortlisted row: the candidate's row with 'Consensus Rank' and 'Average Rank Score'
      added. */
  datatype ShortRow = ShortRow(record: Record, consensusRank: nat, averageRankScore: real)

  /** The loop over `enumerate(final_sorted[:top_n], start=1)`: for each of the first `topN`
      entries (all of them when there are fewer), the candidate's row with its 1-based rank
      and its average rank, the score divided by 3. */
  method BuildShortlist(finalSorted: seq<Entry>, records: seq<Record>, topN: nat)
    returns (topRows: seq<ShortRow>)
    requires forall k :: 0 <= k < |finalSorted| ==> finalSorted[k].id < |records|
    ensures |topRows| == if topN < |finalSorted| then topN else |finalSorted|
    ensures forall k :: 0 <= k < |topRows| ==>
      topRows[k] == ShortRow(records[finalSorted[k].id], k + 1, finalSorted[k].key as real / 3.0)
  {
    topRows := [];
    var k := 0;
    while k < topN && k < |finalSorted|
      invariant k <= |finalSorted| && |topRows| == k
      invariant k <= topN
      invariant forall j :: 0 <= j < k ==>
        topRows[j] == ShortRow(records[finalSorted[j].id], j + 1, finalSorted[j].key as real / 3.0)
    {
      var entry := finalSorted[k];
      topRows := topRows + [ShortRow(records[entry.id], k + 1, entry.key as real / 3.0)];
      k := k + 1;
    }
  }

  /** In a sort `d` of the candidates in the order `Precedes`, a candidate that precedes the
      one at position `a` sits before it. */
  lemma PrecedingCandidate(records: seq<Record>, d: seq<Entry>, a: nat, i: nat)
    requires SortOfCandidates(records, d)
    requires a < |d| && i < |records|
    requires Precedes(Candidates(records)[i], d[a])
    ensures i in RankDict(d)
    ensures RankDict(d)[i] < a && d[RankDict(d)[i]].id == i
  {
    RankDictBijection(records, d);
    PermutedCandidatesDistinct(records, d);
    var p := RankDict(d)[i];
    assert d[p] == Candidates(records)[i];
    assert a < p ==> Precedes(d[a], d[p]);
  }

  /** `d` is a permutation of the candidates in the order `Precedes`, as the output of each
      of the three sorts is. */
  ghost predicate SortOfCandidates(records: seq<Record>, d: seq<Entry>) {
    multiset(d) == multiset(Candidates(records)) && Ordered(d)
  }

  /** The three sorts of the candidates return one list, a sort of the candidates in the
      order `Precedes`. */
  lemma SortsAgree(records: seq<Record>, sortedHeap: seq<Entry>, order: seq<nat>)
    requires multiset(sortedHeap) == multiset(Candidates(records))
    requires PopOrder(Candidates(records), sortedHeap, order)
    ensures sortedHeap == MergeSort(Candidates(records)) == QuickSort(Candidates(records))
    ensures SortOfCandidates(records, sortedHeap)
  {
    CandidatesIdsIncreasing(records);
    HeapMergeAgree(Candidates(records), sortedHeap, order);
    MergeQuickAgree(Candidates(records));
  }

  /** Every index has a rank in the rank map of a sort of the candidates. */
  lemma RanksComplete(records: seq<Record>, d: seq<Entry>)
    requires SortOfCandidates(records, d)
    ensures forall i :: 0 <= i < |records| ==> i in RankDict(d)
  {
    RankDictBijection(records, d);
  }

  /** The final sort of the average ranks computed from the rank map of a sort `d` of the
      candidates is `d` with scores 0, 3, 6, ..., and its ids are indices. */
  lemma FinalSorted(records: seq<Record>, d: seq<Entry>, averageRanks: seq<Entry>)
    requires SortOfCandidates(records, d)
    requires |averageRanks| == |records|
    requires forall i :: 0 <= i < |records| ==>
      i in RankDict(d) && averageRanks[i] == Entry(i, RankDict(d)[i] + RankDict(d)[i] + RankDict(d)[i])
    ensures |SortByScore(averageRanks)| == |d| == |records|
    ensures forall k :: 0 <= k < |d| ==>
      d[k].id < |records| && SortByScore(averageRanks)[k] == Entry(d[k].id, 3 * k)
  {
    FinalOrder(records, d, averageRanks);
    PermutedCandidatesDistinct(records, d);
    assert |d| == |multiset(d)| == |records|;
  }

  /** The rows built from the final order are those of `d`, with scores divided by 3. */
  lemma ShortlistRows(records: seq<Record>, d: seq<Entry>, finalSorted: seq<Entry>, topRows: seq<ShortRow>)
    requires |finalSorted| == |d|
    requires forall k :: 0 <= k < |d| ==> d[k].id < |records| && finalSorted[k] == Entry(d[k].id, 3 * k)
    requires |topRows| <= |finalSorted|
    requires forall k :: 0 <= k < |topRows| ==>
      topRows[k] == ShortRow(records[finalSorted[k].id], k + 1, finalSorted[k].key as real / 3.0)
    ensures forall k :: 0 <= k < |topRows| ==> topRows[k] == ShortRow(records[d[k].id], k + 1, k as real)
  {
    forall k | 0 <= k < |topRows|
      ensures topRows[k] == ShortRow(records[d[k].id], k + 1, k as real)
    {
      assert finalSorted[k].key as real == 3.0 * k as real;
    }
  }

  /** The ranking of backend.py lines 96 to 158: the candidates, the three sorts, their rank
      maps, the average ranks and the final sort by average rank. The three sorts return one
      list, the ghost `d`, and the final order is that list with scores 0, 3, 6, ... */
  method RankCandidates(records: seq<Record>) returns (finalSorted: seq<Entry>, ghost d: seq<Entry>)
    ensures SortOfCandidates(records, d)
    ensures d == MergeSort(Candidates(records)) == QuickSort(Candidates(records))
    ensures |finalSorted| == |d| == |records|
    ensures forall k :: 0 <= k < |d| ==>
      d[k].id < |records| && finalSorted[k] == Entry(d[k].id, 3 * k)
    ensures forall k :: 0 <= k < |finalSorted| ==> finalSorted[k].id < |records| && finalSorted[k].key == 3 * k
    ensures forall a, b :: 0 <= a < b < |finalSorted| ==>
      Precedes(Candidates(records)[finalSorted[a].id], Candidates(records)[finalSorted[b].id])
  {
    var candidates := Candidates(records);
    var sortedMerge := MergeSort(candidates);
    var sortedQuick := QuickSort(candidates);
    var sortedHeap, order := HeapSort(candidates);
    SortsAgree(records, sortedHeap, order);
    d := sortedHeap;
    var mergeRanks := RankDict(sortedMerge);
    var quickRanks := RankDict(sortedQuick);
    var heapRanks := RankDict(sortedHeap);
    RanksComplete(records, d);
    var averageRanks := AverageRanks(|records|, mergeRanks, quickRanks, heapRanks);
    finalSorted := SortByScore(averageRanks);
    FinalSorted(records, d, averageRanks);
    PermutedCandidatesDistinct(records, d);
  }

  /** `topRows` is the shortlist of `records` for `top_n`, and `indices[k]` is the candidate
      index of its row `k`. The shortlist has `min(top_n, n)` rows, ranks 1, 2, ... and
      average ranks 0, 1, ..., distinct candidates with non-increasing experience, and every
      candidate before a shortlisted one (more experience, or as much and a smaller index) is
      shortlisted before it. */
  ghost predicate Shortlist(records: seq<Record>, topN: nat, topRows: seq<ShortRow>, indices: seq<nat>) {
    && |topRows| == |indices| == (if topN < |records| then topN else |records|)
    && (forall k :: 0 <= k < |topRows| ==>
         indices[k] < |records| && topRows[k] == ShortRow(records[indices[k]], k + 1, k as real))
    && (forall a, b :: 0 <= a < b < |indices| ==> indices[a] != indices[b])
    && (forall a, b :: 0 <= a < b < |topRows| ==>
         topRows[a].record.experienceValue >= topRows[b].record.experienceValue)
    && (forall a, i ::
         (0 <= a < |indices| && 0 <= i < |records| &&
          Precedes(Entry(i, records[i].experienceValue), Entry(indices[a], records[indices[a]].experienceValue)))
         ==> i in indices[..a])
  }

  /** From `candidates` to the shortlist (backend.py lines 96 to 176, less the printing and
      the prompt for `top_n`): the ranking, `top_n = min(top_n, len(final_sorted))` and the
      shortlist. The ghost `indices` gives the candidate index of each shortlisted row. */
  method Recommend(records: seq<Record>, topN: nat) returns (topRows: seq<ShortRow>, ghost indices: seq<nat>)
    ensures Shortlist(records, topN, topRows, indices)
    // What the shortlist says without `indices`: its size, and row k is a candidate with rank k + 1.
    ensures |topRows| == if topN < |records| then topN else |records|
    ensures forall k :: 0 <= k < |topRows| ==>
      topRows[k].record in records && topRows[k].consensusRank == k + 1
  {
    var finalSorted, d := RankCandidates(records);
    var n := if topN < |finalSorted| then topN else |finalSorted|;
    topRows := BuildShortlist(finalSorted, records, n);
    ShortlistRows(records, d, finalSorted, topRows);
    indices := seq(|topRows|, k requires 0 <= k < |topRows| => d[k].id);
    ShortlistOrder(records, d, indices);
    assert Shortlist(records, topN, topRows, indices);
    forall k | 0 <= k < |topRows|
      ensures topRows[k].record in records
    {
      assert topRows[k].record == records[indices[k]];
    }
  }

  /** The order facts of `Recommend`, from the order of `d`. */
  lemma ShortlistOrder(records: seq<Record>, d: seq<Entry>, indices: seq<nat>)
    requires SortOfCandidates(records, d)
    requires |indices| <= |d|
    requires forall k :: 0 <= k < |indices| ==> indices[k] == d[k].id
    ensures forall k :: 0 <= k < |indices| ==> indices[k] < |records|
    ensures forall a, b :: 0 <= a < b < |indices| ==> indices[a] != indices[b]
    ensures forall a, b :: 0 <= a < b < |indices| ==>
      records[indices[a]].experienceValue >= records[indices[b]].experienceValue
    ensures forall a, i ::
      (0 <= a < |indices| && 0 <= i < |records| &&
       Precedes(Entry(i, records[i].experienceValue), Entry(indices[a], records[indices[a]].experienceValue)))
      ==> i in indices[..a]
  {
    PermutedCandidatesDistinct(records, d);
    forall a, i | 0 <= a < |indices| && 0 <= i < |records| &&
      Precedes(Entry(i, records[i].experienceValue), Entry(indices[a], records[indices[a]].experienceValue))
      ensures i in indices[..a]
    {
      assert d[a] == Candidates(records)[indices[a]];
      PrecedingCandidate(records, d, a, i);
      var p := RankDict(d)[i];
      assert indices[..a][p] == i;
    }
    forall a, b | 0 <= a < b < |indices|
      ensures records[indices[a]].experienceValue >= records[indices[b]].experienceValue
    {
      assert Precedes(d[a], d[b]);
      assert d[a] == Candidates(records)[indices[a]] && d[b] == Candidates(records)[indices[b]];
    }
  }
}
