/**
 * `heap_sort` of backend.py: every tuple goes into a min-heap as `(-experience, position,
 * tuple)`, and the heap is popped until empty. The heap is modelled by what `heapq`
 * guarantees, namely that each pop returns the least element still present; its array layout
 * is not modelled.
 */
module HeapSorting {
  import opened Sorting

  /** A heap element `(-x[1], i, x)`: the negated experience, the position of the tuple in the
      input list, and the tuple. */
  datatype HeapItem = HeapItem(negKey: int, index: nat, entry: Entry)

  /** Python's tuple order on heap elements, as far as it is ever consulted: positions are
      distinct, so the third components are never compared. */
  predicate ItemLess(x: HeapItem, y: HeapItem) {
    x.negKey < y.negKey || (x.negKey == y.negKey && x.index < y.index)
  }

  predicate ItemLeq(x: HeapItem, y: HeapItem) {
    x.negKey < y.negKey || (x.negKey == y.negKey && x.index <= y.index)
  }

  /** The heap element built for position `i` of `arr`. */
  function ItemAt(arr: seq<Entry>, i: nat): (x: HeapItem)
    requires i < |arr|
    ensures x.index == i && x.entry == arr[i]
    ensures x.negKey == -(arr[i].key as int) && x.negKey <= 0
  {
    HeapItem(-(arr[i].key as int), i, arr[i])
  }

  /** `x` is the element built for its own position of `arr`. */
  predicate FromInput(arr: seq<Entry>, x: HeapItem) {
    x.index < |arr| && x == ItemAt(arr, x.index)
  }

  /** The tuples held by a sequence of heap elements, in order. */
  function Entries(h: seq<HeapItem>): (r: seq<Entry>)
    ensures |r| == |h|
    ensures forall i :: 0 <= i < |h| ==> r[i] == h[i].entry
  {
    seq(|h|, i requires 0 <= i < |h| => h[i].entry)
  }

  /** Removing the element at position `m` removes its tuple from the tuples held. */
  lemma EntriesRemove(h: seq<HeapItem>, m: nat)
    requires m < |h|
    ensures multiset(Entries(h)) == multiset(Entries(h[..m] + h[m + 1..])) + multiset{h[m].entry}
  {
    var front, back := Entries(h[..m]), Entries(h[m + 1..]);
    assert Entries(h) == front + [h[m].entry] + back;
    assert Entries(h[..m] + h[m + 1..]) == front + back;
  }

  /** The position of a least element, found by a scan from the front. */
  method MinPosition(heap: seq<HeapItem>) returns (m: nat)
    requires heap != []
    ensures m < |heap|
    ensures forall j :: 0 <= j < |heap| ==> ItemLeq(heap[m], heap[j])
  {
    m := 0;
    var j := 1;
    while j < |heap|
      invariant m < j <= |heap|
      invariant forall i :: 0 <= i < j ==> ItemLeq(heap[m], heap[i])
    {
      if ItemLess(heap[j], heap[m]) {
        m := j;
      }
      j := j + 1;
    }
  }

  /** `heapq.heappop`: removes and returns a least element; `m` is where it was. */
  method HeapPop(heap: seq<HeapItem>) returns (item: HeapItem, rest: seq<HeapItem>, m: nat)
    requires heap != []
    ensures m < |heap| && item == heap[m]
    ensures rest == heap[..m] + heap[m + 1..]
    ensures forall j :: 0 <= j < |heap| ==> ItemLeq(item, heap[j])
  {
    m := MinPosition(heap);
    item := heap[m];
    rest := heap[..m] + heap[m + 1..];
  }

  /** Where each element of the heap after a removal at `m` was before it. */
  lemma RemovedAt(h: seq<HeapItem>, m: nat, j: nat)
    requires m < |h| && j < |h| - 1
    ensures (h[..m] + h[m + 1..])[j] == if j < m then h[j] else h[j + 1]
  {
  }

  /** The state of `heap_sort` between two pops: `popped` holds the elements popped so far,
      in strictly increasing order and each below every element still in `heap`; every
      element is the one built for its position, and positions in `heap` are distinct. */
  ghost predicate PopState(arr: seq<Entry>, popped: seq<HeapItem>, heap: seq<HeapItem>) {
    (forall j :: 0 <= j < |heap| ==> FromInput(arr, heap[j])) &&
    (forall j :: 0 <= j < |popped| ==> FromInput(arr, popped[j])) &&
    (forall i, j :: 0 <= i < j < |heap| ==> heap[i].index != heap[j].index) &&
    (forall i, j :: 0 <= i < j < |popped| ==> ItemLess(popped[i], popped[j])) &&
    (forall i, j :: 0 <= i < |popped| && 0 <= j < |heap| ==> ItemLess(popped[i], heap[j]))
  }

  /** The elements left after a removal come from the heap, keep distinct positions, and,
      when a least element was removed, are all above it. */
  lemma RemovalFacts(arr: seq<Entry>, popped: seq<HeapItem>, heap: seq<HeapItem>, m: nat)
    requires PopState(arr, popped, heap)
    requires m < |heap| && forall j :: 0 <= j < |heap| ==> ItemLeq(heap[m], heap[j])
    ensures var rest := heap[..m] + heap[m + 1..];
      (forall j :: 0 <= j < |rest| ==> FromInput(arr, rest[j]) && ItemLess(heap[m], rest[j])) &&
      (forall i, j :: 0 <= i < j < |rest| ==> rest[i].index != rest[j].index) &&
      (forall i, j :: 0 <= i < |popped| && 0 <= j < |rest| ==> ItemLess(popped[i], rest[j]))
  {
    var rest := heap[..m] + heap[m + 1..];
    forall j | 0 <= j < |rest|
      ensures FromInput(arr, rest[j]) && ItemLess(heap[m], rest[j])
    {
      RemovedAt(heap, m, j);
    }
    forall i, j | 0 <= i < j < |rest|
      ensures rest[i].index != rest[j].index
    {
      RemovedAt(heap, m, i);
      RemovedAt(heap, m, j);
    }
    forall i, j | 0 <= i < |popped| && 0 <= j < |rest|
      ensures ItemLess(popped[i], rest[j])
    {
      RemovedAt(heap, m, j);
    }
  }

  /** Popping a least element keeps the state of `heap_sort`. */
  lemma PopKeepsState(arr: seq<Entry>, popped: seq<HeapItem>, heap: seq<HeapItem>, m: nat)
    requires PopState(arr, popped, heap)
    requires m < |heap| && forall j :: 0 <= j < |heap| ==> ItemLeq(heap[m], heap[j])
    ensures PopState(arr, popped + [heap[m]], heap[..m] + heap[m + 1..])
  {
    RemovalFacts(arr, popped, heap, m);
    var p := popped + [heap[m]];
    forall i, j | 0 <= i < j < |p|
      ensures ItemLess(p[i], p[j])
    {
      if j == |popped| {
        assert p[i] == popped[i] && p[j] == heap[m];
      } else {
        assert p[i] == popped[i] && p[j] == popped[j];
      }
    }
  }

  /** Appending an element appends its tuple. */
  lemma EntriesSnoc(h: seq<HeapItem>, x: HeapItem)
    ensures Entries(h + [x]) == Entries(h) + [x.entry]
  {
  }

  /** `[(-x[1], i, x) for i, x in enumerate(arr)]`. */
  function BuildHeap(arr: seq<Entry>): (h: seq<HeapItem>)
    ensures |h| == |arr|
    ensures forall i :: 0 <= i < |arr| ==> h[i] == ItemAt(arr, i)
  {
    seq(|arr|, i requires 0 <= i < |arr| => ItemAt(arr, i))
  }

  /** Before the first pop, the heap holds the element of every position and nothing is popped. */
  lemma InitialState(arr: seq<Entry>)
    ensures PopState(arr, [], BuildHeap(arr))
    ensures Entries(BuildHeap(arr)) == arr
  {
  }

  /** The input positions of popped elements. */
  function Positions(popped: seq<HeapItem>): (order: seq<nat>)
    ensures |order| == |popped|
    ensures forall j :: 0 <= j < |popped| ==> order[j] == popped[j].index
  {
    seq(|popped|, j requires 0 <= j < |popped| => popped[j].index)
  }

  /** Once the heap is empty, the popped elements give the tuples of their positions, in
      strictly increasing order. */
  lemma FinalState(arr: seq<Entry>, popped: seq<HeapItem>)
    requires PopState(arr, popped, [])
    ensures var order, out := Positions(popped), Entries(popped);
      (forall j :: 0 <= j < |order| ==> order[j] < |arr| && out[j] == arr[order[j]]) &&
      (forall i, j :: 0 <= i < j < |order| ==> ItemLess(ItemAt(arr, order[i]), ItemAt(arr, order[j])))
  {
    var order := Positions(popped);
    forall i, j | 0 <= i < j < |order|
      ensures ItemLess(ItemAt(arr, order[i]), ItemAt(arr, order[j]))
    {
      assert FromInput(arr, popped[i]) && FromInput(arr, popped[j]);
    }
  }

  /** `sortedList` is `arr` taken at the positions `order`, and the heap elements of those
      positions are in strictly increasing `(-experience, position)` order: the order in
      which a min-heap of them is popped. */
  predicate PopOrder(arr: seq<Entry>, sortedList: seq<Entry>, order: seq<nat>) {
    |order| == |sortedList| &&
    (forall j :: 0 <= j < |order| ==> order[j] < |arr| && sortedList[j] == arr[order[j]]) &&
    (forall i, j :: 0 <= i < j < |order| ==> ItemLess(ItemAt(arr, order[i]), ItemAt(arr, order[j])))
  }

  /** `heap_sort`: builds `[(-x[1], i, x) for i, x in enumerate(arr)]` (its order as a heap
      does not matter to what is popped), then pops it until it is empty, appending each
      tuple to `sortedList`. The ghost `order` gives the input position of each output
      tuple: the output is a permutation of the input, popped in strictly increasing
      `(-experience, position)` order. */
  method HeapSort(arr: seq<Entry>) returns (sortedList: seq<Entry>, ghost order: seq<nat>)
    ensures multiset(sortedList) == multiset(arr)
    ensures PopOrder(arr, sortedList, order)
  {
    var heap := BuildHeap(arr);
    InitialState(arr);
    ghost var popped: seq<HeapItem> := [];
    sortedList := [];
    while heap != []
      invariant PopState(arr, popped, heap)
      invariant sortedList == Entries(popped)
      invariant multiset(sortedList) + multiset(Entries(heap)) == multiset(arr)
      decreases |heap|
    {
      var item, rest, m := HeapPop(heap);
      EntriesRemove(heap, m);
      PopKeepsState(arr, popped, heap, m);
      EntriesSnoc(popped, item);
      popped := popped + [item];
      sortedList := sortedList + [item.entry];
      heap := rest;
    }
    order := Positions(popped);
    FinalState(arr, popped);
  }

  /** Popping in increasing `(-experience, position)` order yields descending experience. */
  lemma PopOrderDescending(arr: seq<Entry>, sortedList: seq<Entry>, order: seq<nat>)
    requires PopOrder(arr, sortedList, order)
    ensures Descending(sortedList)
  {
    forall i, j | 0 <= i < j < |sortedList|
      ensures sortedList[i].key >= sortedList[j].key
    {
      assert ItemLess(ItemAt(arr, order[i]), ItemAt(arr, order[j]));
    }
  }

  /** When the ids of the input increase with the position, as those of the candidate list
      do, ties broken by position are ties broken by id: the output is in the order
      `Precedes`, and so, by `OrderedIsStable`, a stable sort. */
  lemma PopOrderOrdered(arr: seq<Entry>, sortedList: seq<Entry>, order: seq<nat>)
    requires IdsIncreasing(arr)
    requires PopOrder(arr, sortedList, order)
    ensures Ordered(sortedList)
  {
    forall i, j | 0 <= i < j < |sortedList|
      ensures Precedes(sortedList[i], sortedList[j])
    {
      assert ItemLess(ItemAt(arr, order[i]), ItemAt(arr, order[j]));
      if order[i] > order[j] {
        assert arr[order[j]].id < arr[order[i]].id;
      }
    }
  }

  /** On a list whose ids increase with the position, such as the candidate list, what
      `heap_sort` returns is what `merge_sort` returns, and it is in the order `Precedes`. */
  lemma HeapMergeAgree(arr: seq<Entry>, sortedList: seq<Entry>, order: seq<nat>)
    requires IdsIncreasing(arr)
    requires multiset(sortedList) == multiset(arr)
    requires PopOrder(arr, sortedList, order)
    ensures sortedList == MergeSort(arr)
    ensures Ordered(sortedList)
  {
    PopOrderDescending(arr, sortedList, order);
    PopOrderOrdered(arr, sortedList, order);
    MergeSortDescending(arr);
    forall k
      ensures WithKey(sortedList, k) == WithKey(MergeSort(arr), k)
    {
      OrderedIsStable(arr, sortedList, k);
      MergeSortWithKey(arr, k);
    }
    StableSortUnique(sortedList, MergeSort(arr));
  }
}
