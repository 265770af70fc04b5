# Candidate ranking backend, modelled in Dafny

`backend.py` turns a table of job candidates into a shortlist. It:

- fills in missing `Experience` and `skills` values;
- cleans the whitespace of the text columns;
- extracts the number of years of experience and the salary midpoint;
- drops rows without experience;
- applies the user's filters (a minimum experience and five case-insensitive "contains" tests).

It then ranks the remaining candidates three times, with a merge sort, a quick sort and a heap sort, each by descending experience. It averages each candidate's three positions and sorts by that average. The first `top_n` candidates are the shortlist, each with its consensus rank and its average-rank score.

The project models that pipeline without its input and output:

| file | what it models |
|---|---|
| `text.dfy` | `clean_text` (strip, then collapse whitespace runs), lower-casing, substring search, digit runs |
| `normalizer.dfy` | the cell and row model; the `fillna` defaults; the cleaning of the text columns; `extract_min_experience`; `salary_to_midpoint`; the `Experience_Value > 0` cut |
| `filters.dfy` | the six tests of `apply_filters` as data. `ApplyFilters` reassigns the filtered table test by test, as the source does, and is proved equal to a declarative `Filtered` |
| `sorting.dfy` | `merge_sort`, `merge` (a loop over two lists), `quick_sort`, and the theory of stable descending order |
| `heapsort.dfy` | `heap_sort` with its `(-experience, index, item)` heap items, as a pop loop |
| `consensus.dfy` | the candidate list, `build_rank_dict`, the average-rank loop, the stable final sort and the shortlist loop |
| `pipeline.dfy` | the whole run from raw rows to shortlist |

The central result is that all three sorts produce the same list:

- `merge` takes the left element on ties;
- `quick_sort`'s comprehensions keep input order inside each group;
- the heap breaks ties by input index.

So each sort is the unique stable descending sort of the candidates (`Sorting.StableSortUnique`, `Sorting.OrderedUnique`). It follows that the three rank maps coincide and every candidate's average rank equals its position. The final list is therefore the heap/merge/quick order again, and the shortlist is exactly its top `top_n` entries (`Consensus.FinalOrder`, `Consensus.Recommend`).

Stability is stated per experience value. `WithKey(s, k)` is the subsequence of `s` whose experience is `k`. A sort is stable when `WithKey(out, k) == WithKey(in, k)` for every `k`. This implies the output is a permutation of the input (`Sorting.SameTiesPermutes`).

## Model

| member | source | states |
|---|---|---|
| Text.TrimLeft | backend.py:23 | the result is a suffix of the input that does not start with whitespace |
| Text.TrimLeftDropsSpaces | backend.py:23 | everything removed on the left is whitespace, so the non-space characters are unchanged |
| Text.TrimRight | backend.py:23 | the result is a prefix of the input that does not end with whitespace |
| Text.TrimRightDropsSpaces | backend.py:23 | everything removed on the right is whitespace, so the non-space characters are unchanged |
| Text.Strip | backend.py:23 | the stripped string neither starts nor ends with whitespace |
| Text.StripDropsSpaces | backend.py:23 | the stripped string is the slice of the input between its leading and its trailing whitespace, and every character outside that slice is whitespace |
| Text.Collapse | backend.py:23 | replacing whitespace runs by one space keeps emptiness and whether the first character is whitespace |
| Text.CollapseLast | backend.py:23 | collapsing keeps whether the last character is whitespace |
| Text.CollapseRun | backend.py:23 | a non-empty whitespace run between a non-space (or nothing) and a non-space (or nothing) becomes exactly one space, and the two sides are collapsed independently |
| Text.CollapseIsCanonical | backend.py:23 | after collapsing, every whitespace character is a single space not followed by another whitespace character |
| Text.CollapseNonSpace | backend.py:23 | collapsing keeps the non-space characters, in order |
| Text.CollapseCanonical | backend.py:23 | collapsing a string whose only whitespace is single spaces changes nothing |
| Text.CleanText | backend.py:21-24 | the result has no leading or trailing whitespace and no two adjacent whitespace characters, and keeps the input's non-space characters in order |
| Text.CleanTextRun | backend.py:21-24 | cleaning two words separated by any whitespace run gives the two cleaned words joined by exactly one space |
| Text.CleanTextFixpoint | backend.py:21-24 | cleaning leaves a string unchanged exactly when it is already clean |
| Text.CleanTextIdempotent | backend.py:21-24 | cleaning twice equals cleaning once |
| Text.Lower | backend.py:68-72 | lower-casing maps each character by itself, keeps the length and leaves no upper-case letter |
| Text.LowerChar | backend.py:68-72 | a capital letter becomes the small letter 32 code points above it; any other character is unchanged |
| Text.IsSubstringAt | backend.py:77 | a needle found at any position is contained in the haystack |
| Text.Pos | backend.py:77 | conversely, a contained needle occurs at a position that is returned |
| Text.LeadingDigits | backend.py:37 | the leading digit run is a prefix made of digits and is maximal |
| Text.LeadingDigitsOf | backend.py:37 | the leading digit run of digits followed by a non-digit is exactly those digits |
| Text.Show | backend.py:37 | the decimal text of a number is a non-empty digit string without a leading zero whose value is that number |
| Normalizer.CleanCell | backend.py:21-24 | a string cell becomes the cleaned text of its string (clean, same non-space characters); a non-string cell is returned unchanged |
| Normalizer.ExperienceWithoutDigits | backend.py:36-38 | text with no digit gives 0 |
| Normalizer.ExperienceFirstRun | backend.py:36-38 | the value is the first digit run, read left to right, whatever follows it |
| Normalizer.ExperienceOfDigits | backend.py:36-38 | text without digits, then a digit run, then a non-digit gives the value of that run |
| Normalizer.ExperienceOfShow | backend.py:36-38 | text without digits, then a number written out, then a non-digit (as in "12+ years") gives that number |
| Normalizer.ExperienceOfNumber | backend.py:37 | a numeric cell, converted to text first, gives its absolute value |
| Normalizer.ExperienceSurvivesCleaning | backend.py:31-40 | cleaning the text first does not change the extracted experience |
| Normalizer.ExperienceOfCleanCell | backend.py:31-40 | the same fact at the level of cells |
| Normalizer.ExperienceOfDefault | backend.py:17 | the default "0 Years" gives experience 0 |
| Normalizer.SalaryToMidpoint | backend.py:43-48 | a value exists exactly when the cell is a string with two `digits K` tokens, and twice the value is their sum |
| Normalizer.KTokensTwo | backend.py:45 | two `digits K` tokens among digit-free text are found, in order, with their values |
| Normalizer.MidpointOfTwo | backend.py:45-47 | two tokens a and b give the midpoint (a+b)/2 |
| Normalizer.NoMidpoint | backend.py:46-48 | any other number of tokens gives no midpoint |
| Normalizer.SalaryRoundTrip | backend.py:43-48 | a range written as "aK-bK" with any digit-free separator and surroundings reads back as (a+b)/2 |
| Normalizer.SalaryOneToken | backend.py:46-48 | a single `K` token gives no midpoint |
| Normalizer.SalaryThreeTokens | backend.py:46-48 | three `K` tokens give no midpoint |
| Normalizer.SalaryWithoutDigits | backend.py:44-48 | a string without digits gives no midpoint |
| Normalizer.FillMissing | backend.py:17-18 | a missing `Experience` becomes "0 Years" and a missing `skills` becomes ""; present values and every other column (missing or not) are kept, and no column is added or removed |
| Normalizer.CleanColumns | backend.py:26-33 | exactly the listed text columns are cleaned; the other columns are unchanged |
| Normalizer.NormalizeRow | backend.py:17-50 | a normalised row keeps its columns; each text column holds the cleaned filled cell, every other column the input cell; it carries the extracted experience and salary midpoint |
| Normalizer.NormalizedFields | backend.py:26-33 | every string in a text column of a normalised row is clean, and the other columns are untouched |
| Normalizer.ExperienceValue | backend.py:40 | a missing cell gives 0; any other cell gives the experience extracted from its text |
| Normalizer.KeepExperienced | backend.py:53 | the kept rows all have positive experience and form a subsequence of the input |
| Normalizer.KeepExperiencedComplete | backend.py:53 | every row with positive experience is kept |
| Normalizer.KeepExperiencedMembers | backend.py:53 | a row is kept exactly when it is an input row with positive experience |
| Normalizer.KeepExperiencedCount | backend.py:53 | a row with positive experience is kept as many times as it occurs; any other row not at all |
| Normalizer.CleanTableMembers | backend.py:17-53 | the cleaned table is a subsequence of the normalised rows, and holds exactly the normalised input rows with positive experience |
| Filters.ExperienceTest | backend.py:74-75 | the experience test is active exactly when the stripped answer is all digits, and then requires that many years |
| Filters.ContainsTest | backend.py:76-85 | a contains test is active exactly when the stripped, lower-cased answer is non-empty, and then searches for that text |
| Filters.ExperienceTestMeaning | backend.py:74-75 | passing the experience test means having at least the given years whenever the answer is a number |
| Filters.ContainsTestMeaning | backend.py:76-85 | passing a contains test means the column is a string whose lower-cased text contains the answer, whenever the answer is non-empty |
| Filters.ActiveTestsMeaning | backend.py:74-85 | passing all active tests is the conjunction of the six per-field conditions |
| Filters.PassesAppend | backend.py:74-85 | passing two lists of tests means passing each list |
| Filters.BlankCriteria | backend.py:74-85 | with every answer blank, no test is active and the table is returned unchanged |
| Filters.Select | backend.py:75 | one filtering step never lengthens the table |
| Filters.Filtered | backend.py:74-85 | every filtered row passes all tests, and the filtered rows form a subsequence of the input |
| Filters.FilteredComplete | backend.py:74-85 | a row is in the filtered table exactly when it is an input row that passes every test |
| Filters.FilteredCount | backend.py:74-85 | a row that passes every test is kept as many times as it occurs; any other row not at all |
| Filters.FilteredNone | backend.py:74-85 | no test keeps the table unchanged |
| Filters.SelectFiltered | backend.py:74-85 | one more filtering step equals filtering by one more test |
| Filters.SelectAllFiltered | backend.py:74-85 | applying the tests one after the other equals filtering by all of them at once |
| Filters.ExperienceStep | backend.py:74-75 | the experience step filters only when the answer is all digits |
| Filters.ContainsStep | backend.py:76-85 | each contains step filters only when its answer is non-empty |
| Filters.ApplyFilters | backend.py:74-85 | the step-by-step reassignment of the filtered table yields exactly the rows passing every active test |
| Sorting.WithKeyMembers | backend.py:124 | the equal-key group holds exactly the entries with that key |
| Sorting.AboveMembers | backend.py:123 | the `>` group holds exactly the entries above the pivot |
| Sorting.BelowMembers | backend.py:125 | the `<` group holds exactly the entries below the pivot |
| Sorting.PartitionSizes | backend.py:122-125 | the three groups together are as long as the list |
| Sorting.WithKeyOfAbove | backend.py:123 | the `>` group keeps, in order, every tie group above the pivot and no other |
| Sorting.WithKeyOfBelow | backend.py:125 | the `<` group keeps, in order, every tie group below the pivot and no other |
| Sorting.Merge | backend.py:109-116 | the `pop(0)` loop returns the merge of its two inputs, taking the left head on ties |
| Sorting.MergedMembers | backend.py:109-116 | every merged entry comes from one of the inputs |
| Sorting.MergedDescending | backend.py:109-116 | merging two non-increasing lists gives a non-increasing list |
| Sorting.MergedWithKey | backend.py:111-116 | for every key, the merged ties are the left ties followed by the right ties |
| Sorting.MergeSortDescending | backend.py:101-107 | merge sort's output is non-increasing in experience |
| Sorting.MergeSortWithKey | backend.py:101-107 | merge sort is stable: for every key, equal-experience entries keep their input order |
| Sorting.MergeSortPermutes | backend.py:101-107 | merge sort's output is a permutation of its input |
| Sorting.QuickSortDescending | backend.py:119-126 | quick sort's output is non-increasing in experience |
| Sorting.QuickSortWithKey | backend.py:119-126 | quick sort is stable: for every key, equal-experience entries keep their input order |
| Sorting.QuickSortPermutes | backend.py:119-126 | quick sort's output is a permutation of its input |
| Sorting.QuickSortMembers | backend.py:119-126 | quick sort's output holds exactly the input's entries |
| Sorting.SameTiesPermutes | backend.py:101-126 | equal tie groups for every key imply equal multisets |
| Sorting.StableSortUnique | backend.py:101-126 | two non-increasing lists with the same tie groups are equal |
| Sorting.OrderedUnique | backend.py:129-136 | two lists ordered by (experience descending, id ascending) with the same entries are equal |
| Sorting.OrderedIsStable | backend.py:129-136 | a permutation ordered by (experience descending, id ascending) of a list with increasing ids keeps every tie group in input order |
| Sorting.MergeQuickAgree | backend.py:139-140 | merge sort and quick sort return the same list on every input |
| HeapSorting.ItemAt | backend.py:130 | the heap item for position i carries i, the candidate and exactly its negated experience, which is never positive |
| HeapSorting.BuildHeap | backend.py:130-131 | the heap holds one item per input position, in order |
| HeapSorting.InitialState | backend.py:130-131 | the fresh heap satisfies the pop invariant with nothing popped and holds the input's entries |
| HeapSorting.MinPosition | backend.py:134 | the scan finds a position whose item is least in (negated experience, index) order |
| HeapSorting.HeapPop | backend.py:134 | a pop returns a least item and the heap without it |
| HeapSorting.PopKeepsState | backend.py:133-135 | popping a least item keeps the heap invariant: popped items are increasing and below every item still in the heap |
| HeapSorting.FinalState | backend.py:133-136 | once the heap is empty, the popped items name input positions in strictly increasing (negated experience, index) order |
| HeapSorting.HeapSort | backend.py:129-136 | the output is a permutation of the input, listed in strictly increasing (negated experience, index) order of input positions |
| HeapSorting.PopOrderDescending | backend.py:129-136 | the heap sort output is non-increasing in experience |
| HeapSorting.PopOrderOrdered | backend.py:129-136 | for inputs with increasing ids, the output is ordered by experience descending, then id ascending |
| HeapSorting.HeapMergeAgree | backend.py:139-141 | on the candidate list, heap sort returns exactly merge sort's list |
| Consensus.Candidates | backend.py:96 | candidate i has id i and the experience of row i |
| Consensus.CandidatesIdsIncreasing | backend.py:96 | candidate ids increase along the list |
| Consensus.CandidateOnce | backend.py:96 | every candidate occurs exactly once in the candidate list |
| Consensus.RankDictLast | backend.py:144-145 | the rank map's keys are the ids in the list, and each maps to the id's last position |
| Consensus.RankDictPosition | backend.py:144-145 | in a list with distinct ids, every entry's id maps to its own position |
| Consensus.PermutedCandidatesDistinct | backend.py:139-145 | any permutation of the candidates (each sort's output in particular) has distinct ids, each naming the candidate it equals |
| Consensus.RankDictBijection | backend.py:144-149 | the rank map of any permutation of the candidates is a bijection from ids 0..n-1 onto positions 0..n-1 |
| Consensus.SortsAgree | backend.py:139-141 | heap, merge and quick sort of the candidates are one list, ordered by experience descending, then id ascending |
| Consensus.RanksComplete | backend.py:147-155 | every candidate id has a rank |
| Consensus.AverageRanks | backend.py:152-155 | entry i carries candidate i and the sum of its three ranks (three times the average) |
| Consensus.SortByScoreAscending | backend.py:158 | the final sort is ascending in score |
| Consensus.SortByScorePermutes | backend.py:158 | the final sort is a permutation |
| Consensus.SortByScoreWithKey | backend.py:158 | the final sort is stable: equal scores keep their order |
| Consensus.InsertWithKey | backend.py:158 | inserting into an ascending list puts the new entry after its equals |
| Consensus.AscendingUnique | backend.py:158 | an ascending permutation of a list with distinct scores is that list in ascending order |
| Consensus.RescorePermutes | backend.py:152-155 | rescoring two permutations of each other gives permutations of each other |
| Consensus.FinalOrder | backend.py:147-158 | when all three rank maps are that of the common sorted list, the final list is that list, each entry with score 3k at position k |
| Consensus.FinalSorted | backend.py:147-158 | the same, from the predicate that the common list is a sort of the candidates |
| Consensus.RankCandidates | backend.py:139-158 | the three sorts agree; the final list names every candidate once, in order of experience descending then index ascending, with scores 0, 3, 6, ... |
| Consensus.BuildShortlist | backend.py:166-176 | the shortlist has min(top_n, n) rows; row k carries the k-th final candidate, rank k+1 and its average score |
| Consensus.ShortlistRows | backend.py:166-176 | the shortlist rows are the first candidates of the common sort, with rank k+1 and average rank k |
| Consensus.PrecedingCandidate | backend.py:139-158 | a candidate that sorts before the one at position a sits at an earlier position |
| Consensus.ShortlistOrder | backend.py:139-176 | the shortlisted candidates are distinct, non-increasing in experience, and every candidate that sorts before a shortlisted one is shortlisted ahead of it |
| Consensus.Recommend | backend.py:96-176 | ranking and shortlisting yield min(top_n, n) distinct candidates with ranks 1..k and average rank k-1, non-increasing in experience, with no better candidate left out (`Shortlist`) |
| Pipeline.Run | backend.py:17-176 | the result is the shortlist of the cleaned, filtered table, with every property `Recommend` states; every shortlisted row is a normalised input row with positive experience that passes every active filter |
| Seqs.SubsequenceMembers | backend.py:53 | every element of a subsequence is an element of the sequence it was taken from |

## Left out

- Reading and writing CSV files (backend.py:7, 59) and the export branch with its timestamp (backend.py:179-192). The shortlist is the returned value.
- `drop_duplicates` and the dropping of irrelevant columns (backend.py:10-14) are not modelled: the rows are taken as given.
- `reset_index` is not modelled separately: a table is a sequence, and positions are its index.
- Missing required columns: the pipeline requires `Experience`, `skills` and `Salary Range` in every row (`Pipeline.Run`'s precondition). Without them pandas raises `KeyError`.
- The `input()` prompts and the `while True` retry loop of `apply_filters` (backend.py:64-73, 87-90): the answers are a `Criteria` value. `Pipeline.Run` also covers an empty filtered table, where the source would ask again; there it returns an empty shortlist.
- Reading `top_n` with `int(input())` and the default of 5 on `ValueError` (backend.py:161-164): `top_n` is a parameter.
- Negative `top_n`: it is a `nat`. A negative value would make the source's slice drop elements from the end.
- Printing (backend.py:60, 66, 88, 168, 172). The print of each shortlisted row at backend.py:172 reads `row['Contact Person']`; when that column is absent and the shortlist is not empty, pandas raises `KeyError` there before `top_rows` is built. The model does not print, so it does not require `Contact Person` and returns the shortlist in that case.
- Floating point:
  - The average rank is kept as the integer sum of the three ranks. Dividing by 3 does not change the order.
  - The shortlist score is that sum divided by 3 as a real.
  - `round(score, 2)` (backend.py:175) is not modelled. It changes nothing here, because every score turns out to be a whole number.
  - The salary midpoint is a real.
- Python's Unicode classes for `\s`, `\d`, `str.lower`, `str.isdigit` and `int` are restricted to ASCII. So an experience answer written in non-ASCII decimal digits (such as "٥"), which `exp_filter.isdigit()` and `int(exp_filter)` at backend.py:74-75 accept as 5, leaves the experience test off in the model. Whitespace is the ASCII characters Python treats as whitespace: 9-13, 28-31 and 32.
- Filters.ContainsTest: pandas `str.contains` reads the answer as a regular expression; here it is a plain substring.
- Filters.ContainsTest: a filtered column absent from the table makes `df_filtered[col]` raise `KeyError` (backend.py:77-85); here every row fails the test and is dropped. A present cell that is missing or not a string puts NaN into the pandas mask, which pandas refuses as a boolean index; here that row is dropped as well.
- Floating-point cells: a `Cell` has no floating-point case. pandas stores a numeric column with gaps as floats, so `str(5.0)` gives "5.0" and `2.5` gives experience 2 through its first digit run; a `Num` cell is an integer, shown without a fraction.
- `heapq`'s array layout (`heapify`, sift-down): heap sort is modelled by what `heappop` returns, a least item by a linear scan. Every heap item has a distinct index, so the pop order is the same.
- Python's Timsort for `sorted` (backend.py:158) is modelled by a stable insertion sort. Any stable sort gives the same list.
- The row data carried inside each candidate tuple: a candidate is its id and experience, and the row is recovered by its id.
- `frontend.py` is not part of this model.
