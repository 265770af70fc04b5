/**
 * The whole of backend.py without its input and output: clean the table, keep the rows
 * with experience, apply the filters answered by the user, rank the remaining candidates
 * and shortlist the first `top_n`.
 */
module Pipeline {
  import opened Normalizer
  import opened Filters
  import opened Sorting
  import opened Consensus

  /** The table the ranking sees: the cleaned table, filtered by the answered criteria. */
  function FilteredTable(rows: seq<Row>, criteria: Criteria): seq<Record>
    requires AllHaveRequiredColumns(rows)
  {
    Filtered(CleanTable(rows), ActiveTests(criteria))
  }

  /** The cleaned table, filtered and ranked: `topRows` is the shortlist of the filtered
      table, and the ghost `indices` gives the position of each shortlisted row in it. Every
      shortlisted row is a normalised input row with experience that satisfies every active
      filter. */
  method Run(rows: seq<Row>, criteria: Criteria, topN: nat)
    returns (topRows: seq<ShortRow>, ghost indices: seq<nat>)
    requires AllHaveRequiredColumns(rows)
    ensures Shortlist(FilteredTable(rows, criteria), topN, topRows, indices)
    ensures forall k :: 0 <= k < |topRows| ==>
      topRows[k].record in CleanTable(rows) &&
      topRows[k].record.experienceValue > 0 &&
      Passes(topRows[k].record, ActiveTests(criteria))
  {
    var df := CleanTable(rows);
    var filtered := ApplyFilters(df, criteria);
    topRows, indices := Recommend(filtered, topN);
    forall k | 0 <= k < |topRows|
      ensures topRows[k].record in df && topRows[k].record.experienceValue > 0
      ensures Passes(topRows[k].record, ActiveTests(criteria))
    {
      var x := topRows[k].record;
      assert x == filtered[indices[k]];
      FilteredComplete(df, ActiveTests(criteria), x);
      CleanTableMembers(rows, x);
    }
  }
}
