/**
 * The filter step of backend.py (`apply_filters`): up to six tests taken from the answers
 * to the filter prompt, each applied only when its answer is given, each keeping the rows
 * that pass it in their table order.
 */
module Filters {
  import opened Text
  import opened Seqs
  import opened Normalizer

  /** The six answers, as typed: minimum experience, qualifications, work type, job title,
      role and location. */
  datatype Criteria = Criteria(
    minExperience: string,
    qualifications: string,
    workType: string,
    jobTitle: string,
    role: string,
    location: string)

  /** One active test: a minimum experience value, or a lower-cased substring that a text
      column must contain. */
  datatype Test = AtLeast(years: nat) | Contains(column: Column, needle: string)

  /** Whether a record passes one test. The contains test looks at the lower-cased field;
      a field that is absent or not a string does not pass. */
  predicate Holds(t: Test, r: Record) {
    match t
    case AtLeast(years) => r.experienceValue >= years
    case Contains(column, needle) =>
      column in r.fields && r.fields[column].Str? && IsSubstring(needle, Lower(r.fields[column].s))
  }

  /** A record passes every test of `ts`. */
  predicate Passes(r: Record, ts: seq<Test>) {
    forall j :: 0 <= j < |ts| ==> Holds(ts[j], r)
  }

  /** `answer.strip().lower()`. */
  function Prepared(answer: string): string {
    Lower(Strip(answer))
  }

  /** The contains test for one text answer: none when the prepared answer is empty. */
  function ContainsTest(column: Column, answer: string): (ts: seq<Test>)
    ensures ts == [] <==> Prepared(answer) == []
    ensures ts != [] ==> ts == [Contains(column, Prepared(answer))]
  {
    var needle := Prepared(answer);
    if needle == [] then [] else [Contains(column, needle)]
  }

  /** The minimum-experience test: only when the stripped answer is a non-empty digit string. */
  function ExperienceTest(answer: string): (ts: seq<Test>)
    ensures ts == [] <==> !IsDigitString(Strip(answer))
    ensures ts != [] ==> ts == [AtLeast(DigitsValue(Strip(answer)))]
  {
    var text := Strip(answer);
    if IsDigitString(text) then [AtLeast(DigitsValue(text))] else []
  }

  /** The active tests, in the order the code applies them. */
  function ActiveTests(c: Criteria): seq<Test> {
    ExperienceTest(c.minExperience)
    + ContainsTest(Qualifications, c.qualifications)
    + ContainsTest(WorkType, c.workType)
    + ContainsTest(JobTitle, c.jobTitle)
    + ContainsTest(Role, c.role)
    + ContainsTest(Location, c.location)
  }

  /** One boolean mask `df[mask]`: the records passing `t`, in order. */
  function Select(records: seq<Record>, t: Test): (r: seq<Record>)
    ensures |r| <= |records|
  {
    if records == [] then []
    else (if Holds(t, records[0]) then [records[0]] else []) + Select(records[1..], t)
  }

  /** The tests of `ts` applied one after another, the last one last. */
  function SelectAll(records: seq<Record>, ts: seq<Test>): seq<Record> {
    if ts == [] then records else Select(SelectAll(records, ts[..|ts| - 1]), ts[|ts| - 1])
  }

  /** Reference definition: the records that pass every test, in their original order. */
  function Filtered(records: seq<Record>, ts: seq<Test>): (r: seq<Record>)
    ensures forall k :: 0 <= k < |r| ==> Passes(r[k], ts)
    ensures IsSubsequence(r, records)
  {
    if records == [] then []
    else if Passes(records[0], ts) then
      SubsequenceStep(records[0], Filtered(records[1..], ts), records[1..]);
      assert records == [records[0]] + records[1..];
      [records[0]] + Filtered(records[1..], ts)
    else
      SubsequenceStep(records[0], Filtered(records[1..], ts), records[1..]);
      assert records == [records[0]] + records[1..];
      Filtered(records[1..], ts)
  }

  /** Passing `init + [t]` is passing `init` and then `t`. */
  lemma PassesSnoc(r: Record, init: seq<Test>, t: Test)
    ensures Passes(r, init + [t]) <==> Passes(r, init) && Holds(t, r)
  {
    var ts := init + [t];
    assert ts[|init|] == t;
    if Passes(r, init) && Holds(t, r) {
      forall j | 0 <= j < |ts|
        ensures Holds(ts[j], r)
      {
        if j < |init| {
          assert ts[j] == init[j];
        }
      }
    }
    if Passes(r, ts) {
      forall j | 0 <= j < |init|
        ensures Holds(init[j], r)
      {
        assert ts[j] == init[j];
      }
    }
  }

  /** Masking the records that pass `init` with one more test is filtering by `init + [t]`. */
  lemma {:induction false} SelectFiltered(records: seq<Record>, init: seq<Test>, t: Test)
    ensures Select(Filtered(records, init), t) == Filtered(records, init + [t])
  {
    if records != [] {
      var x := records[0];
      SelectFiltered(records[1..], init, t);
      PassesSnoc(x, init, t);
      var rest := Filtered(records[1..], init);
      if Passes(x, init) {
        assert Filtered(records, init) == [x] + rest;
        assert ([x] + rest)[0] == x && ([x] + rest)[1..] == rest;
        assert Select([x] + rest, t) == (if Holds(t, x) then [x] else []) + Select(rest, t);
      } else {
        assert Filtered(records, init) == rest;
        assert Filtered(records, init + [t]) == Filtered(records[1..], init + [t]);
      }
    }
  }

  /** Applying the masks one after another keeps exactly the records that pass them all,
      in their order. */
  lemma {:induction false} SelectAllFiltered(records: seq<Record>, ts: seq<Test>)
    ensures SelectAll(records, ts) == Filtered(records, ts)
    decreases |ts|
  {
    if ts == [] {
      FilteredNone(records);
    } else {
      var init := ts[..|ts| - 1];
      SelectAllFiltered(records, init);
      SelectFiltered(records, init, ts[|ts| - 1]);
      assert init + [ts[|ts| - 1]] == ts;
    }
  }

  /** With no test nothing is removed. */
  lemma {:induction false} FilteredNone(records: seq<Record>)
    ensures Filtered(records, []) == records
  {
    if records != [] {
      FilteredNone(records[1..]);
      assert records == [records[0]] + records[1..];
    }
  }

  /** No record that passes every test is dropped. */
  lemma {:induction false} FilteredComplete(records: seq<Record>, ts: seq<Test>, x: Record)
    ensures x in Filtered(records, ts) <==> x in records && Passes(x, ts)
  {
    if records != [] {
      FilteredComplete(records[1..], ts, x);
      assert records == [records[0]] + records[1..];
    }
  }

  /** Counted with multiplicity: every copy of a record that passes every test is kept, and
      no other record. */
  lemma {:induction false} FilteredCount(records: seq<Record>, ts: seq<Test>, x: Record)
    ensures multiset(Filtered(records, ts))[x] == if Passes(x, ts) then multiset(records)[x] else 0
  {
    if records != [] {
      FilteredCount(records[1..], ts, x);
      assert records == [records[0]] + records[1..];
    }
  }

  /** The contains test of one answer, read directly: a blank answer lets everything
      through; otherwise the lower-cased string field must contain the prepared answer. */
  predicate ContainsHolds(column: Column, answer: string, r: Record) {
    Prepared(answer) != [] ==>
      column in r.fields && r.fields[column].Str? && IsSubstring(Prepared(answer), Lower(r.fields[column].s))
  }

  /** The experience test of one answer, read directly. */
  predicate ExperienceHolds(answer: string, r: Record) {
    IsDigitString(Strip(answer)) ==> r.experienceValue >= DigitsValue(Strip(answer))
  }

  lemma ContainsTestMeaning(column: Column, answer: string, r: Record)
    ensures Passes(r, ContainsTest(column, answer)) <==> ContainsHolds(column, answer, r)
  {
    if Prepared(answer) != [] {
      assert ContainsTest(column, answer)[0] == Contains(column, Prepared(answer));
    }
  }

  lemma ExperienceTestMeaning(answer: string, r: Record)
    ensures Passes(r, ExperienceTest(answer)) <==> ExperienceHolds(answer, r)
  {
    if IsDigitString(Strip(answer)) {
      assert ExperienceTest(answer)[0] == AtLeast(DigitsValue(Strip(answer)));
    }
  }

  /** What passing the active tests means, test by test, as `apply_filters` states it. */
  lemma ActiveTestsMeaning(c: Criteria, r: Record)
    ensures Passes(r, ActiveTests(c)) <==>
      ExperienceHolds(c.minExperience, r)
      && ContainsHolds(Qualifications, c.qualifications, r)
      && ContainsHolds(WorkType, c.workType, r)
      && ContainsHolds(JobTitle, c.jobTitle, r)
      && ContainsHolds(Role, c.role, r)
      && ContainsHolds(Location, c.location, r)
  {
    var e := ExperienceTest(c.minExperience);
    var q := ContainsTest(Qualifications, c.qualifications);
    var w := ContainsTest(WorkType, c.workType);
    var j := ContainsTest(JobTitle, c.jobTitle);
    var o := ContainsTest(Role, c.role);
    var l := ContainsTest(Location, c.location);
    assert ActiveTests(c) == e + q + w + j + o + l;
    ExperienceTestMeaning(c.minExperience, r);
    ContainsTestMeaning(Qualifications, c.qualifications, r);
    ContainsTestMeaning(WorkType, c.workType, r);
    ContainsTestMeaning(JobTitle, c.jobTitle, r);
    ContainsTestMeaning(Role, c.role, r);
    ContainsTestMeaning(Location, c.location, r);
    PassesAppend(r, e, q);
    PassesAppend(r, e + q, w);
    PassesAppend(r, e + q + w, j);
    PassesAppend(r, e + q + w + j, o);
    PassesAppend(r, e + q + w + j + o, l);
  }

  /** Passing a concatenation of test lists is passing both. */
  lemma PassesAppend(r: Record, a: seq<Test>, b: seq<Test>)
    ensures Passes(r, a + b) <==> Passes(r, a) && Passes(r, b)
  {
    var ts := a + b;
    if Passes(r, a) && Passes(r, b) {
      forall j | 0 <= j < |ts|
        ensures Holds(ts[j], r)
      {
        if j < |a| {
          assert ts[j] == a[j];
        } else {
          assert ts[j] == b[j - |a|];
        }
      }
    }
    if Passes(r, ts) {
      forall j | 0 <= j < |a|
        ensures Holds(a[j], r)
      {
        assert ts[j] == a[j];
      }
      forall j | 0 <= j < |b|
        ensures Holds(b[j], r)
      {
        assert ts[|a| + j] == b[j];
      }
    }
  }

  /** When every answer is blank (and the experience answer is not a number) the records
      come back unchanged. */
  lemma BlankCriteria(c: Criteria, records: seq<Record>)
    requires !IsDigitString(Strip(c.minExperience))
    requires Strip(c.qualifications) == [] && Strip(c.workType) == [] && Strip(c.jobTitle) == []
    requires Strip(c.role) == [] && Strip(c.location) == []
    ensures ActiveTests(c) == []
    ensures SelectAll(records, ActiveTests(c)) == records
  {
  }

  /** One more mask after the others. */
  lemma SelectAllSnoc(records: seq<Record>, ts: seq<Test>, t: Test)
    ensures SelectAll(records, ts + [t]) == Select(SelectAll(records, ts), t)
  {
    assert (ts + [t])[..|ts|] == ts;
  }

  /** The experience mask, applied first, only when its answer is a number. */
  lemma ExperienceStep(records: seq<Record>, answer: string)
    ensures SelectAll(records, ExperienceTest(answer))
         == if IsDigitString(Strip(answer)) then Select(records, AtLeast(DigitsValue(Strip(answer))))
            else records
  {
    if IsDigitString(Strip(answer)) {
      SelectAllSnoc(records, [], AtLeast(DigitsValue(Strip(answer))));
      assert [] + [AtLeast(DigitsValue(Strip(answer)))] == ExperienceTest(answer);
    }
  }

  /** A contains mask after the others, only when its answer is given. */
  lemma ContainsStep(records: seq<Record>, applied: seq<Test>, column: Column, answer: string)
    ensures SelectAll(records, applied + ContainsTest(column, answer))
         == if Prepared(answer) != [] then Select(SelectAll(records, applied), Contains(column, Prepared(answer)))
            else SelectAll(records, applied)
  {
    AppendOptionalTest(records, applied, ContainsTest(column, answer));
  }

  /** Applying a list of at most one further test. */
  lemma AppendOptionalTest(records: seq<Record>, applied: seq<Test>, ts: seq<Test>)
    requires |ts| <= 1
    ensures SelectAll(records, applied + ts)
         == if ts == [] then SelectAll(records, applied) else Select(SelectAll(records, applied), ts[0])
  {
    if ts == [] {
      assert applied + ts == applied;
    } else {
      assert ts == [ts[0]];
      SelectAllSnoc(records, applied, ts[0]);
    }
  }

  /** `apply_filters` for one set of answers: `df_filtered` is reassigned by each mask whose
      answer is given. The result is exactly the records passing every active test, in order. */
  method ApplyFilters(records: seq<Record>, c: Criteria) returns (filtered: seq<Record>)
    ensures filtered == Filtered(records, ActiveTests(c))
  {
    filtered := records;
    var expFilter := Strip(c.minExperience);
    var qualFilter := Prepared(c.qualifications);
    var workTypeFilter := Prepared(c.workType);
    var jobTitleFilter := Prepared(c.jobTitle);
    var roleFilter := Prepared(c.role);
    var locationFilter := Prepared(c.location);

    // The tests applied so far, as a prefix of `ActiveTests(c)`.
    ghost var applied := ExperienceTest(c.minExperience);
    if IsDigitString(expFilter) {
      filtered := Select(filtered, AtLeast(DigitsValue(expFilter)));
    }
    ExperienceStep(records, c.minExperience);
    if qualFilter != [] {
      filtered := Select(filtered, Contains(Qualifications, qualFilter));
    }
    ContainsStep(records, applied, Qualifications, c.qualifications);
    applied := applied + ContainsTest(Qualifications, c.qualifications);
    if workTypeFilter != [] {
      filtered := Select(filtered, Contains(WorkType, workTypeFilter));
    }
    ContainsStep(records, applied, WorkType, c.workType);
    applied := applied + ContainsTest(WorkType, c.workType);
    if jobTitleFilter != [] {
      filtered := Select(filtered, Contains(JobTitle, jobTitleFilter));
    }
    ContainsStep(records, applied, JobTitle, c.jobTitle);
    applied := applied + ContainsTest(JobTitle, c.jobTitle);
    if roleFilter != [] {
      filtered := Select(filtered, Contains(Role, roleFilter));
    }
    ContainsStep(records, applied, Role, c.role);
    applied := applied + ContainsTest(Role, c.role);
    if locationFilter != [] {
      filtered := Select(filtered, Contains(Location, locationFilter));
    }
    ContainsStep(records, applied, Location, c.location);
    applied := applied + ContainsTest(Location, c.location);
    SelectAllFiltered(records, applied);
  }
}
