/**
 * The normalisation stage of backend.py: filling the two defaulted columns, cleaning the
 * text columns, deriving `Experience_Value` and `Salary_Mid`, and keeping only the rows
 * with a positive experience value.
 */
module Normalizer {
  import opened Text
  import opened Seqs

  datatype Option<T> = None | Some(value: T)

  /** One table cell: a string, an integer, or a missing value (pandas NaN). */
  datatype Cell = Str(s: string) | Num(n: int) | Missing

  /** The column names the code refers to, and any other column by its name. */
  datatype Column =
    | ContactPerson     // 'Contact Person'
    | Experience        // 'Experience'
    | Qualifications    // 'Qualifications'
    | Location          // 'location'
    | Country           // 'Country'
    | WorkType          // 'Work Type'
    | Preference        // 'Preference'
    | JobTitle          // 'Job Title'
    | Role              // 'Role'
    | JobDescription    // 'Job Description'
    | Benefits          // 'Benefits'
    | Skills            // 'skills'
    | Responsibilities  // 'Responsibilities'
    | Company           // 'Company'
    | SalaryRange       // 'Salary Range'
    | OtherColumn(name: string)

  /** One table row, keyed by column; a column the table lacks is absent from the map. */
  type Row = map<Column, Cell>

  /** A normalised row with its two derived columns. */
  datatype Record = Record(fields: Row, experienceValue: nat, salaryMid: Option<real>)

  /** The columns `clean_text` is applied to when the table has them. */
  const TextColumns: set<Column> :=
    {ContactPerson, Experience, Qualifications, Location, Country, WorkType, Preference,
     JobTitle, Role, JobDescription, Benefits, Skills, Responsibilities, Company}

  /** `clean_text`: a string is cleaned, any other value is returned unchanged. */
  function CleanCell(c: Cell): (r: Cell)
    ensures c.Str? <==> r.Str?
    ensures r.Str? ==> IsClean(r.s) && NonSpace(r.s) == NonSpace(c.s)
    ensures c.Str? ==> r.s == CleanText(c.s)
    ensures !c.Str? ==> r == c
  {
    if c.Str? then Str(CleanText(c.s)) else c
  }

  /** Python's `str()` of a cell. */
  function CellText(c: Cell): string {
    match c
    case Str(s) => s
    case Num(n) => if n < 0 then "-" + Show(-n) else Show(n)
    case Missing => "nan"
  }

  /** `extract_min_experience` on the text of the cell: the value of the first run of digits,
      or 0 when there is no digit at all. */
  function ExtractMinExperience(s: string): nat {
    if s == [] then 0
    else if IsDigit(s[0]) then DigitsValue(LeadingDigits(s))
    else ExtractMinExperience(s[1..])
  }

  /** Without any digit the experience value is 0. */
  lemma {:induction false} ExperienceWithoutDigits(s: string)
    requires forall i :: 0 <= i < |s| ==> !IsDigit(s[i])
    ensures ExtractMinExperience(s) == 0
  {
    if s != [] {
      assert !IsDigit(s[0]);
      ExperienceWithoutDigits(s[1..]);
    }
  }

  /** The first digit run wins: when the first digit of `s` is at `i`, the result is the value
      of the maximal digit run starting there. */
  lemma {:induction false} ExperienceFirstRun(s: string, i: nat)
    requires i < |s| && IsDigit(s[i])
    requires forall j :: 0 <= j < i ==> !IsDigit(s[j])
    ensures ExtractMinExperience(s) == DigitsValue(LeadingDigits(s[i..]))
    decreases i
  {
    if i > 0 {
      assert s[1..][i - 1..] == s[i..];
      ExperienceFirstRun(s[1..], i - 1);
    }
  }

  /** Digit-free text in front does not change the experience value. */
  lemma {:induction false} ExperienceSkip(text: string, s: string)
    requires NoDigits(text)
    ensures ExtractMinExperience(text + s) == ExtractMinExperience(s)
  {
    if text == [] {
      assert text + s == s;
    } else {
      assert (text + s)[1..] == text[1..] + s;
      ExperienceSkip(text[1..], s);
    }
  }

  /** A non-digit appended at the end does not change the experience value. */
  lemma {:induction false} ExperienceDropLast(t: string, c: char)
    requires !IsDigit(c)
    ensures ExtractMinExperience(t + [c]) == ExtractMinExperience(t)
  {
    if t != [] {
      assert (t + [c])[1..] == t[1..] + [c];
      if IsDigit(t[0]) {
        LeadingDigitsOf(LeadingDigits(t), t[|LeadingDigits(t)|..]);
        assert t == LeadingDigits(t) + t[|LeadingDigits(t)|..];
        assert t + [c] == LeadingDigits(t) + (t[|LeadingDigits(t)|..] + [c]);
        LeadingDigitsOf(LeadingDigits(t), t[|LeadingDigits(t)|..] + [c]);
      } else {
        ExperienceDropLast(t[1..], c);
      }
    } else {
      assert t + [c] == [c];
    }
  }

  /** The experience value is the same before and after `str.rstrip()`. */
  lemma {:induction false} ExperienceTrimRight(s: string)
    ensures ExtractMinExperience(TrimRight(s)) == ExtractMinExperience(s)
    decreases |s|
  {
    if s != [] && IsSpace(s[|s| - 1]) {
      assert s == s[..|s| - 1] + [s[|s| - 1]];
      ExperienceDropLast(s[..|s| - 1], s[|s| - 1]);
      ExperienceTrimRight(s[..|s| - 1]);
    }
  }

  /** Collapsing whitespace keeps a leading digit run. */
  lemma {:induction false} CollapseLeadingDigits(t: string)
    ensures LeadingDigits(Collapse(t)) == LeadingDigits(t)
    decreases |t|
  {
    if t != [] && IsDigit(t[0]) {
      assert Collapse(t) == [t[0]] + Collapse(t[1..]);
      assert ([t[0]] + Collapse(t[1..]))[1..] == Collapse(t[1..]);
      CollapseLeadingDigits(t[1..]);
    }
  }

  /** The experience value is the same before and after `str.lstrip()`. */
  lemma {:induction false} ExperienceTrimLeft(s: string)
    ensures ExtractMinExperience(TrimLeft(s)) == ExtractMinExperience(s)
  {
    var t := TrimLeft(s);
    var k := |s| - |t|;
    StripLeftSpaces(s);
    assert NoDigits(s[..k]) by {
      forall j | 0 <= j < k
        ensures !IsDigit(s[..k][j])
      {
        assert IsSpace(s[j]);
      }
    }
    assert s == s[..k] + t;
    ExperienceSkip(s[..k], t);
  }

  /** Collapsing a leading whitespace run keeps the experience value, given that collapsing
      the rest does. */
  lemma ExperienceCollapseSpace(s: string)
    requires s != [] && IsSpace(s[0])
    requires ExtractMinExperience(Collapse(TrimLeft(s))) == ExtractMinExperience(TrimLeft(s))
    ensures ExtractMinExperience(Collapse(s)) == ExtractMinExperience(s)
  {
    var r := Collapse(s);
    assert r == " " + Collapse(TrimLeft(s)) && r[1..] == Collapse(TrimLeft(s));
    ExperienceTrimLeft(s);
  }

  /** The same for a leading character that is neither whitespace nor a digit. */
  lemma ExperienceCollapseOther(s: string)
    requires s != [] && !IsSpace(s[0]) && !IsDigit(s[0])
    requires ExtractMinExperience(Collapse(s[1..])) == ExtractMinExperience(s[1..])
    ensures ExtractMinExperience(Collapse(s)) == ExtractMinExperience(s)
  {
    var r := Collapse(s);
    assert r == [s[0]] + Collapse(s[1..]) && r[1..] == Collapse(s[1..]);
  }

  /** The experience value is the same before and after collapsing whitespace runs. */
  lemma {:induction false} ExperienceCollapse(s: string)
    ensures ExtractMinExperience(Collapse(s)) == ExtractMinExperience(s)
    decreases |s|
  {
    if s != [] {
      if IsSpace(s[0]) {
        ExperienceCollapse(TrimLeft(s));
        ExperienceCollapseSpace(s);
      } else if IsDigit(s[0]) {
        CollapseLeadingDigits(s);
      } else {
        ExperienceCollapse(s[1..]);
        ExperienceCollapseOther(s);
      }
    }
  }

  /** Cleaning the text first does not change the experience value: `clean_text` only
      touches whitespace, which never belongs to a digit run. */
  lemma ExperienceSurvivesCleaning(s: string)
    ensures ExtractMinExperience(CleanText(s)) == ExtractMinExperience(s)
  {
    var t := TrimLeft(s);
    ExperienceTrimLeft(s);
    ExperienceTrimRight(t);
    ExperienceCollapse(Strip(s));
  }

  /** Round trip with `str()`: a number written after digit-free text, and not followed by
      another digit, is read back. */
  lemma ExperienceOfShow(prefix: string, n: nat, suffix: string)
    requires NoDigits(prefix)
    requires suffix == [] || !IsDigit(suffix[0])
    ensures ExtractMinExperience(prefix + Show(n) + suffix) == n
  {
    ExperienceOfDigits(prefix, Show(n), suffix);
  }

  /** The same for any non-empty digit string, leading zeros included. */
  lemma ExperienceOfDigits(prefix: string, d: string, suffix: string)
    requires NoDigits(prefix)
    requires d != [] && AllDigits(d)
    requires suffix == [] || !IsDigit(suffix[0])
    ensures ExtractMinExperience(prefix + d + suffix) == DigitsValue(d)
  {
    var tail := d + suffix;
    var s := prefix + tail;
    assert prefix + d + suffix == s;
    assert s[|prefix|..] == tail;
    assert s[|prefix|] == d[0];
    ExperienceFirstRun(s, |prefix|);
    LeadingDigitsOf(d, suffix);
  }

  /** An integer cell yields its absolute value (the minus sign of `str()` is not a digit). */
  lemma ExperienceOfNumber(n: int)
    ensures ExtractMinExperience(CellText(Num(n))) == if n < 0 then -n else n
  {
    var m := if n < 0 then -n else n;
    var d := Show(m);
    var prefix := if n < 0 then "-" else "";
    assert CellText(Num(n)) == prefix + d + "";
    ExperienceOfDigits(prefix, d, "");
  }

  /** `re.findall(r'\d+K', s)` with the `K` removed and the digits read as integers: scanning
      left to right, a match starts at a digit whose maximal digit run is followed by `K`;
      scanning resumes after the `K`. Elsewhere it moves on by one character. */
  function KTokens(s: string): seq<nat>
    decreases |s|
  {
    if s == [] then []
    else if IsDigit(s[0]) then
      var d := LeadingDigits(s);
      if |d| < |s| && s[|d|] == 'K' then [DigitsValue(d)] + KTokens(s[|d| + 1..])
      else KTokens(s[1..])
    else KTokens(s[1..])
  }

  /** Digit-free text in front contributes no token. */
  lemma {:induction false} KTokensSkip(text: string, s: string)
    requires NoDigits(text)
    ensures KTokens(text + s) == KTokens(s)
  {
    if text != [] {
      assert (text + s)[1..] == text[1..] + s;
      KTokensSkip(text[1..], s);
    } else {
      assert text + s == s;
    }
  }

  /** A digit run followed by `K` is one token. */
  lemma KTokensToken(d: string, rest: string)
    requires d != [] && AllDigits(d)
    ensures KTokens(d + "K" + rest) == [DigitsValue(d)] + KTokens(rest)
  {
    var s := d + "K" + rest;
    LeadingDigitsOf(d, "K" + rest);
    assert s == d + ("K" + rest);
    assert s[|d| + 1..] == rest;
  }

  /** A digit run not followed by `K` is not a token, whatever its length. */
  lemma {:induction false} KTokensBare(d: string, rest: string)
    requires AllDigits(d)
    requires rest == [] || (!IsDigit(rest[0]) && rest[0] != 'K')
    ensures KTokens(d + rest) == KTokens(rest)
  {
    if d == [] {
      assert d + rest == rest;
    } else {
      var s := d + rest;
      LeadingDigitsOf(d, rest);
      assert s[1..] == d[1..] + rest;
      KTokensBare(d[1..], rest);
    }
  }

  /** `salary_to_midpoint`: the mean of the two `K` tokens of a string that has exactly two;
      absent for any other count and for a value that is not a string. */
  function SalaryToMidpoint(c: Cell): (r: Option<real>)
    ensures r.Some? <==> c.Str? && |KTokens(c.s)| == 2
    ensures r.Some? ==> 2.0 * r.value == (KTokens(c.s)[0] + KTokens(c.s)[1]) as real
  {
    match c
    case Str(s) =>
      var numbers := KTokens(s);
      if |numbers| == 2 then Some((numbers[0] + numbers[1]) as real / 2.0) else None
    case _ => None
  }

  /** Digit-free text, then a digit run followed by `K`: one token, then the rest. */
  lemma KTokensNext(prefix: string, d: string, rest: string)
    requires NoDigits(prefix)
    requires d != [] && AllDigits(d)
    ensures KTokens(prefix + d + "K" + rest) == [DigitsValue(d)] + KTokens(rest)
  {
    assert prefix + d + "K" + rest == prefix + (d + "K" + rest);
    KTokensSkip(prefix, d + "K" + rest);
    KTokensToken(d, rest);
  }

  /** Digit-free text holds no token. */
  lemma KTokensNone(s: string)
    requires NoDigits(s)
    ensures KTokens(s) == []
  {
    KTokensSkip(s, []);
    assert s + [] == s;
  }

  /** Digit-free text around a single digit run followed by `K`: exactly one token. */
  lemma KTokensLast(prefix: string, d: string, suffix: string)
    requires NoDigits(prefix) && NoDigits(suffix)
    requires d != [] && AllDigits(d)
    ensures KTokens(prefix + d + "K" + suffix) == [DigitsValue(d)]
  {
    KTokensNext(prefix, d, suffix);
    KTokensNone(suffix);
  }

  /** Two such runs separated by digit-free text: exactly two tokens, in order. */
  lemma KTokensTwo(prefix: string, d1: string, sep: string, d2: string, suffix: string)
    requires NoDigits(prefix) && NoDigits(sep) && NoDigits(suffix)
    requires d1 != [] && AllDigits(d1) && d2 != [] && AllDigits(d2)
    ensures KTokens(prefix + d1 + "K" + sep + d2 + "K" + suffix) == [DigitsValue(d1), DigitsValue(d2)]
  {
    var head := prefix + d1 + "K";
    var middle := sep + d2;
    Regroup(head, sep, d2);
    Regroup(head, middle, "K");
    Regroup(head, middle + "K", suffix);
    KTokensNext(prefix, d1, middle + "K" + suffix);
    KTokensLast(sep, d2, suffix);
    Pair(DigitsValue(d1), DigitsValue(d2));
  }

  /** Exactly two tokens `a` and `b` give the midpoint (a+b)/2. */
  lemma MidpointOfTwo(s: string, a: nat, b: nat)
    requires KTokens(s) == [a, b]
    ensures SalaryToMidpoint(Str(s)) == Some((a + b) as real / 2.0)
  {
  }

  /** Any other number of tokens gives no midpoint. */
  lemma NoMidpoint(s: string)
    requires |KTokens(s)| != 2
    ensures SalaryToMidpoint(Str(s)) == None
  {
  }

  /** Round trip with `str()`: a range "aK<sep>bK" surrounded by digit-free text has
      midpoint (a+b)/2. */
  lemma SalaryRoundTrip(prefix: string, a: nat, sep: string, b: nat, suffix: string)
    requires NoDigits(prefix) && NoDigits(sep) && NoDigits(suffix)
    ensures SalaryToMidpoint(Str(prefix + Show(a) + "K" + sep + Show(b) + "K" + suffix))
         == Some((a + b) as real / 2.0)
  {
    var s := prefix + Show(a) + "K" + sep + Show(b) + "K" + suffix;
    KTokensTwo(prefix, Show(a), sep, Show(b), suffix);
    MidpointOfTwo(s, a, b);
  }

  /** A single `K` token, as in "50K", gives no midpoint. */
  lemma SalaryOneToken(prefix: string, a: nat, suffix: string)
    requires NoDigits(prefix) && NoDigits(suffix)
    ensures SalaryToMidpoint(Str(prefix + Show(a) + "K" + suffix)) == None
  {
    KTokensLast(prefix, Show(a), suffix);
    NoMidpoint(prefix + Show(a) + "K" + suffix);
  }

  /** Three `K` tokens, as in "10K-20K-30K", give no midpoint either. */
  lemma SalaryThreeTokens(a: nat, sep1: string, b: nat, sep2: string, c: nat)
    requires NoDigits(sep1) && NoDigits(sep2)
    ensures SalaryToMidpoint(Str(Show(a) + "K" + (sep1 + Show(b) + "K" + sep2 + Show(c) + "K"))) == None
  {
    var rest := sep1 + Show(b) + "K" + sep2 + Show(c) + "K";
    assert Show(a) + "K" + rest == [] + Show(a) + "K" + rest;
    KTokensNext([], Show(a), rest);
    assert rest == sep1 + Show(b) + "K" + sep2 + Show(c) + "K" + [];
    KTokensTwo(sep1, Show(b), sep2, Show(c), []);
    NoMidpoint(Show(a) + "K" + rest);
  }

  /** Text without any digit, such as "negotiable", gives no midpoint. */
  lemma SalaryWithoutDigits(s: string)
    requires NoDigits(s)
    ensures SalaryToMidpoint(Str(s)) == None
  {
    KTokensNone(s);
  }

  /** The columns the normalisation reads unconditionally (pandas raises a KeyError without them). */
  predicate HasRequiredColumns(row: Row) {
    Experience in row && Skills in row && SalaryRange in row
  }

  /** `fillna`: a missing experience becomes "0 Years", missing skills become "". */
  function FillMissing(row: Row): (r: Row)
    requires HasRequiredColumns(row)
    ensures r.Keys == row.Keys
    ensures !r[Experience].Missing? && !r[Skills].Missing?
    ensures forall k :: k in row && !row[k].Missing? ==> r[k] == row[k]
    ensures row[Experience].Missing? ==> r[Experience] == Str(DefaultExperience)
    ensures row[Skills].Missing? ==> r[Skills] == Str("")
    ensures forall k :: k in row && k != Experience && k != Skills ==> r[k] == row[k]
  {
    var experience := if row[Experience].Missing? then Str(DefaultExperience) else row[Experience];
    var skills := if row[Skills].Missing? then Str("") else row[Skills];
    row[Experience := experience][Skills := skills]
  }

  /** `clean_text` applied to every text column present. */
  function CleanColumns(row: Row): (r: Row)
    ensures r.Keys == row.Keys
    ensures forall k :: k in r && k in TextColumns ==> r[k] == CleanCell(row[k])
    ensures forall k :: k in r && k !in TextColumns ==> r[k] == row[k]
  {
    map k | k in row :: if k in TextColumns then CleanCell(row[k]) else row[k]
  }

  /** One row through the normalisation: defaults filled, text columns cleaned, the two
      derived columns computed. */
  function NormalizeRow(row: Row): (r: Record)
    requires HasRequiredColumns(row)
    ensures r.fields.Keys == row.Keys
    ensures !r.fields[Experience].Missing? && !r.fields[Skills].Missing?
    ensures r.experienceValue == if row[Experience].Missing? then 0 else ExtractMinExperience(CellText(row[Experience]))
    ensures r.salaryMid == SalaryToMidpoint(row[SalaryRange])
    ensures forall k :: k in row ==>
      r.fields[k] == if k in TextColumns then CleanCell(FillMissing(row)[k]) else row[k]
  {
    Record(CleanColumns(FillMissing(row)), ExperienceValue(row[Experience]), SalaryToMidpoint(row[SalaryRange]))
  }

  /** After normalisation every string in a text column is clean, and every other column
      (the salary range included) holds exactly what the input row held. */
  lemma NormalizedFields(row: Row)
    requires HasRequiredColumns(row)
    ensures forall k :: k in TextColumns && k in NormalizeRow(row).fields && NormalizeRow(row).fields[k].Str?
                ==> IsClean(NormalizeRow(row).fields[k].s)
    ensures forall k :: k in row && k !in TextColumns ==> NormalizeRow(row).fields[k] == row[k]
  {
    var filled := FillMissing(row);
    var fields := NormalizeRow(row).fields;
    assert fields == CleanColumns(filled);
    forall k | k in TextColumns && k in fields && fields[k].Str?
      ensures IsClean(fields[k].s)
    {
      assert fields[k] == CleanCell(filled[k]);
    }
    forall k | k in row && k !in TextColumns
      ensures fields[k] == row[k]
    {
      assert fields[k] == filled[k];
    }
  }

  /** `Experience_Value` of one cell: a missing value is filled with "0 Years", the text is
      cleaned, then `extract_min_experience` reads it. Cleaning never changes the result. */
  function ExperienceValue(c: Cell): (v: nat)
    ensures v == if c.Missing? then 0 else ExtractMinExperience(CellText(c))
  {
    var filled := if c.Missing? then Str(DefaultExperience) else c;
    ExperienceOfCleanCell(filled);
    ExperienceOfDefault();
    ExtractMinExperience(CellText(CleanCell(filled)))
  }

  /** `clean_text` does not change what `extract_min_experience` reads from a cell. */
  lemma ExperienceOfCleanCell(c: Cell)
    ensures ExtractMinExperience(CellText(CleanCell(c))) == ExtractMinExperience(CellText(c))
  {
    if c.Str? {
      ExperienceSurvivesCleaning(c.s);
    }
  }

  /** The text `fillna` puts into a missing experience cell. */
  const DefaultExperience: string := "0 Years"

  /** The default "0 Years" yields 0. */
  lemma ExperienceOfDefault()
    ensures ExtractMinExperience(DefaultExperience) == 0
  {
    ExperienceOfDigits("", "0", " Years");
    assert "" + "0" + " Years" == "0 Years";
  }

  /** Every row of the table has the columns the normalisation reads. */
  predicate AllHaveRequiredColumns(rows: seq<Row>) {
    forall i :: 0 <= i < |rows| ==> HasRequiredColumns(rows[i])
  }

  /** Every row normalised, in order. */
  function NormalizeAll(rows: seq<Row>): seq<Record>
    requires AllHaveRequiredColumns(rows)
  {
    seq(|rows|, i requires 0 <= i < |rows| => NormalizeRow(rows[i]))
  }

  /** `df[df['Experience_Value'] > 0]`: the records with a positive experience value, in order. */
  function KeepExperienced(records: seq<Record>): (r: seq<Record>)
    ensures forall k :: 0 <= k < |r| ==> r[k].experienceValue > 0
    ensures IsSubsequence(r, records)
  {
    if records == [] then []
    else if records[0].experienceValue > 0 then
      SubsequenceStep(records[0], KeepExperienced(records[1..]), records[1..]);
      assert records == [records[0]] + records[1..];
      [records[0]] + KeepExperienced(records[1..])
    else
      SubsequenceStep(records[0], KeepExperienced(records[1..]), records[1..]);
      assert records == [records[0]] + records[1..];
      KeepExperienced(records[1..])
  }

  /** Nothing with a positive experience value is dropped. */
  lemma {:induction false} KeepExperiencedComplete(records: seq<Record>)
    ensures forall i :: 0 <= i < |records| && records[i].experienceValue > 0
              ==> records[i] in KeepExperienced(records)
  {
    if records != [] {
      KeepExperiencedComplete(records[1..]);
      forall i | 0 <= i < |records| && records[i].experienceValue > 0
        ensures records[i] in KeepExperienced(records)
      {
        if i > 0 {
          assert records[i] == records[1..][i - 1];
        }
      }
    }
  }

  /** Counted with multiplicity: every copy of a record with a positive experience value is
      kept, and no other record. */
  lemma {:induction false} KeepExperiencedCount(records: seq<Record>, x: Record)
    ensures multiset(KeepExperienced(records))[x] == if x.experienceValue > 0 then multiset(records)[x] else 0
  {
    if records != [] {
      KeepExperiencedCount(records[1..], x);
      assert records == [records[0]] + records[1..];
    }
  }

  /** The cleaned table: every row normalised, then only those with a positive
      experience value kept. */
  function CleanTable(rows: seq<Row>): seq<Record>
    requires AllHaveRequiredColumns(rows)
  {
    KeepExperienced(NormalizeAll(rows))
  }

  /** A record survives the experience filter exactly when it was there and its experience
      value is positive. */
  lemma KeepExperiencedMembers(records: seq<Record>, x: Record)
    ensures x in KeepExperienced(records) <==> x in records && x.experienceValue > 0
  {
    KeepExperiencedComplete(records);
    SubsequenceMembers(KeepExperienced(records), records, x);
    if x in records && x.experienceValue > 0 {
      var i :| 0 <= i < |records| && records[i] == x;
    }
  }

  /** A record is in the cleaned table exactly when it is the normalisation of some row and
      has a positive experience value; the table order is kept. */
  lemma CleanTableMembers(rows: seq<Row>, x: Record)
    requires AllHaveRequiredColumns(rows)
    ensures IsSubsequence(CleanTable(rows), NormalizeAll(rows))
    ensures x in CleanTable(rows) <==>
              x.experienceValue > 0 && exists i :: 0 <= i < |rows| && x == NormalizeRow(rows[i])
  {
    var all := NormalizeAll(rows);
    KeepExperiencedMembers(all, x);
    assert x in all <==> exists i :: 0 <= i < |rows| && x == NormalizeRow(rows[i]) by {
      if x in all {
        var i :| 0 <= i < |all| && all[i] == x;
      }
      if exists i :: 0 <= i < |rows| && x == NormalizeRow(rows[i]) {
        var i :| 0 <= i < |rows| && x == NormalizeRow(rows[i]);
        assert all[i] == x;
      }
    }
  }
}
