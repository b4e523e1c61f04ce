/**
 The dashboard's own mapping table (`category_mappings` in heaps-v4.py) and
 `preprocess_data` over it, with what the table's literals promise.
 */
module Heaps {
  import opened Frames
  import opened Rules
  import opened Encoder

  /** `Age`: `0 if x <= 20 else 1 if x <= 23 else 2`. */
  const AgeRule: Rule := Threshold(AtMost, [20.0, 23.0])

  /** `SHS_GWA`: `0 if x >= 90 else 1`. */
  const GwaRule: Rule := Threshold(AtLeast, [90.0])

  const SexLabels: map<string, int> := map["Male" := 0, "Female" := 1]

  const YesNo: map<string, int> := map["No" := 0, "Yes" := 1]

  const SchoolLabels: map<string, int> := map["Public" := 0, "Private" := 1]

  const ExamLabels: map<string, int> := map["1st qualifier" := 0, "2nd qualifier" := 1]

  const StudyHoursLabels: map<string, int> :=
    map["Less than 1 hour" := 0, "2-3 hours" := 1, "4-5 hours" := 2, "More than 5 hours" := 3]

  const Frequency: map<string, int> :=
    map["Never" := 0, "Rarely" := 1, "Sometimes" := 2, "Always" := 3]

  const AttendanceLabels: map<string, int> :=
    map["Below 30 days (<50%)" := 0, "44-30 days (50-69%)" := 1,
        "59-45 days (70-89%)" := 2, "70-60 days (90-100%)" := 3]

  const AllowanceLabels: map<string, int> :=
    map["Below Php 50" := 0, "Php 50-100" := 1, "Php 101-200" := 2, "More than Php 200" := 3]

  /** `category_mappings`, in declaration order. */
  const CategoryMappings: Mappings := [
    ("Age", AgeRule),
    ("Sex", Lookup(SexLabels)),
    ("Scholarship", Lookup(YesNo)),
    ("Type_of_High_School", Lookup(SchoolLabels)),
    ("SHS_GWA", GwaRule),
    ("Entrance_Exam_Result", Lookup(ExamLabels)),
    ("Study_Hours", Lookup(StudyHoursLabels)),
    ("Submission_Activities", Lookup(Frequency)),
    ("Consultation", Lookup(Frequency)),
    ("Attendance", Lookup(AttendanceLabels)),
    ("Part_Time_Job", Lookup(YesNo)),
    ("Devices", Lookup(YesNo)),
    ("Internet_Access", Lookup(YesNo)),
    ("Daily_Allowance", Lookup(AllowanceLabels))
  ]

  /** Fields answered by one of two labels. */
  const TwoLabelFields: seq<string> := ["Sex", "Scholarship", "Type_of_High_School",
    "Entrance_Exam_Result", "Part_Time_Job", "Devices", "Internet_Access"]

  /** Fields answered by one of four ordered buckets. */
  const FourBucketFields: seq<string> := ["Study_Hours", "Submission_Activities",
    "Consultation", "Attendance", "Daily_Allowance"]

  /**
   `preprocess_data(df)` with the dashboard's table. On success the frame
   keeps its rows, labels, order and column lengths, and the columns the
   table does not name come back unchanged.
   */
  function PreprocessData(f: Frame): (r: Result<Frame>)
    ensures r.Ok? ==> r.value.rows == f.rows
    ensures r.Ok? ==> Names(r.value.columns) == Names(f.columns)
    ensures r.Ok? ==> forall i :: 0 <= i < |f.columns| ==>
      |r.value.columns[i].cells| == |f.columns[i].cells|
    ensures r.Ok? ==> forall i :: 0 <= i < |f.columns| && RuleFor(CategoryMappings, f.columns[i].name).None? ==>
      r.value.columns[i] == f.columns[i]
    ensures r.Ok? && Valid(f) ==> Valid(r.value)
  {
    var r := Preprocess(CategoryMappings, f);
    if r.Ok? then
      CategoryMappingsDistinct();
      PreprocessKeepsShape(CategoryMappings, f);
      r
    else r
  }

  /** The table is a dict literal: no column appears twice. */
  lemma CategoryMappingsDistinct()
    ensures DistinctNames(CategoryMappings)
  {
  }

  /** The two-label dicts code their labels to exactly {0, 1}, one code per label. */
  lemma TwoLabelDicts()
    ensures Injective(SexLabels) && SexLabels.Values == {0, 1}
    ensures Injective(YesNo) && YesNo.Values == {0, 1}
    ensures Injective(SchoolLabels) && SchoolLabels.Values == {0, 1}
    ensures Injective(ExamLabels) && ExamLabels.Values == {0, 1}
  {
    assert SexLabels["Male"] == 0 && SexLabels["Female"] == 1;
    assert YesNo["No"] == 0 && YesNo["Yes"] == 1;
    assert SchoolLabels["Public"] == 0 && SchoolLabels["Private"] == 1;
    assert ExamLabels["1st qualifier"] == 0 && ExamLabels["2nd qualifier"] == 1;
  }

  /** The four-bucket dicts code their labels to exactly {0, 1, 2, 3}, one code per label. */
  lemma FourBucketDicts()
    ensures Injective(StudyHoursLabels) && StudyHoursLabels.Values == {0, 1, 2, 3}
    ensures Injective(Frequency) && Frequency.Values == {0, 1, 2, 3}
    ensures Injective(AttendanceLabels) && AttendanceLabels.Values == {0, 1, 2, 3}
    ensures Injective(AllowanceLabels) && AllowanceLabels.Values == {0, 1, 2, 3}
  {
    assert StudyHoursLabels["Less than 1 hour"] == 0 && StudyHoursLabels["2-3 hours"] == 1;
    assert StudyHoursLabels["4-5 hours"] == 2 && StudyHoursLabels["More than 5 hours"] == 3;
    assert Frequency["Never"] == 0 && Frequency["Rarely"] == 1;
    assert Frequency["Sometimes"] == 2 && Frequency["Always"] == 3;
    assert AttendanceLabels["Below 30 days (<50%)"] == 0;
    assert AttendanceLabels["44-30 days (50-69%)"] == 1;
    assert AttendanceLabels["59-45 days (70-89%)"] == 2;
    assert AttendanceLabels["70-60 days (90-100%)"] == 3;
    assert AllowanceLabels["Below Php 50"] == 0 && AllowanceLabels["Php 50-100"] == 1;
    assert AllowanceLabels["Php 101-200"] == 2 && AllowanceLabels["More than Php 200"] == 3;
  }

  /** Every rule is well formed: cuts in evaluation order, and no two labels of a field share a code. */
  lemma CategoryMappingsWellFormed()
    ensures forall k :: 0 <= k < |CategoryMappings| ==> WellFormed(CategoryMappings[k].1)
  {
    TwoLabelDicts();
    FourBucketDicts();
  }

  /** Skipping entries for other columns does not change the rule found. */
  lemma RuleForSkip(ms: Mappings, k: nat, name: string)
    requires k <= |ms|
    requires forall i :: 0 <= i < k ==> ms[i].0 != name
    ensures RuleFor(ms, name) == RuleFor(ms[k..], name)
  {
    if k > 0 {
      RuleForSkip(ms[1..], k - 1, name);
      assert ms[1..][k - 1..] == ms[k..];
    }
  }

  /** The rules the table gives `Age` and `SHS_GWA`. */
  lemma ThresholdFields()
    ensures RuleFor(CategoryMappings, "Age") == Some(AgeRule)
    ensures RuleFor(CategoryMappings, "SHS_GWA") == Some(GwaRule)
  {
    RuleForSkip(CategoryMappings, 4, "SHS_GWA");
  }

  /** Only entries 0 and 4 of the table are thresholds. */
  lemma ThresholdEntries()
    ensures forall k :: 0 <= k < |CategoryMappings| ==>
      (CategoryMappings[k].1.Threshold? <==> CategoryMappings[k].0 in ["Age", "SHS_GWA"])
  {
  }

  /** No lookup field is named `Age` or `SHS_GWA`. */
  lemma LookupFieldsAreNotThresholds()
    ensures "Age" !in TwoLabelFields + FourBucketFields
    ensures "SHS_GWA" !in TwoLabelFields + FourBucketFields
  {
  }

  /** Every two-label and four-bucket field has an entry in the table. */
  lemma LookupFieldsConfigured()
    ensures forall name :: name in TwoLabelFields + FourBucketFields ==>
      exists k :: 0 <= k < |CategoryMappings| && CategoryMappings[k].0 == name
  {
    assert forall k :: 0 <= k < 7 ==> TwoLabelFields[k] == CategoryMappings[[1, 2, 3, 5, 10, 11, 12][k]].0;
    assert forall k :: 0 <= k < 5 ==> FourBucketFields[k] == CategoryMappings[[6, 7, 8, 9, 13][k]].0;
  }

  /** The two-label fields are configured with one of the two-label dicts. */
  lemma TwoLabelFieldDicts()
    ensures forall k :: 0 <= k < |CategoryMappings| && CategoryMappings[k].0 in TwoLabelFields ==>
      CategoryMappings[k].1.Lookup?
      && CategoryMappings[k].1.labels in [SexLabels, YesNo, SchoolLabels, ExamLabels]
  {
  }

  /** The four-bucket fields are configured with one of the four-bucket dicts. */
  lemma FourBucketFieldDicts()
    ensures forall k :: 0 <= k < |CategoryMappings| && CategoryMappings[k].0 in FourBucketFields ==>
      CategoryMappings[k].1.Lookup?
      && CategoryMappings[k].1.labels in [StudyHoursLabels, Frequency, AttendanceLabels, AllowanceLabels]
  {
  }

  /**
   Two-label fields code to exactly {0, 1} and four-bucket fields to exactly
   {0, 1, 2, 3}, and within each field distinct labels get distinct codes.
   */
  lemma LookupCodomains()
    ensures forall k :: 0 <= k < |CategoryMappings| && CategoryMappings[k].0 in TwoLabelFields ==>
      CategoryMappings[k].1.Lookup? && CategoryMappings[k].1.labels.Values == {0, 1}
      && Injective(CategoryMappings[k].1.labels)
    ensures forall k :: 0 <= k < |CategoryMappings| && CategoryMappings[k].0 in FourBucketFields ==>
      CategoryMappings[k].1.Lookup? && CategoryMappings[k].1.labels.Values == {0, 1, 2, 3}
      && Injective(CategoryMappings[k].1.labels)
  {
    TwoLabelDicts();
    FourBucketDicts();
    TwoLabelFieldDicts();
    FourBucketFieldDicts();
  }

  /** `Age` bands: at most 20 is 0, 21 to 23 is 1, above 23 is 2; text raises. */
  lemma AgeBands(x: real)
    ensures x <= 20.0 ==> EncodeCell(AgeRule, Real(x)) == Some(Int(0))
    ensures 20.0 < x <= 23.0 ==> EncodeCell(AgeRule, Real(x)) == Some(Int(1))
    ensures 23.0 < x ==> EncodeCell(AgeRule, Real(x)) == Some(Int(2))
    ensures forall i: int :: EncodeCell(AgeRule, Int(i)) == EncodeCell(AgeRule, Real(i as real))
    ensures forall s :: EncodeCell(AgeRule, Str(s)) == None
  {
    AtMostBand(AgeRule.cuts, x, FirstMatch(AtMost, AgeRule.cuts, x));
  }

  /** `SHS_GWA` bands: at least 90 is 0, below 90 is 1; text raises. */
  lemma GwaBands(x: real)
    ensures 90.0 <= x ==> EncodeCell(GwaRule, Real(x)) == Some(Int(0))
    ensures x < 90.0 ==> EncodeCell(GwaRule, Real(x)) == Some(Int(1))
    ensures forall i: int :: EncodeCell(GwaRule, Int(i)) == EncodeCell(GwaRule, Real(i as real))
    ensures forall s :: EncodeCell(GwaRule, Str(s)) == None
  {
  }

  /** A higher age never gets a lower code; a higher GWA never gets a higher one. */
  lemma ThresholdsMonotone(x: real, y: real)
    requires x <= y
    ensures EncodeCell(AgeRule, Real(x)).value.i <= EncodeCell(AgeRule, Real(y)).value.i
    ensures EncodeCell(GwaRule, Real(y)).value.i <= EncodeCell(GwaRule, Real(x)).value.i
  {
    FirstMatchMonotone(AtMost, AgeRule.cuts, x, y);
    FirstMatchMonotone(AtLeast, GwaRule.cuts, x, y);
  }

  /**
   A missing value compares false against every cut, so a missing age is
   coded 2 and a missing GWA 1, the same as the top band of each.
   */
  lemma MissingThresholdInputs()
    ensures EncodeCell(AgeRule, Missing) == Some(Int(2))
    ensures EncodeCell(GwaRule, Missing) == Some(Int(1))
  {
  }

  /** A column the frame has a text value in, and whose rule cannot compare text. */
  predicate HasText(f: Frame, name: string) {
    exists i, j :: 0 <= i < |f.columns| && f.columns[i].name == name
      && 0 <= j < |f.columns[i].cells| && f.columns[i].cells[j].Str?
  }

  /**
   `preprocess_data` raises exactly when an `Age` or `SHS_GWA` column holds
   text; `Age` is checked first, so it is the one reported when both do.
   Label misses never raise. Stated for frames with distinct labels, the
   only frames `pd.read_csv` produces: on a repeated configured label pandas'
   `df[col]` is a DataFrame and `.map(dict)` raises, which the model does not
   reproduce.
   */
  lemma PreprocessDataFails(f: Frame)
    requires DistinctLabels(f)
    ensures PreprocessData(f).Err? <==> HasText(f, "Age") || HasText(f, "SHS_GWA")
    ensures HasText(f, "Age") ==> PreprocessData(f) == Err(NotComparable("Age"))
    ensures !HasText(f, "Age") && HasText(f, "SHS_GWA") ==>
      PreprocessData(f) == Err(NotComparable("SHS_GWA"))
  {
    CategoryMappingsDistinct();
    var ms := CategoryMappings;
    assert ms[0] == ("Age", AgeRule) && ms[4] == ("SHS_GWA", GwaRule);
    forall k | 0 <= k < |ms|
      ensures ColumnFails(f.columns, ms[k].0, ms[k].1) <==>
        (k == 0 && HasText(f, "Age")) || (k == 4 && HasText(f, "SHS_GWA"))
    {
      if ColumnFails(f.columns, ms[k].0, ms[k].1) {
        var i, j :| 0 <= i < |f.columns| && f.columns[i].name == ms[k].0
          && 0 <= j < |f.columns[i].cells| && EncodeCell(ms[k].1, f.columns[i].cells[j]).None?;
        assert f.columns[i].cells[j].Str?;
      }
    }
    PreprocessCorrect(ms, f);
    if HasText(f, "Age") || HasText(f, "SHS_GWA") {
      var name := if HasText(f, "Age") then "Age" else "SHS_GWA";
      var i, j :| 0 <= i < |f.columns| && f.columns[i].name == name
        && 0 <= j < |f.columns[i].cells| && f.columns[i].cells[j].Str?;
      ThresholdFields();
      assert CellResult(ms, name, f.columns[i].cells[j]).None?;
    }
    if PreprocessData(f).Err? {
      PreprocessFailsAtFirst(ms, f);
    }
  }

  /**
   Running `preprocess_data` on its own output: no error, every label column
   becomes NaN, every `Age` code (0 to 2, all at most 20) becomes 0 and every
   `SHS_GWA` code (0 or 1, both below 90) becomes 1.
   */
  lemma PreprocessDataTwice(f: Frame, g: Frame)
    requires PreprocessData(f) == Ok(g)
    ensures PreprocessData(g).Ok?
    ensures forall i, j :: 0 <= i < |g.columns| && 0 <= j < |g.columns[i].cells| ==>
      SecondPass(g.columns[i].name, PreprocessData(g).value.columns[i].cells[j])
  {
    CategoryMappingsDistinct();
    ReencodeErasesLookups(CategoryMappings, f, g);
    forall i, j | 0 <= i < |g.columns| && 0 <= j < |g.columns[i].cells|
      ensures SecondPass(g.columns[i].name, PreprocessData(g).value.columns[i].cells[j])
    {
      SecondPassHeapsCell(f, g, i, j);
    }
  }

  /** What a cell of column `name` holds after the second pass. */
  predicate SecondPass(name: string, d: Cell) {
    && (name in TwoLabelFields + FourBucketFields ==> d == Missing)
    && (name == "Age" ==> d == Int(0))
    && (name == "SHS_GWA" ==> d == Int(1))
  }

  /** The second-pass outcome of one cell of the table's encoded frame. */
  lemma SecondPassHeapsCell(f: Frame, g: Frame, i: nat, j: nat)
    requires Preprocess(CategoryMappings, f) == Ok(g)
    requires i < |g.columns| && j < |g.columns[i].cells|
    ensures Preprocess(CategoryMappings, g).Ok?
    ensures SecondPass(g.columns[i].name, Preprocess(CategoryMappings, g).value.columns[i].cells[j])
  {
    var ms := CategoryMappings;
    var name := g.columns[i].name;
    CategoryMappingsDistinct();
    ReencodeErasesLookups(ms, f, g);
    FieldRules(name);
    if RuleFor(ms, name).Some? {
      SecondPassCell(ms, f, g, i, j);
      CodeReencodes(RuleFor(ms, name).value, g.columns[i].cells[j]);
    }
  }

  /** The rule the table gives each kind of field. */
  lemma FieldRules(name: string)
    ensures name in TwoLabelFields + FourBucketFields ==>
      RuleFor(CategoryMappings, name).Some? && RuleFor(CategoryMappings, name).value.Lookup?
    ensures name == "Age" ==> RuleFor(CategoryMappings, name) == Some(AgeRule)
    ensures name == "SHS_GWA" ==> RuleFor(CategoryMappings, name) == Some(GwaRule)
  {
    ThresholdFields();
    if name in TwoLabelFields + FourBucketFields {
      LookupFieldRule(name);
    }
  }

  /**
   A code or NaN met again by its own rule: a lookup sends it to NaN, the
   age rule to 0 (every age code is at most 20) and the GWA rule to 1
   (every GWA code is below 90).
   */
  lemma CodeReencodes(rule: Rule, d: Cell)
    requires Produces(rule, d)
    ensures rule.Lookup? ==> EncodeCell(rule, d) == Some(Missing)
    ensures rule == AgeRule ==> EncodeCell(rule, d) == Some(Int(0))
    ensures rule == GwaRule ==> EncodeCell(rule, d) == Some(Int(1))
  {
  }

  /** Every two-label and four-bucket field is configured with a lookup. */
  lemma LookupFieldRule(name: string)
    requires name in TwoLabelFields + FourBucketFields
    ensures RuleFor(CategoryMappings, name).Some? && RuleFor(CategoryMappings, name).value.Lookup?
  {
    ThresholdEntries();
    LookupFieldsConfigured();
    LookupFieldsAreNotThresholds();
  }

  /** The rules of the three columns of the example below. */
  lemma ExampleRules()
    ensures RuleFor(CategoryMappings, "Sex") == Some(Lookup(SexLabels))
    ensures RuleFor(CategoryMappings, "Scholarship") == Some(Lookup(YesNo))
    ensures RuleFor(CategoryMappings, "Age") == Some(AgeRule)
  {
    RuleForSkip(CategoryMappings, 1, "Sex");
    RuleForSkip(CategoryMappings, 2, "Scholarship");
  }

  const Students: Frame := Frame(3, [
    Column("Sex", [Str("Male"), Str("Female"), Str("Male")]),
    Column("Scholarship", [Str("Yes"), Str("No"), Str("Yes")]),
    Column("Age", [Int(19), Int(24), Int(22)])])

  const EncodedStudents: Frame := Frame(3, [
    Column("Sex", [Int(0), Int(1), Int(0)]),
    Column("Scholarship", [Int(1), Int(0), Int(1)]),
    Column("Age", [Int(0), Int(2), Int(1)])])

  /** Three students: sex, scholarship and age come out as codes, row by row. */
  lemma ThreeStudents()
    ensures PreprocessData(Students) == Ok(EncodedStudents)
  {
    ExampleRules();
    CategoryMappingsDistinct();
    StudentsUnder(CategoryMappings);
  }

  /** The example under any table that gives its three columns the dashboard's rules. */
  lemma StudentsUnder(ms: Mappings)
    requires DistinctNames(ms)
    requires RuleFor(ms, "Sex") == Some(Lookup(SexLabels))
    requires RuleFor(ms, "Scholarship") == Some(Lookup(YesNo))
    requires RuleFor(ms, "Age") == Some(AgeRule)
    ensures Preprocess(ms, Students) == Ok(EncodedStudents)
  {
    StudentCells(ms);
    PreprocessCorrect(ms, Students);
    EncodesUnique(ms, Students, Preprocess(ms, Students).value, EncodedStudents);
  }

  lemma StudentCells(ms: Mappings)
    requires RuleFor(ms, "Sex") == Some(Lookup(SexLabels))
    requires RuleFor(ms, "Scholarship") == Some(Lookup(YesNo))
    requires RuleFor(ms, "Age") == Some(AgeRule)
    ensures Encodes(ms, Students, EncodedStudents)
  {
    var f, g := Students, EncodedStudents;
    assert CellResult(ms, "Sex", Str("Male")) == Some(Int(0)) by {
      assert SexLabels["Male"] == 0;
    }
    assert CellResult(ms, "Sex", Str("Female")) == Some(Int(1)) by {
      assert SexLabels["Female"] == 1;
    }
    assert CellResult(ms, "Scholarship", Str("Yes")) == Some(Int(1)) by {
      assert YesNo["Yes"] == 1;
    }
    assert CellResult(ms, "Scholarship", Str("No")) == Some(Int(0)) by {
      assert YesNo["No"] == 0;
    }
    assert CellResult(ms, "Age", Int(19)) == Some(Int(0)) by {
      AgeBands(19.0);
    }
    assert CellResult(ms, "Age", Int(24)) == Some(Int(2)) by {
      AgeBands(24.0);
    }
    assert CellResult(ms, "Age", Int(22)) == Some(Int(1)) by {
      AgeBands(22.0);
    }
    forall i, j | 0 <= i < 3 && 0 <= j < 3
      ensures CellResult(ms, f.columns[i].name, f.columns[i].cells[j]) == Some(g.columns[i].cells[j])
    {
    }
  }
}
