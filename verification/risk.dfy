/**
 The prediction step's labelling: the classifier's 0/1 output becomes one
 `Risk_Status` label per row, added to the frame as a new column.
 The classifier itself is not modelled; its predictions are an input.
 */
module Risk {
  import opened Frames

  const AtRisk: string := "At Risk"
  const LowRisk: string := "Low Risk"
  const RiskStatus: string := "Risk_Status"

  /** One label per prediction, in order: 1 is at risk, anything else is low risk. */
  function RiskLabels(predictions: seq<int>): (labels: seq<string>)
    ensures |labels| == |predictions|
    ensures forall i :: 0 <= i < |predictions| ==> (labels[i] == AtRisk <==> predictions[i] == 1)
    ensures forall i :: 0 <= i < |predictions| ==> labels[i] == AtRisk || labels[i] == LowRisk
  {
    if |predictions| == 0 then []
    else [if predictions[0] == 1 then AtRisk else LowRisk] + RiskLabels(predictions[1..])
  }

  /** The number of occurrences of `x` in `s`. */
  function Count<T(==)>(s: seq<T>, x: T): nat {
    if |s| == 0 then 0 else (if s[0] == x then 1 else 0) + Count(s[1..], x)
  }

  /** The label counts the charts show are the prediction counts: ones are at risk, the rest low risk. */
  lemma {:induction false} RiskCounts(predictions: seq<int>)
    ensures Count(RiskLabels(predictions), AtRisk) == Count(predictions, 1)
    ensures Count(RiskLabels(predictions), LowRisk) == |predictions| - Count(predictions, 1)
    ensures Count(predictions, 1) <= |predictions|
  {
    if |predictions| > 0 {
      RiskCounts(predictions[1..]);
      assert RiskLabels(predictions)[1..] == RiskLabels(predictions[1..]);
    }
  }

  /** A column of text cells. */
  function Texts(labels: seq<string>): (cells: seq<Cell>)
    ensures |cells| == |labels|
    ensures forall i :: 0 <= i < |labels| ==> cells[i] == Str(labels[i])
  {
    seq(|labels|, i requires 0 <= i < |labels| => Str(labels[i]))
  }

  /** `n` NaN cells. */
  function Blank(n: nat): (cells: seq<Cell>)
    ensures |cells| == n
    ensures forall i :: 0 <= i < n ==> cells[i] == Missing
  {
    seq(n, _ => Missing)
  }

  /**
   The frame a list of `n` values is assigned into. A frame with no rows
   given a non-empty list first grows its index to `n` rows, and every
   existing column is filled with NaN; any other frame is left as it is.
   */
  function Grown(f: Frame, n: nat): (g: Frame)
    ensures g.rows == (if f.rows == 0 then n else f.rows)
    ensures Names(g.columns) == Names(f.columns)
    ensures f.rows == 0 && n > 0 ==>
      forall i :: 0 <= i < |f.columns| ==> g.columns[i] == Column(f.columns[i].name, Blank(n))
    ensures f.rows == 0 && n > 0 ==> Valid(g)
    ensures !(f.rows == 0 && n > 0) ==> g == f
  {
    if f.rows == 0 && n > 0 then
      Frame(n, seq(|f.columns|, i requires 0 <= i < |f.columns| => Column(f.columns[i].name, Blank(n))))
    else f
  }

  /**
   `df["Risk_Status"] = [...]`: a list of the wrong length raises, unless the
   frame has no rows, in which case it grows to the list's length first. An
   existing `Risk_Status` column is overwritten where it stands; otherwise
   the column is appended last, so `df.columns[:-1]` are the original columns.
   */
  function AddRiskStatus(f: Frame, predictions: seq<int>): (r: Result<Frame>)
    ensures r.Err? <==> f.rows > 0 && |predictions| != f.rows
    ensures r.Err? ==> r.error == LengthMismatch(f.rows, |predictions|)
    ensures r.Ok? ==> r.value.rows == |predictions|
    ensures r.Ok? && !HasColumn(f, RiskStatus) ==>
      && |r.value.columns| == |f.columns| + 1
      && r.value.columns[..|f.columns|] == Grown(f, |predictions|).columns
      && r.value.columns[|f.columns|] == Column(RiskStatus, Texts(RiskLabels(predictions)))
    ensures r.Ok? && HasColumn(f, RiskStatus) ==>
      && Names(r.value.columns) == Names(f.columns)
      && forall i :: 0 <= i < |f.columns| ==>
        r.value.columns[i] == (if f.columns[i].name == RiskStatus
                               then Column(RiskStatus, Texts(RiskLabels(predictions)))
                               else Grown(f, |predictions|).columns[i])
    ensures r.Ok? && f.rows > 0 ==> Grown(f, |predictions|) == f
    ensures r.Ok? && (Valid(f) || (f.rows == 0 && |predictions| > 0)) ==> Valid(r.value)
  {
    var g := Grown(f, |predictions|);
    if |predictions| != g.rows then Err(LengthMismatch(f.rows, |predictions|))
    else
      var status := Column(RiskStatus, Texts(RiskLabels(predictions)));
      if HasColumn(g, RiskStatus) then
        var columns := seq(|g.columns|, i requires 0 <= i < |g.columns| =>
          if g.columns[i].name == RiskStatus then status else g.columns[i]);
        Ok(Frame(g.rows, columns))
      else
        assert (g.columns + [status])[..|g.columns|] == g.columns;
        Ok(Frame(g.rows, g.columns + [status]))
  }

  /** A frame with no rows takes the list's length: one at-risk student, and the old column holds NaN. */
  lemma EmptyFrameGrows()
    ensures AddRiskStatus(Frame(0, [Column("Age", [])]), [1])
      == Ok(Frame(1, [Column("Age", [Missing]), Column(RiskStatus, [Str(AtRisk)])]))
  {
    var f := Frame(0, [Column("Age", [])]);
    assert Blank(1) == [Missing];
    assert Grown(f, 1).columns == [Column("Age", [Missing])];
    assert Texts(RiskLabels([1])) == [Str(AtRisk)];
    assert !HasColumn(f, RiskStatus);
    var g := AddRiskStatus(f, [1]).value;
    assert g.columns[0] == g.columns[..1][0] == Column("Age", [Missing]);
    assert g.columns == [Column("Age", [Missing]), Column(RiskStatus, [Str(AtRisk)])];
  }
}
