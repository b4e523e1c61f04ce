/**
 The two kinds of per-column encoding rule in the mapping table: a label
 lookup (a dict literal passed to `Series.map`) and a numeric threshold (a
 lambda passed to `Series.map`), and what each does to one cell.
 */
module Rules {
  import opened Frames

  /** The comparison a threshold lambda applies against each cut. */
  datatype Cmp = AtMost | AtLeast

  datatype Rule =
    /** Exact-match dict from label to code. */
    | Lookup(labels: map<string, int>)
    /** `0 if x cmp cuts[0] else 1 if x cmp cuts[1] else ... else |cuts|`. */
    | Threshold(cmp: Cmp, cuts: seq<real>)

  predicate Holds(cmp: Cmp, x: real, cut: real) {
    match cmp
    case AtMost => x <= cut
    case AtLeast => x >= cut
  }

  /** The index of the first cut that `x` satisfies, or `|cuts|` if none does. */
  function FirstMatch(cmp: Cmp, cuts: seq<real>, x: real): (k: nat)
    ensures k <= |cuts|
    ensures forall i :: 0 <= i < k ==> !Holds(cmp, x, cuts[i])
    ensures k < |cuts| ==> Holds(cmp, x, cuts[k])
  {
    if |cuts| == 0 then 0
    else if Holds(cmp, x, cuts[0]) then 0
    else 1 + FirstMatch(cmp, cuts[1..], x)
  }

  /** `k` is one of the codes `rule` can produce. */
  predicate IsCode(rule: Rule, k: int) {
    match rule
    case Lookup(labels) => k in labels.Values
    case Threshold(_, cuts) => 0 <= k <= |cuts|
  }

  /** `d` is a value that `rule` may leave in a cell: one of its codes, or NaN for a lookup miss. */
  predicate Produces(rule: Rule, d: Cell) {
    || (d.Int? && IsCode(rule, d.i))
    || (rule.Lookup? && d.Missing?)
  }

  /**
   The value `Series.map(rule)` gives one cell; `None` when Python would raise.
   A lookup never raises: anything that is not one of its labels becomes NaN.
   A threshold compares numbers; NaN fails every comparison and so falls
   through to the last code, and a text value raises `TypeError`.
   */
  function EncodeCell(rule: Rule, c: Cell): (r: Option<Cell>)
    ensures r.None? <==> rule.Threshold? && c.Str?
    ensures r.Some? ==> Produces(rule, r.value)
  {
    match rule
    case Lookup(labels) =>
      if c.Str? && c.text in labels then Some(Int(labels[c.text])) else Some(Missing)
    case Threshold(cmp, cuts) =>
      match c
      case Str(_) => None
      case Int(i) => Some(Int(FirstMatch(cmp, cuts, i as real)))
      case Real(x) => Some(Int(FirstMatch(cmp, cuts, x)))
      case Missing => Some(Int(|cuts|))
  }

  /** A lookup gives a code exactly to its own labels, and that code is the label's entry. */
  lemma LookupHitOrMiss(labels: map<string, int>, c: Cell)
    ensures EncodeCell(Lookup(labels), c).Some?
    ensures EncodeCell(Lookup(labels), c).value.Int? <==> c.Str? && c.text in labels
    ensures c.Str? && c.text in labels ==> EncodeCell(Lookup(labels), c) == Some(Int(labels[c.text]))
    ensures !(c.Str? && c.text in labels) ==> EncodeCell(Lookup(labels), c) == Some(Missing)
  {
  }

  /** No two labels share a code. */
  predicate Injective(labels: map<string, int>) {
    forall s, t :: s in labels && t in labels && s != t ==> labels[s] != labels[t]
  }

  /** The label that carries `code`, if any. */
  ghost function Decode(labels: map<string, int>, code: int): Option<string> {
    if exists s :: s in labels && labels[s] == code then
      var s :| s in labels && labels[s] == code; Some(s)
    else None
  }

  /** For an injective lookup a code identifies its label: decoding undoes encoding. */
  lemma LookupRoundTrip(labels: map<string, int>, s: string)
    requires Injective(labels)
    requires s in labels
    ensures EncodeCell(Lookup(labels), Str(s)) == Some(Int(labels[s]))
    ensures Decode(labels, labels[s]) == Some(s)
  {
  }

  /** Decoding only ever names a label whose entry is the code. */
  lemma DecodeSound(labels: map<string, int>, code: int)
    ensures Decode(labels, code).Some? <==> code in labels.Values
    ensures Decode(labels, code).Some? ==>
      Decode(labels, code).value in labels && labels[Decode(labels, code).value] == code
  {
  }

  /** An `AtMost` threshold is non-decreasing in its input, an `AtLeast` one non-increasing. */
  lemma {:induction false} FirstMatchMonotone(cmp: Cmp, cuts: seq<real>, x: real, y: real)
    requires x <= y
    ensures cmp == AtMost ==> FirstMatch(cmp, cuts, x) <= FirstMatch(cmp, cuts, y)
    ensures cmp == AtLeast ==> FirstMatch(cmp, cuts, y) <= FirstMatch(cmp, cuts, x)
  {
    var kx, ky := FirstMatch(cmp, cuts, x), FirstMatch(cmp, cuts, y);
    if cmp == AtMost && ky < |cuts| {
      assert Holds(cmp, x, cuts[ky]);
    }
    if cmp == AtLeast && kx < |cuts| {
      assert Holds(cmp, y, cuts[kx]);
    }
  }

  predicate Increasing(cuts: seq<real>) {
    forall i, j :: 0 <= i < j < |cuts| ==> cuts[i] < cuts[j]
  }

  predicate Decreasing(cuts: seq<real>) {
    forall i, j :: 0 <= i < j < |cuts| ==> cuts[i] > cuts[j]
  }

  /** A threshold is well formed when its cuts are declared in evaluation order. */
  predicate WellFormed(rule: Rule) {
    match rule
    case Lookup(labels) => Injective(labels)
    case Threshold(AtMost, cuts) => Increasing(cuts)
    case Threshold(AtLeast, cuts) => Decreasing(cuts)
  }

  /** With increasing cuts, `AtMost` code `k` is exactly the band `cuts[k-1] < x <= cuts[k]`. */
  lemma AtMostBand(cuts: seq<real>, x: real, k: nat)
    requires Increasing(cuts)
    requires k <= |cuts|
    ensures FirstMatch(AtMost, cuts, x) == k <==>
      (k == 0 || cuts[k - 1] < x) && (k == |cuts| || x <= cuts[k])
  {
    var m := FirstMatch(AtMost, cuts, x);
    if k < |cuts| && x <= cuts[k] {
      assert Holds(AtMost, x, cuts[k]);
    }
    if 0 < k && cuts[k - 1] < x {
      forall i | 0 <= i < k
        ensures !Holds(AtMost, x, cuts[i])
      {
        assert i == k - 1 || cuts[i] < cuts[k - 1];
      }
    }
    if m == k && 0 < k {
      assert !Holds(AtMost, x, cuts[k - 1]);
    }
  }

  /** With decreasing cuts, `AtLeast` code `k` is exactly the band `cuts[k] <= x < cuts[k-1]`. */
  lemma AtLeastBand(cuts: seq<real>, x: real, k: nat)
    requires Decreasing(cuts)
    requires k <= |cuts|
    ensures FirstMatch(AtLeast, cuts, x) == k <==>
      (k == 0 || x < cuts[k - 1]) && (k == |cuts| || cuts[k] <= x)
  {
    var m := FirstMatch(AtLeast, cuts, x);
    if k < |cuts| && cuts[k] <= x {
      assert Holds(AtLeast, x, cuts[k]);
    }
    if 0 < k && x < cuts[k - 1] {
      forall i | 0 <= i < k
        ensures !Holds(AtLeast, x, cuts[i])
      {
        assert i == k - 1 || cuts[i] > cuts[k - 1];
      }
    }
    if m == k && 0 < k {
      assert !Holds(AtLeast, x, cuts[k - 1]);
    }
  }
}
