/**
 `preprocess_data`: walk the mapping table in order and, for each entry whose
 column the frame has, replace that column by its encoded values. Stated
 here for any mapping table; the dashboard's own table is in module Heaps.
 */
module Encoder {
  import opened Frames
  import opened Rules

  /** An ordered mapping table: column name and the rule for that column. */
  type Mappings = seq<(string, Rule)>

  /** Every column is named at most once (the table is a dict literal). */
  predicate DistinctNames(ms: Mappings) {
    forall i, j :: 0 <= i < j < |ms| ==> ms[i].0 != ms[j].0
  }

  /** The rule configured for column `name`, if any. */
  function RuleFor(ms: Mappings, name: string): (r: Option<Rule>)
    ensures r.None? <==> forall k :: 0 <= k < |ms| ==> ms[k].0 != name
    ensures r.Some? ==> (name, r.value) in ms
  {
    if |ms| == 0 then None
    else if ms[0].0 == name then Some(ms[0].1)
    else RuleFor(ms[1..], name)
  }

  /** In a table without repeated names, the configured rule is the table's own entry. */
  lemma {:induction false} RuleForEntry(ms: Mappings, name: string, rule: Rule)
    requires DistinctNames(ms)
    ensures RuleFor(ms, name) == Some(rule) <==> (name, rule) in ms
  {
    if |ms| > 0 && ms[0].0 != name {
      assert DistinctNames(ms[1..]);
      RuleForEntry(ms[1..], name, rule);
      assert (name, rule) in ms <==> (name, rule) in ms[1..] by {
        assert ms == [ms[0]] + ms[1..];
      }
    } else if |ms| > 0 && (name, rule) in ms {
      var k :| 0 <= k < |ms| && ms[k] == (name, rule);
      assert k == 0;
    }
  }

  /** `col.map(rule)`, or `None` if some cell raises. */
  function EncodeCells(rule: Rule, cells: seq<Cell>): (r: Option<seq<Cell>>)
    ensures r.Some? <==> forall j :: 0 <= j < |cells| ==> EncodeCell(rule, cells[j]).Some?
    ensures r.Some? ==> |r.value| == |cells|
    ensures r.Some? ==> forall j :: 0 <= j < |cells| ==> Some(r.value[j]) == EncodeCell(rule, cells[j])
  {
    if |cells| == 0 then Some([])
    else
      match EncodeCell(rule, cells[0])
      case None => None
      case Some(d) =>
        match EncodeCells(rule, cells[1..])
        case None => None
        case Some(rest) => Some([d] + rest)
  }

  /** Some column called `name` holds a cell on which `rule` raises. */
  predicate ColumnFails(columns: seq<Column>, name: string, rule: Rule) {
    exists i, j :: 0 <= i < |columns| && columns[i].name == name
      && 0 <= j < |columns[i].cells| && EncodeCell(rule, columns[i].cells[j]).None?
  }

  /** `df[name] = df[name].map(rule)`: the columns called `name` are encoded, the others kept. */
  function EncodeNamed(columns: seq<Column>, name: string, rule: Rule): (r: Result<seq<Column>>)
    ensures r.Err? <==> ColumnFails(columns, name, rule)
    ensures r.Err? ==> r.error == NotComparable(name)
    ensures r.Ok? ==> Names(r.value) == Names(columns)
    ensures r.Ok? ==> forall i :: 0 <= i < |columns| && columns[i].name != name ==>
      r.value[i] == columns[i]
    ensures r.Ok? ==> forall i :: 0 <= i < |columns| && columns[i].name == name ==>
      Some(r.value[i].cells) == EncodeCells(rule, columns[i].cells)
  {
    if |columns| == 0 then Ok([])
    else
      var c := columns[0];
      var head := if c.name == name then EncodeCells(rule, c.cells) else Some(c.cells);
      ColumnFailsCons(columns, name, rule);
      if head.None? then Err(NotComparable(name))
      else
        match EncodeNamed(columns[1..], name, rule)
        case Err(e) => Err(e)
        case Ok(rest) =>
          var r := [Column(c.name, head.value)] + rest;
          NamesCons(columns, r);
          Ok(r)
  }

  /** A column sequence fails exactly when its first column or one of the rest does. */
  lemma ColumnFailsCons(columns: seq<Column>, name: string, rule: Rule)
    requires |columns| > 0
    ensures ColumnFails(columns, name, rule) <==>
      || (columns[0].name == name && EncodeCells(rule, columns[0].cells).None?)
      || ColumnFails(columns[1..], name, rule)
  {
    var c := columns[0];
    if columns[0].name == name && EncodeCells(rule, c.cells).None? {
      var j :| 0 <= j < |c.cells| && EncodeCell(rule, c.cells[j]).None?;
      assert columns[0].cells[j] == c.cells[j];
    }
    if ColumnFails(columns[1..], name, rule) {
      var i, j :| 0 <= i < |columns[1..]| && columns[1..][i].name == name
        && 0 <= j < |columns[1..][i].cells| && EncodeCell(rule, columns[1..][i].cells[j]).None?;
      assert columns[i + 1] == columns[1..][i];
    }
    if ColumnFails(columns, name, rule) {
      var i, j :| 0 <= i < |columns| && columns[i].name == name
        && 0 <= j < |columns[i].cells| && EncodeCell(rule, columns[i].cells[j]).None?;
      if i > 0 {
        assert columns[i] == columns[1..][i - 1];
      }
    }
  }

  /** Two column sequences that agree on the first name and on the rest's names agree on all names. */
  lemma NamesCons(columns: seq<Column>, r: seq<Column>)
    requires |columns| > 0 && |r| > 0
    requires r[0].name == columns[0].name
    requires Names(r[1..]) == Names(columns[1..])
    ensures Names(r) == Names(columns)
  {
    assert forall i :: 1 <= i < |columns| ==> Names(r)[i] == Names(r[1..])[i - 1];
  }

  /** `preprocess_data(df)`: apply each entry of the table in order, skipping absent columns. */
  function Preprocess(ms: Mappings, f: Frame): (r: Result<Frame>)
    ensures r.Ok? ==> r.value.rows == f.rows
    ensures r.Ok? ==> Names(r.value.columns) == Names(f.columns)
    ensures r.Ok? ==> forall i :: 0 <= i < |f.columns| ==>
      |r.value.columns[i].cells| == |f.columns[i].cells|
    decreases |ms|
  {
    if |ms| == 0 then Ok(f)
    else if HasColumn(f, ms[0].0) then
      match EncodeNamed(f.columns, ms[0].0, ms[0].1)
      case Err(e) => Err(e)
      case Ok(columns) => Preprocess(ms[1..], Frame(f.rows, columns))
    else Preprocess(ms[1..], f)
  }

  /**
   What one cell of a column called `name` becomes, stated per cell: the
   column's own rule applied to the cell's own value, or the cell itself when
   the column is not configured.
   */
  function CellResult(ms: Mappings, name: string, c: Cell): Option<Cell> {
    match RuleFor(ms, name)
    case None => Some(c)
    case Some(rule) => EncodeCell(rule, c)
  }

  /** No cell of `f` raises under its column's rule. */
  predicate Encodable(ms: Mappings, f: Frame) {
    forall i, j :: 0 <= i < |f.columns| && 0 <= j < |f.columns[i].cells| ==>
      CellResult(ms, f.columns[i].name, f.columns[i].cells[j]).Some?
  }

  /**
   The reference meaning of encoding, independent of the order of the table:
   `g` has the rows and the columns of `f`, in the same order, and each cell of
   `g` is its own cell of `f` under its own column's rule.
   */
  ghost predicate Encodes(ms: Mappings, f: Frame, g: Frame) {
    && g.rows == f.rows
    && |g.columns| == |f.columns|
    && forall i :: 0 <= i < |f.columns| ==>
      && g.columns[i].name == f.columns[i].name
      && |g.columns[i].cells| == |f.columns[i].cells|
      && forall j :: 0 <= j < |f.columns[i].cells| ==>
        CellResult(ms, f.columns[i].name, f.columns[i].cells[j]) == Some(g.columns[i].cells[j])
  }

  /** The reference meaning determines the result. */
  lemma EncodesUnique(ms: Mappings, f: Frame, g: Frame, h: Frame)
    requires Encodes(ms, f, g) && Encodes(ms, f, h)
    ensures g == h
  {
    forall i | 0 <= i < |g.columns|
      ensures g.columns[i] == h.columns[i]
    {
      assert g.columns[i].cells == h.columns[i].cells;
    }
  }

  /** Encoding the entry for `name` leaves every differently named column's outcome as it was. */
  lemma StepKeepsOthers(ms: Mappings, f: Frame, columns: seq<Column>)
    requires |ms| > 0 && DistinctNames(ms)
    requires EncodeNamed(f.columns, ms[0].0, ms[0].1) == Ok(columns)
    ensures Encodable(ms, f) <==> Encodable(ms[1..], Frame(f.rows, columns))
    ensures forall g :: Encodes(ms[1..], Frame(f.rows, columns), g) ==> Encodes(ms, f, g)
  {
    var name, rule, rest, f1 := ms[0].0, ms[0].1, ms[1..], Frame(f.rows, columns);
    assert RuleFor(rest, name).None? by {
      forall k | 0 <= k < |rest| ensures rest[k].0 != name {
        assert rest[k] == ms[k + 1];
      }
    }
    assert |columns| == |f.columns| by {
      assert |Names(columns)| == |Names(f.columns)|;
    }
    forall i | 0 <= i < |f.columns|
      ensures columns[i].name == f.columns[i].name
      ensures |columns[i].cells| == |f.columns[i].cells|
      ensures forall j :: 0 <= j < |f.columns[i].cells| ==>
        CellResult(rest, columns[i].name, columns[i].cells[j])
          == CellResult(ms, f.columns[i].name, f.columns[i].cells[j])
    {
      assert Names(columns)[i] == Names(f.columns)[i];
      if f.columns[i].name != name {
        assert RuleFor(ms, f.columns[i].name) == RuleFor(rest, f.columns[i].name);
      }
    }
    forall g | Encodes(rest, f1, g) ensures Encodes(ms, f, g) {
      forall i, j | 0 <= i < |f.columns| && 0 <= j < |f.columns[i].cells|
        ensures CellResult(ms, f.columns[i].name, f.columns[i].cells[j]) == Some(g.columns[i].cells[j])
      {
        assert CellResult(rest, columns[i].name, columns[i].cells[j]) == Some(g.columns[i].cells[j]);
      }
    }
  }

  /**
   Running the table in order agrees with the per-cell reference meaning: it
   succeeds exactly when no cell raises, and then every cell is its own value
   under its own column's rule.
   */
  lemma {:induction false} PreprocessCorrect(ms: Mappings, f: Frame)
    requires DistinctNames(ms)
    ensures Preprocess(ms, f).Ok? <==> Encodable(ms, f)
    ensures Preprocess(ms, f).Ok? ==> Encodes(ms, f, Preprocess(ms, f).value)
    decreases |ms|
  {
    if |ms| == 0 {
      forall i | 0 <= i < |f.columns| ensures f.columns[i] == f.columns[i] { }
    } else {
      var name, rule, rest := ms[0].0, ms[0].1, ms[1..];
      assert DistinctNames(rest);
      if HasColumn(f, name) {
        match EncodeNamed(f.columns, name, rule)
        case Err(_) =>
          var i, j :| 0 <= i < |f.columns| && f.columns[i].name == name
            && 0 <= j < |f.columns[i].cells| && EncodeCell(rule, f.columns[i].cells[j]).None?;
          assert CellResult(ms, f.columns[i].name, f.columns[i].cells[j]).None?;
        case Ok(columns) =>
          PreprocessCorrect(rest, Frame(f.rows, columns));
          StepKeepsOthers(ms, f, columns);
      } else {
        AbsentColumnUntouched(f, name, rule);
        PreprocessCorrect(rest, f);
        StepKeepsOthers(ms, f, f.columns);
      }
    }
  }

  /** Encoding a column the frame does not have changes nothing. */
  lemma AbsentColumnUntouched(f: Frame, name: string, rule: Rule)
    requires !HasColumn(f, name)
    ensures !ColumnFails(f.columns, name, rule)
    ensures EncodeNamed(f.columns, name, rule) == Ok(f.columns)
  {
    forall i | 0 <= i < |f.columns| ensures f.columns[i].name != name {
      assert Names(f.columns)[i] == f.columns[i].name;
    }
    var r := EncodeNamed(f.columns, name, rule);
    assert !ColumnFails(f.columns, name, rule);
    assert r.Ok?;
    assert |r.value| == |f.columns| by {
      assert |Names(r.value)| == |Names(f.columns)|;
    }
    assert forall i :: 0 <= i < |f.columns| ==> r.value[i] == f.columns[i];
    assert r.value == f.columns;
  }

  /**
   The frame keeps its shape: same row count, same column labels in the same
   order (a configured column the frame lacks is not added), every column its
   length; unconfigured columns come back unchanged; a valid frame stays valid.
   */
  lemma PreprocessKeepsShape(ms: Mappings, f: Frame)
    requires DistinctNames(ms)
    requires Preprocess(ms, f).Ok?
    ensures Preprocess(ms, f).value.rows == f.rows
    ensures Names(Preprocess(ms, f).value.columns) == Names(f.columns)
    ensures forall i :: 0 <= i < |f.columns| ==>
      |Preprocess(ms, f).value.columns[i].cells| == |f.columns[i].cells|
    ensures forall i :: 0 <= i < |f.columns| && RuleFor(ms, f.columns[i].name).None? ==>
      Preprocess(ms, f).value.columns[i] == f.columns[i]
    ensures Valid(f) ==> Valid(Preprocess(ms, f).value)
  {
    PreprocessCorrect(ms, f);
    var g := Preprocess(ms, f).value;
    forall i | 0 <= i < |f.columns| && RuleFor(ms, f.columns[i].name).None?
      ensures g.columns[i] == f.columns[i]
    {
      assert g.columns[i].cells == f.columns[i].cells;
    }
  }

  /**
   On failure the error names the first entry of the table, in table order,
   whose column holds a value its rule cannot compare.
   */
  lemma {:induction false} PreprocessFailsAtFirst(ms: Mappings, f: Frame)
    requires DistinctNames(ms)
    requires Preprocess(ms, f).Err?
    ensures exists k :: (0 <= k < |ms| && Preprocess(ms, f).error == NotComparable(ms[k].0)
      && ColumnFails(f.columns, ms[k].0, ms[k].1)
      && forall k' :: 0 <= k' < k ==> !ColumnFails(f.columns, ms[k'].0, ms[k'].1))
    decreases |ms|
  {
    var name, rule, rest := ms[0].0, ms[0].1, ms[1..];
    assert DistinctNames(rest);
    var columns := f.columns;
    if HasColumn(f, name) {
      match EncodeNamed(f.columns, name, rule)
      case Err(_) =>
      case Ok(cs) => columns := cs;
    }
    if HasColumn(f, name) && EncodeNamed(f.columns, name, rule).Err? {
      assert Preprocess(ms, f).error == NotComparable(ms[0].0);
    } else {
      var f1 := Frame(f.rows, columns);
      if !HasColumn(f, name) {
        AbsentColumnUntouched(f, name, rule);
      }
      assert Preprocess(ms, f) == Preprocess(rest, f1);
      PreprocessFailsAtFirst(rest, f1);
      var k :| 0 <= k < |rest| && Preprocess(rest, f1).error == NotComparable(rest[k].0)
        && ColumnFails(f1.columns, rest[k].0, rest[k].1)
        && forall k' :: 0 <= k' < k ==> !ColumnFails(f1.columns, rest[k'].0, rest[k'].1);
      forall k' | 0 <= k' < |rest|
        ensures ColumnFails(f1.columns, rest[k'].0, rest[k'].1)
            <==> ColumnFails(f.columns, rest[k'].0, rest[k'].1)
      {
        assert rest[k'] == ms[k' + 1];
        OtherColumnFails(f.columns, columns, name, rule, rest[k'].0, rest[k'].1);
      }
      assert ms[k + 1] == rest[k];
      forall k' | 0 <= k' < k + 1
        ensures !ColumnFails(f.columns, ms[k'].0, ms[k'].1)
      {
        if k' > 0 {
          assert ms[k'] == rest[k' - 1];
        }
      }
    }
  }

  /** Whether a differently named column fails is not changed by encoding `name`. */
  lemma OtherColumnFails(columns: seq<Column>, encoded: seq<Column>, name: string, rule: Rule,
                         other: string, otherRule: Rule)
    requires other != name
    requires encoded == columns || EncodeNamed(columns, name, rule) == Ok(encoded)
    ensures ColumnFails(encoded, other, otherRule) <==> ColumnFails(columns, other, otherRule)
  {
    if encoded != columns {
      assert |encoded| == |columns| by {
        assert |Names(encoded)| == |Names(columns)|;
      }
      forall i | 0 <= i < |columns| ensures encoded[i].name == columns[i].name {
        assert Names(encoded)[i] == Names(columns)[i];
      }
    }
  }

  /**
   The result does not depend on the order of the table: any reordering of a
   table without repeated names succeeds on the same frames and gives the
   same frame.
   */
  lemma PreprocessOrderIndependent(ms: Mappings, ns: Mappings, f: Frame)
    requires DistinctNames(ms) && DistinctNames(ns)
    requires multiset(ms) == multiset(ns)
    ensures Preprocess(ms, f).Ok? <==> Preprocess(ns, f).Ok?
    ensures Preprocess(ms, f).Ok? ==> Preprocess(ms, f) == Preprocess(ns, f)
  {
    forall name: string ensures RuleFor(ms, name) == RuleFor(ns, name) {
      var r := RuleFor(ms, name);
      if r.Some? {
        RuleForEntry(ms, name, r.value);
        assert (name, r.value) in multiset(ns);
        RuleForEntry(ns, name, r.value);
      } else if RuleFor(ns, name).Some? {
        var q := RuleFor(ns, name).value;
        assert (name, q) in multiset(ms);
        RuleForEntry(ms, name, q);
      }
    }
    PreprocessCorrect(ms, f);
    PreprocessCorrect(ns, f);
    assert Encodable(ms, f) <==> Encodable(ns, f);
    if Preprocess(ms, f).Ok? {
      EncodesUnique(ms, f, Preprocess(ms, f).value, Preprocess(ns, f).value);
    }
  }

  /**
   Encoding twice: every configured cell of an encoded frame is a code or
   NaN, never a label, so a second pass cannot raise and turns every lookup
   column into NaN throughout, whatever it held.
   */
  lemma ReencodeErasesLookups(ms: Mappings, f: Frame, g: Frame)
    requires DistinctNames(ms)
    requires Preprocess(ms, f) == Ok(g)
    ensures Preprocess(ms, g).Ok?
    ensures forall i, j ::
      (0 <= i < |g.columns| && 0 <= j < |g.columns[i].cells|
       && RuleFor(ms, g.columns[i].name).Some? && RuleFor(ms, g.columns[i].name).value.Lookup?) ==>
      Preprocess(ms, g).value.columns[i].cells[j] == Missing
  {
    PreprocessCorrect(ms, f);
    forall i, j | 0 <= i < |g.columns| && 0 <= j < |g.columns[i].cells|
      ensures CellResult(ms, g.columns[i].name, g.columns[i].cells[j]).Some?
      ensures RuleFor(ms, g.columns[i].name).Some? ==> !g.columns[i].cells[j].Str?
    {
      assert CellResult(ms, f.columns[i].name, f.columns[i].cells[j]) == Some(g.columns[i].cells[j]);
    }
    PreprocessCorrect(ms, g);
  }

  /** On the second pass a configured cell holds a code or NaN of its rule, and meets the rule again. */
  lemma SecondPassCell(ms: Mappings, f: Frame, g: Frame, i: nat, j: nat)
    requires DistinctNames(ms)
    requires Preprocess(ms, f) == Ok(g)
    requires i < |g.columns| && j < |g.columns[i].cells|
    requires RuleFor(ms, g.columns[i].name).Some?
    ensures Produces(RuleFor(ms, g.columns[i].name).value, g.columns[i].cells[j])
    ensures Preprocess(ms, g).Ok?
    ensures Some(Preprocess(ms, g).value.columns[i].cells[j])
      == EncodeCell(RuleFor(ms, g.columns[i].name).value, g.columns[i].cells[j])
  {
    PreprocessCorrect(ms, f);
    assert CellResult(ms, f.columns[i].name, f.columns[i].cells[j]) == Some(g.columns[i].cells[j]);
    ReencodeErasesLookups(ms, f, g);
    PreprocessCorrect(ms, g);
  }
}
