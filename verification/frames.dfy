/**
 The value model of a pandas DataFrame as the dashboard sees it after CSV
 parsing: a row count (the index) and an ordered sequence of named columns,
 each column a sequence of cells.
 */
module Frames {

  datatype Option<+T> = None | Some(value: T)

  datatype Result<+T> = Ok(value: T) | Err(error: Error)

  /** The exceptions the modelled code can raise. */
  datatype Error =
    /** A threshold comparison met a text value (Python's `TypeError` for `str <= int`). */
    | NotComparable(column: string)
    /** A new column was assigned a list whose length differs from the row count. */
    | LengthMismatch(rows: nat, values: nat)

  /** One cell. `Missing` is pandas' NaN; `Int` and `Real` are the numeric dtypes. */
  datatype Cell = Str(text: string) | Int(i: int) | Real(x: real) | Missing

  datatype Column = Column(name: string, cells: seq<Cell>)

  datatype Frame = Frame(rows: nat, columns: seq<Column>)

  /** Every column has one cell per row. */
  predicate Valid(f: Frame) {
    forall i :: 0 <= i < |f.columns| ==> |f.columns[i].cells| == f.rows
  }

  /** The column labels, in order (`df.columns`). */
  function Names(columns: seq<Column>): (names: seq<string>)
    ensures |names| == |columns|
    ensures forall i :: 0 <= i < |columns| ==> names[i] == columns[i].name
  {
    seq(|columns|, i requires 0 <= i < |columns| => columns[i].name)
  }

  /**
   No label appears twice. `pd.read_csv` renames a repeated header (`Age`,
   `Age.1`), so every frame the dashboard parses has this property.
   */
  predicate DistinctLabels(f: Frame) {
    forall i, j :: 0 <= i < j < |f.columns| ==> f.columns[i].name != f.columns[j].name
  }

  /** `name in df.columns`. */
  predicate HasColumn(f: Frame, name: string): (b: bool)
    ensures b <==> exists i :: 0 <= i < |f.columns| && f.columns[i].name == name
  {
    name in Names(f.columns)
  }
}
