/** The ration table's data model: one record per menu item, and the
    settings the sidebar hands to the selection step. */
module Rations {

  /** One row of the ration table. `kind` is the `Type` column (`type` is a
      Dafny keyword). Calories and grams are modelled as whole numbers,
      so the `int()` casts on the slider bounds are the identity.
      `caloriesPerGram` is computed when the table is loaded; the selection
      never looks at it and only carries it through. */
  datatype Row = Row(
    item: string,
    menu: string,
    kind: string,
    calories: int,
    grams: int,
    caloriesPerGram: real)

  /** The table's columns, `df["Calories"]`, `df["Grams"]` and `df["Type"]`. */
  function CaloriesColumn(rows: seq<Row>): (col: seq<int>)
    ensures |col| == |rows|
    ensures forall i :: 0 <= i < |rows| ==> col[i] == rows[i].calories
  {
    seq(|rows|, i requires 0 <= i < |rows| => rows[i].calories)
  }

  function GramsColumn(rows: seq<Row>): (col: seq<int>)
    ensures |col| == |rows|
    ensures forall i :: 0 <= i < |rows| ==> col[i] == rows[i].grams
  {
    seq(|rows|, i requires 0 <= i < |rows| => rows[i].grams)
  }

  function TypeColumn(rows: seq<Row>): (col: seq<string>)
    ensures |col| == |rows|
    ensures forall i :: 0 <= i < |rows| ==> col[i] == rows[i].kind
  {
    seq(|rows|, i requires 0 <= i < |rows| => rows[i].kind)
  }

  /** A slider's value: the pair `(lo, hi)`, both ends inclusive. */
  datatype Range = Range(lo: int, hi: int)

  /** What the sidebar returns: the calorie range, the gram range and the
      list of chosen item types. */
  datatype Criteria = Criteria(calories: Range, grams: Range, types: seq<string>)

  /** Outcome of computing slider bounds. The minimum of an empty column is
      NaN, and converting NaN with `int()` raises an error. */
  datatype Result<T> = Ok(value: T) | CannotConvertNaN
}
