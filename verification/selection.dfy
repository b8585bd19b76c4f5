/** The row selection behind the dashboard: the boolean mask built from the
    sidebar settings, and the table indexed by it. */
module Selection {
  import opened Rations
  import opened BooleanIndex
  import opened Series

  /** The mask condition for one row: its type is among the chosen ones, and
      its calories and grams lie within the slider ranges, both ends
      included. The five tests are joined by "and", so no row passes an
      empty type list or a range whose ends are inverted. */
  predicate Keeps(c: Criteria, row: Row)
    ensures Keeps(c, row) ==>
      |c.types| > 0 && c.calories.lo <= c.calories.hi && c.grams.lo <= c.grams.hi
  {
    && row.kind in c.types
    && row.calories >= c.calories.lo
    && row.calories <= c.calories.hi
    && row.grams >= c.grams.lo
    && row.grams <= c.grams.hi
  }

  /** The boolean mask, built column by column as pandas evaluates it: the
      `isin` test on the type column and four comparisons on the calorie and
      gram columns, combined with `&`. Entry i agrees with `Keeps` on row i. */
  function Mask(rows: seq<Row>, c: Criteria): (m: seq<bool>)
    ensures |m| == |rows|
    ensures forall i :: 0 <= i < |rows| ==> m[i] == Keeps(c, rows[i])
  {
    var calories := CaloriesColumn(rows);
    var grams := GramsColumn(rows);
    And(And(And(And(
      IsIn(TypeColumn(rows), c.types),
      AtLeast(calories, c.calories.lo)),
      AtMost(calories, c.calories.hi)),
      AtLeast(grams, c.grams.lo)),
      AtMost(grams, c.grams.hi))
  }

  /** The filtered table: the rows the mask keeps, one entry per passing
      position (so a row that occurs twice and passes is kept twice). */
  function Select(rows: seq<Row>, c: Criteria): (r: seq<Row>)
    ensures forall k :: 0 <= k < |r| ==> Keeps(c, r[k])
    ensures forall i :: 0 <= i < |rows| && Keeps(c, rows[i]) ==> rows[i] in r
    ensures IsSubsequence(r, rows)
    ensures |r| == |KeptIndices(Mask(rows, c))|
  {
    var m := Mask(rows, c);
    KeptIndicesExact(m);
    ApplyMaskPicksKept(rows, m);
    ApplyMaskComplete(rows, m);
    ApplyMask(rows, m)
  }

  /** The filtered table lists, in table order and unchanged, exactly the
      rows whose position satisfies the mask condition. */
  lemma SelectExact(rows: seq<Row>, c: Criteria)
    ensures var ix := KeptIndices(Mask(rows, c));
      && |Select(rows, c)| == |ix|
      && (forall k :: 0 <= k < |ix| ==> ix[k] < |rows| && Select(rows, c)[k] == rows[ix[k]])
      && (forall k, l :: 0 <= k < l < |ix| ==> ix[k] < ix[l])
      && (forall i :: 0 <= i < |rows| ==> (i in ix <==> Keeps(c, rows[i])))
  {
    var m := Mask(rows, c);
    KeptIndicesExact(m);
    ApplyMaskPicksKept(rows, m);
  }

  /** The filter returns the whole table exactly when every row passes. */
  lemma SelectKeepsAll(rows: seq<Row>, c: Criteria)
    ensures Select(rows, c) == rows <==> forall i :: 0 <= i < |rows| ==> Keeps(c, rows[i])
  {
    var m := Mask(rows, c);
    ApplyMaskKeepsAll(rows, m);
  }

  /** The filter returns nothing exactly when no row passes. */
  lemma SelectNone(rows: seq<Row>, c: Criteria)
    ensures Select(rows, c) == [] <==> forall i :: 0 <= i < |rows| ==> !Keeps(c, rows[i])
  {
    SelectExact(rows, c);
  }

  /** Filtering the filtered table again with the same settings changes nothing. */
  lemma SelectIdempotent(rows: seq<Row>, c: Criteria)
    ensures Select(Select(rows, c), c) == Select(rows, c)
  {
    SelectKeepsAll(Select(rows, c), c);
  }

  /** When every row the settings `narrow` keep is also kept by `wide`, the
      narrower result is a subsequence of the wider one, so never longer. */
  lemma SelectMonotone(rows: seq<Row>, narrow: Criteria, wide: Criteria)
    requires forall i :: 0 <= i < |rows| && Keeps(narrow, rows[i]) ==> Keeps(wide, rows[i])
    ensures IsSubsequence(Select(rows, narrow), Select(rows, wide))
    ensures |Select(rows, narrow)| <= |Select(rows, wide)|
  {
    ApplyMaskMonotone(rows, Mask(rows, narrow), Mask(rows, wide));
    SubsequenceLength(Select(rows, narrow), Select(rows, wide));
  }

  /** `narrow` is `wide` with both ranges shrunk and types possibly removed. */
  predicate Narrows(narrow: Criteria, wide: Criteria) {
    && wide.calories.lo <= narrow.calories.lo
    && narrow.calories.hi <= wide.calories.hi
    && wide.grams.lo <= narrow.grams.lo
    && narrow.grams.hi <= wide.grams.hi
    && forall t :: t in narrow.types ==> t in wide.types
  }

  /** Shrinking a slider range or removing a type never adds rows. */
  lemma NarrowingShrinks(rows: seq<Row>, narrow: Criteria, wide: Criteria)
    requires Narrows(narrow, wide)
    ensures IsSubsequence(Select(rows, narrow), Select(rows, wide))
    ensures |Select(rows, narrow)| <= |Select(rows, wide)|
  {
    SelectMonotone(rows, narrow, wide);
  }

  /** With no type chosen, nothing is selected. */
  lemma NoTypesSelectNothing(rows: seq<Row>, c: Criteria)
    requires c.types == []
    ensures Select(rows, c) == []
  {
  }

  /** A slider range whose lower end exceeds its upper end selects nothing. */
  lemma InvertedRangeSelectsNothing(rows: seq<Row>, c: Criteria)
    requires c.calories.lo > c.calories.hi || c.grams.lo > c.grams.hi
    ensures Select(rows, c) == []
  {
  }

  /** Filtering the two-row table to entrees of 200 to 400 calories and 0 to
      200 grams keeps only the entree. */
  lemma TwoRowEntreeOnly(a: Row, b: Row)
    requires a == Row("A", "Menu 1", "Entree", 300, 100, 3.0)
    requires b == Row("B", "Menu 1", "Snack", 150, 30, 5.0)
    ensures Select([a, b], Criteria(Range(200, 400), Range(0, 200), ["Entree"])) == [a]
  {
    var c := Criteria(Range(200, 400), Range(0, 200), ["Entree"]);
    assert Keeps(c, a) && !Keeps(c, b);
    assert Mask([a, b], c) == [true, false];
    assert KeptIndices([true, false]) == [0] by {
      assert [true, false][..1] == [true];
    }
    SelectExact([a, b], c);
  }

  /** With both types chosen and the table's full ranges, both rows are kept
      in table order. */
  lemma TwoRowBothTypes(a: Row, b: Row)
    requires a == Row("A", "Menu 1", "Entree", 300, 100, 3.0)
    requires b == Row("B", "Menu 1", "Snack", 150, 30, 5.0)
    ensures Select([a, b], Criteria(Range(150, 300), Range(30, 100), ["Entree", "Snack"])) == [a, b]
  {
    var c := Criteria(Range(150, 300), Range(30, 100), ["Entree", "Snack"]);
    assert Keeps(c, a) && Keeps(c, b);
    SelectKeepsAll([a, b], c);
  }

  /** A two-row table filtered to entrees of 200 to 400 calories and 0 to 200
      grams keeps only the entree; with both types chosen and wide ranges it
      keeps both rows in table order. */
  lemma TwoRowExample()
    ensures var a := Row("A", "Menu 1", "Entree", 300, 100, 3.0);
            var b := Row("B", "Menu 1", "Snack", 150, 30, 5.0);
            && Select([a, b], Criteria(Range(200, 400), Range(0, 200), ["Entree"])) == [a]
            && Select([a, b], Criteria(Range(150, 300), Range(30, 100), ["Entree", "Snack"])) == [a, b]
  {
    var a := Row("A", "Menu 1", "Entree", 300, 100, 3.0);
    var b := Row("B", "Menu 1", "Snack", 150, 30, 5.0);
    TwoRowEntreeOnly(a, b);
    TwoRowBothTypes(a, b);
  }

}
