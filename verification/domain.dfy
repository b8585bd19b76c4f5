/** The sidebar's starting state, derived from the table: each slider spans
    its column's minimum to maximum, and the type choices are the table's
    distinct types in sorted order, all of them chosen. */
module Domain {
  import opened Rations
  import opened StringOrder
  import Selection

  /** `col.min()` of a non-empty integer column. */
  function Minimum(xs: seq<int>): (m: int)
    requires |xs| > 0
    ensures m in xs
    ensures forall i :: 0 <= i < |xs| ==> m <= xs[i]
    decreases |xs|
  {
    if |xs| == 1 then xs[0]
    else
      var rest := Minimum(xs[..|xs| - 1]);
      if xs[|xs| - 1] < rest then xs[|xs| - 1] else rest
  }

  /** `col.max()` of a non-empty integer column. */
  function Maximum(xs: seq<int>): (m: int)
    requires |xs| > 0
    ensures m in xs
    ensures forall i :: 0 <= i < |xs| ==> xs[i] <= m
    decreases |xs|
  {
    if |xs| == 1 then xs[0]
    else
      var rest := Maximum(xs[..|xs| - 1]);
      if xs[|xs| - 1] > rest then xs[|xs| - 1] else rest
  }

  /** Putting a smaller string in front of an ascending list keeps it ascending. */
  lemma PrependAscending(x: string, s: seq<string>)
    requires StrictlyAscending(s) && |s| > 0 && Less(x, s[0])
    ensures StrictlyAscending([x] + s)
  {
    forall j | 0 <= j < |s|
      ensures Less(x, s[j])
    {
      LessTransitive(x, s[0], s[j]);
    }
  }

  /** Adds `x` to an ascending list of distinct strings unless it is
      already there. */
  function Insert(s: seq<string>, x: string): (r: seq<string>)
    requires StrictlyAscending(s)
    ensures StrictlyAscending(r)
    ensures forall t :: t in r <==> t in s || t == x
    decreases |s|
  {
    if |s| == 0 then [x]
    else if x == s[0] then s
    else if Less(x, s[0]) then
      PrependAscending(x, s);
      [x] + s
    else
      LessTrichotomous(x, s[0]);
      var tail := Insert(s[1..], x);
      assert forall t :: t in tail ==> Less(s[0], t);
      [s[0]] + tail
  }

  /** `sorted(set(xs))`: the distinct values, each once, ascending. */
  function SortedUnique(xs: seq<string>): (r: seq<string>)
    ensures StrictlyAscending(r)
    ensures forall t :: t in r <==> t in xs
    decreases |xs|
  {
    if |xs| == 0 then []
    else
      var n := |xs| - 1;
      assert xs == xs[..n] + [xs[n]];
      Insert(SortedUnique(xs[..n]), xs[n])
  }

  /** `sorted(df["Type"].unique())`: the type choices offered in the sidebar,
      strictly ascending, without duplicates, and exactly the types present
      in the table. */
  function TypeOptions(rows: seq<Row>): (r: seq<string>)
    ensures StrictlyAscending(r)
    ensures forall i, j :: 0 <= i < j < |r| ==> r[i] != r[j]
    ensures forall i :: 0 <= i < |rows| ==> rows[i].kind in r
    ensures forall t :: t in r ==> exists i :: 0 <= i < |rows| && rows[i].kind == t
  {
    var col := TypeColumn(rows);
    var r := SortedUnique(col);
    AscendingDistinct(r);
    assert forall i :: 0 <= i < |rows| ==> col[i] in r;
    r
  }

  /** No other ordering of the table's types is strictly ascending: the type
      choices are the only sorted, duplicate-free list of them. */
  lemma TypeOptionsCanonical(rows: seq<Row>, s: seq<string>)
    requires StrictlyAscending(s)
    requires forall t :: t in s <==> exists i :: 0 <= i < |rows| && rows[i].kind == t
    ensures s == TypeOptions(rows)
  {
    var r := TypeOptions(rows);
    forall t
      ensures t in s <==> t in r
    {
      if t in r {
        var i :| 0 <= i < |rows| && rows[i].kind == t;
      }
    }
    AscendingUnique(s, r);
  }

  /** The sidebar's initial settings: both sliders at their full span and
      every type chosen. An empty table has no minimum, and the `int()`
      cast of the resulting NaN fails. */
  function DefaultCriteria(rows: seq<Row>): (r: Result<Criteria>)
    ensures r.CannotConvertNaN? <==> |rows| == 0
    ensures r.Ok? ==>
      && (forall i :: 0 <= i < |rows| ==>
            && r.value.calories.lo <= rows[i].calories <= r.value.calories.hi
            && r.value.grams.lo <= rows[i].grams <= r.value.grams.hi)
      && (exists i :: 0 <= i < |rows| && rows[i].calories == r.value.calories.lo)
      && (exists i :: 0 <= i < |rows| && rows[i].calories == r.value.calories.hi)
      && (exists i :: 0 <= i < |rows| && rows[i].grams == r.value.grams.lo)
      && (exists i :: 0 <= i < |rows| && rows[i].grams == r.value.grams.hi)
      && r.value.types == TypeOptions(rows)
  {
    if |rows| == 0 then CannotConvertNaN
    else
      var calories := CaloriesColumn(rows);
      var grams := GramsColumn(rows);
      Ok(Criteria(
        Range(Minimum(calories), Maximum(calories)),
        Range(Minimum(grams), Maximum(grams)),
        TypeOptions(rows)))
  }

  /** With the initial settings the filter returns the whole table,
      unchanged and in order. */
  lemma DefaultSelectsAll(rows: seq<Row>)
    requires |rows| > 0
    ensures Selection.Select(rows, DefaultCriteria(rows).value) == rows
  {
    var c := DefaultCriteria(rows).value;
    Selection.SelectKeepsAll(rows, c);
  }
}
