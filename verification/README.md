# Rations Optimizer: the row selection, in Dafny

The Rations Optimizer dashboard shows a table of First Strike Ration menu
items (item, menu, type, calories, grams, calories per gram). The sidebar
has a calorie slider, a gram slider and a multi-choice list of item types.
Its starting values come from the table. Every change re-filters the table
and redraws the charts from the filtered rows.

This project models the one piece of logic in `app.py`: the filter. It also
models the derivation of the sidebar's starting values. Both are pure
functions over a `seq<Row>`.

- `rations.dfy`, module `Rations`: the `Row` record, the table's calorie,
  gram and type columns, a slider `Range`, the sidebar `Criteria`, and the
  `Result` of computing slider bounds.
- `series.dfy`, module `Series`: the element-by-element Series operations
  the mask uses (`isin`, `>=`, `<=`, `&`).
- `boolean_index.dfy`, module `BooleanIndex`: pandas boolean-mask
  indexing (`df[mask]`). `KeptIndices` lists the true positions.
  `ApplyMask` keeps the elements at those positions. `IsSubsequence` is
  the "kept in order, some dropped" relation.
- `selection.dfy`, module `Selection`: the mask condition `Keeps`, which
  joins the five comparisons with "and", and the column-wise `Mask`, which
  is proved to agree with it. The filter `Select` is the table indexed by
  that mask. The module also holds the lemmas about the filter:
  exact characterisation, whole-table and empty results, idempotence and
  monotonicity.
- `string_order.dfy`, module `StringOrder`: the order Python's `sorted`
  gives strings. It is lexicographic by code point, and a prefix comes
  first. The module proves this order is strict and total, and that a
  strictly ascending list is determined by its members.
- `domain.dfy`, module `Domain`: the column minimum and maximum, the
  sorted distinct type list, the initial `Criteria`, and the proof that
  the initial settings select the whole table.

Calories and grams are integers. The slider bounds are `int()` casts of
the column minimum and maximum, so the cast is the identity here. The
`Calories per Gram` value is carried through untouched: it is computed in
`data.py`, and `data.py` is not part of this model.

## Model

| member | source | states |
|---|---|---|
| Selection.Keeps | app.py:60-64 | The five comparisons of lines 60-64, joined by "and", both ends inclusive: type in the chosen list, calories at least the lower and at most the upper slider value, and the same for grams. A row can only pass if the type list is non-empty and neither range is inverted. |
| Selection.Mask | app.py:60-64 | The mask built the way pandas builds it has one entry per table row: `Type.isin(types)`, `Calories >= lo`, `Calories <= hi`, `Grams >= lo` and `Grams <= hi`, each a boolean column, combined with `&`. Its entry i equals `Keeps` on row i, so the column-wise formula and the row predicate agree. The Series operations it combines (`IsIn`, `AtLeast`, `AtMost` and `And` in `series.dfy`) are plain definitions; this agreement is the property proved about them. |
| Selection.Select | app.py:59-65 | Every returned row passes all five comparisons: its type is among the chosen ones, and its calories and grams lie in the inclusive ranges. Every table row that passes is returned. The result is a subsequence of the table, so order is kept and rows are unchanged. It has one entry per passing position, so duplicate rows that pass are all kept; `SelectExact` pins each entry to its position. |
| Selection.SelectExact | app.py:59-65 | The filtered table has exactly one entry per passing position, in ascending position order, and each entry equals the table row at that position. A position is kept if and only if its row passes. |
| BooleanIndex.ApplyMask | app.py:59-65 | `df[mask]` is a subsequence of the table: it drops elements and never reorders or alters them. |
| BooleanIndex.ApplyMaskPicksKept | app.py:59-65 | `df[mask]` is as long as the list of true mask positions, and its k-th element is the table element at the k-th true position. |
| BooleanIndex.KeptIndicesExact | app.py:59-65 | The list of kept positions holds exactly the positions whose mask entry is true, strictly ascending and in bounds. |
| BooleanIndex.ApplyMaskKeepsAll | app.py:59-65 | Indexing by a mask returns the whole table if and only if every mask entry is true. |
| BooleanIndex.ApplyMaskMonotone | app.py:59-65 | A mask that keeps fewer positions yields a subsequence of what a mask keeping more positions yields. |
| BooleanIndex.SubsequenceLength | app.py:59-65 | A subsequence of the table is never longer than the table. |
| Selection.SelectKeepsAll | app.py:59-65 | The filter returns the table unchanged if and only if every row passes the five comparisons. |
| Selection.SelectNone | app.py:59-65 | The filter returns an empty table if and only if no row passes. |
| Selection.SelectIdempotent | app.py:59-65 | Filtering the filtered table again with the same settings returns the same rows. |
| Selection.SelectMonotone | app.py:59-65 | If every table row the narrower settings keep is also kept by the wider settings, the narrower result is a subsequence of the wider one and no longer. |
| Selection.NarrowingShrinks | app.py:59-65 | Raising a lower slider bound, lowering an upper one or removing chosen types gives a subsequence of the earlier result, never a longer one. |
| Selection.NoTypesSelectNothing | app.py:60 | With no type chosen, the `isin` test fails for every row and nothing is selected. |
| Selection.InvertedRangeSelectsNothing | app.py:61-64 | A calorie or gram range whose lower end exceeds its upper end selects nothing. |
| Selection.TwoRowExample | app.py:59-65 | Two rows, A (Entree, 300 kcal, 100 g) and B (Snack, 150 kcal, 30 g). Filtering to Entree, 200-400 kcal and 0-200 g gives [A]. Choosing both types over their full ranges gives [A, B] in table order. |
| Domain.Minimum | app.py:22 | The column minimum is one of the column's values and is no greater than any of them (also used for grams at line 26). |
| Domain.Maximum | app.py:22 | The column maximum is one of the column's values and is no smaller than any of them (also used for grams at line 26). |
| StringOrder.Less | app.py:29 | Python's `str <`, which `sorted` uses: code points compared left to right. It is strict (no string is less than itself), and a proper prefix comes before every extension of it. |
| Domain.SortedUnique | app.py:29 | `sorted(....unique())`: the result is strictly ascending in Python string order, and a string is in it exactly when it occurs in the input column. |
| Domain.TypeOptions | app.py:29 | The type choices are strictly ascending in Python string order and free of duplicates. Every row's type is among them, and each choice is the type of some row. |
| Domain.TypeOptionsCanonical | app.py:29 | Any strictly ascending list holding exactly the table's types equals the type choices, so `sorted(unique(...))` has one possible answer. |
| StringOrder.AscendingUnique | app.py:29 | Two strictly ascending string lists with the same members are equal. |
| StringOrder.LessTrichotomous | app.py:29 | Under Python's string order, two different strings are always ordered one way or the other. |
| Domain.DefaultCriteria | app.py:22-30 | An empty table fails, because `int()` of the NaN minimum raises. Otherwise each slider runs from a value some row attains up to a value some row attains, and it encloses every row. The chosen types are all the type choices. |
| Domain.DefaultSelectsAll | app.py:22-30 | With the initial slider spans and every type chosen, the filter of lines 59-65 returns the whole table, unchanged and in order. |

## Left out

- Page setup, logo, titles, sidebar widgets and the "About" text (app.py:7-16, 19, 23, 27, 30, 33-56). These are presentation. The widgets' outputs are the `Criteria` parameter. The model lets that parameter hold any ranges and type list, including ones the sliders cannot produce, such as an inverted range.
- The scatter plot, the three bar charts and the table view (app.py:67-96). These are rendering through Plotly and Streamlit. The `if not df_filtered.empty` guards only decide whether to draw.
- Loading the table and computing `Calories per Gram` (`get_rations_data`, app.py:4, 17). data.py is not part of this model, so its load-time checks are not modelled either. The ratio is an opaque field that the filter carries through.
- Non-integral calorie or gram values. Columns are `int`, so `int()` truncating a fractional minimum or maximum is not modelled. With such values, the default sliders could exclude the rows at the extremes.
- Missing values (NaN) inside a column, and pandas index labels. A `seq<Row>` has positions only. So the model leaves out the original index labels that `df[mask]` keeps (app.py:59-65), which `st.dataframe` shows (app.py:96). It also leaves out the index that `set_index("Item")` builds for the charts (app.py:84, 89, 93), including duplicate item names across menus.
