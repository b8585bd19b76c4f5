/** Element-by-element operations on pandas Series, as the filter mask uses
    them. Each yields one boolean per element of its input. */
module Series {

  /** `col.isin(values)` */
  function IsIn<T(==)>(col: seq<T>, values: seq<T>): seq<bool>
  {
    seq(|col|, i requires 0 <= i < |col| => col[i] in values)
  }

  /** `col >= bound` */
  function AtLeast(col: seq<int>, bound: int): seq<bool>
  {
    seq(|col|, i requires 0 <= i < |col| => col[i] >= bound)
  }

  /** `col <= bound` */
  function AtMost(col: seq<int>, bound: int): seq<bool>
  {
    seq(|col|, i requires 0 <= i < |col| => col[i] <= bound)
  }

  /** `a & b` on two boolean Series of the same length. */
  function And(a: seq<bool>, b: seq<bool>): seq<bool>
    requires |a| == |b|
  {
    seq(|a|, i requires 0 <= i < |a| => a[i] && b[i])
  }
}
