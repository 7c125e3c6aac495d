/** Values that may be absent from the input table (pandas reads an empty cell as NaN). */
module Optional {

  /** A cell of a numeric column: None is a missing value. */
  datatype Option<+T> = None | Some(value: T)

  /** fillna(0): a missing value reads as zero. */
  function FillZero(v: Option<real>): real
  {
    if v.Some? then v.value else 0.0
  }

  /** fillna(fallback) on one cell: a present value is kept, a missing one takes the fallback. */
  function OrElse<T>(v: Option<T>, fallback: Option<T>): Option<T>
  {
    if v.Some? then v else fallback
  }
}
