/** The optional-value datatype shared by the models: `None` stands for a
    JavaScript `null` or `undefined`, `Some(v)` for a present value. */
module Wrappers {

  datatype Option<+T> = None | Some(value: T)

  /** JavaScript's `a ?? b`: the left operand unless it is null or undefined. */
  function Coalesce<T>(a: Option<T>, b: Option<T>): (r: Option<T>)
    ensures a.Some? ==> r == a
    ensures a.None? ==> r == b
  {
    match a
    case Some(_) => a
    case None => b
  }
}
