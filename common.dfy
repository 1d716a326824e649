/** Values shared by every part of the model: optional values, results that
    carry the exception the Python code would raise, and potential values
    with an explicit invalid case standing for IEEE NaN. */
module Common {

  datatype Option<+T> = None | Some(value: T)

  /** The exceptions the modelled code raises (or lets numpy / the list
      type raise), by Python exception class. */
  datatype Error =
    | RuntimeError(msg: string)
    | TypeError(text: Option<string>)
    | IndexError
    | ValueError(msg: string)
    | AssertionError
    | AttributeError(name: string)
    | EmptyHeapError

  datatype Result<+T> = Ok(value: T) | Err(error: Error)

  /** The TypeError `g_minimize` raises itself for an argument of a type it
      does not accept. */
  const NotAllowedType: Error := TypeError(Some("encountered not allowed argument type"))

  /** A TypeError the interpreter raises rather than the code (a number
      subscripted, None subtracted from an array); its wording is not
      modelled. */
  const ImplicitTypeError: Error := TypeError(None)

  /** A potential value: a number, or NaN for an invalid (masked) node. */
  datatype Pot = NaN | Val(v: real)

  /** Python's `a < b` on floats: false as soon as either side is NaN. */
  predicate Lt(a: Pot, b: Pot)
  {
    a.Val? && b.Val? && a.v < b.v
  }

  /** Python's `a <= b` on floats: false as soon as either side is NaN. */
  predicate Le(a: Pot, b: Pot)
  {
    a.Val? && b.Val? && a.v <= b.v
  }

  /** The order numpy's sort uses: numbers ascending, NaN after every number. */
  predicate SortLt(a: Pot, b: Pot)
  {
    (a.Val? && b.NaN?) || Lt(a, b)
  }

  predicate SortLe(a: Pot, b: Pot)
  {
    b.NaN? || Le(a, b)
  }
}
