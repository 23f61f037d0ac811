/** Shared wrappers: an optional value, the exceptions the engine can raise,
    and the two arithmetic operators that blending is parameterised by. */
module Common {

  datatype Option<+T> = None | Some(value: T)

  /** The Python exceptions that escape the modelled code. */
  datatype Error =
    | InterpolationError(message: string)   // incompatible masters
    | TypeError                             // arithmetic on a non-number, bad keyword arguments
    | KeyError(key: string)                 // a required record entry is missing
    | AssertionError                        // an `assert` in the source fails
    | ValueError                            // `dict("...")` on a string, a glyph name that is not a string
    | FileNotFound(glyphName: string)       // no source file for the glyph in this store
    | VariationModelError                   // `VariationModel` rejects the master locations

  datatype Result<+T> = Ok(value: T) | Err(error: Error)

  /** The outcome of a procedure that returns nothing but may raise. */
  datatype Status = Success | Failure(error: Error)

  /** `operator.add` and `operator.sub`, the binary operators of `_MathMixin`. */
  datatype BinOp = Add | Sub

  function ApplyOp(op: BinOp, a: real, b: real): real
  {
    match op
    case Add => a + b
    case Sub => a - b
  }
}
