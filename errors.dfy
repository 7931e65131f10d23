/**
 * The exceptions the number-row scripts raise, as values, and the result and
 * option types that carry them.
 */
module Errors {

  datatype Error =
    /** `ValueError("both arguments must have the same length")` */
    | LengthMismatch
    /** `KeyError(key)`: a dictionary lookup of a missing key */
    | MissingKey(key: char)
    /** `ZeroDivisionError`: a division by a zero total */
    | DivisionByZero
    /** `IndexError`: a key position past the end of the position ratings */
    | IndexOutOfRange
    /** `ValueError` from unpacking `perm.split()` into two sides, which had `words` words */
    | NotTwoSides(words: nat)

  datatype Result<+T> = Ok(value: T) | Err(error: Error)

  datatype Option<+T> = None | Some(value: T)
}
