/**
  The numeral value object: a validated integer in 0..4000, the errors the
  converter raises, and the range-checked integer constructor.
 */
module Numerals {
  import opened Tables

  /** The exceptions the converter throws, by kind. */
  datatype Error =
    | OutOfRange          // ArgumentOutOfRangeException from the integer constructor
    | NonRomanCharacter   // ArgumentException: a refused letter in the input
    | TooManyRepeats      // ArgumentException: a run of repeated letters is too long

  /** A value, or the `null` reference. */
  datatype Option<+T> = None | Some(value: T)

  /** Either a value or a thrown exception. */
  datatype Result<+T> = Ok(value: T) | Throws(error: Error)

  /** The number held by a numeral object built from an integer. */
  type Numeral = n: int | 0 <= n <= MaxNumber

  /** The integer constructor: numbers below 0 or above 4000 are refused,
      every other number is stored unchanged. */
  function FromInt(n: int): (r: Result<Numeral>)
    ensures r.Ok? <==> 0 <= n <= MaxNumber
    ensures r.Ok? ==> r.value as int == n
    ensures r.Throws? ==> r.error == OutOfRange
  {
    if n < 0 then Throws(OutOfRange)
    else if n > MaxNumber then Throws(OutOfRange)
    else Ok(n)
  }
}
