/** Option and Result types, and the kinds of exception the library raises. */
module Wrappers {

  datatype Option<+T> = None | Some(value: T)

  /** The exception kinds of the library, one constructor per kind. */
  datatype Error =
    | ArgumentError    // ArgumentException
    | OutOfRange       // ArgumentOutOfRangeException (GetLog2, BigInteger.Pow with a negative exponent)
    | NotImplemented   // NotImplementedException (negative modulus, negative GCD operand, decimal point)
    | BadModulus       // BadModulusException (a value that has no inverse under the modulus)
    | DivideByZero     // DivideByZeroException raised by BigInteger division by zero
    | FormatError      // FormatException raised by BigInteger.Parse
    | Overflow         // OverflowException raised by a BigInteger cast to int that does not fit
    | OutOfFuel        // an unbounded search did not finish within the given number of steps

  datatype Result<+T> = Ok(value: T) | Err(error: Error)
}
