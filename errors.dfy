/**
 * Failure values of the image toolkit. Each exception the Java code raises
 * becomes one constructor of `Error`; the failures the Java runtime itself
 * raises (an array index past the end, a null map entry) get their own
 * constructors, so that a model never turns them into values.
 */
module Errors {

  datatype Error =
    | ImageOutOfBounds            // ImageOutOfBoundsException
    | ImageDimensionsNotSame      // ImageDimensionsNotSameException
    | RoiOutOfBounds              // RoiOutOfBoundsException
    | IllegalColorspace           // IllegalColorspaceException
    | ImageIncorrectExtension     // ImageIncorrectExtensionException
    | IllegalArgument(message: string)  // IllegalArgumentException
    | GreyscaleOnly               // plain Exception of the two-index pixel accessors
    | ArrayIndexOutOfBounds       // raised by the JVM on an array or list index
    | NullPointer                 // raised by the JVM on a missing map entry

  /** The result of an operation that returns a value or throws. */
  datatype Result<T> = Ok(value: T) | Err(error: Error)

  /** The result of an operation that returns nothing or throws. */
  datatype Outcome = Pass | Fail(error: Error)

  /** A Java reference that may be null. */
  datatype Option<T> = None | Some(value: T)
}

/**
 * Java's 32-bit `int`: the model uses unbounded integers and writes the
 * wrap-around out where a sum can leave the 32-bit range.
 */
module JavaInt {

  const MIN_INT: int := -0x8000_0000
  const MAX_INT: int := 0x7fff_ffff
  const TWO_32: int := 0x1_0000_0000

  predicate IsInt(x: int) {
    MIN_INT <= x <= MAX_INT
  }

  /** The value a 32-bit two's complement addition or subtraction leaves behind. */
  function Wrap(x: int): (r: int)
    ensures IsInt(r)
    ensures IsInt(x) ==> r == x
    ensures (x - r) % TWO_32 == 0
  {
    (x - MIN_INT) % TWO_32 + MIN_INT
  }
}
