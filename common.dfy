/** Values shared by every part of the model: optional values, results of
    operations that can throw, and the integer widths of the JVM. */
module Common {

  /** A nullable reference of the source (`null` is `None`). */
  datatype Option<+T> = None | Some(value: T)

  /** The outcome of a call that either returns a value or throws. */
  datatype Result<+T, +E> = Success(value: T) | Failure(error: E)

  /** The outcome of a call that returns nothing or throws. */
  datatype Outcome<+E> = Pass | Fail(error: E)

  /** An unsigned octet as stored in a Netty buffer. */
  type byte = b: int | 0 <= b < 0x100

  /** A Java `int`. */
  type Int32 = x: int | -0x8000_0000 <= x < 0x8000_0000

  const TWO_32: int := 0x1_0000_0000

  /** The 32 bits of a Java `int`, read as an unsigned number (two's complement). */
  function ToUnsigned(x: Int32): (u: nat)
    ensures u < TWO_32
    ensures x >= 0 ==> u == x
    ensures x < 0 ==> u == x + TWO_32
  {
    x % TWO_32
  }

  /** The Java `int` whose 32 bits are the unsigned number `u`. */
  function ToSigned(u: nat): (x: Int32)
    requires u < TWO_32
    ensures ToUnsigned(x) == u
  {
    if u < 0x8000_0000 then u else u - TWO_32
  }

  lemma SignedUnsigned(x: Int32)
    ensures ToSigned(ToUnsigned(x)) == x
  {
  }
}
