/** Java integer semantics and the result type shared by every module.

    The engine keeps keys in `Long` (signed 64-bit) and frequencies in
    `Integer` (signed 32-bit); both are modelled as subset types of `int`,
    so every wrap-around the Java code performs is written out explicitly. */
module Base {

  type Int32 = x: int | -0x8000_0000 <= x <= 0x7FFF_FFFF
  type Int64 = x: int | -0x8000_0000_0000_0000 <= x <= 0x7FFF_FFFF_FFFF_FFFF

  const MinInt32: int := -0x8000_0000
  const MaxInt32: int := 0x7FFF_FFFF
  const MinInt64: int := -0x8000_0000_0000_0000
  const MaxInt64: int := 0x7FFF_FFFF_FFFF_FFFF

  /** The failures the Java code ends in `System.exit` or an uncaught
      runtime exception; here they are values the caller sees. */
  datatype Error =
    | IoFailure          // seek/read/write failure, reading past the end of the file
    | FormatMismatch     // the header's k or t differs from the requested one
    | CorruptNode        // a record with an impossible key count, or a -1 child on a search path
    | IndexOutOfBounds   // a Java array index or size exception
    | Exhausted          // the descent did not end within the number of stored nodes (a cyclic store)
    | BadEncoding        // the decode-after-encode check of the loader failed

  datatype Option<+T> = None | Some(value: T)

  datatype Result<+T> = Success(value: T) | Failure(error: Error)

  /** `Long.compareTo`: the sign of `a - b`, and nothing but -1, 0 or 1. */
  function CompareTo(a: int, b: int): (r: int)
    ensures r == -1 || r == 0 || r == 1
    ensures r < 0 <==> a < b
    ensures r == 0 <==> a == b
    ensures r > 0 <==> a > b
  {
    if a < b then -1 else if a == b then 0 else 1
  }

  /** Java `int` addition of one: `MaxInt32 + 1` wraps to `MinInt32`. */
  function IncFreq(f: Int32): (r: Int32)
    ensures r != f
    ensures f < MaxInt32 ==> r == f + 1
    ensures (r - f - 1) % 0x1_0000_0000 == 0
  {
    if f == MaxInt32 then MinInt32 else f + 1
  }
}
