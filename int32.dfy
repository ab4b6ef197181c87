/** The 32-bit signed integer type `int` of C# and its
    unchecked (wrapping) subtraction. */
module Int32 {

  const MIN: int := -0x8000_0000
  const MAX: int := 0x7FFF_FFFF

  /** Values of C#'s `int`. */
  newtype int32 = x: int | -0x8000_0000 <= x <= 0x7FFF_FFFF

  /** Reduces a mathematical integer to the 32-bit value with the same bits,
      as unchecked arithmetic does. */
  function Wrap(x: int): (r: int32)
    ensures MIN <= x <= MAX ==> r as int == x
    ensures (x - r as int) % 0x1_0000_0000 == 0
  {
    var m := (x - MIN) % 0x1_0000_0000;
    assert x - (m + MIN) == 0x1_0000_0000 * ((x - MIN) / 0x1_0000_0000);
    (m + MIN) as int32
  }
}
