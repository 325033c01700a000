/**
 Java's fixed-width integers and the conversions the generated accessor
 relies on. A `long` argument or result is modelled by the number it stands
 for. An `int` that crosses the buffer (the result of `getInt`, the argument of
 `putInt`) is modelled by its 32-bit two's complement pattern, a `Word`;
 `IntValue` gives the signed number a pattern stands for. Buffer positions
 are `int`s used only as numbers.
 */
module JavaInts {

  const TWO_31: int := 0x8000_0000
  const TWO_32: int := 0x1_0000_0000
  const TWO_63: int := 0x8000_0000_0000_0000

  /** A Java `int` used as a number. */
  type Int32 = x: int | -TWO_31 <= x < TWO_31

  /** A Java `long` used as a number. */
  type Int64 = x: int | -TWO_63 <= x < TWO_63

  /** A 32-bit pattern, read as an unsigned number. */
  type Word = x: int | 0 <= x < TWO_32

  /** The low 32 bits of the two's complement representation of `x`.
      Dafny's `%` is Euclidean, so this is also right for negative `x`. */
  function Low32(x: int): (r: Word)
  {
    x % TWO_32
  }

  /** A 32-bit pattern keeps all of its bits. */
  lemma Low32OfWord(w: Word)
    ensures Low32(w) == w
  {
  }

  /** The signed number the Java `int` with pattern `w` stands for. */
  function IntValue(w: Word): (r: Int32)
    ensures r < 0 <==> w >= TWO_31
  {
    if w < TWO_31 then w else w - TWO_32
  }

  /** `x + y` on two Java `int`s: the exact sum, wrapped around by 2^32 when it
      leaves the `int` range. */
  function AddInt(x: Int32, y: Int32): (r: Int32)
    ensures -TWO_31 <= x + y < TWO_31 ==> r == x + y
    ensures x + y >= TWO_31 ==> r == x + y - TWO_32 && r < 0
    ensures x + y < -TWO_31 ==> r == x + y + TWO_32 && r >= 0
  {
    if x + y >= TWO_31 then x + y - TWO_32
    else if x + y < -TWO_31 then x + y + TWO_32
    else x + y
  }

  /** `(int) x` for a `long` x: keeps the low 32 bits, so the resulting `int`
      is congruent to x modulo 2^32, and equal to x when x fits in an `int`. */
  function NarrowLong(x: Int64): (r: Word)
    ensures (IntValue(r) - x) % TWO_32 == 0
    ensures -TWO_31 <= x < TWO_31 ==> IntValue(r) == x
  {
    Low32(x)
  }

  /** `(long) i & 0xFFFFFFFFL` for the Java `int` i with pattern `w`: widening
      keeps the signed value, and the mask keeps its low 32 bits, which undoes
      the sign extension: the result is the pattern read as unsigned, never
      negative, and 2^32 more than i when i is negative. */
  function UnsignedInt(w: Word): (r: Int64)
    ensures r == w
    ensures 0 <= r < TWO_32
    ensures IntValue(w) < 0 ==> r == IntValue(w) + TWO_32
    ensures IntValue(w) >= 0 ==> r == IntValue(w)
  {
    var widened: Int64 := IntValue(w);
    Low32(widened)
  }
}
