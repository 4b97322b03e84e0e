/**
 * Java's fixed-width integer arithmetic, written out over Dafny's unbounded `int`.
 *
 * A Java `int` is a 32-bit two's-complement value: every `+`, `<<` and cast wraps
 * modulo 2^32 into [-2^31, 2^31).  A Java `byte` is a signed 8-bit value.
 */
module JavaInts {

  const TwoTo8: int := 0x100
  const TwoTo16: int := 0x1_0000
  const TwoTo24: int := 0x100_0000
  const TwoTo31: int := 0x8000_0000
  const TwoTo32: int := 0x1_0000_0000

  /** A Java `byte`. */
  newtype Int8 = b: int | -128 <= b < 128

  /** The values a Java `int` can hold. */
  predicate IsInt32(n: int) {
    -TwoTo31 <= n < TwoTo31
  }

  /** The Java `int` that an exact integer result wraps to. */
  function Wrap32(n: int): (r: int)
    ensures IsInt32(r)
    ensures (n - r) % TwoTo32 == 0
    ensures IsInt32(n) ==> r == n
  {
    var m := n % TwoTo32;
    if m >= TwoTo31 then m - TwoTo32 else m
  }

  /** `(int) b & 0xff`: the byte sign-extended to an `int`, then its low eight bits. */
  function UnsignedByte(b: Int8): (r: int)
    ensures 0 <= r < TwoTo8
    ensures r == if b < 0 then b as int + TwoTo8 else b as int
  {
    (b as int) % TwoTo8
  }

  /** `x << k` on a Java `int`, for the shift distances 8, 16 and 24 used by the pixel packing. */
  function ShiftLeft(x: int, k: int): (r: int)
    requires k == 8 || k == 16 || k == 24
    ensures IsInt32(r)
    ensures 0 <= x < TwoTo8 && k < 24 ==> r == x * (if k == 8 then TwoTo8 else TwoTo16)
    ensures 0 <= x < TwoTo8 && k == 24 ==> r == if x < 128 then x * TwoTo24 else x * TwoTo24 - TwoTo32
  {
    Wrap32(x * (if k == 8 then TwoTo8 else if k == 16 then TwoTo16 else TwoTo24))
  }

  /** `x >> k` (arithmetic shift) on a Java `int`: the floor of x / 2^k, which Dafny's `/`
      computes for a positive divisor. */
  function ShiftRight(x: int, k: int): (r: int)
    requires k == 8 || k == 16
    requires IsInt32(x)
    ensures IsInt32(r)
    ensures r * (if k == 8 then TwoTo8 else TwoTo16) <= x < (r + 1) * (if k == 8 then TwoTo8 else TwoTo16)
  {
    x / (if k == 8 then TwoTo8 else TwoTo16)
  }

  /** `x & 0xFF` on a Java `int`: the low eight bits of its two's-complement form. */
  function LowByte(x: int): (r: int)
    ensures 0 <= r < TwoTo8
    ensures (x - r) % TwoTo8 == 0
  {
    x % TwoTo8
  }
}
