/** Java runtime vocabulary shared by the whole model: nullable values, thrown
    exceptions, the integer ranges of `int` and `long`, and the two's-complement
    bit masks that the source applies to them. */
module Lang {

  /** A Java reference that may be `null`. */
  datatype Option<+T> = None | Some(value: T)

  /** The unchecked exceptions the modelled code throws. */
  datatype JavaException =
    | NullPointerException
    | ClassCastException
    | NoSuchElementException
    | IllegalStateException
    | ArrayIndexOutOfBoundsException
    | NegativeArraySizeException

  /** The outcome of a Java call: a value, or an exception thrown to the caller. */
  datatype Result<+T> = Ok(value: T) | Throws(exception: JavaException)

  const INT_MIN: int := -0x8000_0000
  const INT_MAX: int := 0x7FFF_FFFF
  const LONG_MIN: int := -0x8000_0000_0000_0000
  const LONG_MAX: int := 0x7FFF_FFFF_FFFF_FFFF

  predicate IsInt(x: int) { INT_MIN <= x <= INT_MAX }

  predicate IsLong(x: int) { LONG_MIN <= x <= LONG_MAX }

  /** Java's 32-bit `int` arithmetic: the two's-complement value of the low 32 bits of `x`. */
  function WrapInt(x: int): (r: int)
    ensures IsInt(r)
    ensures (r - x) % 0x1_0000_0000 == 0
    ensures IsInt(x) ==> r == x
  {
    var m := x % 0x1_0000_0000;
    if m <= INT_MAX then m else m - 0x1_0000_0000
  }

  /** Java's 64-bit `long` arithmetic: the two's-complement value of the low 64 bits of `x`. */
  function WrapLong(x: int): (r: int)
    ensures IsLong(r)
    ensures (r - x) % 0x1_0000_0000_0000_0000 == 0
    ensures IsLong(x) ==> r == x
  {
    var m := x % 0x1_0000_0000_0000_0000;
    if m <= LONG_MAX then m else m - 0x1_0000_0000_0000_0000
  }

  /** Negating a negative `long` gives its magnitude, except for
      `Long.MIN_VALUE`, which wraps around to itself. */
  lemma NegateLong(n: int)
    requires IsLong(n) && n < 0
    ensures WrapLong(n * -1) == if n == LONG_MIN then LONG_MIN else -n
  {
  }

  /** Java's `/` on `int` and `long` by a positive divisor: the quotient is
      rounded toward zero. */
  function JavaDiv(a: int, b: int): int
    requires b > 0
  {
    if a >= 0 then a / b else -((-a) / b)
  }

  /** Java's `%` by a positive divisor: the remainder takes the sign of `a`. */
  function JavaRem(a: int, b: int): int
    requires b > 0
  {
    if a >= 0 then a % b else -((-a) % b)
  }

  /** Java's quotient and remainder recombine to the dividend; the remainder
      lies strictly within the divisor on the dividend's side of zero, and
      for a non-negative dividend both agree with Euclidean division. */
  lemma JavaDivRem(a: int, b: int)
    requires b > 0
    ensures a == b * JavaDiv(a, b) + JavaRem(a, b)
    ensures a >= 0 ==> 0 <= JavaRem(a, b) < b && JavaDiv(a, b) == a / b && JavaRem(a, b) == a % b
    ensures a < 0 ==> -b < JavaRem(a, b) <= 0 && JavaDiv(a, b) <= 0
  {
    if a < 0 {
      assert -a == b * ((-a) / b) + (-a) % b;
    }
  }

  function Pow2(k: nat): (r: nat)
    ensures r >= 1
  {
    if k == 0 then 1 else 2 * Pow2(k - 1)
  }

  /** `a & (2^k - 1)` on a two's-complement integer: bit i of the result is
      bit i of `a` for i < k, and the higher bits are cleared. Bit 0 of `a` is
      `a % 2` and `a / 2` is the arithmetic shift right (both Euclidean, so
      this holds for negative `a` as well). */
  function LowBits(a: int, k: nat): int
    decreases k
  {
    if k == 0 then 0 else a % 2 + 2 * LowBits(a / 2, k - 1)
  }

  /** Keeping the low k bits of a two's-complement value is the Euclidean
      remainder modulo 2^k, also for negative values. */
  lemma {:induction false} LowBitsIsRemainder(a: int, k: nat)
    ensures LowBits(a, k) == a % Pow2(k)
    ensures 0 <= LowBits(a, k) < Pow2(k)
    decreases k
  {
    if k > 0 {
      LowBitsIsRemainder(a / 2, k - 1);
      var q := a / 2;
      var p := Pow2(k - 1);
      // a == 2q + a%2 and q == p*(q/p) + q%p, hence a == 2p*(q/p) + (a%2 + 2*(q%p))
      assert a == 2 * q + a % 2;
      assert q == p * (q / p) + q % p;
      assert a == (2 * p) * (q / p) + (a % 2 + 2 * (q % p));
      assert 0 <= a % 2 + 2 * (q % p) < 2 * p;
      DivModUnique(a, 2 * p, q / p, a % 2 + 2 * (q % p));
    }
  }

  /** Euclidean division has exactly one quotient and remainder. */
  lemma DivModUnique(a: int, d: int, q: int, r: int)
    requires d > 0 && 0 <= r < d && a == d * q + r
    ensures a % d == r && a / d == q
  {
    var q0, r0 := a / d, a % d;
    assert d * (q0 - q) == r - r0;
    MulAwayFromZero(d, q0 - q);
  }

  lemma MulAwayFromZero(d: int, x: int)
    requires d > 0
    ensures x >= 1 ==> d * x >= d
    ensures x <= -1 ==> d * x <= -d
  {
  }
}
