/**
 * Java's 32-bit `int` arithmetic, as the console application uses it.
 *
 * Dafny integers are unbounded, so the two operations the application
 * applies to `int` values are written out here: addition, which wraps
 * around modulo 2^32, and division, which truncates toward zero (Dafny's
 * own `/` is Euclidean).
 */
module JavaInt {

  const MIN_INT: int := -0x8000_0000
  const MAX_INT: int := 0x7fff_ffff
  const MODULUS: int := 0x1_0000_0000

  /** Whether a mathematical integer fits a Java `int`. */
  predicate InRange(x: int) {
    MIN_INT <= x <= MAX_INT
  }

  /** The values of a Java `int`. */
  type Int32 = x: int | -0x8000_0000 <= x <= 0x7fff_ffff

  /** The two's-complement reduction of `x` to 32 bits. */
  function Wrap(x: int): (r: Int32)
    ensures (r - x) % MODULUS == 0
    ensures InRange(x) ==> r == x
  {
    (x - MIN_INT) % MODULUS + MIN_INT
  }

  /** Java's `a + b` on two `int` operands. */
  function Add(a: Int32, b: Int32): (r: Int32)
    ensures (r - (a + b)) % MODULUS == 0
    ensures InRange(a + b) ==> r == a + b
  {
    Wrap(a + b)
  }

  /** Java's `a / b` on two `int` operands, for a positive divisor: the
      quotient is rounded toward zero, so the remainder has the sign of `a`. */
  function Div(a: Int32, b: Int32): (q: Int32)
    requires b > 0
    ensures 0 <= a ==> 0 <= a - q * b < b
    ensures a < 0 ==> -b < a - q * b <= 0
  {
    var n: nat := if a >= 0 then a else 0 - (a as int);
    DivisionBounds(n, b);
    if a >= 0 then n / b else -(n / b)
  }

  /** Euclidean division of a natural number by a positive one: the
      quotient lies between 0 and the dividend and leaves a remainder
      below the divisor. */
  lemma DivisionBounds(n: nat, b: int)
    requires b > 0
    ensures 0 <= n / b <= n
    ensures 0 <= n - n / b * b < b
  {
    var q, r := n / b, n % b;
    assert n == q * b + r && 0 <= r < b;
    assert q >= 0;
    assert q * b >= q by {
      assert q * b == q * (b - 1) + q;
      assert q * (b - 1) >= 0;
    }
  }
}
