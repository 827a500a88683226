/** Integer helpers reproducing the C arithmetic the engine relies on: the
    fixed-width types of the time buffer and the DST rules, C's truncating
    division, the sign/absolute-value helpers of TimeLord.cpp, and the
    "double modulo" that Adjust uses to bring a remainder into range. */
module Numeric {

  /** An `uint8_t`. */
  type byte = x: int | 0 <= x < 0x100

  /** An `uint16_t`. */
  type u16 = x: int | 0 <= x < 0x1_0000

  /** An `uint64_t`. */
  type u64 = x: int | 0 <= x < 0x1_0000_0000_0000_0000

  /** Storing an integer into an `uint8_t`: reduction modulo 2^8. */
  function ToByte(x: int): (r: byte)
    ensures 0 <= x < 0x100 ==> r == x
    ensures -0x100 <= x < 0 ==> r == x + 0x100
  {
    x % 0x100
  }

  /** Storing an integer into an `uint64_t`: reduction modulo 2^64. */
  function ToU64(x: int): (r: u64)
    ensures 0 <= x < 0x1_0000_0000_0000_0000 ==> r == x
  {
    x % 0x1_0000_0000_0000_0000
  }

  /** Storing an integer into a (signed, two's complement) `char`. */
  function ToChar(x: int): (r: int)
    ensures -0x80 <= r < 0x80
    ensures -0x80 <= x < 0x80 ==> r == x
  {
    (x + 0x80) % 0x100 - 0x80
  }

  /** `Signum`: -1 for a negative argument and +1 otherwise, so that zero
      counts as positive. */
  function Signum(n: int): (r: int)
    ensures r == -1 || r == 1
    ensures r == -1 <==> n < 0
    ensures r * Absolute(n) == n
  {
    if n < 0 then -1 else 1
  }

  /** `Absolute`: the magnitude of its argument. */
  function Absolute(n: int): (r: int)
    ensures r >= 0
    ensures r == n || r == -n
  {
    if n < 0 then 0 - n else n
  }

  /** C's `/` for a positive divisor: the quotient truncated toward zero.
      It is the floor quotient, plus one when the dividend is negative and
      not a multiple of the divisor. */
  function TruncDiv(x: int, n: int): (q: int)
    requires n > 0
    ensures Absolute(x - q * n) < n
    ensures x - q * n == 0 || (x - q * n < 0 <==> x < 0)
    ensures q == x / n + (if x < 0 && x % n != 0 then 1 else 0)
  {
    TruncationAgainstFloor(x, n);
    if x >= 0 then x / n else -((-x) / n)
  }

  /** The remainder normalisation of Adjust: take the remainder of the
      magnitude, give it the sign of `x`, add `n` and reduce again. The
      result is the floor remainder, the Euclidean `%`, for every sign of
      `x`. */
  function FoldMod(x: int, n: int): (r: int)
    requires n > 0
    ensures 0 <= r < n
    ensures r == x % n
  {
    DoubleModulo(x, n);
    var mod := Absolute(x) % n;
    var mod' := mod * Signum(x) + n;
    mod' % n
  }

  /** The double modulo agrees with the Euclidean `%`. */
  lemma DoubleModulo(x: int, n: int)
    requires n > 0
    ensures ((Absolute(x) % n) * Signum(x) + n) % n == x % n
  {
    var q := Absolute(x) / n;
    var a := Absolute(x) % n;
    assert Absolute(x) == q * n + a;
    if x >= 0 {
      DivModUnique(a + n, n, 1, a);
    } else if a == 0 {
      DivModUnique(n, n, 1, 0);
      DivModUnique(x, n, -q, 0);
    } else {
      DivModUnique(n - a, n, 0, n - a);
      DivModUnique(x, n, -q - 1, n - a);
    }
  }

  /** Truncation and floor differ by one exactly for a negative dividend
      that is not a multiple of the divisor. */
  lemma TruncationAgainstFloor(x: int, n: int)
    requires n > 0
    ensures (if x >= 0 then x / n else -((-x) / n)) == x / n + (if x < 0 && x % n != 0 then 1 else 0)
  {
    if x < 0 {
      var q := (-x) / n;
      var a := (-x) % n;
      assert -x == q * n + a;
      if a == 0 {
        DivModUnique(x, n, -q, 0);
      } else {
        DivModUnique(x, n, -q - 1, n - a);
      }
    }
  }

  /** Euclidean division is determined by any quotient/remainder pair with the
      remainder in range. */
  lemma DivModUnique(x: int, n: int, q: int, r: int)
    requires n > 0 && x == q * n + r && 0 <= r < n
    ensures x / n == q && x % n == r
  {
    var q' := x / n;
    var r' := x % n;
    assert x == q' * n + r';
    assert (q - q') * n == r' - r by {
      assert (q - q') * n == q * n - q' * n;
    }
    if q > q' {
      MulAtLeast(q - q', n);
    } else if q < q' {
      MulAtLeast(q' - q, n);
    }
  }

  lemma MulAtLeast(a: int, n: int)
    requires a >= 1 && n > 0
    ensures a * n >= n
  {
    assert a * n == (a - 1) * n + n;
    assert (a - 1) * n >= 0;
  }
}
