/**
 * Rust's fixed-width integer types and the operators of theirs that differ
 * from Dafny's unbounded, Euclidean arithmetic.
 */
module RustInt {

  const I32_MIN: int := -0x8000_0000
  const I32_MAX: int := 0x7fff_ffff
  const U16_MAX: int := 0xffff
  const U32_MAX: int := 0xffff_ffff

  /** The values of Rust's `i32`, `u16` and `u32`. */
  type int32 = x: int | I32_MIN <= x <= I32_MAX
  type uint16 = x: int | 0 <= x <= U16_MAX
  type uint32 = x: int | 0 <= x <= U32_MAX

  function Abs(x: int): nat {
    if x < 0 then -x else x
  }

  /** -1, 0 or 1 according to the sign of `x`. */
  function Sign(x: int): (r: int)
    ensures r == -1 <==> x < 0
    ensures r == 0 <==> x == 0
    ensures r == 1 <==> x > 0
  {
    if x < 0 then -1 else if x == 0 then 0 else 1
  }

  /** Rust's `/` on signed integers: the quotient rounded toward zero. */
  function TruncDiv(a: int, b: int): int
    requires b != 0
  {
    if b > 0 then
      if a >= 0 then a / b else -((-a) / b)
    else
      if a >= 0 then -(a / (-b)) else (-a) / (-b)
  }

  /**
   * The remainder `TruncDiv` leaves takes the sign of the dividend and is
   * smaller than the divisor in magnitude, which determines the quotient
   * uniquely: this is the division of section 6.5.5 of ISO C99, which
   * Rust's `/` shares.
   */
  lemma TruncDivRemainder(a: int, b: int)
    requires b != 0
    ensures Abs(a - b * TruncDiv(a, b)) < Abs(b)
    ensures a >= 0 ==> a - b * TruncDiv(a, b) >= 0
    ensures a <= 0 ==> a - b * TruncDiv(a, b) <= 0
  {
    var q := TruncDiv(a, b);
    var m: int := Abs(b);
    var n: int := Abs(a);
    EuclidFacts(n, m);
    var x := n / m;
    assert n - m * x == n % m;
    if (a >= 0) == (b > 0) {
      assert q == x;
      SignedProduct(b, x, m);
      assert a - b * q == (if a >= 0 then n - m * x else -(n - m * x));
    } else {
      assert q == -x;
      SignedProduct(b, -x, m);
      assert a - b * q == (if a >= 0 then n - m * x else -(n - m * x));
    }
  }

  lemma SignedProduct(b: int, y: int, m: int)
    requires m == Abs(b)
    ensures b * y == (if b >= 0 then m * y else -(m * y))
    ensures b * (-y) == -(b * y)
  {
  }

  lemma EuclidFacts(n: int, m: int)
    requires m > 0
    ensures n == m * (n / m) + n % m
    ensures 0 <= n % m < m
  {
  }

  /** Rust's `%` on signed integers: the remainder of `TruncDiv`. */
  function TruncRem(a: int, b: int): int
    requires b != 0
  {
    a - b * TruncDiv(a, b)
  }

  lemma MultipleMod(k: int, m: int)
    requires m > 0
    ensures (m * k) % m == 0
  {
    var q, r := (m * k) / m, (m * k) % m;
    EuclidFacts(m * k, m);
    var d := k - q;
    assert m * d == r;
    if d >= 1 {
      MulAtLeast(m, d);
      assert false;
    } else if d <= -1 {
      MulAtLeast(m, -d);
      assert false;
    }
  }

  lemma MulAtLeast(m: int, d: int)
    requires m > 0 && d >= 1
    ensures m * d >= m
  {
    if d > 1 {
      MulAtLeast(m, d - 1);
      assert m * d == m * (d - 1) + m;
    }
  }

  lemma NegModZero(a: int, m: int)
    requires m > 0
    ensures a % m == 0 <==> (-a) % m == 0
  {
    if a % m == 0 {
      EuclidFacts(a, m);
      assert -a == m * (-(a / m));
      MultipleMod(-(a / m), m);
    }
    if (-a) % m == 0 {
      EuclidFacts(-a, m);
      assert a == m * (-((-a) / m));
      MultipleMod(-((-a) / m), m);
    }
  }

  /**
   * For a positive divisor, Rust's truncated remainder is zero exactly
   * when Dafny's Euclidean one is: a divisibility test `n % d == 0` means
   * the same in both languages, negative `n` included.
   */
  lemma TruncRemZeroIffDivides(a: int, b: int)
    requires b > 0
    ensures TruncRem(a, b) == 0 <==> a % b == 0
  {
    if a >= 0 {
      assert TruncRem(a, b) == a % b;
    } else {
      assert TruncRem(a, b) == -((-a) % b);
      NegModZero(a, b);
    }
  }

  /** Two's-complement wrap-around of an integer into `i32`, as a release build computes it. */
  function Wrap32(x: int): (r: int32)
    ensures I32_MIN <= x <= I32_MAX ==> r == x
    ensures (x - r) % 0x1_0000_0000 == 0
  {
    var m := x % 0x1_0000_0000;
    if m > I32_MAX then m - 0x1_0000_0000 else m
  }

  /** Rust's `u32::saturating_add`: the sum, or `u32::MAX` when the sum does not fit. */
  function SaturatingAddU32(a: uint32, b: uint32): (r: uint32)
    ensures r <= a + b
    ensures a + b <= U32_MAX ==> r == a + b
    ensures a + b > U32_MAX ==> r == U32_MAX
  {
    if a + b <= U32_MAX then a + b else U32_MAX
  }
}
