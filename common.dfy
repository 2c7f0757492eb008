/** Shared vocabulary of the model: an optional value and the parts of C's
    integer semantics that the wallpaper rotator relies on. */
module Common {

  datatype Option<+T> = None | Some(value: T)

  /** Range of a 32-bit C `int`. */
  predicate IsInt32(x: int) {
    -0x8000_0000 <= x < 0x8000_0000
  }

  /** Range of a 64-bit `time_t` / `long`. */
  predicate IsInt64(x: int) {
    -0x8000_0000_0000_0000 <= x < 0x8000_0000_0000_0000
  }

  function Abs(x: int): (r: nat)
    ensures r == x || r == -x
  {
    if x < 0 then -x else x
  }

  /** A non-zero multiple of `n` is at least `n` away from zero. */
  lemma MultipleBound(d: int, n: int)
    requires n > 0
    ensures d >= 1 ==> d * n >= n
    ensures d <= -1 ==> d * n <= -n
  {
    assert d * n == (d - 1) * n + n;
    assert d * n == (d + 1) * n - n;
  }

  /** Euclidean division of a natural number by a positive one. */
  lemma DivOfNat(x: int, y: int)
    requires x >= 0 && y > 0
    ensures 0 <= x / y && (x / y) * y <= x < (x / y + 1) * y
    ensures x / y == 0 <==> x < y
  {
    var m, k := x / y, x % y;
    assert x == m * y + k && 0 <= k < y;
    MultipleBound(m, y);
    assert (m + 1) * y == m * y + y;
  }

  /** C's `/`: the quotient is truncated toward zero (C11 6.5.5p6), so its
      magnitude is the quotient of the magnitudes and its sign is the product
      of the operands' signs. */
  function CDiv(a: int, b: int): (q: int)
    requires b != 0
    ensures Abs(q) == Abs(a) / Abs(b)
    ensures q == 0 || ((q > 0) <==> ((a > 0) == (b > 0)))
  {
    DivOfNat(Abs(a), Abs(b));
    var m := Abs(a) / Abs(b);
    if (a >= 0) == (b > 0) then m else -m
  }

  /** The truncated quotient is the largest multiple of the divisor that does
      not exceed the dividend in magnitude. */
  lemma CDivBounds(a: int, b: int)
    requires b != 0
    ensures Abs(CDiv(a, b)) * Abs(b) <= Abs(a) < (Abs(CDiv(a, b)) + 1) * Abs(b)
  {
    DivOfNat(Abs(a), Abs(b));
  }

  /** C's `%`: what is left after the truncating division; it is zero or has
      the sign of the dividend, never that of the divisor. */
  function CRem(a: int, b: int): (r: int)
    requires b != 0
    ensures a == CDiv(a, b) * b + r
    ensures Abs(r) < Abs(b)
    ensures r == 0 || ((r > 0) <==> (a > 0))
  {
    var q := CDiv(a, b);
    var r := a - q * b;
    CRemSign(a, b, q, r);
    r
  }

  lemma CRemSign(a: int, b: int, q: int, r: int)
    requires b != 0
    requires q == CDiv(a, b) && r == a - q * b
    ensures Abs(r) < Abs(b)
    ensures r == 0 || ((r > 0) <==> (a > 0))
  {
    var x: int, y: int := Abs(a), Abs(b);
    var m: int, k: int := x / y, x % y;
    assert x == m * y + k && 0 <= k < y;
    if (a >= 0) == (b > 0) {
      assert q == m;
      assert q * b == (if a >= 0 then m * y else -(m * y));
    } else {
      assert q == -m;
      assert q * b == (if a >= 0 then m * y else -(m * y));
    }
    assert r == (if a >= 0 then k else -k);
  }

  /** On a non-negative dividend and a positive divisor C and Dafny agree. */
  lemma {:induction false} CArithAgreesOnNonNegative(a: int, b: int)
    requires a >= 0 && b > 0
    ensures CDiv(a, b) == a / b && CRem(a, b) == a % b
  {
    assert CDiv(a, b) == Abs(a) / Abs(b);
  }
}
