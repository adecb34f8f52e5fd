/**
 * Integer helpers shared by the model: the minimum of two numbers, the
 * remainder JavaScript's `%` computes, and the congruence facts the hash
 * proofs rest on. Dafny's `%` is Euclidean (never negative); JavaScript's
 * keeps the sign of the dividend.
 */
module ModArith {

  function Min(a: int, b: int): (r: int)
    ensures r <= a && r <= b && (r == a || r == b)
  {
    if a <= b then a else b
  }

  /** JavaScript's `a % m` for a positive modulus: truncates toward zero. */
  function JsRem(a: int, m: int): int
    requires m >= 1
  {
    if a >= 0 then a % m else -((-a) % m)
  }

  /** Division by `m` is determined by any quotient/remainder pair. */
  lemma DivModUnique(x: int, q: int, r: int, m: int)
    requires m >= 1 && 0 <= r < m && x == q * m + r
    ensures x / m == q && x % m == r
  {
    var q', r' := x / m, x % m;
    assert x == q' * m + r';
    assert (q - q') * m == r' - r;
    if q - q' >= 1 {
      assert (q - q') * m >= m by { MulAtLeast(q - q', m); }
    } else if q - q' <= -1 {
      assert (q' - q) * m >= m by { MulAtLeast(q' - q, m); }
    }
  }

  lemma MulAtLeast(k: int, m: int)
    requires k >= 1 && m >= 0
    ensures k * m >= m
  {
  }

  /** Adding a multiple of `m` does not change the remainder. */
  lemma ModShift(x: int, k: int, m: int)
    requires m >= 1
    ensures (x + k * m) % m == x % m
  {
    DivModUnique(x + k * m, x / m + k, x % m, m);
  }

  /** Reducing one summand first does not change the remainder of a sum. */
  lemma ModAddLeft(a: int, b: int, m: int)
    requires m >= 1
    ensures (a % m + b) % m == (a + b) % m
  {
    ModShift(a + b, -(a / m), m);
  }

  /** Reducing the right factor first does not change the remainder of a product. */
  lemma ModMulRight(a: int, b: int, m: int)
    requires m >= 1
    ensures (a * (b % m)) % m == (a * b) % m
  {
    var q := b / m;
    assert a * (b % m) == a * b + (-(a * q)) * m by {
      assert b % m == b - q * m;
      assert a * (b - q * m) == a * b - (a * q) * m;
    }
    ModShift(a * b, -(a * q), m);
  }

  /** Numbers with equal remainders differ by a multiple of the modulus. */
  lemma CongruentDiff(a: int, b: int, m: int)
    requires m >= 1 && a % m == b % m
    ensures a == b + (a / m - b / m) * m
  {
  }

  /**
   * `JsRem` followed by "add `m` if negative", the normalisation at
   * vcdiff.js:71-74, is exactly the Euclidean remainder.
   */
  lemma JsRemNormalised(a: int, m: int)
    requires m >= 1
    ensures (if JsRem(a, m) < 0 then JsRem(a, m) + m else JsRem(a, m)) == a % m
  {
    if a < 0 {
      var q, r := (-a) / m, (-a) % m;
      if r == 0 {
        DivModUnique(a, -q, 0, m);
      } else {
        DivModUnique(a, -q - 1, m - r, m);
      }
    }
  }
}
