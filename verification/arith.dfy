/** Powers of two and the division/remainder facts the codec proofs rest on.
    Dafny's `/` and `%` are Euclidean; every divisor used here is positive, so
    they agree with floor division and a non-negative remainder. */
module Arith {

  /** 2^64: one more than the largest unsigned 64-bit value. */
  const TWO_TO_THE_64: int := 0x1_0000_0000_0000_0000

  function Pow2(n: nat): (p: nat)
    ensures p > 0
  {
    if n == 0 then 1 else 2 * Pow2(n - 1)
  }

  lemma Pow2Of64()
    ensures Pow2(64) == TWO_TO_THE_64
  {
    Pow2Nibble(1);
    Pow2Nibble(2);
    Pow2Nibble(3);
    Pow2Nibble(4);
    Pow2Add(16, 16);
    Pow2Add(32, 32);
  }

  lemma {:induction false} Pow2Add(a: nat, b: nat)
    ensures Pow2(a + b) == Pow2(a) * Pow2(b)
  {
    if a > 0 {
      Pow2Add(a - 1, b);
      assert Pow2(a + b) == 2 * Pow2(a - 1 + b);
    }
  }

  /** One more hex digit multiplies the range by 16. */
  lemma Pow2Nibble(n: nat)
    requires n >= 1
    ensures Pow2(4 * n) == 16 * Pow2(4 * (n - 1))
  {
    var m := 4 * n;
    assert Pow2(m) == 2 * Pow2(m - 1);
    assert Pow2(m - 1) == 2 * Pow2(m - 2);
    assert Pow2(m - 2) == 2 * Pow2(m - 3);
    assert Pow2(m - 3) == 2 * Pow2(m - 4);
    assert m - 4 == 4 * (n - 1);
  }

  lemma {:induction false} Pow2Monotone(a: nat, b: nat)
    requires a <= b
    ensures Pow2(a) <= Pow2(b)
  {
    if a < b {
      Pow2Monotone(a, b - 1);
    }
  }

  /** Quotient and remainder are determined by the division equation. */
  lemma DivModUnique(v: int, m: int, q: int, r: int)
    requires m > 0 && 0 <= r < m && v == q * m + r
    ensures v / m == q && v % m == r
  {
    var q', r' := v / m, v % m;
    assert v == q' * m + r';
    assert (q - q') * m == r' - r;
    if q > q' {
      MulAtLeast(q - q', m);
    } else if q < q' {
      MulAtLeast(q' - q, m);
    }
  }

  lemma MulAtLeast(k: int, m: int)
    requires k >= 1 && m > 0
    ensures k * m >= m
  {
  }

  /** Splitting a division by a product into two divisions. */
  lemma DivModOfProduct(v: int, a: int, b: int)
    requires a > 0 && b > 0
    ensures v / (a * b) == (v / a) / b
    ensures v % (a * b) == ((v / a) % b) * a + v % a
  {
    var q, r := v / a, v % a;
    var q2, r2 := q / b, q % b;
    Regroup(v, a, b, q, r, q2, r2);
    DivModUnique(v, a * b, q2, r2 * a + r);
  }

  lemma Regroup(v: int, a: int, b: int, q: int, r: int, q2: int, r2: int)
    requires a > 0 && b > 0
    requires v == q * a + r && 0 <= r < a
    requires q == q2 * b + r2 && 0 <= r2 < b
    ensures v == q2 * (a * b) + (r2 * a + r)
    ensures 0 <= r2 * a + r < a * b
  {
    assert q * a == (q2 * b + r2) * a == q2 * (a * b) + r2 * a;
    assert r2 * a <= (b - 1) * a;
  }

  /** Reading the low digits of a remainder. */
  lemma ModOfMod(v: int, a: int, b: int)
    requires a > 0 && b > 0
    ensures (v % (a * b)) % a == v % a
    ensures (v % (a * b)) / a == (v / a) % b
  {
    DivModOfProduct(v, a, b);
    DivModUnique(v % (a * b), a, (v / a) % b, v % a);
  }

  lemma ModAddMultiple(x: int, k: int, m: int)
    requires m > 0
    ensures (x + k * m) % m == x % m
  {
    assert x == (x / m) * m + x % m;
    assert x + k * m == (x / m + k) * m + x % m;
    DivModUnique(x + k * m, m, x / m + k, x % m);
  }

  /** Reducing a factor modulo m first does not change the result modulo m. */
  lemma ModMulAdd(x: int, y: int, z: int, m: int)
    requires m > 0
    ensures ((x % m) * y + z) % m == (x * y + z) % m
  {
    var q := x / m;
    assert x == q * m + x % m;
    assert x * y + z == ((x % m) * y + z) + (q * y) * m by {
      assert x * y == (q * m + x % m) * y == (q * y) * m + (x % m) * y;
    }
    ModAddMultiple((x % m) * y + z, q * y, m);
  }
}
