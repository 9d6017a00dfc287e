/** Small facts about multiplication, division and remainder used by the numeric proofs. */
module Arithmetic {
  function Min(a: int, b: int): int { if a <= b then a else b }

  lemma MulPositiveBound(m: int, d: int)
    requires m > 0 && d >= 1
    ensures m * d >= m
  {
  }

  lemma MulSmallIsZero(m: int, d: int)
    requires m > 0 && -m < m * d < m
    ensures d == 0
  {
    if d >= 1 {
      MulPositiveBound(m, d);
    } else if d <= -1 {
      MulPositiveBound(m, -d);
    }
  }

  lemma DivModUnique(x: int, m: int, q: int, s: int)
    requires m > 0 && 0 <= s < m && x == q * m + s
    ensures x / m == q && x % m == s
  {
    var q0, s0 := x / m, x % m;
    assert x == q0 * m + s0;
    assert m * (q - q0) == s0 - s;
    MulSmallIsZero(m, q - q0);
  }

  lemma ModOfMultipleAdd(k: int, m: int, r: int)
    requires m > 0
    ensures (k * m + r) % m == r % m
  {
    var q, s := r / m, r % m;
    assert r == q * m + s;
    assert k * m + r == (k + q) * m + s;
    DivModUnique(k * m + r, m, k + q, s);
  }

  lemma ModMod(a: int, m: int)
    requires m > 0
    ensures (a % m) % m == a % m
  {
    DivModUnique(a % m, m, 0, a % m);
  }

  lemma ModMul(a: int, b: int, m: int)
    requires m > 0
    ensures (a * b) % m == ((a % m) * (b % m)) % m
  {
    var qa, ra := a / m, a % m;
    var qb, rb := b / m, b % m;
    assert a == qa * m + ra;
    assert b == qb * m + rb;
    assert a * b == (qa * m + ra) * (qb * m + rb);
    assert (qa * m + ra) * (qb * m + rb) == (qa * qb * m + qa * rb + ra * qb) * m + ra * rb;
    ModOfMultipleAdd(qa * qb * m + qa * rb + ra * qb, m, ra * rb);
  }

  lemma ModMulRight(a: int, b: int, m: int)
    requires m > 0
    ensures (a * (b % m)) % m == (a * b) % m
  {
    ModMul(a, b, m);
    ModMul(a, b % m, m);
    ModMod(b, m);
  }

  lemma ModMulLeft(a: int, b: int, m: int)
    requires m > 0
    ensures ((a % m) * b) % m == (a * b) % m
  {
    ModMul(a, b, m);
    ModMul(a % m, b, m);
    ModMod(a, m);
  }

  lemma ModAdd(a: int, b: int, m: int)
    requires m > 0
    ensures (a + b) % m == ((a % m) + (b % m)) % m
  {
    var qa, ra := a / m, a % m;
    var qb, rb := b / m, b % m;
    assert a + b == (qa + qb) * m + (ra + rb);
    ModOfMultipleAdd(qa + qb, m, ra + rb);
  }

  lemma DivBelow(x: int, b: int, n: int)
    requires b > 0 && 0 <= x < n * b
    ensures 0 <= x / b < n
  {
    var q := x / b;
    assert x == q * b + x % b;
  }

  lemma MulMonotone(a: int, a2: int, b: int)
    requires a <= a2 && b >= 0
    ensures a * b <= a2 * b
  {
    if b > 0 && a < a2 {
      MulPositiveBound(b, a2 - a);
    }
  }

  lemma MulNonNegative(a: int, b: int)
    requires a >= 0 && b >= 0
    ensures a * b >= 0
  {
  }

  lemma MulSucc(a: int, b: int)
    ensures (a + 1) * b == a * b + b
  {
  }

  lemma MulAdd(a: int, b: int, c: int)
    ensures a * (b + c) == a * b + a * c
  {
  }

  lemma DivModIdentity(x: int, m: int)
    requires m > 0
    ensures x == (x / m) * m + x % m
  {
  }

  /**
   * Positional order: with digits ks < kt and remainders below the base, the number with the
   * smaller leading digit is smaller.
   */
  lemma DigitOrder(ks: int, kt: int, b: int, rs: int, rt: int)
    requires 0 <= ks < kt && 0 <= rs < b && 0 <= rt
    ensures ks * b + 1 + rs < kt * b + 1 + rt
  {
    MulMonotone(ks + 1, kt, b);
    MulSucc(ks, b);
  }

  /** Multiplying by a positive factor reflects the order: a * c <= b * c implies a <= b. */
  lemma MulCancelLe(a: int, b: int, c: int)
    requires c > 0 && a * c <= b * c
    ensures a <= b
  {
    if a > b {
      MulMonotone(b + 1, a, c);
      MulSucc(b, c);
    }
  }

  /** a * c < b * c with c >= 0 implies a < b. */
  lemma MulCancelLt(a: int, b: int, c: int)
    requires c >= 0 && a * c < b * c
    ensures a < b
  {
    if a >= b {
      MulMonotone(b, a, c);
    }
  }
}
