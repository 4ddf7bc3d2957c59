/** The few facts about multiplication, division and remainder that the proofs use. */
module Arithmetic {

  function Power256(n: nat): (p: nat)
    ensures p > 0
  {
    if n == 0 then 1 else 256 * Power256(n - 1)
  }

  lemma Power256Step(i: nat)
    ensures Power256(i + 1) == 256 * Power256(i)
  {
  }

  lemma {:induction false} Power256Add(m: nat, n: nat)
    ensures Power256(m + n) == Power256(m) * Power256(n)
  {
    if m == 0 {
      assert 1 * Power256(n) == Power256(n);
    } else {
      Power256Add(m - 1, n);
      assert 256 * (Power256(m - 1) * Power256(n)) == 256 * Power256(m - 1) * Power256(n);
    }
  }

  lemma Distribute(p: int, x: int, y: int)
    ensures p * (x + y) == p * x + p * y
  {
  }

  lemma MulAssoc(x: int, y: int, z: int)
    ensures x * (y * z) == x * y * z
  {
  }

  lemma MulStep(x: int, y: int, p: int)
    requires x < y && p > 0
    ensures x * p + p <= y * p
  {
    var d := y - x - 1;
    assert y * p == x * p + p + d * p by { assert y == x + 1 + d; }
    assert d * p >= 0;
  }

  /** Quotient and remainder are unique. */
  lemma DivModUnique(a: int, p: int, q: int, r: int)
    requires p > 0 && a == q * p + r && 0 <= r < p
    ensures a / p == q && a % p == r
  {
    var q', r' := a / p, a % p;
    assert a == q' * p + r' && 0 <= r' < p by { DivMod(a, p); }
    if q' < q {
      MulStep(q', q, p);
    } else if q' > q {
      MulStep(q, q', p);
    }
  }

  lemma MulCommutes(x: int, y: int)
    ensures x * y == y * x
  {
  }

  lemma DivMod(a: int, p: int)
    requires p > 0
    ensures a == a / p * p + a % p && 0 <= a % p < p
  {
  }

  lemma MulNonNegative(a: nat, b: nat)
    ensures a * b >= 0
  {
  }

  lemma DivNonNegative(a: nat, p: int)
    requires p > 0
    ensures a / p >= 0
  {
    DivMod(a, p);
    if a / p < 0 { MulStep(a / p, 0, p); }
  }

  lemma MultipleMod(q: int, p: int)
    requires p > 0
    ensures (q * p) % p == 0 && (q * p) / p == q
  {
    DivModUnique(q * p, p, q, 0);
  }

  lemma DivDiv(a: nat, p: nat, q: nat)
    requires p > 0 && q > 0
    ensures p * q > 0 && a / p / q == a / (p * q)
  {
    var x, r := a / p, a % p;
    var y, s := x / q, x % q;
    DivMod(a, p);
    DivMod(x, q);
    assert x * p == y * (p * q) + s * p by { assert (y * q + s) * p == y * (p * q) + s * p; }
    assert s * p + p <= p * q by { MulStep(s, q, p); }
    DivModUnique(a, p * q, y, s * p + r);
  }

  lemma ModAddMultiple(a: int, q: int, p: int)
    requires p > 0
    ensures (a + q * p) % p == a % p
  {
    DivMod(a, p);
    assert (a / p + q) * p == a / p * p + q * p;
    DivModUnique(a + q * p, p, a / p + q, a % p);
  }

  lemma DivAddMultiple(a: int, q: int, p: int)
    requires p > 0
    ensures (a + p * q) / p == a / p + q
  {
    DivMod(a, p);
    Distribute(p, a / p, q);
    DivModUnique(a + p * q, p, a / p + q, a % p);
  }

  /** A remainder may be taken before or after multiplying. */
  lemma ModMul(a: int, b: int, p: int)
    requires p > 0
    ensures (a * (b % p)) % p == (a * b) % p
  {
    DivMod(b, p);
    assert a * b == a * (b % p) + (a * (b / p)) * p by {
      assert a * (b / p * p + b % p) == a * (b % p) + (a * (b / p)) * p;
    }
    ModAddMultiple(a * (b % p), a * (b / p), p);
  }

  lemma ModAdd(a: int, b: int, p: int)
    requires p > 0
    ensures (a + b % p) % p == (a + b) % p
  {
    DivMod(b, p);
    ModAddMultiple(a + b % p, b / p, p);
  }

  lemma MulMonotone(p: nat, x: int, y: int)
    requires x <= y
    ensures p * x <= p * y
  {
    Distribute(p, x, y - x);
    MulNonNegative(p, y - x);
  }

  lemma Regroup(p: int, q: int, x: int, y: int)
    ensures p * q * (x * y) == p * (x * (q * y))
  {
    MulAssoc(p, q, x * y);
    assert q * (x * y) == x * (q * y);
  }

  lemma MulEqual(x: int, y: int, z: int)
    requires x == y
    ensures x * z == y * z
  {
  }

  lemma Regroup3(x: int, y: int, z: int)
    ensures x * z * y == x * y * z
  {
  }
}
