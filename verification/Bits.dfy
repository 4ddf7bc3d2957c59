/**
 Bitwise operators on non-negative integers, defined bit by bit, and the arithmetic they amount to.
 A shift of an unsigned value is a multiplication or a division by a power of two.
 */
module Bits {
  import opened Arithmetic

  type byte = b: int | 0 <= b < 256

  type Bytes = seq<byte>

  function ZeroBytes(n: nat): (s: seq<byte>)
    ensures |s| == n
  {
    seq(n, _ => 0)
  }

  /** A signed number as it is compared with a 64-bit size. */
  function AsSize(x: int): int {
    if x < 0 then x + 0x1_0000_0000_0000_0000 else x
  }

  function Pow2(n: nat): (p: nat)
    ensures p > 0
  {
    if n == 0 then 1 else 2 * Pow2(n - 1)
  }

  function BitOr(a: nat, b: nat): nat
    decreases a + b
  {
    if a == 0 && b == 0 then 0
    else (if a % 2 == 1 || b % 2 == 1 then 1 else 0) + 2 * BitOr(a / 2, b / 2)
  }

  function BitAnd(a: nat, b: nat): nat
    decreases a + b
  {
    if a == 0 && b == 0 then 0
    else (if a % 2 == 1 && b % 2 == 1 then 1 else 0) + 2 * BitAnd(a / 2, b / 2)
  }

  lemma {:induction false} Pow2Add(m: nat, n: nat)
    ensures Pow2(m + n) == Pow2(m) * Pow2(n)
  {
    if m > 0 {
      Pow2Add(m - 1, n);
      assert Pow2(m + n) == 2 * (Pow2(m - 1) * Pow2(n));
    }
  }

  lemma {:induction false} Pow2Monotone(m: nat, n: nat)
    requires m <= n
    ensures Pow2(m) <= Pow2(n)
  {
    if m < n { Pow2Monotone(m, n - 1); }
  }

  lemma {:induction false} BitOrZero(a: nat)
    ensures BitOr(a, 0) == a && BitOr(0, a) == a
  {
    if a > 0 { BitOrZero(a / 2); }
  }

  lemma {:induction false} BitAndZero(a: nat)
    ensures BitAnd(a, 0) == 0 && BitAnd(0, a) == 0
  {
    if a > 0 { BitAndZero(a / 2); }
  }

  lemma HalveMultiple(a: nat, k: nat)
    requires k > 0 && a % Pow2(k) == 0
    ensures a % 2 == 0 && (a / 2) % Pow2(k - 1) == 0
  {
    var q, p := a / Pow2(k), Pow2(k - 1);
    assert a == q * (2 * p);
    assert a == 2 * (q * p) by { assert q * (2 * p) == 2 * (q * p); }
    assert a / 2 == q * p;
    MultipleMod(q, p);
  }

  /** Where the left operand has only zeros below bit `k` and the right one has nothing from bit
      `k` up, `|` is addition. */
  lemma {:induction false} BitOrDisjoint(a: nat, b: nat, k: nat)
    requires a % Pow2(k) == 0 && b < Pow2(k)
    ensures BitOr(a, b) == a + b && BitOr(b, a) == a + b
  {
    if k == 0 {
      BitOrZero(a);
    } else if a != 0 || b != 0 {
      HalveMultiple(a, k);
      BitOrDisjoint(a / 2, b / 2, k - 1);
    }
  }

  /** `|` leaves alone the bits below bit `k` where the right operand has none. */
  lemma {:induction false} BitOrAbove(x: nat, y: nat, r: nat, k: nat)
    requires r < Pow2(k)
    ensures x * Pow2(k) >= 0 && y * Pow2(k) >= 0
    ensures BitOr(x * Pow2(k) + r, y * Pow2(k)) == BitOr(x, y) * Pow2(k) + r
  {
    MulNonNegative(x, Pow2(k));
    MulNonNegative(y, Pow2(k));
    if k > 0 {
      hide BitOr;
      var p := Pow2(k - 1);
      BitOrAbove(x, y, r / 2, k - 1);
      BitOrDouble(x * p + r / 2, y * p, r % 2);
      DoubleProduct(x, p);
      DoubleProduct(y, p);
      DoubleProduct(BitOr(x, y), p);
    }
  }

  lemma DoubleProduct(x: nat, p: nat)
    ensures x * (2 * p) == 2 * (x * p)
  {
  }

  lemma BitOrDouble(a: nat, b: nat, bit: nat)
    requires bit < 2
    ensures BitOr(2 * a + bit, 2 * b) == 2 * BitOr(a, b) + bit
  {
    var x, y := 2 * a + bit, 2 * b;
    assert x / 2 == a && x % 2 == bit && y / 2 == b && y % 2 == 0;
  }

  lemma Pow2Halves(a: nat, k: nat)
    requires k > 0
    ensures a / Pow2(k) == a / 2 / Pow2(k - 1)
    ensures a % Pow2(k) == 2 * (a / 2 % Pow2(k - 1)) + a % 2
  {
    var p := Pow2(k - 1);
    var q, r := a / 2 / p, a / 2 % p;
    DivMod(a / 2, p);
    assert q * (2 * p) == 2 * (q * p);
    DivModUnique(a, 2 * p, q, 2 * r + a % 2);
  }

  /** A mask of `k` ones keeps the remainder modulo 2^k. */
  lemma {:induction false} BitAndMask(a: nat, k: nat)
    ensures BitAnd(a, Pow2(k) - 1) == a % Pow2(k)
  {
    if k == 0 {
      BitAndZero(a);
    } else {
      var mask := Pow2(k - 1) - 1;
      assert Pow2(k) - 1 == 2 * mask + 1 && (2 * mask + 1) / 2 == mask;
      BitAndMask(a / 2, k - 1);
      Pow2Halves(a, k);
    }
  }

  lemma BitAndDouble(a: nat, m: nat)
    ensures BitAnd(a, 2 * m) == 2 * BitAnd(a / 2, m)
  {
    assert 2 * m / 2 == m && 2 * m % 2 == 0;
  }

  /** A mask `m` moved up by `k` bits picks the bits of the number moved down by as many. */
  lemma {:induction false} MovedMask(x: nat, m: nat, k: nat, p: nat, up: nat, down: nat)
    requires p == Pow2(k) && up == m * p && down == x / p
    ensures BitAnd(x, up) == p * BitAnd(down, m)
  {
    hide BitAnd;
    if k > 0 {
      var q := Pow2(k - 1);
      MulNonNegative(m, q);
      DoubleProduct(m, q);
      BitAndDouble(x, m * q);
      Pow2Halves(x, k);
      MovedMask(x / 2, m, k - 1, q, m * q, down);
      TwiceProduct(q, BitAnd(down, m));
    }
  }

  lemma TwiceProduct(p: int, v: int)
    ensures 2 * (p * v) == 2 * p * v
  {
  }

  /** Bit `n` of `a`. */
  predicate TestBit(a: nat, n: nat) {
    if n == 0 then a % 2 == 1 else TestBit(a / 2, n - 1)
  }

  /** `a & (1 << n)` is bit `n` of `a`, in its place. */
  lemma {:induction false} BitAndBit(a: nat, n: nat)
    ensures BitAnd(a, Pow2(n)) == if TestBit(a, n) then Pow2(n) else 0
  {
    if n == 0 {
      BitAndMask(a, 1);
      assert Pow2(1) == 2;
    } else {
      BitAndDouble(a, Pow2(n - 1));
      BitAndBit(a / 2, n - 1);
    }
  }

  /** Of a number below 2^(n+1), bit `n` says whether it is at least 2^n. */
  lemma {:induction false} TopBit(a: nat, n: nat)
    requires a < Pow2(n + 1)
    ensures TestBit(a, n) <==> a >= Pow2(n)
  {
    if n > 0 { TopBit(a / 2, n - 1); }
  }
}
