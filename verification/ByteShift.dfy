/** Shifts of byte sequences: what the in-place loops leave in each byte, and what that means for the
    number. */
module ByteShift {
  import opened Arithmetic
  import opened Bits
  import opened ByteValue

  /** A byte of the left shift by `k` bits: the low bits of `x` moved up, and the high bits of the
      byte below it. */
  function ShlByte(x: byte, below: byte, k: nat): byte
    requires k < 8
  {
    Pow2Small(k);
    (x as int * Pow2(k)) % 256 + below as int / Pow2(8 - k)
  }

  function ShrByte(x: byte, above: byte, k: nat): byte
    requires k < 8
  {
    Pow2Small(k);
    x as int / Pow2(k) + (above as int * Pow2(8 - k)) % 256
  }

  lemma Pow2Small(k: nat)
    requires k < 8
    ensures Pow2(k) == [1, 2, 4, 8, 16, 32, 64, 128][k]
    ensures Pow2(8 - k) == [256, 128, 64, 32, 16, 8, 4, 2][k]
  {
    assert Pow2(4) == 16 && Pow2(5) == 32 && Pow2(6) == 64 && Pow2(7) == 128 && Pow2(8) == 256;
  }

  lemma DivSmall(b: byte, p: nat, q: nat)
    requires q > 0 && p * q == 256
    ensures 0 <= b as int / q < p
  {
    DivMod(b as int, q);
    DivNonNegative(b as int, q);
    if b as int / q >= p {
      if b as int / q > p { MulStep(p, b as int / q, q); }
    }
  }

  lemma ModSum(a: nat, b: nat)
    requires a % 256 + b < 256
    ensures (a + b) % 256 == a % 256 + b
  {
  }

  /** The source joins the two parts of a byte with `|` and truncates the result to a byte. */
  lemma ShlByteIsOr(x: byte, below: byte, k: nat)
    requires 0 < k < 8
    ensures x as int * Pow2(k) >= 0 && below as int / Pow2(8 - k) >= 0
    ensures BitOr(x as int * Pow2(k), below as int / Pow2(8 - k)) % 256 == ShlByte(x, below, k)
  {
    hide Pow2, BitOr;
    Pow2Small(k);
    var p, q := Pow2(k), Pow2(8 - k);
    MultipleMod(x as int, p);
    assert 0 <= below as int / q < p by { DivSmall(below, p, q); }
    MulNonNegative(x as int, p);
    BitOrDisjoint(x as int * p, below as int / q, k);
    RemainderTimes(x, q, p);
    assert p * (x as int % q) + p <= 256 by { MulStep(x as int % q, q, p); }
    ModSum(x as int * p, below as int / q);
  }

  lemma ShrByteIsOr(x: byte, above: byte, k: nat)
    requires 0 < k < 8
    ensures x as int / Pow2(k) >= 0 && above as int * Pow2(8 - k) >= 0
    ensures BitOr(x as int / Pow2(k), above as int * Pow2(8 - k)) % 256 == ShrByte(x, above, k)
  {
    hide Pow2, BitOr;
    Pow2Small(k);
    var p, q := Pow2(k), Pow2(8 - k);
    MultipleMod(above as int, q);
    assert 0 <= x as int / p < q by { DivSmall(x, q, p); }
    MulNonNegative(above as int, q);
    BitOrDisjoint(above as int * q, x as int / p, 8 - k);
    RemainderTimes(above, p, q);
    assert q * (above as int % p) + q <= 256 by { MulStep(above as int % p, p, q); }
    ModSum(above as int * q, x as int / p);
  }

  function ByteAt(s: seq<byte>, i: int): byte {
    if 0 <= i < |s| then s[i] else 0
  }

  function ShlBits(s: seq<byte>, k: nat): (t: seq<byte>)
    requires k < 8
    ensures |t| == |s|
  {
    seq(|s|, i requires 0 <= i < |s| => ShlByte(s[i], ByteAt(s, i - 1), k))
  }

  function ShrBits(s: seq<byte>, k: nat): (t: seq<byte>)
    requires k < 8
    ensures |t| == |s|
  {
    seq(|s|, i requires 0 <= i < |s| => ShrByte(s[i], ByteAt(s, i + 1), k))
  }

  /** The whole left shift: the bit shift, moved up by `n` bytes. */
  function Shl(s: seq<byte>, n: nat, k: nat): (t: seq<byte>)
    requires k < 8 && n <= |s|
    ensures |t| == |s|
  {
    ZeroBytes(n) + ShlBits(s, k)[..|s| - n]
  }

  function Shr(s: seq<byte>, n: nat, k: nat): (t: seq<byte>)
    requires k < 8 && n <= |s|
    ensures |t| == |s|
  {
    ShrBits(s, k)[n..] + ZeroBytes(n)
  }

  /** What one byte passes up to the next. */
  lemma ShlCarry(x: byte, below: byte, k: nat)
    requires k < 8
    ensures ShlByte(x, below, k) as int + 256 * (x as int / Pow2(8 - k))
            == Pow2(k) * x as int + below as int / Pow2(8 - k)
  {
    Pow2Small(k);
  }

  lemma {:induction false} ShlPrefix(s: seq<byte>, k: nat, i: nat)
    requires k < 8 && i <= |s|
    ensures Val(ShlBits(s, k)[..i]) + Power256(i) * (ByteAt(s, i - 1) as int / Pow2(8 - k))
            == Pow2(k) * Val(s[..i])
  {
    if i == 0 {
      assert 0 / Pow2(8 - k) == 0 by { Pow2Small(k); }
    } else {
      ShlPrefix(s, k, i - 1);
      ShlPrefixStep(s, k, i - 1);
    }
  }

  lemma ShlPrefixStep(s: seq<byte>, k: nat, i: nat)
    requires k < 8 && i < |s|
    requires Val(ShlBits(s, k)[..i]) + Power256(i) * (ByteAt(s, i - 1) as int / Pow2(8 - k))
            == Pow2(k) * Val(s[..i])
    ensures Val(ShlBits(s, k)[..i + 1]) + Power256(i + 1) * (ByteAt(s, i) as int / Pow2(8 - k))
            == Pow2(k) * Val(s[..i + 1])
  {
    hide Val, Power256, Pow2;
    var t, p, x := ShlBits(s, k), Power256(i), s[i] as int;
    var below := ByteAt(s, i - 1);
    var carry, carry' := below as int / Pow2(8 - k), x / Pow2(8 - k);
    ValPrefix(t, i);
    ValPrefix(s, i);
    ShlCarry(s[i], below, k);
    Power256Step(i);
    calc {
      Val(t[..i + 1]) + Power256(i + 1) * carry';
      Val(t[..i]) + p * t[i] as int + 256 * p * carry';
      { MulAssoc(p, 256, carry'); Distribute(p, t[i] as int, 256 * carry'); }
      Val(t[..i]) + p * (Pow2(k) * x + carry);
      { Distribute(p, Pow2(k) * x, carry); MulAssoc(p, Pow2(k), x); MulAssoc(Pow2(k), p, x); }
      Val(t[..i]) + p * carry + Pow2(k) * (p * x);
      { Distribute(Pow2(k), Val(s[..i]), p * x); }
      Pow2(k) * Val(s[..i + 1]);
    }
  }

  lemma ShlBitsValue(s: seq<byte>, k: nat)
    requires k < 8
    ensures Val(ShlBits(s, k)) == Pow2(k) * Val(s) % Power256(|s|)
  {
    hide Val, Power256, Pow2, ShlBits, ByteAt;
    var t, carry := ShlBits(s, k), ByteAt(s, |s| - 1) as int / Pow2(8 - k);
    ShlPrefix(s, k, |s|);
    assert t[..|s|] == t && s[..|s|] == s;
    ValBound(t);
    MulCommutes(Power256(|s|), carry);
    DivModUnique(Pow2(k) * Val(s), Power256(|s|), carry, Val(t));
  }

  /** Shifting left by `8n + k` bits multiplies by 2^(8n + k), modulo 256^N. */
  lemma ShlValue(s: seq<byte>, n: nat, k: nat)
    requires k < 8 && n <= |s|
    ensures Val(Shl(s, n, k)) == Val(s) * Pow2(8 * n + k) % Power256(|s|)
  {
    hide Val, Power256, Pow2, ShlBits, ZeroBytes;
    var t, p, m := ShlBits(s, k), Power256(n), Power256(|s|);
    ShlBitsValue(s, k);
    ByteShiftUp(t, n);
    ModMul(p, Pow2(k) * Val(s), m);
    Power256IsPow2(n);
    Pow2Add(8 * n, k);
    Rearrange(p, Pow2(k), Val(s));
  }

  lemma Rearrange(x: int, y: int, z: int)
    ensures x * (y * z) == z * (x * y)
  {
  }

  lemma ByteShiftUp(t: seq<byte>, n: nat)
    requires n <= |t|
    ensures Val(ZeroBytes(n) + t[..|t| - n]) == Power256(n) * Val(t) % Power256(|t|)
  {
    hide Val, Power256;
    var p, m := Power256(n), Power256(|t|);
    var low, high := t[..|t| - n], t[|t| - n..];
    ValAppend(ZeroBytes(n), low);
    ValZero(ZeroBytes(n));
    ValBound(ZeroBytes(n) + low);
    ValSplit(t, |t| - n);
    Power256Add(n, |t| - n);
    ShiftedSum(p, Power256(|t| - n), Val(low), Val(high), Val(t));
    DivModUnique(p * Val(t), m, Val(high), p * Val(low));
  }

  lemma ShiftedSum(p: int, q: int, low: int, high: int, all: int)
    requires all == low + q * high
    ensures p * all == high * (p * q) + p * low
  {
    Distribute(p, low, q * high);
    MulAssoc(p, q, high);
    MulCommutes(p * q, high);
  }

  lemma {:induction false} ShrBitsValue(s: seq<byte>, k: nat)
    requires k < 8
    ensures Val(ShrBits(s, k)) == Val(s) / Pow2(k)
  {
    hide Pow2;
    if |s| == 0 {
      assert 0 / Pow2(k) == 0 by { Pow2Small(k); }
    } else {
      ShrBitsValue(s[1..], k);
      assert ShrBits(s, k)[1..] == ShrBits(s[1..], k);
      ShrStep(s[0], ByteAt(s, 1), if |s| > 1 then Val(s[2..]) else 0, k);
      assert |s| > 1 ==> s[1..][1..] == s[2..];
    }
  }

  /** Shifting the bytes `x`, `above` and all those higher up by less than a byte. */
  lemma ShrStep(x: byte, above: byte, rest: nat, k: nat)
    requires k < 8
    ensures ShrByte(x, above, k) as int + 256 * ((above as int + 256 * rest) / Pow2(k))
            == (x as int + 256 * (above as int + 256 * rest)) / Pow2(k)
  {
    hide Pow2;
    Pow2Small(k);
    ShrParts(x, above, rest, Pow2(k), Pow2(8 - k));
  }

  lemma ShrParts(x: byte, above: byte, rest: nat, p: nat, q: nat)
    requires p > 0 && q > 0 && p * q == 256
    ensures above as int * q >= 0
    ensures x as int / p + (above as int * q) % 256 + 256 * ((above as int + 256 * rest) / p)
            == (x as int + 256 * (above as int + 256 * rest)) / p
  {
    var r := above as int + 256 * rest;
    MulNonNegative(above as int, q);
    Multiple256(r, p, q);
    DivAddMultiple(x as int, q * r, p);
    RemainderTimes(r, p, q);
    RemainderTimes(above, p, q);
    Multiple256(rest, p, q);
    ModAddMultiple(above as int, q * rest, p);
  }

  lemma Multiple256(r: int, p: int, q: int)
    requires p * q == 256
    ensures 256 * r == p * (q * r) == q * r * p
  {
    MulAssoc(p, q, r);
  }

  /** Where p * q is 256, the part of q * r that stays in a byte is q times the remainder. */
  lemma RemainderTimes(r: nat, p: nat, q: nat)
    requires p > 0 && q > 0 && p * q == 256
    ensures q * r == 256 * (r / p) + q * (r % p)
    ensures (r * q) % 256 == q * (r % p)
  {
    DivMod(r, p);
    Distribute(q, r / p * p, r % p);
    assert q * (r / p * p) == 256 * (r / p) by { assert q * (r / p * p) == p * q * (r / p); }
    assert 0 <= q * (r % p) < 256 by { MulStep(r % p, p, q); MulNonNegative(q, r % p); }
    DivModUnique(r * q, 256, r / p, q * (r % p));
  }

  /** Shifting right by `8n + k` bits divides by 2^(8n + k). */
  lemma ShrValue(s: seq<byte>, n: nat, k: nat)
    requires k < 8 && n <= |s|
    ensures Val(Shr(s, n, k)) == Val(s) / Pow2(8 * n + k)
  {
    hide Val, Power256, Pow2, ShrBits;
    var t := ShrBits(s, k);
    ValAppend(t[n..], ZeroBytes(n));
    ValZero(ZeroBytes(n));
    ValSplit(t, n);
    ValBound(t[..n]);
    DivModUnique(Val(t), Power256(n), Val(t[n..]), Val(t[..n]));
    ShrBitsValue(s, k);
    DivDiv(Val(s), Pow2(k), Power256(n));
    Power256IsPow2(n);
    Pow2Add(8 * n, k);
  }
}
