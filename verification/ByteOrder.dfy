/** Numbers as bytes, the most significant first. */
module ByteOrder {
  import opened Arithmetic
  import opened Bits

  /** The low `n` bytes of `m`, the most significant first. */
  function BigEndian(m: nat, n: nat): (s: seq<byte>)
    ensures |s| == n
  {
    if n == 0 then [] else BigEndian(m / 256, n - 1) + [m % 256]
  }

  function FromBigEndian(s: seq<byte>): nat {
    if |s| == 0 then 0 else 256 * FromBigEndian(s[..|s| - 1]) + s[|s| - 1]
  }

  lemma {:induction false} BigEndianCons(m: nat, n: nat)
    ensures m / Power256(n) >= 0
    ensures BigEndian(m, n + 1) == [m / Power256(n) % 256] + BigEndian(m, n)
  {
    DivNonNegative(m, Power256(n));
    if n == 0 {
      assert BigEndian(m, 1) == BigEndian(m / 256, 0) + [m % 256];
    } else {
      hide Power256;
      BigEndianCons(m / 256, n - 1);
      DivDiv(m, 256, Power256(n - 1));
      Power256Step(n - 1);
    }
  }

  lemma {:induction false} FromToBigEndian(m: nat, n: nat)
    ensures FromBigEndian(BigEndian(m, n)) == m % Power256(n)
  {
    if n > 0 {
      hide Power256;
      var s := BigEndian(m, n);
      assert s[..n - 1] == BigEndian(m / 256, n - 1);
      FromToBigEndian(m / 256, n - 1);
      Power256Step(n - 1);
      ModTimes256(m, Power256(n - 1));
    }
  }

  lemma ModTimes256(m: nat, p: nat)
    requires p > 0
    ensures m % (256 * p) == 256 * (m / 256 % p) + m % 256
  {
    var q := m / 256 / p;
    DivMod(m / 256, p);
    assert q * (256 * p) == 256 * (q * p) by { MulAssoc(q, 256, p); MulAssoc(256, q, p); MulCommutes(q, 256); }
    DivModUnique(m, 256 * p, q, 256 * (m / 256 % p) + m % 256);
  }

  lemma {:induction false} FromBigEndianBound(s: seq<byte>)
    ensures FromBigEndian(s) < Power256(|s|)
  {
    if |s| > 0 { FromBigEndianBound(s[..|s| - 1]); }
  }

  lemma {:induction false} BigEndianAt(m: nat, n: nat, i: nat)
    requires i < n
    ensures m / Power256(n - 1 - i) >= 0
    ensures BigEndian(m, n)[i] == m / Power256(n - 1 - i) % 256
  {
    hide Power256;
    BigEndianCons(m, n - 1);
    if i > 0 { BigEndianAt(m, n - 1, i - 1); }
  }
}
