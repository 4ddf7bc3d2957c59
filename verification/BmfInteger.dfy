/**
 The variable-length integer code of the BMF format: a flag in the first byte gives the number of
 bytes, its top bit the sign, and the magnitude follows with the most significant byte first.
 */
module BmfInteger {
  import opened Arithmetic
  import opened Bits
  import opened ByteOrder
  import opened Streams
  import opened Wrappers

  const FLAG_BYTES: seq<byte> := [0x0, 0x40, 0x60, 0x70, 0x78, 0x7C, 0x7D, 0x7E, 0x7F]
  const BYTE_LIMITS: seq<byte> := [63, 31, 15, 7, 3, 0, 0, 0, 0]

  const TWO_63: int := 0x8000_0000_0000_0000
  const TWO_64: int := 0x1_0000_0000_0000_0000

  type int64 = v: int | -0x8000_0000_0000_0000 <= v < 0x8000_0000_0000_0000

  /** The signed number with the same 64 bits. */
  function Wrap64(x: int): int64 {
    var u := x % TWO_64;
    if u < TWO_63 then u else u - TWO_64
  }

  // ---- The code itself ----

  /** The magnitudes that `n` bytes can hold are those below 2^6, 2^13, 2^20, 2^27, 2^34, 2^40, 2^48,
      2^56 and 2^64. */
  function ClassLimit(n: nat): int
    requires 1 <= n <= 9
  {
    [0x40, 0x2000, 0x10_0000, 0x800_0000, 0x4_0000_0000, 0x100_0000_0000, 0x1_0000_0000_0000,
     0x100_0000_0000_0000, TWO_64][n - 1]
  }

  function Magnitude(v: int64): (m: nat)
    ensures m <= TWO_63
  {
    if v >= 0 then v else -(v as int)
  }

  /** The least number of bytes whose class has room for `m`. */
  function ClassFrom(m: nat, n: nat): (r: nat)
    requires 1 <= n <= 9 && m < TWO_64
    requires forall k :: 1 <= k < n ==> m >= ClassLimit(k)
    ensures n <= r <= 9 && m < ClassLimit(r)
    ensures forall k :: 1 <= k < r ==> m >= ClassLimit(k)
    decreases 9 - n
  {
    if m < ClassLimit(n) then n
    else ClassFrom(m, n + 1)
  }

  function Length(v: int64): (n: nat)
    ensures 1 <= n <= 9 && Magnitude(v) < ClassLimit(n)
    ensures forall k :: 1 <= k < n ==> Magnitude(v) >= ClassLimit(k)
  {
    ClassFrom(Magnitude(v), 1)
  }

  /** The first byte of a code: sign bit, length flag and the top of the magnitude. */
  function Lead(v: int64): byte {
    LeadFits(Magnitude(v), Length(v));
    (if v >= 0 then 0x80 else 0) + FLAG_BYTES[Length(v) - 1] as int + Magnitude(v) / Power256(Length(v) - 1)
  }

  /** The code of `v`: the first byte, then the rest of the magnitude. */
  function Encoded(v: int64): (s: seq<byte>)
    ensures |s| == Length(v)
  {
    [Lead(v)] + BigEndian(Magnitude(v), Length(v) - 1)
  }

  /** How many bytes follow a first byte, by its flag. */
  function ExtraFrom(flagByte: nat, pos: nat): (r: nat)
    requires pos <= 8 && flagByte < 128
    ensures pos <= r <= 8
    ensures r < 8 ==> flagByte < FLAG_BYTES[r + 1] as int
    ensures r > pos ==> flagByte >= FLAG_BYTES[r] as int
    decreases 8 - pos
  {
    if pos == 8 || flagByte < FLAG_BYTES[pos + 1] as int then pos else ExtraFrom(flagByte, pos + 1)
  }

  function Extra(first: byte): (r: nat)
    ensures r <= 8
  {
    ExtraFrom(first as int % 128, 0)
  }

  /** The outcome of decoding: the value, if there is one, and how many bytes were consumed. */
  datatype Decoding = Decoding(value: Option<int64>, used: nat)

  /** The number in a complete code. */
  function CodeMagnitude(s: seq<byte>): (m: nat)
    requires |s| >= 1 && |s| == 1 + Extra(s[0])
  {
    var top, p := BitAnd(s[0] as int % 128, BYTE_LIMITS[Extra(s[0])]), Power256(Extra(s[0]));
    MulNonNegative(top, p);
    top * p + FromBigEndian(s[1..])
  }

  function CodeValue(s: seq<byte>): int64
    requires |s| >= 1 && |s| == 1 + Extra(s[0])
  {
    Signed(CodeMagnitude(s), s[0] >= 0x80)
  }

  /** The 64-bit number that decoding makes of a magnitude and a sign. */
  function Signed(m: nat, positive: bool): int64 {
    if positive then Wrap64(m) else Wrap64(-(Wrap64(m) as int))
  }

  lemma SignedMagnitude(v: int64)
    ensures Signed(Magnitude(v), v >= 0) == v
  {
  }

  lemma SignedSmall(m: nat, positive: bool)
    requires m < TWO_63
    ensures Magnitude(Signed(m, positive)) == m
  {
  }

  /** Decodes the front of `s`. An empty input consumes nothing; a code that is cut short, its first byte. */
  function Decode(s: seq<byte>): (d: Decoding)
    ensures d.used <= |s|
    ensures d.value.Some? ==> d.used >= 1
  {
    if |s| == 0 then Decoding(None, 0)
    else if |s| < 1 + Extra(s[0]) then Decoding(None, 1)
    else Decoding(Some(CodeValue(s[..1 + Extra(s[0])])), 1 + Extra(s[0]))
  }

  // ---- Tables and big-endian bytes ----

  lemma LimitIs(n: nat)
    requires 1 <= n <= 9
    ensures ClassLimit(n) == (BYTE_LIMITS[n - 1] as int + 1) * Power256(n - 1)
  {
    assert Power256(1) == 0x100 && Power256(2) == 0x1_0000 && Power256(3) == 0x100_0000;
    Power256Add(4, 1); Power256Add(4, 2); Power256Add(4, 3); Power256Add(4, 4);
    assert Power256(4) == 0x1_0000_0000;
  }

  /** `m` belongs to the first `n` classes exactly when what is left after n - 1 bytes fits the table's limit. */
  lemma InClass(m: nat, n: nat)
    requires 1 <= n <= 9
    ensures 0 <= m / Power256(n - 1)
    ensures m < ClassLimit(n) <==> m / Power256(n - 1) <= BYTE_LIMITS[n - 1] as int
  {
    hide ClassLimit, Power256;
    LimitIs(n);
    var p, limit := Power256(n - 1), BYTE_LIMITS[n - 1] as int;
    DivMod(m, p);
    DivNonNegative(m, p);
    if m / p <= limit {
      if m / p < limit { MulStep(m / p, limit, p); }
      Distribute(p, limit, 1);
    } else if m / p > limit + 1 {
      MulStep(limit + 1, m / p, p);
    }
  }

  lemma LeadFits(m: nat, n: nat)
    requires 1 <= n <= 9 && m < ClassLimit(n)
    ensures 0 <= m / Power256(n - 1) <= BYTE_LIMITS[n - 1] as int
    ensures FLAG_BYTES[n - 1] as int + m / Power256(n - 1) < 0x80
  {
    hide Power256;
    InClass(m, n);
  }

  /** The limits are masks. */
  lemma LimitMask(x: nat, pos: nat)
    requires pos <= 8
    ensures BitAnd(x, BYTE_LIMITS[pos]) == x % (BYTE_LIMITS[pos] as int + 1)
  {
    hide BitAnd;
    BitAndMask(x, [6, 5, 4, 3, 2, 0, 0, 0, 0][pos]);
    assert Pow2(2) == 4 && Pow2(3) == 8 && Pow2(4) == 16 && Pow2(5) == 32 && Pow2(6) == 64;
  }

  // ---- The code is exact, prefix-free and shortest ----

  /** The first byte of a code gives back the length, the top of the magnitude and the sign. */
  lemma LeadByte(v: int64)
    ensures Extra(Lead(v)) == Length(v) - 1
    ensures Lead(v) >= 0x80 <==> v >= 0
    ensures BitAnd(Lead(v) as int % 128, BYTE_LIMITS[Length(v) - 1]) == Magnitude(v) / Power256(Length(v) - 1)
  {
    hide BitAnd, Power256, Length, ExtraFrom, BYTE_LIMITS;
    var m, n := Magnitude(v), Length(v);
    var lead := m / Power256(n - 1);
    LeadFits(m, n);
    FlagAndLead(n, lead);
    assert Lead(v) as int % 128 == FLAG_BYTES[n - 1] as int + lead;
  }

  lemma FlagAndLead(n: nat, lead: nat)
    requires 1 <= n <= 9 && lead <= BYTE_LIMITS[n - 1] as int
    ensures
      var x := FLAG_BYTES[n - 1] as int + lead;
      x < 0x80 && ExtraFrom(x, 0) == n - 1 && BitAnd(x, BYTE_LIMITS[n - 1]) == lead
  {
    hide BitAnd, ExtraFrom;
    LimitMask(FLAG_BYTES[n - 1] as int + lead, n - 1);
  }

  lemma CodeOf(v: int64)
    ensures |Encoded(v)| == 1 + Extra(Encoded(v)[0]) && CodeMagnitude(Encoded(v)) == Magnitude(v)
  {
    hide BitAnd, Power256, BigEndian, FromBigEndian, Extra, Length, Lead, BYTE_LIMITS;
    var s, m, n := Encoded(v), Magnitude(v), Length(v);
    LeadByte(v);
    FromToBigEndian(m, n - 1);
    assert s[1..] == BigEndian(m, n - 1);
    DivMod(m, Power256(n - 1));
  }

  /** Whatever follows, decoding gives back the number and consumes exactly its code. */
  lemma DecodeEncoded(v: int64, rest: seq<byte>)
    ensures Decode(Encoded(v) + rest) == Decoding(Some(v), |Encoded(v)|)
  {
    hide Extra, Length, Lead, BigEndian, CodeMagnitude, Signed, Magnitude;
    var s := Encoded(v);
    CodeOf(v);
    LeadByte(v);
    SignedMagnitude(v);
    assert (s + rest)[..|s|] == s && (s + rest)[0] == s[0];
  }

  /** No shorter code decodes to the same number. */
  lemma EncodedIsShortest(v: int64, s: seq<byte>)
    requires Decode(s).value == Some(v)
    ensures |Encoded(v)| <= Decode(s).used
  {
    hide Extra, Encoded, CodeMagnitude, Length, Signed, Magnitude;
    var code := s[..Decode(s).used];
    if |code| < 9 {
      CodeInClass(code);
      SignedSmall(CodeMagnitude(code), code[0] >= 0x80);
    }
  }

  lemma CodeInClass(s: seq<byte>)
    requires |s| >= 1 && |s| == 1 + Extra(s[0])
    ensures CodeMagnitude(s) < ClassLimit(|s|)
  {
    hide BitAnd, Power256, FromBigEndian, Extra, ClassLimit;
    var pos := Extra(s[0]);
    var p, limit, x := Power256(pos), BYTE_LIMITS[pos] as int, BitAnd(s[0] as int % 128, BYTE_LIMITS[pos]);
    LimitMask(s[0] as int % 128, pos);
    FromBigEndianBound(s[1..]);
    LimitIs(pos + 1);
    MulStep(x, limit + 1, p);
  }

  // ---- The loops ----

  method Encode(v: int64, output: OutputStream)
    modifies output
    ensures output.data == old(output.data) + Encoded(v)
  {
    var buf, pos := FillBuffer(v);
    output.WriteBytes(buf[pos..]);
  }

  /** Fills a nine-byte buffer from its end. */
  method FillBuffer(v: int64) returns (buf: array<byte>, pos: int)
    ensures buf.Length == 9 && 0 <= pos < 9 && buf[pos..] == Encoded(v)
  {
    hide Shifted, BitOr, BitAnd, BigEndian, ClassLimit, Lead, Length, Magnitude, Wrap64, Encoded;
    buf := new byte[9](_ => 0);
    pos := -1;
    NegatedIsMagnitude(v);
    var remaining: nat := if v >= 0 then v else Wrap64(-(v as int)) as int % TWO_64;
    var signFlag: byte := if v >= 0 then 0x80 else 0;
    ghost var m := Magnitude(v);
    EncodeStart(m);
    var i := 0;
    while i < 9
      invariant 0 <= i <= 8 && pos == -1
      invariant remaining == Shifted(m, i)
      invariant buf[9 - i..] == BigEndian(m, i)
      invariant forall k :: 1 <= k <= i ==> m >= ClassLimit(k)
    {
      LoopTest(v, i, remaining);
      if remaining == 0 || remaining <= BYTE_LIMITS[i] as int {
        pos := 8 - i;
        StoreBefore(buf, pos, BitOr(BitOr(signFlag, remaining % 256), FLAG_BYTES[i]));
        EncodedOf(v);
        break;
      }
      LoopStep(m, i, remaining);
      var lastByte: byte := BitAnd(remaining, 0xFF);
      remaining := remaining / 256;
      StoreBefore(buf, 8 - i, lastByte);
      i := i + 1;
    }
  }

  method StoreBefore(buf: array<byte>, k: nat, b: int)
    requires k < buf.Length && 0 <= b < 256
    modifies buf
    ensures buf[k..] == [b] + old(buf[k + 1..])
  {
    buf[k] := b;
    assert buf[k + 1..] == old(buf[k + 1..]);
  }

  lemma EncodedOf(v: int64)
    ensures Encoded(v) == [Lead(v)] + BigEndian(Magnitude(v), Length(v) - 1)
  {
  }

  /** What is left of a magnitude after `i` bytes. */
  ghost function Shifted(m: nat, i: nat): nat {
    DivNonNegative(m, Power256(i));
    m / Power256(i)
  }

  /** The conversion of the negated number to an unsigned one is its magnitude, also at the minimum. */
  lemma NegatedIsMagnitude(v: int64)
    ensures Magnitude(v) == if v >= 0 then v as int else Wrap64(-(v as int)) as int % TWO_64
  {
  }

  lemma EncodeStart(m: nat)
    ensures Shifted(m, 0) == m && BigEndian(m, 0) == []
  {
  }

  /** The test against the table stops at the length of the code, with its first byte. */
  lemma LoopTest(v: int64, i: nat, remaining: nat)
    requires i <= 8 && remaining == Shifted(Magnitude(v), i)
    requires forall k :: 1 <= k <= i ==> Magnitude(v) >= ClassLimit(k)
    ensures remaining <= BYTE_LIMITS[i] as int ==>
      && Length(v) == i + 1
      && BitOr(BitOr(if v >= 0 then 0x80 else 0, remaining % 256), FLAG_BYTES[i]) == Lead(v)
    ensures remaining > BYTE_LIMITS[i] as int ==> i < 8 && Magnitude(v) >= ClassLimit(i + 1)
  {
    hide Power256, ClassLimit, BitOr, Lead, Length, Magnitude;
    InClass(Magnitude(v), i + 1);
    if remaining <= BYTE_LIMITS[i] as int {
      LengthIs(v, i + 1);
      LeadOr(v, i);
    } else {
      NotLast(v, i);
    }
  }

  lemma LoopStep(m: nat, i: nat, remaining: nat)
    requires remaining == Shifted(m, i)
    ensures BitAnd(remaining, 0xFF) == remaining % 256
    ensures remaining / 256 == Shifted(m, i + 1)
    ensures BigEndian(m, i + 1) == [remaining % 256] + BigEndian(m, i)
  {
    hide Power256, BitAnd, BigEndian;
    EncodeStep(m, i);
    ByteMask(remaining);
  }

  lemma EncodeStep(m: nat, i: nat)
    ensures 0 <= m / Power256(i)
    ensures m / Power256(i + 1) == m / Power256(i) / 256
    ensures BigEndian(m, i + 1) == [m / Power256(i) % 256] + BigEndian(m, i)
  {
    hide Power256;
    BigEndianCons(m, i);
    Power256Step(i);
    DivDiv(m, Power256(i), 256);
    MulCommutes(Power256(i), 256);
  }

  lemma ByteMask(x: nat)
    ensures BitAnd(x, 0xFF) == x % 256
  {
    hide BitAnd;
    BitAndMask(x, 8);
    assert Pow2(8) == 256;
  }

  /** After eight bytes nothing is left of a 64-bit number. */
  lemma NotLast(v: int64, i: nat)
    requires i <= 8 && Magnitude(v) / Power256(i) > 0
    ensures i < 8
  {
    hide Power256;
    NoneLeft(v);
  }

  lemma NoneLeft(v: int64)
    ensures Magnitude(v) / Power256(8) == 0
  {
    Power256Add(4, 4);
    assert Power256(4) == 0x1_0000_0000;
    assert Magnitude(v) / TWO_64 == 0;
  }

  lemma LengthIs(v: int64, n: nat)
    requires 1 <= n <= 9 && Magnitude(v) < ClassLimit(n)
    requires forall k :: 1 <= k < n ==> Magnitude(v) >= ClassLimit(k)
    ensures Length(v) == n
  {
    hide ClassLimit, ClassFrom, Length;
    var l := Length(v);
    var limit, other := ClassLimit(l), ClassLimit(n);
    assert l < n ==> Magnitude(v) >= limit;
    assert l > n ==> Magnitude(v) >= other;
  }

  lemma LeadOr(v: int64, i: nat)
    requires i == Length(v) - 1
    ensures 0 <= Magnitude(v) / Power256(i) <= BYTE_LIMITS[i] as int
    ensures BitOr(BitOr(if v >= 0 then 0x80 else 0, Magnitude(v) / Power256(i) % 256), FLAG_BYTES[i]) == Lead(v)
  {
    hide BitOr, Power256, Length, Magnitude, ClassLimit, Lead;
    LeadIs(v);
    LeadFits(Magnitude(v), i + 1);
    var r := Magnitude(v) / Power256(i);
    if v >= 0 {
      SignOr(r, i);
    } else {
      FlagOr(r, i);
    }
  }

  lemma LeadIs(v: int64)
    ensures
      var n := Length(v) - 1;
      Lead(v) as int == (if v >= 0 then 0x80 else 0) + FLAG_BYTES[n] as int + Magnitude(v) / Power256(n)
  {
  }

  lemma FlagOr(r: nat, i: nat)
    requires i <= 8 && r <= BYTE_LIMITS[i] as int
    ensures BitOr(BitOr(0, r), FLAG_BYTES[i]) == FLAG_BYTES[i] as int + r
  {
    hide BitOr;
    BitOrZero(r);
    var k := [6, 5, 4, 3, 2, 0, 0, 0, 0][i];
    assert Pow2(2) == 4 && Pow2(3) == 8 && Pow2(4) == 16 && Pow2(5) == 32 && Pow2(6) == 64;
    BitOrDisjoint(FLAG_BYTES[i], r, k);
  }

  lemma SignOr(r: nat, i: nat)
    requires i <= 8 && r <= BYTE_LIMITS[i] as int
    ensures BitOr(BitOr(0x80, r), FLAG_BYTES[i]) == 0x80 + FLAG_BYTES[i] as int + r
  {
    hide BitOr, Pow2;
    var k: nat := [6, 5, 4, 3, 2, 0, 0, 0, 0][i];
    var x, y := [2, 4, 8, 16, 32, 128, 128, 128, 128][i], [0, 2, 6, 14, 30, 124, 125, 126, 127][i];
    SignPowers();
    BitOrDisjoint(0x80, r, 7);
    BitOrAbove(x, y, r, k);
    SignAndFlag(i, k, x, y);
  }

  lemma SignPowers()
    ensures Pow2(0) == 1 && Pow2(1) == 2 && Pow2(2) == 4 && Pow2(3) == 8 && Pow2(4) == 16 && Pow2(5) == 32
    ensures Pow2(6) == 64 && Pow2(7) == 128
  {
  }

  lemma SignAndFlag(i: nat, k: nat, x: nat, y: nat)
    requires i <= 8 && k == [6, 5, 4, 3, 2, 0, 0, 0, 0][i]
    requires x == [2, 4, 8, 16, 32, 128, 128, 128, 128][i] && y == [0, 2, 6, 14, 30, 124, 125, 126, 127][i]
    ensures x * Pow2(k) == 0x80 && y * Pow2(k) == FLAG_BYTES[i] as int && BitOr(x, y) == x + y
  {
    hide BitOr, Pow2;
    SignPowers();
    var n := 7 - k;
    BitOrDisjoint(x, y, n);
  }

  /** Reads one code. Returns whether it was complete. */
  method DecodeFrom(input: InputStream) returns (ok: bool, value: int64)
    requires input.Valid()
    modifies input
    ensures input.Valid()
    ensures
      var d := Decode(old(input.Rest()));
      && ok == d.value.Some?
      && (ok ==> value == d.value.value)
      && input.Rest() == old(input.Rest())[d.used..]
  {
    hide BitAnd, Extra, Wrap64, FoldedTo, Decode;
    value := 0;
    ghost var s := input.Rest();
    CutCode(s);
    var available := input.IsAvailable(1);
    if !available {
      return false, 0;
    }
    var firstByte := input.ReadByte();
    FlagMask(firstByte);
    var flagByte: nat := BitAnd(firstByte, 0x7F);
    var pos := CountExtra(flagByte);
    ExtraIs(firstByte);
    var buf: seq<byte> := [];
    if pos > 0 {
      ok, buf := input.ReadN(pos);
      if !ok {
        return;
      }
    }
    LimitMask(flagByte, pos);
    var result := Accumulate(BitAnd(flagByte, BYTE_LIMITS[pos]), buf);
    WholeCode(s, firstByte, buf, result);
    SignBit(firstByte);
    value := if BitAnd(firstByte, 0x80) != 0 then Wrap64(result) else Wrap64(-(Wrap64(result) as int));
    ok := true;
  }

  lemma CutCode(s: seq<byte>)
    ensures |s| == 0 ==> Decode(s) == Decoding(None, 0)
    ensures |s| > 0 && |s| < 1 + Extra(s[0]) ==> Decode(s) == Decoding(None, 1)
  {
  }

  lemma WholeCode(s: seq<byte>, first: byte, buf: seq<byte>, result: nat)
    requires 1 + |buf| <= |s| && s[0] == first && s[1..1 + |buf|] == buf && |buf| == Extra(first)
    requires FoldedTo(result, BitAnd(first as int % 128, BYTE_LIMITS[|buf|]), buf, |buf|)
    ensures Decode(s) == Decoding(Some(if first >= 0x80 then Wrap64(result) else Wrap64(-(Wrap64(result) as int))), 1 + |buf|)
  {
    hide Power256, BitAnd, FromBigEndian, Extra, Wrap64, FoldedTo;
    var top := BitAnd(first as int % 128, BYTE_LIMITS[|buf|]);
    var code := s[..1 + |buf|];
    assert code[1..] == buf;
    MulNonNegative(top, Power256(|buf|));
    FoldedSigned(result, top, buf, |buf|, first >= 0x80);
  }

  lemma ExtraIs(first: byte)
    ensures Extra(first) == ExtraFrom(first as int % 128, 0)
  {
  }

  method CountExtra(flagByte: nat) returns (pos: nat)
    requires flagByte < 128
    ensures pos == ExtraFrom(flagByte, 0) <= 8
  {
    hide ExtraFrom;
    pos := 0;
    while pos < 8
      invariant 0 <= pos <= 8
      invariant ExtraFrom(flagByte, pos) == ExtraFrom(flagByte, 0)
    {
      ExtraStep(flagByte, pos);
      if flagByte < FLAG_BYTES[pos + 1] as int {
        break;
      }
      pos := pos + 1;
    }
    ExtraStep(flagByte, pos);
  }

  method Accumulate(top: nat, buf: seq<byte>) returns (result: nat)
    requires top < 0x80
    ensures result < TWO_64 && FoldedTo(result, top, buf, |buf|)
  {
    hide FoldedTo, BitOr;
    result := top;
    FoldStart(top, buf);
    for i := 0 to |buf|
      invariant result < TWO_64 && FoldedTo(result, top, buf[..i], i)
    {
      FoldStep(result, top, buf, i);
      result := BitOr(result * 256 % TWO_64, buf[i]);
    }
    assert buf[..|buf|] == buf;
  }

  /** The 64-bit accumulator after `i` bytes. */
  ghost predicate FoldedTo(result: nat, top: nat, s: seq<byte>, i: nat) {
    result == (top * Power256(i) + FromBigEndian(s)) % TWO_64
  }

  lemma FoldStart(top: nat, buf: seq<byte>)
    requires top < 0x80
    ensures FoldedTo(top, top, buf[..0], 0)
  {
  }

  lemma FoldStep(result: nat, top: nat, buf: seq<byte>, i: nat)
    requires i < |buf| && FoldedTo(result, top, buf[..i], i)
    ensures BitOr(result * 256 % TWO_64, buf[i]) < TWO_64
    ensures FoldedTo(BitOr(result * 256 % TWO_64, buf[i]), top, buf[..i + 1], i + 1)
  {
    hide Power256, BitOr;
    var p, f, b := Power256(i), FromBigEndian(buf[..i]), buf[i] as int;
    assert buf[..i + 1][..i] == buf[..i];
    assert Pow2(8) == 256;
    BitOrDisjoint(result * 256 % TWO_64, buf[i], 8);
    Power256Step(i);
    assert top * (256 * p) == 256 * (top * p) by { MulAssoc(top, 256, p); MulAssoc(256, top, p); MulCommutes(top, 256); }
    ShiftIn(top * p + f, b);
  }

  lemma ShiftIn(x: int, b: int)
    requires 0 <= b < 256
    ensures (256 * x + b) % TWO_64 == x % TWO_64 * 256 % TWO_64 + b
  {
  }

  lemma FoldedSigned(result: nat, top: nat, buf: seq<byte>, pos: nat, positive: bool)
    requires FoldedTo(result, top, buf, pos)
    requires top * Power256(pos) + FromBigEndian(buf) >= 0
    ensures (if positive then Wrap64(result) else Wrap64(-(Wrap64(result) as int)))
            == Signed(top * Power256(pos) + FromBigEndian(buf), positive)
  {
    hide Power256, FromBigEndian;
    SameWrap(result, top * Power256(pos) + FromBigEndian(buf));
  }

  lemma SameWrap(result: nat, x: nat)
    requires result == x % TWO_64
    ensures Wrap64(result) == Wrap64(x)
  {
  }

  lemma FlagMask(first: byte)
    ensures BitAnd(first, 0x7F) == first as int % 128
  {
    hide BitAnd;
    BitAndMask(first, 7);
    assert Pow2(7) == 128;
  }

  lemma SignBit(first: byte)
    ensures BitAnd(first, 0x80) != 0 <==> first >= 0x80
  {
    hide BitAnd, TestBit;
    assert Pow2(7) == 128 && Pow2(8) == 256;
    BitAndBit(first, 7);
    TopBit(first, 7);
  }

  lemma ExtraStep(flagByte: nat, pos: nat)
    requires pos <= 8 && flagByte < 128
    ensures ExtraFrom(flagByte, pos)
            == if pos == 8 || flagByte < FLAG_BYTES[pos + 1] as int then pos else ExtraFrom(flagByte, pos + 1)
  {
  }
}
