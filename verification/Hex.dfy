/** Hexadecimal text: encoding and decoding of bytes, and the text form of the big numbers. */
module Hex {
  import opened Arithmetic
  import opened Bits
  import opened BigNumbers
  import opened ByteValue

  const LOWER := "0123456789abcdef"
  const UPPER := "0123456789ABCDEF"

  function Letters(upper: bool): (s: string)
    ensures |s| == 16
  {
    if upper then UPPER else LOWER
  }

  predicate IsDigit(c: char) { '0' <= c <= '9' }

  predicate IsUpper(c: char) { 'A' <= c <= 'Z' }

  predicate IsHexDigit(c: char) { IsDigit(c) || 'A' <= c <= 'F' || 'a' <= c <= 'f' }

  predicate IsHex(s: string) { forall i :: 0 <= i < |s| ==> IsHexDigit(s[i]) }

  /** The value of a hexadecimal digit of either case. */
  function DigitValue(c: char): (v: int)
    requires IsHexDigit(c)
    ensures 0 <= v < 16
  {
    if IsDigit(c) then c as int - '0' as int
    else if IsUpper(c) then c as int - 'A' as int + 10
    else c as int - 'a' as int + 10
  }

  function ToCase(c: char, upper: bool): char
    requires IsHexDigit(c)
  {
    if upper && 'a' <= c <= 'f' then ['A', 'B', 'C', 'D', 'E', 'F'][c as int - 'a' as int]
    else if !upper && 'A' <= c <= 'F' then ['a', 'b', 'c', 'd', 'e', 'f'][c as int - 'A' as int]
    else c
  }

  /** Two digits for each byte, the high half first. */
  function HexString(data: seq<byte>, upper: bool): (s: string)
    ensures |s| == 2 * |data| && IsHex(s)
  {
    if |data| == 0 then ""
    else
      [Letters(upper)[data[0] / 16], Letters(upper)[data[0] % 16]] + HexString(data[1..], upper)
  }

  function PairValue(high: char, low: char): byte
    requires IsHexDigit(high) && IsHexDigit(low)
  {
    16 * DigitValue(high) + DigitValue(low)
  }

  /** The bytes of the pairs of digits up to the first pair that is not hexadecimal. */
  function LeadingBytes(s: string): (data: seq<byte>)
    ensures 2 * |data| <= |s|
    ensures |s| % 2 == 0 ==> (IsHex(s) <==> 2 * |data| == |s|)
  {
    if |s| < 2 || !IsHexDigit(s[0]) || !IsHexDigit(s[1]) then []
    else
      assert s == [s[0], s[1]] + s[2..];
      [PairValue(s[0], s[1])] + LeadingBytes(s[2..])
  }

  // ---- Round trips ----

  lemma LetterValue(upper: bool, d: int)
    requires 0 <= d < 16
    ensures IsHexDigit(Letters(upper)[d]) && DigitValue(Letters(upper)[d]) == d
  {
  }

  lemma DigitLetter(upper: bool, c: char)
    requires IsHexDigit(c)
    ensures Letters(upper)[DigitValue(c)] == ToCase(c, upper)
  {
  }

  lemma {:induction false} DecodeEncode(data: seq<byte>, upper: bool)
    ensures LeadingBytes(HexString(data, upper)) == data
  {
    hide Letters, DigitValue, IsHexDigit;
    if |data| > 0 {
      var s := HexString(data, upper);
      LetterValue(upper, data[0] / 16);
      LetterValue(upper, data[0] % 16);
      assert s[2..] == HexString(data[1..], upper);
      DecodeEncode(data[1..], upper);
      assert data == [data[0]] + data[1..];
    }
  }

  lemma {:induction false} EncodeDecode(s: string, upper: bool)
    requires |s| % 2 == 0 && IsHex(s)
    ensures HexString(LeadingBytes(s), upper) == seq(|s|, i requires 0 <= i < |s| => ToCase(s[i], upper))
  {
    hide Letters, ToCase, DigitValue, PairValue, IsHexDigit;
    if |s| > 0 {
      var data := LeadingBytes(s);
      DigitLetter(upper, s[0]);
      DigitLetter(upper, s[1]);
      PairParts(s[0], s[1]);
      assert data[1..] == LeadingBytes(s[2..]);
      EncodeDecode(s[2..], upper);
    }
  }

  lemma PairParts(high: char, low: char)
    requires IsHexDigit(high) && IsHexDigit(low)
    ensures PairValue(high, low) / 16 == DigitValue(high) && PairValue(high, low) % 16 == DigitValue(low)
  {
  }

  // ---- The digits themselves ----

  /** Every digit in its chosen case, the high half of each byte first. */
  lemma AllDigits()
    ensures HexString([0x01, 0x23, 0x45, 0x67, 0x89, 0xAB, 0xCD, 0xEF], true) == "0123456789ABCDEF"
    ensures HexString([0x01, 0x23, 0x45, 0x67, 0x89, 0xAB, 0xCD, 0xEF], false) == "0123456789abcdef"
  {
    var data: seq<byte> := [0x01, 0x23, 0x45, 0x67, 0x89, 0xAB, 0xCD, 0xEF];
    hide HexString, Letters, IsPair;
    LowerPairs(data);
    UpperPairs(data);
    PairsMakeText(data, true, "0123456789ABCDEF");
    PairsMakeText(data, false, "0123456789abcdef");
  }

  lemma LowerPairs(data: seq<byte>)
    requires data == [0x01, 0x23, 0x45, 0x67, 0x89, 0xAB, 0xCD, 0xEF]
    ensures forall i :: 0 <= i < |data| ==> IsPair(data[i], false, "0123456789abcdef"[2 * i], "0123456789abcdef"[2 * i + 1])
  {
    hide HexString;
  }

  lemma UpperPairs(data: seq<byte>)
    requires data == [0x01, 0x23, 0x45, 0x67, 0x89, 0xAB, 0xCD, 0xEF]
    ensures forall i :: 0 <= i < |data| ==> IsPair(data[i], true, "0123456789ABCDEF"[2 * i], "0123456789ABCDEF"[2 * i + 1])
  {
    hide HexString;
  }

  lemma PairsMakeText(data: seq<byte>, upper: bool, text: string)
    requires |text| == 2 * |data|
    requires forall i :: 0 <= i < |data| ==> IsPair(data[i], upper, text[2 * i], text[2 * i + 1])
    ensures HexString(data, upper) == text
  {
    hide HexString, Letters;
    var hex := HexString(data, upper);
    assert |hex| == 2 * |data| by { TextLength(data, upper); }
    forall k | 0 <= k < |hex| ensures hex[k] == text[k] {
      var i := k / 2;
      assert IsPair(data[i], upper, text[2 * i], text[2 * i + 1]);
      DigitsAt(data, upper, i);
      assert k == 2 * i || k == 2 * i + 1;
    }
  }

  lemma TextLength(data: seq<byte>, upper: bool)
    ensures |HexString(data, upper)| == 2 * |data|
  {
  }

  predicate IsPair(b: byte, upper: bool, high: char, low: char) {
    high == Letters(upper)[b / 16] && low == Letters(upper)[b % 16]
  }

  lemma {:induction false} DigitsAt(data: seq<byte>, upper: bool, i: nat)
    requires i < |data|
    ensures HexString(data, upper)[2 * i] == Letters(upper)[data[i] / 16]
    ensures HexString(data, upper)[2 * i + 1] == Letters(upper)[data[i] % 16]
  {
    hide Letters;
    if i > 0 { DigitsAt(data[1..], upper, i - 1); }
  }

  /** No text has letters of the other case. */
  lemma {:induction false} CaseOfDigits(data: seq<byte>, upper: bool)
    ensures forall c :: c in HexString(data, upper) ==> IsDigit(c) || (if upper then 'A' <= c <= 'F' else 'a' <= c <= 'f')
  {
    if |data| > 0 {
      hide Letters;
      CaseOfLetter(upper, data[0] / 16);
      CaseOfLetter(upper, data[0] % 16);
      CaseOfDigits(data[1..], upper);
    }
  }

  lemma CaseOfLetter(upper: bool, d: int)
    requires 0 <= d < 16
    ensures var c := Letters(upper)[d]; IsDigit(c) || (if upper then 'A' <= c <= 'F' else 'a' <= c <= 'f')
  {
  }

  // ---- The loops ----

  lemma HexStep(data: seq<byte>, i: nat, upper: bool)
    requires i < |data|
    ensures
      var low := BitAnd(data[i], 0x0F);
      && low < 16
      && HexString(data[i..], upper)
         == [Letters(upper)[data[i] / 16]] + [Letters(upper)[low]] + HexString(data[i + 1..], upper)
  {
    hide BitAnd, Letters;
    BitAndMask(data[i], 4);
    assert Pow2(4) == 16;
    assert data[i..][1..] == data[i + 1..];
  }

  lemma NoDigits(upper: bool)
    ensures HexString([], upper) == ""
  {
  }

  lemma Grouped(s: string, high: string, low: string, rest: string)
    ensures s + (high + low + rest) == s + high + low + rest
  {
  }

  /** Appends the digits of the bytes one by one. */
  method Encode(data: seq<byte>, upper: bool) returns (s: string)
    ensures s == HexString(data, upper)
  {
    hide BitAnd, HexString, Letters;
    s := "";
    assert data[0..] == data;
    for i := 0 to |data|
      invariant s + HexString(data[i..], upper) == HexString(data, upper)
    {
      HexStep(data, i, upper);
      ghost var was, rest := s, HexString(data[i + 1..], upper);
      var high, low := data[i] / 16, BitAnd(data[i], 0x0F);
      s := s + [Letters(upper)[high]];
      s := s + [Letters(upper)[low]];
      Grouped(was, [Letters(upper)[high]], [Letters(upper)[low]], rest);
    }
    NoDigits(upper);
    assert data[|data|..] == [] && s + "" == s;
  }

  lemma LeadingHex(s: string)
    ensures |s| % 2 == 0 ==> (IsHex(s) <==> 2 * |LeadingBytes(s)| == |s|)
  {
  }

  /** The byte of the next pair of digits, if it is one. */
  lemma LeadingStep(s: string, data: seq<byte>, i: nat, at: nat)
    requires |s| % 2 == 0 && i == 2 * at <= |s| && at <= |data| && data[at..] == LeadingBytes(s[i..])
    ensures i == |s| ==> |data| == at
    ensures i < |s| && !(IsHexDigit(s[i]) && IsHexDigit(s[i + 1])) ==> |data| == at
    ensures i < |s| && IsHexDigit(s[i]) && IsHexDigit(s[i + 1]) ==>
      && at < |data| && data[at] == PairValue(s[i], s[i + 1])
      && data[at + 1..] == LeadingBytes(s[i + 2..])
  {
    hide IsHexDigit, PairValue, IsHex;
    if i < |s| {
      assert s[i..][0] == s[i] && s[i..][1] == s[i + 1] && s[i..][2..] == s[i + 2..];
      if IsHexDigit(s[i]) && IsHexDigit(s[i + 1]) {
        assert data[at] == data[at..][0] && data[at + 1..] == data[at..][1..];
      }
    }
  }

  method DecodePair(buf: array<byte>, at: nat, high: char, low: char)
    requires at < buf.Length && IsHexDigit(high) && IsHexDigit(low)
    modifies buf
    ensures buf[..] == old(buf[..])[at := PairValue(high, low)]
  {
    hide BitOr, IsHexDigit, PairValue;
    NibblesJoin(high, low);
    buf[at] := BitOr(DigitValue(high) * 16, DigitValue(low)) % 256;
  }

  /** Decodes into the front of `buf`. A digit that is not hexadecimal stops it: the pairs before it
      have been stored by then. */
  method Decode(buf: array<byte>, s: string) returns (ok: bool)
    modifies buf
    ensures ok <==> 0 < |s| && |s| % 2 == 0 && |s| / 2 <= buf.Length && IsHex(s)
    ensures 0 < |s| && |s| % 2 == 0 && |s| / 2 <= buf.Length ==>
      buf[..] == LeadingBytes(s) + old(buf[..])[|LeadingBytes(s)|..]
    ensures |s| == 0 || |s| % 2 != 0 || |s| / 2 > buf.Length ==> buf[..] == old(buf[..])
  {
    hide LeadingBytes, IsHex;
    if |s| == 0 || |s| % 2 != 0 {
      return false;
    }
    if buf.Length < |s| / 2 {
      return false;
    }
    ok := DecodePairs(buf, s);
  }

  method DecodePairs(buf: array<byte>, s: string) returns (ok: bool)
    requires |s| % 2 == 0 && |s| / 2 <= buf.Length
    modifies buf
    ensures ok <==> IsHex(s)
    ensures buf[..] == LeadingBytes(s) + old(buf[..])[|LeadingBytes(s)|..]
  {
    hide LeadingBytes, IsHex, IsHexDigit, PairValue;
    var i, at := 0, 0;
    ghost var x: seq<byte>, data := buf[..], LeadingBytes(s);
    assert s[0..] == s && data[0..] == data && data[..0] + x[0..] == x;
    LeadingHex(s);
    while i < |s|
      invariant i == 2 * at && i <= |s|
      invariant at <= |data| && data[at..] == LeadingBytes(s[i..])
      invariant buf[..] == data[..at] + x[at..]
    {
      LeadingStep(s, data, i, at);
      if !IsHexDigit(s[i]) || !IsHexDigit(s[i + 1]) {
        assert data[..at] == data;
        return false;
      }
      StoreNext(data, x, at);
      DecodePair(buf, at, s[i], s[i + 1]);
      i, at := i + 2, at + 1;
    }
    LeadingStep(s, data, i, at);
    assert data[..at] == data;
    ok := true;
  }

  lemma StoreNext(data: seq<byte>, x: seq<byte>, at: nat)
    requires at < |data| && at < |x|
    ensures (data[..at] + x[at..])[at := data[at]] == data[..at + 1] + x[at + 1..]
  {
  }

  lemma NibblesJoin(high: char, low: char)
    requires IsHexDigit(high) && IsHexDigit(low)
    ensures BitOr(DigitValue(high) * 16, DigitValue(low)) % 256 == PairValue(high, low)
  {
    hide DigitValue, IsHexDigit, BitOr, Pow2;
    PowerFour();
    MultipleMod(DigitValue(high), 16);
    BitOrDisjoint(DigitValue(high) * 16, DigitValue(low), 4);
  }

  lemma PowerFour()
    ensures Pow2(4) == 16
  {
  }

  // ---- Big numbers as text ----

  function Reversed(s: seq<byte>): (r: seq<byte>)
    ensures |r| == |s| && forall i :: 0 <= i < |s| ==> r[i] == s[|s| - 1 - i]
  {
    seq(|s|, i requires 0 <= i < |s| => s[|s| - 1 - i])
  }

  /** The number that a hexadecimal numeral stands for. */
  function Numeral(s: string): nat
    requires IsHex(s)
  {
    if |s| == 0 then 0 else 16 * Numeral(s[..|s| - 1]) + DigitValue(s[|s| - 1])
  }

  method Format(x: BigNumber, upper: bool) returns (s: string)
    ensures s == HexString(Reversed(x.bytes[..]), upper)
    ensures Numeral(s) == x.Value()
  {
    s := Encode(Reversed(x.bytes[..]), upper);
    FormatIsNumeral(x.bytes[..], upper);
  }

  method ReverseBytes(a: array<byte>)
    modifies a
    ensures a[..] == Reversed(old(a[..]))
  {
    var i, j := 0, a.Length;
    while i < j - 1
      invariant 0 <= i && i + j == a.Length && i <= j + 1
      invariant forall k :: 0 <= k < i ==> a[k] == old(a[a.Length - 1 - k]) && a[a.Length - 1 - k] == old(a[k])
      invariant forall k :: i <= k < j ==> a[k] == old(a[k])
    {
      j := j - 1;
      a[i], a[j] := a[j], a[i];
      i := i + 1;
    }
    assert a[..] == Reversed(old(a[..]));
  }

  /** Reads a numeral of exactly two digits a byte. After a digit that is not hexadecimal the number
      is left with the pairs before it stored, unreversed. */
  method TryParse(x: BigNumber, s: string) returns (ok: bool)
    modifies x.bytes
    ensures ok <==> 0 < |s| == 2 * x.bytes.Length && IsHex(s)
    ensures ok ==> x.bytes[..] == Reversed(LeadingBytes(s)) && x.Value() == Numeral(s)
    ensures |s| != 2 * x.bytes.Length ==> x.bytes[..] == old(x.bytes[..])
  {
    if |s| != 2 * x.bytes.Length {
      return false;
    }
    ok := Decode(x.bytes, s);
    if !ok {
      return;
    }
    assert x.bytes[..] == LeadingBytes(s);
    ReverseBytes(x.bytes);
    ParseIsNumeral(s);
  }

  lemma {:induction false} FormatIsNumeral(x: seq<byte>, upper: bool)
    ensures Numeral(HexString(Reversed(x), upper)) == Val(x)
  {
    if |x| == 0 {
      assert Reversed(x) == [];
    } else {
      var rest := Reversed(x[1..]);
      assert Reversed(x) == rest + [x[0]];
      HexSnoc(rest, x[0], upper);
      var s := HexString(rest, upper);
      LetterValue(upper, x[0] / 16);
      LetterValue(upper, x[0] % 16);
      NumeralPair(s, Letters(upper)[x[0] / 16], Letters(upper)[x[0] % 16]);
      FormatIsNumeral(x[1..], upper);
    }
  }

  lemma NumeralPair(s: string, high: char, low: char)
    requires IsHex(s) && IsHexDigit(high) && IsHexDigit(low)
    ensures IsHex(s + [high, low])
    ensures Numeral(s + [high, low]) == 256 * Numeral(s) + PairValue(high, low)
  {
    var t := s + [high, low];
    assert t[..|t| - 1] == s + [high];
    assert (s + [high])[..|s|] == s;
  }

  lemma {:induction false} HexSnoc(data: seq<byte>, b: byte, upper: bool)
    ensures HexString(data + [b], upper)
            == HexString(data, upper) + [Letters(upper)[b / 16], Letters(upper)[b % 16]]
  {
    if |data| == 0 {
      assert data + [b] == [b] && [b][1..] == [];
    } else {
      assert (data + [b])[1..] == data[1..] + [b];
      HexSnoc(data[1..], b, upper);
    }
  }

  lemma ParseIsNumeral(s: string)
    requires |s| % 2 == 0 && IsHex(s)
    ensures Val(Reversed(LeadingBytes(s))) == Numeral(s)
  {
    hide Numeral, Val, HexString, LeadingBytes, ToCase, IsHexDigit;
    var data := LeadingBytes(s);
    var t := HexString(data, true);
    LeadingHex(s);
    assert Reversed(Reversed(data)) == data;
    FormatIsNumeral(Reversed(data), true);
    EncodeDecode(s, true);
    SameNumeral(s, t);
  }

  lemma {:induction false} SameNumeral(s: string, t: string)
    requires |s| == |t| && IsHex(s) && IsHex(t)
    requires forall i :: 0 <= i < |s| ==> t[i] == ToCase(s[i], true)
    ensures Numeral(s) == Numeral(t)
  {
    if |s| > 0 { SameNumeral(s[..|s| - 1], t[..|s| - 1]); }
  }

  lemma FormatParse(x: seq<byte>, upper: bool)
    ensures IsHex(HexString(Reversed(x), upper)) && |HexString(Reversed(x), upper)| == 2 * |x|
    ensures Reversed(LeadingBytes(HexString(Reversed(x), upper))) == x
  {
    DecodeEncode(Reversed(x), upper);
    assert Reversed(Reversed(x)) == x;
  }

  /** A numeral that parses formats back to itself up to case. */
  lemma ParseFormat(s: string, upper: bool)
    requires |s| % 2 == 0 && IsHex(s)
    ensures HexString(Reversed(Reversed(LeadingBytes(s))), upper)
            == seq(|s|, i requires 0 <= i < |s| => ToCase(s[i], upper))
  {
    EncodeDecode(s, upper);
    assert Reversed(Reversed(LeadingBytes(s))) == LeadingBytes(s);
  }

  /** Parsing what was formatted restores every number of at least one byte, in either case. */
  method FormatThenParse(x: BigNumber, upper: bool) returns (y: BigNumber, ok: bool)
    ensures fresh(y) && fresh(y.bytes) && y.bytes.Length == x.bytes.Length
    ensures ok <==> x.bytes.Length > 0
    ensures ok ==> y.bytes[..] == x.bytes[..] && y.Value() == x.Value()
  {
    hide HexString, LeadingBytes, IsHex;
    y := new BigNumber(x.bytes.Length);
    var s := Format(x, upper);
    FormatParse(x.bytes[..], upper);
    ok := TryParse(y, s);
  }
}
