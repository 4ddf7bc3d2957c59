/**
 Unsigned numbers of a fixed number of bytes, the least significant byte first, with in-place
 arithmetic modulo 256^N.
 */
module BigNumbers {
  import opened Arithmetic
  import opened Bits
  import opened ByteShift
  import opened ByteValue

  class BigNumber {
    const bytes: array<byte>

    /** The number of values that `bytes.Length` bytes can hold. */
    ghost function Modulus(): (m: int)
      ensures m > 0
    {
      Power256(bytes.Length)
    }

    ghost function Value(): (v: int)
      reads bytes
      ensures 0 <= v < Modulus()
    {
      ValBound(bytes[..]);
      Val(bytes[..])
    }

    /** A number of the same type: of the same length, with its bytes inside its own object. */
    ghost predicate Peer(b: BigNumber) {
      b.bytes.Length == bytes.Length && (b == this || b.bytes != bytes)
    }

    constructor (n: nat)
      ensures bytes.Length == n && fresh(bytes) && Value() == 0
    {
      bytes := new byte[n](_ => 0);
      new;
      ValZero(bytes[..]);
    }

    constructor Copy(b: BigNumber)
      ensures bytes.Length == b.bytes.Length && fresh(bytes) && bytes[..] == b.bytes[..]
      ensures Value() == b.Value() && Modulus() == b.Modulus()
    {
      bytes := new byte[b.bytes.Length](i requires 0 <= i < b.bytes.Length reads b.bytes => b.bytes[i]);
    }

    method Clear()
      modifies bytes
      ensures Value() == 0
    {
      for i := 0 to bytes.Length
        invariant forall k :: 0 <= k < i ==> bytes[k] == 0
      {
        bytes[i] := 0;
      }
      ValZero(bytes[..]);
    }

    // ---- Addition, subtraction, negation ----

    method AddAssign(b: BigNumber)
      requires Peer(b)
      modifies bytes
      ensures Value() == (old(Value()) + old(b.Value())) % Modulus()
    {
      hide Val, Power256;
      var carry: int := 0;
      ghost var x: seq<byte>, y: seq<byte> := bytes[..], b.bytes[..];
      AddStart(x, y);
      for i := 0 to bytes.Length
        invariant 0 <= carry <= 1
        invariant bytes[i..] == x[i..] && b.bytes[i..] == y[i..]
        invariant Val(bytes[..i]) + Power256(i) * carry == Val(x[..i]) + Val(y[..i])
      {
        assert bytes[i] == bytes[i..][0] && b.bytes[i] == b.bytes[i..][0];
        var n := (carry + bytes[i] as int + b.bytes[i] as int) % 0x1_0000;
        ghost var low: seq<byte> := bytes[..i];
        AddStep(low, x, y, i, carry, n);
        assert bytes[i..][1..] == bytes[i + 1..] && b.bytes[i..][1..] == b.bytes[i + 1..];
        bytes[i] := n % 0x100;
        carry := n / 0x100;
        assert bytes[..i + 1] == low + [n % 0x100];
      }
      assert bytes[..] == bytes[..bytes.Length] && x[..bytes.Length] == x && y[..bytes.Length] == y;
      ValBound(bytes[..]);
      DivModUnique(Val(x) + Val(y), Power256(bytes.Length), carry, Val(bytes[..]));
    }

    method Increment()
      modifies bytes
      ensures Value() == (old(Value()) + 1) % Modulus()
    {
      hide Val, Power256;
      ghost var x: seq<byte> := bytes[..];
      var i := 0;
      IncrementStart(x);
      while i < bytes.Length
        invariant 0 <= i <= bytes.Length
        invariant bytes[i..] == x[i..]
        invariant Val(bytes[..i]) + Power256(i) == Val(x[..i]) + 1
      {
        assert bytes[i] == bytes[i..][0];
        ghost var low: seq<byte> := bytes[..i];
        assert bytes[i..][1..] == bytes[i + 1..];
        bytes[i] := (bytes[i] as int + 1) % 0x100;
        IncrementStep(low, x, i);
        assert bytes[..i + 1] == low + [(x[i] as int + 1) % 0x100];
        if bytes[i] != 0 {
          ValSplit(bytes[..], i + 1);
          ValSplit(x, i + 1);
          assert bytes[..][..i + 1] == bytes[..i + 1] && bytes[..][i + 1..] == bytes[i + 1..];
          ValBound(bytes[..]);
          DivModUnique(Val(x) + 1, Power256(bytes.Length), 0, Val(bytes[..]));
          return;
        }
        i := i + 1;
      }
      assert bytes[..] == bytes[..bytes.Length] && x[..bytes.Length] == x;
      ValBound(bytes[..]);
      DivModUnique(Val(x) + 1, Power256(bytes.Length), 1, Val(bytes[..]));
    }

    method Decrement()
      modifies bytes
      ensures Value() == (old(Value()) - 1) % Modulus()
    {
      hide Val, Power256;
      ghost var x: seq<byte> := bytes[..];
      var i := 0;
      IncrementStart(x);
      while i < bytes.Length
        invariant 0 <= i <= bytes.Length
        invariant bytes[i..] == x[i..]
        invariant Val(bytes[..i]) == Val(x[..i]) - 1 + Power256(i)
      {
        assert bytes[i] == bytes[i..][0];
        ghost var low: seq<byte> := bytes[..i];
        assert bytes[i..][1..] == bytes[i + 1..];
        bytes[i] := (bytes[i] as int - 1) % 0x100;
        DecrementStep(low, x, i);
        assert bytes[..i + 1] == low + [(x[i] as int - 1) % 0x100];
        if bytes[i] != 0xFF {
          ValSplit(bytes[..], i + 1);
          ValSplit(x, i + 1);
          assert bytes[..][..i + 1] == bytes[..i + 1] && bytes[..][i + 1..] == bytes[i + 1..];
          ValBound(bytes[..]);
          DivModUnique(Val(x) - 1, Power256(bytes.Length), 0, Val(bytes[..]));
          return;
        }
        i := i + 1;
      }
      assert bytes[..] == bytes[..bytes.Length] && x[..bytes.Length] == x;
      ValBound(bytes[..]);
      DivModUnique(Val(x) - 1, Power256(bytes.Length), -1, Val(bytes[..]));
    }

    /** Complements every byte. */
    method Flip()
      modifies bytes
      ensures Value() == Modulus() - 1 - old(Value())
    {
      for i := 0 to bytes.Length
        invariant forall k :: 0 <= k < i ==> bytes[k] == 255 - old(bytes[k])
        invariant forall k :: i <= k < bytes.Length ==> bytes[k] == old(bytes[k])
      {
        bytes[i] := 255 - bytes[i];
      }
      ValComplement(old(bytes[..]), bytes[..]);
    }

    method Negate()
      modifies bytes
      ensures Value() == -old(Value()) % Modulus()
    {
      Flip();
      Increment();
      ModAddMultiple(-old(Value()), 1, Modulus());
    }

    /** Unary minus: a new number. */
    method Negated() returns (r: BigNumber)
      ensures fresh(r) && fresh(r.bytes) && r.bytes.Length == bytes.Length
      ensures r.Value() == -Value() % Modulus()
    {
      r := new BigNumber(bytes.Length);
      for i := 0 to bytes.Length
        invariant fresh(r) && fresh(r.bytes) && r.bytes.Length == bytes.Length
        invariant forall k :: 0 <= k < i ==> r.bytes[k] == 255 - bytes[k]
      {
        r.bytes[i] := 255 - bytes[i];
      }
      ValComplement(bytes[..], r.bytes[..]);
      r.Increment();
      ModAddMultiple(-Value(), 1, Modulus());
    }

    method SubAssign(b: BigNumber)
      requires Peer(b)
      modifies bytes
      ensures Value() == (old(Value()) - old(b.Value())) % Modulus()
    {
      var minus := b.Negated();
      AddAssign(minus);
      ModAdd(old(Value()), -old(b.Value()), Modulus());
    }

    // ---- Shifts ----

    method ShiftLeftAssign(shift: nat)
      modifies bytes
      ensures Value() == old(Value()) * Pow2(shift) % Modulus()
    {
      hide Val, Power256, Pow2, Shl;
      var n := bytes.Length;
      ghost var x: seq<byte> := bytes[..];
      ShiftOutLeft(x, shift);
      if shift == 0 {
        return;
      }
      if shift >= 8 * n {
        Clear();
        return;
      }
      var byteShift, bitShift := shift / 8, shift % 8;
      if bitShift == 0 {
        MoveBytesUp(byteShift);
      } else {
        MoveBitsUp(byteShift, bitShift);
      }
      for i := 0 to byteShift
        invariant forall j :: 0 <= j < i ==> bytes[j] == 0
        invariant forall j :: byteShift <= j < n ==> bytes[j] == Shl(x, byteShift, bitShift)[j]
      {
        bytes[i] := 0;
      }
      ShlZeros(x, byteShift, bitShift);
      assert bytes[..] == Shl(x, byteShift, bitShift);
      ShlValue(x, byteShift, bitShift);
    }

    method MoveBytesUp(byteShift: nat)
      requires 0 < byteShift < bytes.Length
      modifies bytes
      ensures forall j :: byteShift <= j < bytes.Length ==> bytes[j] == Shl(old(bytes[..]), byteShift, 0)[j]
    {
      hide Pow2, Shl;
      ghost var x: seq<byte> := bytes[..];
      var i := bytes.Length - byteShift - 1;
      while i >= 0
        invariant -1 <= i < bytes.Length - byteShift
        invariant forall j :: 0 <= j <= i + byteShift ==> bytes[j] == x[j]
        invariant forall j :: i + byteShift < j < bytes.Length ==> bytes[j] == Shl(x, byteShift, 0)[j]
      {
        ShlWholeByte(x, byteShift, i);
        bytes[i + byteShift] := bytes[i];
        i := i - 1;
      }
    }

    method MoveBitsUp(byteShift: nat, bitShift: nat)
      requires byteShift < bytes.Length && 0 < bitShift < 8
      modifies bytes
      ensures forall j :: byteShift <= j < bytes.Length ==> bytes[j] == Shl(old(bytes[..]), byteShift, bitShift)[j]
    {
      hide Pow2, BitOr, ShlByte, Shl;
      ghost var x: seq<byte> := bytes[..];
      var highBitShift := 8 - bitShift;
      var i := bytes.Length - byteShift - 1;
      while i > 0
        invariant 0 <= i < bytes.Length - byteShift
        invariant forall j :: 0 <= j <= i + byteShift ==> bytes[j] == x[j]
        invariant forall j :: i + byteShift < j < bytes.Length ==> bytes[j] == Shl(x, byteShift, bitShift)[j]
      {
        ShlByteIsOr(x[i], x[i - 1], bitShift);
        ShlAt(x, byteShift, bitShift, i);
        bytes[i + byteShift] := BitOr(bytes[i] as int * Pow2(bitShift), bytes[i - 1] as int / Pow2(highBitShift)) % 256;
        i := i - 1;
      }
      ShlLowest(x[0], bitShift);
      ShlAt(x, byteShift, bitShift, 0);
      bytes[byteShift] := bytes[0] as int * Pow2(bitShift) % 256;
    }

    method ShiftRightAssign(shift: nat)
      modifies bytes
      ensures Value() == old(Value()) / Pow2(shift)
    {
      hide Val, Power256, Pow2, Shr;
      var n := bytes.Length;
      ghost var x: seq<byte> := bytes[..];
      ShiftOutRight(x, shift);
      if shift == 0 {
        return;
      }
      if shift >= 8 * n {
        Clear();
        return;
      }
      var byteShift, bitShift := shift / 8, shift % 8;
      if bitShift == 0 {
        MoveBytesDown(byteShift);
      } else {
        MoveBitsDown(byteShift, bitShift);
      }
      for i := n - byteShift to n
        invariant forall j :: n - byteShift <= j < i ==> bytes[j] == 0
        invariant forall j :: 0 <= j < n - byteShift ==> bytes[j] == Shr(x, byteShift, bitShift)[j]
      {
        bytes[i] := 0;
      }
      ShrZeros(x, byteShift, bitShift);
      assert bytes[..] == Shr(x, byteShift, bitShift);
      ShrValue(x, byteShift, bitShift);
    }

    method MoveBytesDown(byteShift: nat)
      requires 0 < byteShift < bytes.Length
      modifies bytes
      ensures forall j :: 0 <= j < bytes.Length - byteShift ==> bytes[j] == Shr(old(bytes[..]), byteShift, 0)[j]
    {
      hide Pow2;
      ghost var x: seq<byte> := bytes[..];
      for i := 0 to bytes.Length - byteShift
        invariant forall j :: i <= j < bytes.Length ==> bytes[j] == x[j]
        invariant forall j :: 0 <= j < i ==> bytes[j] == Shr(x, byteShift, 0)[j]
      {
        ShrByteZero(x[i + byteShift], ByteAt(x, i + byteShift + 1));
        bytes[i] := bytes[i + byteShift];
      }
    }

    method MoveBitsDown(byteShift: nat, bitShift: nat)
      requires byteShift < bytes.Length && 0 < bitShift < 8
      modifies bytes
      ensures forall j :: 0 <= j < bytes.Length - byteShift ==> bytes[j] == Shr(old(bytes[..]), byteShift, bitShift)[j]
    {
      hide Pow2, BitOr, ShrByte, Shr;
      ghost var x: seq<byte> := bytes[..];
      var highBitShift := 8 - bitShift;
      var rightMost := bytes.Length - byteShift - 1;
      for i := 0 to rightMost
        invariant forall j :: i <= j < bytes.Length ==> bytes[j] == x[j]
        invariant forall j :: 0 <= j < i ==> bytes[j] == Shr(x, byteShift, bitShift)[j]
      {
        ShrByteIsOr(x[i + byteShift], x[i + byteShift + 1], bitShift);
        ShrAt(x, byteShift, bitShift, i);
        bytes[i] := BitOr(bytes[i + byteShift] as int / Pow2(bitShift),
                          bytes[i + byteShift + 1] as int * Pow2(highBitShift)) % 256;
      }
      ShrHighest(x[bytes.Length - 1], bitShift);
      ShrAt(x, byteShift, bitShift, rightMost);
      bytes[rightMost] := bytes[bytes.Length - 1] as int / Pow2(bitShift);
    }

    // ---- Comparison and length ----

    method Compare(b: BigNumber) returns (r: int)
      requires b.bytes.Length == bytes.Length
      ensures r == if Value() < b.Value() then -1 else if Value() > b.Value() then 1 else 0
    {
      hide Val, Power256;
      var i := bytes.Length - 1;
      while i >= 0
        invariant -1 <= i < bytes.Length
        invariant forall j :: i < j < bytes.Length ==> bytes[j] == b.bytes[j]
      {
        if bytes[i] < b.bytes[i] {
          HighestDifference(bytes[..], b.bytes[..], i);
          return -1;
        }
        if bytes[i] > b.bytes[i] {
          HighestDifference(b.bytes[..], bytes[..], i);
          return 1;
        }
        i := i - 1;
      }
      assert bytes[..] == b.bytes[..];
      return 0;
    }

    /** The number of bits: the least `k` such that the value is below 2^k. */
    method BitLength() returns (k: nat)
      ensures k <= 8 * bytes.Length
      ensures Value() < Pow2(k) && (k > 0 ==> Pow2(k - 1) <= Value())
    {
      hide Val, Pow2, Power256, BitAnd, TestBit;
      var pos := bytes.Length - 1;
      while pos >= 0
        invariant -1 <= pos < bytes.Length
        invariant forall j :: pos < j < bytes.Length ==> bytes[j] == 0
      {
        if bytes[pos] != 0 {
          var n := 7;
          ByteBelow(bytes[pos]);
          while n > 0
            invariant 0 <= n <= 7
            invariant bytes[pos] as int < Pow2(n + 1)
          {
            BitAndBit(bytes[pos], n);
            TopBit(bytes[pos], n);
            if BitAnd(bytes[pos], Pow2(n)) != 0 {
              TopByte(bytes[..], pos, n);
              return 8 * pos + n + 1;
            }
            n := n - 1;
          }
          ByteBelow(bytes[pos]);
          TopByte(bytes[..], pos, 0);
          return 8 * pos + 1;
        }
        pos := pos - 1;
      }
      ValZero(bytes[..]);
      ByteBelow(0);
      return 0;
    }

    // ---- Multiplication ----

    /** One byte of a row. The 16-bit sum never overflows. */
    method AddProduct(b: BigNumber, digit: byte, i: nat, j: nat, carry: int) returns (next: int)
      requires b.bytes.Length == bytes.Length && i + j < bytes.Length && 0 <= carry <= 255
      modifies bytes
      ensures
        var n := Accumulator(carry, old(bytes[i + j]), digit, old(b.bytes[i]));
        next == n / 0x100 && bytes[..] == old(bytes[..])[i + j := n % 0x100]
    {
      SumFits(carry, bytes[i + j], digit, b.bytes[i]);
      var n := (carry + bytes[i + j] as int + digit as int * b.bytes[i] as int) % 0x1_0000;
      bytes[i + j] := n % 0x100;
      next := n / 0x100;
    }

    /** Adds `digit * b`, moved up by `j` bytes. */
    method AddRow(b: BigNumber, digit: byte, j: nat)
      requires Peer(b) && j < bytes.Length
      modifies bytes
      ensures b != this ==> Value() == (old(Value()) + Row(Power256(j), digit, b.Value())) % Modulus()
      ensures b == this && old(Value()) == 0 ==> Value() == 0
    {
      hide Val, Power256, RowPart, Row, Accumulator;
      ghost var z: seq<byte>, y: seq<byte> := bytes[..], b.bytes[..];
      var carry: int := 0;
      var i := 0;
      ValZero(z);
      RowStart(z, y, digit, j);
      while i + j < bytes.Length
        invariant 0 <= i <= bytes.Length - j && 0 <= carry <= 255
        invariant b != this ==> b.bytes[..] == y && RowPart(bytes[..], z, y, digit, i, j, carry)
        invariant b == this && Val(z) == 0 ==> carry == 0 && forall k :: 0 <= k < bytes.Length ==> bytes[k] == 0
      {
        if b != this { RowStep(bytes[..], z, y, digit, i, j, carry); } else { ZeroProduct(digit); }
        ghost var m: seq<byte> := bytes[..];
        carry := AddProduct(b, digit, i, j, carry);
        assert forall k :: 0 <= k < bytes.Length && k != i + j ==> bytes[k] == m[k];
        i := i + 1;
      }
      if b != this { RowEnd(bytes[..], z, y, digit, i, j, carry); }
      ValZero(bytes[..]);
    }

    /** In-place multiplication. The right operand is read while the product is built, so a number
        cannot be multiplied by itself in this way: the result is zero. */
    method MulAssign(b: BigNumber)
      requires Peer(b)
      modifies bytes
      ensures b != this ==> Value() == old(Value()) * old(b.Value()) % Modulus()
      ensures b == this ==> Value() == 0
    {
      hide Val, Power256;
      var a := new BigNumber.Copy(this);
      ghost var x: seq<byte>, y: seq<byte> := bytes[..], b.bytes[..];
      Clear();
      ProductStart(x, y);
      for j := 0 to bytes.Length
        invariant a.bytes[..] == x && a.bytes != bytes
        invariant b != this ==> b.bytes[..] == y && Value() == Val(x[..j]) * Val(y) % Modulus()
        invariant b == this ==> Value() == 0
      {
        AddRow(b, a.bytes[j], j);
        ProductStep(x, y, j);
      }
      assert x[..bytes.Length] == x;
    }

    /** The product as a new number: right for all operands, also for a square. */
    method Product(b: BigNumber) returns (r: BigNumber)
      requires Peer(b)
      ensures fresh(r) && fresh(r.bytes) && r.bytes.Length == bytes.Length
      ensures r.Value() == Value() * b.Value() % Modulus()
    {
      hide Val, Power256;
      r := new BigNumber.Copy(this);
      r.MulAssign(b);
    }

    // ---- Division ----

    /** In-place division by shifting and subtracting. Returns whether it succeeded: division by zero
        fails, after the number has been cleared. */
    method DivAssign(b: BigNumber) returns (ok: bool)
      requires Peer(b)
      modifies bytes
      ensures ok <==> old(b.Value()) != 0
      ensures Value() == if ok then old(Value()) / old(b.Value()) else 0
    {
      hide Val, Power256, Pow2, DivPart, BigNumber.Value;
      ghost var x, d := Value(), b.Value();
      var div := new BigNumber.Copy(b);
      var num := new BigNumber.Copy(this);
      Clear();
      var numBits := num.BitLength();
      var divBits := div.BitLength();
      if divBits == 0 {
        DivStart(0, d);
        return false;
      }
      ok := true;
      DivStart(divBits, d);
      if divBits > numBits {
        Pow2Monotone(numBits, divBits - 1);
        DivModUnique(x, d, 0, x);
        return;
      }
      var shift: int := numBits - divBits;
      Aligned(x, d, numBits, divBits, bytes.Length);
      div.ShiftLeftAssign(shift);
      while shift >= 0
        invariant -1 <= shift < 8 * bytes.Length
        invariant fresh(div) && fresh(div.bytes) && fresh(num) && fresh(num.bytes) && div.bytes != num.bytes
        invariant div.bytes.Length == num.bytes.Length == bytes.Length
        invariant div.Value() == d * Pow2(shift + 1) / 2
        invariant DivPart(x, d, Value(), num.Value(), shift + 1)
      {
        DivideBit(num, div, shift, x, d);
        shift := shift - 1;
      }
      DivEnd(x, d, Value(), num.Value());
    }

    /** Where the aligned divisor goes into what is left, subtracts it and sets a bit of the result.
        Then shifts the divisor back by one bit. */
    method DivideBit(num: BigNumber, div: BigNumber, shift: nat, ghost x: int, ghost d: int)
      requires shift < 8 * bytes.Length
      requires div.bytes.Length == num.bytes.Length == bytes.Length
      requires num != div && num.bytes != div.bytes && bytes != num.bytes && bytes != div.bytes
      requires div.Value() == d * Pow2(shift + 1) / 2
      requires DivPart(x, d, Value(), num.Value(), shift + 1)
      modifies bytes, num.bytes, div.bytes
      ensures DivPart(x, d, Value(), num.Value(), shift)
      ensures div.Value() == d * Pow2(shift) / 2
    {
      hide Pow2, DivPart, BigNumber.Value, BigNumber.Modulus;
      Halve(d, shift);
      DivStep(x, d, Value(), num.Value(), shift);
      var order := num.Compare(div);
      if order >= 0 {
        DivModUnique(num.Value() - div.Value(), num.Modulus(), 0, num.Value() - div.Value());
        num.SubAssign(div);
        SetBit(shift);
      }
      div.ShiftRightAssign(1);
      Pow2Small(1);
    }

    /** Sets bit `k` of the result, below which there is nothing yet. */
    method SetBit(k: nat)
      requires k < 8 * bytes.Length && Value() % Pow2(k + 1) == 0
      modifies bytes
      ensures Value() == old(Value()) + Pow2(k)
    {
      hide Val, Power256, Pow2, BitAnd, BitOr;
      ghost var x: seq<byte> := bytes[..];
      BitAndMask(k, 3);
      Pow2Small(3);
      FreeBit(x, k);
      bytes[k / 8] := BitOr(bytes[k / 8], Pow2(BitAnd(k, 7))) % 256;
      assert bytes[..] == x[k / 8 := bytes[k / 8]];
    }
  }

  // ---- One byte of a ripple of carries ----

  lemma AddStart(x: seq<byte>, y: seq<byte>)
    ensures Val([]) == 0 && x[..0] == [] && y[..0] == []
  {
  }

  lemma AddStep(low: seq<byte>, x: seq<byte>, y: seq<byte>, i: nat, carry: int, n: int)
    requires |low| == i < |x| == |y| && 0 <= carry <= 1
    requires Val(low) + Power256(i) * carry == Val(x[..i]) + Val(y[..i])
    requires n == (carry + x[i] as int + y[i] as int) % 0x1_0000
    ensures 0 <= n / 0x100 <= 1 && n == carry + x[i] as int + y[i] as int
    ensures
      var b: byte := n % 0x100;
      Val(low + [b]) + Power256(i + 1) * (n / 0x100) == Val(x[..i + 1]) + Val(y[..i + 1])
  {
    assert n == carry + x[i] as int + y[i] as int;
    ValSnoc(low, n % 0x100);
    ValPrefix(x, i);
    ValPrefix(y, i);
    CarryOut(Power256(i), n);
    Distribute(Power256(i), carry, x[i] as int + y[i] as int);
    Distribute(Power256(i), x[i], y[i]);
  }

  lemma ValSnoc(s: seq<byte>, b: byte)
    ensures Val(s + [b]) == Val(s) + Power256(|s|) * b
  {
    ValAppend(s, [b]);
    assert Val([b]) == b;
  }

  lemma CarryOut(p: int, n: int)
    ensures p * (n % 0x100) + 256 * p * (n / 0x100) == p * n
  {
    assert n == n % 0x100 + 256 * (n / 0x100);
    Distribute(p, n % 0x100, 256 * (n / 0x100));
    MulAssoc(p, 256, n / 0x100);
  }

  lemma IncrementStart(x: seq<byte>)
    ensures Val([]) == 0 && x[..0] == [] && Power256(0) == 1
  {
  }

  lemma IncrementStep(low: seq<byte>, x: seq<byte>, i: nat)
    requires |low| == i < |x|
    requires Val(low) + Power256(i) == Val(x[..i]) + 1
    ensures
      var b: byte := (x[i] as int + 1) % 0x100;
      Val(low + [b]) + (if b == 0 then Power256(i + 1) else 0) == Val(x[..i + 1]) + 1
  {
    hide Val, Power256;
    Power256Step(i);
    var p := Power256(i);
    ValSnoc(low, (x[i] as int + 1) % 0x100);
    ValPrefix(x, i);
    if x[i] == 255 {
      assert p * x[i] == 255 * p;
    } else {
      Distribute(p, x[i], 1);
    }
  }

  lemma DecrementStep(low: seq<byte>, x: seq<byte>, i: nat)
    requires |low| == i < |x|
    requires Val(low) == Val(x[..i]) - 1 + Power256(i)
    ensures
      var b: byte := (x[i] as int - 1) % 0x100;
      Val(low + [b]) == Val(x[..i + 1]) - 1 + (if b == 0xFF then Power256(i + 1) else 0)
  {
    hide Val, Power256;
    Power256Step(i);
    var p := Power256(i);
    ValSnoc(low, (x[i] as int - 1) % 0x100);
    ValPrefix(x, i);
    if x[i] == 0 {
      assert p * x[i] == 0 && p * 255 == 255 * p;
    } else {
      Distribute(p, x[i], -1);
    }
  }

  lemma {:induction false} ValComplement(s: seq<byte>, t: seq<byte>)
    requires |s| == |t| && forall k :: 0 <= k < |s| ==> t[k] == 255 - s[k]
    ensures Val(t) == Power256(|s|) - 1 - Val(s)
  {
    if |s| > 0 { ValComplement(s[1..], t[1..]); }
  }

  // ---- Comparison, shifts and lengths ----

  lemma HighestDifference(s: seq<byte>, t: seq<byte>, i: nat)
    requires |s| == |t| && i < |s| && s[i] < t[i]
    requires forall j :: i < j < |s| ==> s[j] == t[j]
    ensures Val(s) < Val(t)
  {
    assert s[i + 1..] == t[i + 1..];
    ValLess(s, t, i);
  }

  /** A shift by all the bits or more leaves nothing; a shift by none leaves everything. */
  lemma ShiftOutLeft(x: seq<byte>, shift: nat)
    ensures shift == 0 ==> Val(x) * Pow2(shift) % Power256(|x|) == Val(x)
    ensures shift >= 8 * |x| ==> Val(x) * Pow2(shift) % Power256(|x|) == 0
  {
    hide Val, Power256, Pow2;
    if shift == 0 {
      Pow2Small(0);
      ValBound(x);
      DivModUnique(Val(x), Power256(|x|), 0, Val(x));
    }
    if shift >= 8 * |x| {
      Power256IsPow2(|x|);
      Pow2Add(8 * |x|, shift - 8 * |x|);
      MultipleOfFactor(Val(x), Power256(|x|), Pow2(shift - 8 * |x|));
    }
  }

  lemma MultipleOfFactor(v: nat, m: nat, f: nat)
    requires m > 0
    ensures v * (m * f) % m == 0
  {
    assert v * (m * f) == v * f * m;
    MultipleMod(v * f, m);
  }

  lemma ShiftOutRight(x: seq<byte>, shift: nat)
    ensures shift == 0 ==> Val(x) / Pow2(shift) == Val(x)
    ensures shift >= 8 * |x| ==> Val(x) / Pow2(shift) == 0
  {
    hide Val, Power256, Pow2;
    if shift == 0 {
      Pow2Small(0);
    }
    if shift >= 8 * |x| {
      ValBound(x);
      Power256IsPow2(|x|);
      Pow2Monotone(8 * |x|, shift);
      DivModUnique(Val(x), Pow2(shift), 0, Val(x));
    }
  }

  lemma ShlZeros(x: seq<byte>, n: nat, k: nat)
    requires k < 8 && n <= |x|
    ensures forall j :: 0 <= j < n ==> Shl(x, n, k)[j] == 0
  {
  }

  lemma ShrZeros(x: seq<byte>, n: nat, k: nat)
    requires k < 8 && n <= |x|
    ensures forall j :: |x| - n <= j < |x| ==> Shr(x, n, k)[j] == 0
  {
  }

  lemma ShlByteZero(x: byte, below: byte)
    ensures ShlByte(x, below, 0) == x
  {
    Pow2Small(0);
  }

  lemma ShlAt(x: seq<byte>, n: nat, k: nat, i: nat)
    requires n + i < |x| && k < 8
    ensures Shl(x, n, k)[i + n] == ShlByte(x[i], ByteAt(x, i - 1), k)
  {
    hide ShlByte;
  }

  lemma ShrAt(x: seq<byte>, n: nat, k: nat, i: nat)
    requires n + i < |x| && k < 8
    ensures Shr(x, n, k)[i] == ShrByte(x[i + n], ByteAt(x, i + n + 1), k)
  {
    hide ShrByte;
  }

  lemma ShlWholeByte(x: seq<byte>, n: nat, i: nat)
    requires n + i < |x|
    ensures Shl(x, n, 0)[i + n] == x[i]
  {
    ShlByteZero(x[i], ByteAt(x, i - 1));
  }

  lemma ShrByteZero(x: byte, above: byte)
    ensures ShrByte(x, above, 0) == x
  {
    Pow2Small(0);
  }

  lemma ShlLowest(x: byte, k: nat)
    requires k < 8
    ensures ShlByte(x, 0, k) == x as int * Pow2(k) % 256
  {
    Pow2Small(k);
  }

  lemma ShrHighest(x: byte, k: nat)
    requires k < 8
    ensures ShrByte(x, 0, k) == x as int / Pow2(k)
  {
    Pow2Small(k);
  }

  lemma ByteBelow(b: byte)
    ensures b as int < Pow2(8) && Pow2(0) == 1
  {
    Pow2Small(0);
  }

  /** Where `pos` is the highest nonzero byte and `n` its highest bit. */
  lemma TopByte(s: seq<byte>, pos: nat, n: nat)
    requires pos < |s| && Pow2(n) <= s[pos] as int < Pow2(n + 1)
    requires forall j :: pos < j < |s| ==> s[j] == 0
    ensures Pow2(8 * pos + n) <= Val(s) < Pow2(8 * pos + n + 1)
  {
    hide Val, Pow2, Power256;
    var p, b := Power256(pos), s[pos] as int;
    ValSplit(s, pos + 1);
    ValZero(s[pos + 1..]);
    ValPrefix(s, pos);
    ValBound(s[..pos]);
    Power256IsPow2(pos);
    Pow2Add(8 * pos, n);
    Pow2Add(8 * pos, n + 1);
    MulMonotone(p, Pow2(n), b);
    MulMonotone(p, b + 1, Pow2(n + 1));
    Distribute(p, b, 1);
  }

  // ---- Multiplication ----

  lemma SumFits(carry: int, m: byte, x: byte, y: byte)
    requires 0 <= carry <= 255
    ensures 0 <= carry + m as int + x as int * y as int <= 0xFFFF
  {
    assert 0 <= x as int * y as int <= 255 * 255;
  }

  /** The sum that one byte of a row and the next carry are taken from. */
  function Accumulator(carry: int, m: byte, x: byte, y: byte): (n: int)
    requires 0 <= carry <= 255
    ensures 0 <= n <= 0xFFFF
  {
    SumFits(carry, m, x, y);
    carry + m as int + x as int * y as int
  }

  lemma ZeroProduct(digit: byte)
    ensures Accumulator(0, 0, digit, 0) == 0
  {
  }

  /** After `i` bytes of a row: the sum so far, with the carry still to come in at byte `i + j`. */
  ghost predicate RowPart(m: seq<byte>, z: seq<byte>, y: seq<byte>, digit: byte, i: nat, j: nat, carry: int) {
    && |m| == |z| == |y| && i + j <= |z|
    && Val(m) + Times(Power256(i + j), carry) == Val(z) + Row(Power256(j), digit as int, Val(y[..i]))
  }

  /** One row of the multiplication: a digit times a number, moved up. */
  function Row(p: int, digit: int, y: int): int { Times(p, Times(digit, y)) }

  /** A product that the proofs need not look into. */
  function Times(x: int, y: int): int { x * y }

  lemma RowStart(z: seq<byte>, y: seq<byte>, digit: byte, j: nat)
    requires |z| == |y| && j <= |z|
    ensures RowPart(z, z, y, digit, 0, j, 0)
  {
    assert y[..0] == [] && Val([]) == 0;
    assert digit as int * 0 == 0 && Power256(j) * 0 == 0;
  }

  lemma RowStep(m: seq<byte>, z: seq<byte>, y: seq<byte>, digit: byte, i: nat, j: nat, carry: int)
    requires RowPart(m, z, y, digit, i, j, carry) && i + j < |z| && 0 <= carry <= 255
    ensures
      var n := Accumulator(carry, m[i + j], digit, y[i]);
      var b: byte := n % 0x100;
      RowPart(m[i + j := b], z, y, digit, i + 1, j, n / 0x100)
  {
    hide Val, Power256, Row;
    var p, c := Power256(i + j), digit as int * y[i] as int;
    var n := carry + m[i + j] as int + c;
    var b: byte := n % 0x100;
    ValUpdate(m, i + j, b);
    ValPrefix(y, i);
    Power256Step(i + j);
    Power256Add(j, i);
    CarryOut(p, n);
    calc {
      Val(m[i + j := b]) + Times(Power256(i + j + 1), n / 0x100);
      Val(m) + p * (b - m[i + j]) + 256 * p * (n / 0x100);
      { Distribute(p, b as int, -(m[i + j] as int)); Distribute(p, -(m[i + j] as int), n); }
      Val(m) + p * (carry + c);
      { Distribute(p, carry, c); }
      Val(z) + Row(Power256(j), digit, Val(y[..i])) + p * c;
      { RowSplit(Power256(j), Power256(i), p, digit, Val(y[..i]), y[i] as int, Val(y[..i + 1])); }
      Val(z) + Row(Power256(j), digit, Val(y[..i + 1]));
    }
  }

  lemma RowEnd(m: seq<byte>, z: seq<byte>, y: seq<byte>, digit: byte, i: nat, j: nat, carry: int)
    requires i + j == |z| && RowPart(m, z, y, digit, i, j, carry)
    ensures Val(m) == (Val(z) + Row(Power256(j), digit, Val(y))) % Power256(|z|)
  {
    hide Val, Power256, Row, Times;
    RowSplitAt(y, digit, i, j);
    ValBound(m);
    DropCarry(Val(m), Power256(i + j), carry, Val(z), Row(Power256(j), digit, Val(y[..i])),
              Row(Power256(j), digit, Val(y)), Times(digit, Val(y[i..])));
  }

  lemma RowSplitAt(y: seq<byte>, digit: byte, i: nat, j: nat)
    requires i <= |y|
    ensures Row(Power256(j), digit, Val(y))
            == Row(Power256(j), digit, Val(y[..i])) + Times(Power256(i + j), Times(digit, Val(y[i..])))
  {
    hide Val, Power256, Row, Times;
    ValSplit(y, i);
    Power256Add(j, i);
    RowSplit(Power256(j), Power256(i), Power256(j + i), digit, Val(y[..i]), Val(y[i..]), Val(y));
  }

  lemma DropCarry(m: int, pq: int, carry: int, z: int, low: int, row: int, high: int)
    requires 0 <= m < pq && m + Times(pq, carry) == z + low && row == low + Times(pq, high)
    ensures m == (z + row) % pq
  {
    Distribute(pq, carry, high);
    MulCommutes(pq, carry + high);
    DivModUnique(z + row, pq, carry + high, m);
  }

  lemma RowSplit(p: int, q: int, pq: int, d: int, low: int, high: int, y: int)
    requires pq == p * q && y == low + q * high
    ensures Row(p, d, y) == Row(p, d, low) + Times(pq, Times(d, high))
  {
    Distribute(d, low, q * high);
    Distribute(p, d * low, d * (q * high));
    Regroup(p, q, d, high);
    MulEqual(pq, p * q, d * high);
    MulEqual(y, low + q * high, d);
  }

  lemma ProductStart(x: seq<byte>, y: seq<byte>)
    ensures Val(x[..0]) * Val(y) % Power256(|x|) == 0
  {
    assert x[..0] == [] && Val([]) == 0;
    assert 0 * Val(y) == 0 && 0 % Power256(|x|) == 0;
  }

  lemma ProductStep(x: seq<byte>, y: seq<byte>, j: nat)
    requires j < |x|
    ensures (Val(x[..j]) * Val(y) % Power256(|x|) + Row(Power256(j), x[j], Val(y))) % Power256(|x|)
            == Val(x[..j + 1]) * Val(y) % Power256(|x|)
  {
    hide Val, Power256, Row;
    ValPrefix(x, j);
    AddRowMod(Val(x[..j]), Power256(j), x[j], Val(x[..j + 1]), Val(y), Power256(|x|));
  }

  lemma AddRowMod(a: int, p: int, b: int, a': int, y: int, m: int)
    requires m > 0 && a' == a + p * b
    ensures (a * y % m + Row(p, b, y)) % m == a' * y % m
  {
    assert Row(p, b, y) + a * y == a' * y by {
      MulAssoc(p, b, y);
      Distribute(y, a, p * b);
      MulEqual(a', a + p * b, y);
    }
    AddMod(Row(p, b, y), a * y, a' * y, m);
  }

  lemma AddMod(x: int, v: int, w: int, m: int)
    requires m > 0 && x + v == w
    ensures (v % m + x) % m == w % m
  {
    ModAdd(x, v, m);
  }

  // ---- Division ----

  /** With the low `s` bits of the quotient still to come: what is subtracted so far, and what is left. */
  ghost predicate DivPart(x: int, d: int, q: int, num: int, s: nat) {
    && q * d + num == x
    && 0 <= num < d * Pow2(s)
    && q % Pow2(s) == 0
  }

  lemma DivStart(bits: nat, d: int)
    requires 0 <= d < Pow2(bits) && (bits > 0 ==> Pow2(bits - 1) <= d)
    ensures bits == 0 <==> d == 0
  {
  }

  /** Aligning the divisor with the number loses no bits. */
  lemma Aligned(x: int, d: int, numBits: nat, divBits: nat, n: nat)
    requires 0 < divBits <= numBits <= 8 * n
    requires 0 <= x < Pow2(numBits) && Pow2(divBits - 1) <= d < Pow2(divBits)
    ensures d * Pow2(numBits - divBits) % Power256(n) == d * Pow2(numBits - divBits)
    ensures d * Pow2(numBits - divBits + 1) / 2 == d * Pow2(numBits - divBits)
    ensures DivPart(x, d, 0, x, numBits - divBits + 1)
  {
    hide Pow2, Power256;
    var s := numBits - divBits;
    ShiftedBelow(d, s, divBits);
    Power256IsPow2(n);
    Pow2Monotone(numBits, 8 * n);
    MulNonNegative(Pow2(s), d);
    DivModUnique(d * Pow2(s), Power256(n), 0, d * Pow2(s));
    Halve(d, s);
    ShiftedAbove(d, s, divBits);
    ZeroQuotient(x, d, s + 1);
  }

  lemma ShiftedBelow(d: nat, s: nat, bits: nat)
    requires d < Pow2(bits)
    ensures d * Pow2(s) < Pow2(s + bits)
  {
    hide Pow2;
    Pow2Add(s, bits);
    MulStep(d, Pow2(bits), Pow2(s));
    MulCommutes(Pow2(bits), Pow2(s));
  }

  lemma ShiftedAbove(d: nat, s: nat, bits: nat)
    requires bits > 0 && Pow2(bits - 1) <= d
    ensures Pow2(s + bits) <= d * Pow2(s + 1)
  {
    hide Pow2;
    Pow2Add(s + 1, bits - 1);
    MulMonotone(Pow2(s + 1), Pow2(bits - 1), d);
    MulCommutes(Pow2(s + 1), d);
  }

  lemma ZeroQuotient(x: int, d: int, s: nat)
    requires 0 <= x < d * Pow2(s)
    ensures DivPart(x, d, 0, x, s)
  {
    hide Pow2;
    assert 0 * d == 0;
    DivModUnique(0, Pow2(s), 0, 0);
  }

  lemma Halve(d: int, s: nat)
    ensures d * Pow2(s + 1) / 2 == d * Pow2(s)
  {
    assert d * Pow2(s + 1) == 2 * (d * Pow2(s)) by { assert d * (2 * Pow2(s)) == 2 * (d * Pow2(s)); }
  }

  /** One bit of the quotient. */
  lemma DivStep(x: int, d: int, q: int, num: int, s: nat)
    requires DivPart(x, d, q, num, s + 1)
    ensures num >= d * Pow2(s) ==> DivPart(x, d, q + Pow2(s), num - d * Pow2(s), s)
    ensures num < d * Pow2(s) ==> DivPart(x, d, q, num, s)
    ensures q % Pow2(s + 1) == 0
  {
    hide Pow2;
    Pow2Step(s);
    Halve(d, s);
    var p, t := Pow2(s), q / Pow2(s + 1);
    assert d * Pow2(s + 1) == 2 * (d * p) by { assert d * (2 * p) == 2 * (d * p); }
    DivMod(q, 2 * p);
    assert q == 2 * t * p by { assert t * (2 * p) == 2 * t * p; }
    MultipleMod(2 * t, p);
    assert q + p == (2 * t + 1) * p;
    MultipleMod(2 * t + 1, p);
    assert (q + p) * d == q * d + d * p;
  }

  lemma Pow2Step(s: nat)
    ensures Pow2(s + 1) == 2 * Pow2(s)
  {
  }

  lemma DivEnd(x: int, d: int, q: int, num: int)
    requires d > 0 && DivPart(x, d, q, num, 0)
    ensures q == x / d
  {
    assert d * 1 == d;
    DivModUnique(x, d, q, num);
  }

  /** The byte that bit `k` belongs to is free at that bit, and setting it adds 2^k. */
  lemma FreeBit(x: seq<byte>, k: nat)
    requires k < 8 * |x| && Val(x) % Pow2(k + 1) == 0
    ensures
      var b: byte := BitOr(x[k / 8], Pow2(k % 8)) % 256;
      Val(x[k / 8 := b]) == Val(x) + Pow2(k)
  {
    hide Val, Power256, Pow2, BitOr;
    var i, r := k / 8, k % 8;
    FreeByte(x, i, r);
    OrFree(x[i], r);
    var b: byte := x[i] as int + Pow2(r);
    ValUpdate(x, i, b);
    Power256IsPow2(i);
    Pow2Add(8 * i, r);
  }

  lemma OrFree(b: byte, r: nat)
    requires r < 8 && b as int % Pow2(r + 1) == 0
    ensures b as int + Pow2(r) < 256 && BitOr(b, Pow2(r)) == b as int + Pow2(r)
  {
    hide BitOr, Pow2;
    var p, c, v := Pow2(r), Pow2(7 - r), b as int;
    Pow2Step(r);
    Pow2Add(7 - r, r + 1);
    Pow2Small(0);
    BitOrDisjoint(b, p, r + 1);
    DivMod(v, 2 * p);
    if v / (2 * p) >= c {
      MulMonotone(2 * p, c, v / (2 * p));
    } else {
      MulStep(v / (2 * p), c, 2 * p);
    }
  }

  lemma FreeByte(x: seq<byte>, i: nat, r: nat)
    requires i < |x| && r < 8 && Val(x) % Pow2(8 * i + r + 1) == 0
    ensures x[i] as int % Pow2(r + 1) == 0
  {
    hide Val, Power256, Pow2;
    var p, m := Power256(i), Pow2(r + 1);
    var t, high := Val(x) / (p * m), Val(x[i..]);
    Power256IsPow2(i);
    Pow2Add(8 * i, r + 1);
    DivMod(Val(x), p * m);
    assert Val(x) == t * m * p by { assert t * (p * m) == t * m * p; }
    ValSplit(x, i);
    ValBound(x[..i]);
    DivModUnique(Val(x), p, t * m, 0);
    DivModUnique(Val(x), p, high, Val(x[..i]));
    MultipleMod(t, m);
    LowByteDivides(x[i..], m, r);
  }

  lemma LowByteDivides(s: seq<byte>, m: int, r: nat)
    requires |s| > 0 && r < 8 && m == Pow2(r + 1) && Val(s) % m == 0
    ensures s[0] as int % m == 0
  {
    hide Pow2;
    var c := Pow2(7 - r);
    assert c * m == 256 by { Pow2Add(7 - r, r + 1); Pow2Small(0); }
    var rest := Val(s[1..]);
    assert Val(s) == s[0] as int + 256 * rest;
    assert c * rest * m == 256 * rest by { Regroup3(c, m, rest); }
    ModAddMultiple(s[0] as int, c * Val(s[1..]), m);
  }
}
