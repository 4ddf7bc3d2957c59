/** Conversion between 32-bit numbers and bytes in either byte order. */
module BitConverter {
  import opened Bits
  import opened ByteOrder

  const TWO_32: nat := 0x1_0000_0000

  function ToDword(bigEndian: bool, data: Bytes): nat
    requires |data| == 4
  {
    if bigEndian then
      BitOr(BitOr(BitOr(data[0] as int * 0x100_0000, data[1] as int * 0x1_0000), data[2] as int * 0x100), data[3])
    else
      BitOr(BitOr(BitOr(data[3] as int * 0x100_0000, data[2] as int * 0x1_0000), data[1] as int * 0x100), data[0])
  }

  function FromDword(bigEndian: bool, x: nat): (data: Bytes)
    requires x < TWO_32
    ensures |data| == 4
  {
    Masks(x);
    var b0: byte := BitAnd(x, 0xFF00_0000) / 0x100_0000;
    var b1: byte := BitAnd(x, 0xFF_0000) / 0x1_0000;
    var b2: byte := BitAnd(x, 0xFF00) / 0x100;
    var b3: byte := BitAnd(x, 0xFF);
    if bigEndian then [b0, b1, b2, b3] else [b3, b2, b1, b0]
  }

  /** The bytes joined by `|` are a positional number. */
  lemma JoinBytes(b0: byte, b1: byte, b2: byte, b3: byte)
    ensures BitOr(BitOr(BitOr(b0 as int * 0x100_0000, b1 as int * 0x1_0000), b2 as int * 0x100), b3)
            == b0 as int * 0x100_0000 + b1 as int * 0x1_0000 + b2 as int * 0x100 + b3 as int
  {
    hide BitOr, Pow2;
    Powers();
    BitOrDisjoint(b0 as int * 0x100_0000, b1 as int * 0x1_0000, 24);
    BitOrDisjoint(b0 as int * 0x100_0000 + b1 as int * 0x1_0000, b2 as int * 0x100, 16);
    BitOrDisjoint(b0 as int * 0x100_0000 + b1 as int * 0x1_0000 + b2 as int * 0x100, b3, 8);
  }

  lemma Powers()
    ensures Pow2(8) == 0x100 && Pow2(16) == 0x1_0000 && Pow2(24) == 0x100_0000
  {
    assert Pow2(8) == 0x100;
    Pow2Add(8, 8);
    Pow2Add(16, 8);
  }

  /** The masks cut out the bytes of a number. */
  lemma Masks(x: nat)
    requires x < TWO_32
    ensures BitAnd(x, 0xFF00_0000) == x / 0x100_0000 * 0x100_0000
    ensures BitAnd(x, 0xFF_0000) == x / 0x1_0000 % 0x100 * 0x1_0000
    ensures BitAnd(x, 0xFF00) == x / 0x100 % 0x100 * 0x100
    ensures BitAnd(x, 0xFF) == x % 0x100
  {
    hide BitAnd, Pow2;
    Powers();
    BitAndMask(x, 8);
    BitAndMask(x / 0x100, 8);
    BitAndMask(x / 0x1_0000, 8);
    BitAndMask(x / 0x100_0000, 8);
    MovedMask(x, 0xFF, 8, 0x100, 0xFF00, x / 0x100);
    MovedMask(x, 0xFF, 16, 0x1_0000, 0xFF_0000, x / 0x1_0000);
    MovedMask(x, 0xFF, 24, 0x100_0000, 0xFF00_0000, x / 0x100_0000);
  }

  lemma ByteParts(b0: byte, b1: byte, b2: byte, b3: byte, x: int)
    requires x == b0 as int * 0x100_0000 + b1 as int * 0x1_0000 + b2 as int * 0x100 + b3 as int
    ensures x / 0x100_0000 == b0 as int && x / 0x1_0000 % 0x100 == b1 as int
    ensures x / 0x100 % 0x100 == b2 as int && x % 0x100 == b3 as int
  {
    assert x / 0x100 == b0 as int * 0x1_0000 + b1 as int * 0x100 + b2 as int;
    assert x / 0x1_0000 == b0 as int * 0x100 + b1 as int;
  }

  lemma PartsJoin(x: nat)
    ensures x == x / 0x100_0000 * 0x100_0000 + x / 0x1_0000 % 0x100 * 0x1_0000 + x / 0x100 % 0x100 * 0x100 + x % 0x100
  {
    assert x / 0x100 / 0x100 == x / 0x1_0000 && x / 0x1_0000 / 0x100 == x / 0x100_0000;
  }

  lemma DwordRoundTrip(bigEndian: bool, x: nat)
    requires x < TWO_32
    ensures ToDword(bigEndian, FromDword(bigEndian, x)) == x
  {
    hide BitOr, BitAnd;
    Masks(x);
    PartsJoin(x);
    JoinBytes(x / 0x100_0000, x / 0x1_0000 % 0x100, x / 0x100 % 0x100, x % 0x100);
  }

  lemma DwordInverse(bigEndian: bool, data: Bytes)
    requires |data| == 4
    ensures ToDword(bigEndian, data) < TWO_32 && FromDword(bigEndian, ToDword(bigEndian, data)) == data
  {
    hide BitOr, BitAnd;
    if bigEndian {
      JoinAndCut(data[0], data[1], data[2], data[3]);
    } else {
      JoinAndCut(data[3], data[2], data[1], data[0]);
    }
    assert data == [data[0], data[1], data[2], data[3]];
  }

  lemma JoinAndCut(b0: byte, b1: byte, b2: byte, b3: byte)
    ensures
      var x := BitOr(BitOr(BitOr(b0 as int * 0x100_0000, b1 as int * 0x1_0000), b2 as int * 0x100), b3);
      && x < TWO_32
      && BitAnd(x, 0xFF00_0000) / 0x100_0000 == b0 as int && BitAnd(x, 0xFF_0000) / 0x1_0000 == b1 as int
      && BitAnd(x, 0xFF00) / 0x100 == b2 as int && BitAnd(x, 0xFF) == b3 as int
  {
    hide BitOr, BitAnd;
    JoinBytes(b0, b1, b2, b3);
    var x := b0 as int * 0x100_0000 + b1 as int * 0x1_0000 + b2 as int * 0x100 + b3 as int;
    ByteParts(b0, b1, b2, b3, x);
    Masks(x);
  }

  lemma FromDwordIsBigEndian(x: nat)
    requires x < TWO_32
    ensures FromDword(true, x) == BigEndian(x, 4)
    ensures FromDword(false, x) == [FromDword(true, x)[3], FromDword(true, x)[2], FromDword(true, x)[1], FromDword(true, x)[0]]
  {
    hide BitAnd;
    Masks(x);
    FourBytes(x);
    var top, upper, middle := x / 0x100_0000, x / 0x1_0000 % 0x100, x / 0x100 % 0x100;
    assert top * 0x100_0000 / 0x100_0000 == top && upper * 0x1_0000 / 0x1_0000 == upper && middle * 0x100 / 0x100 == middle;
    assert FromDword(true, x) == [top, upper, middle, x % 0x100];
  }

  lemma FourBytes(x: nat)
    requires x < TWO_32
    ensures BigEndian(x, 4) == [x / 0x100_0000, x / 0x1_0000 % 0x100, x / 0x100 % 0x100, x % 0x100]
  {
    hide BigEndian;
    TwoBytes(x / 256 / 256);
    BigEndianTwoMore(x);
    assert x / 256 / 256 == x / 0x1_0000 && x / 256 / 256 / 256 == x / 0x100_0000;
  }

  lemma TwoBytes(x: nat)
    ensures BigEndian(x, 2) == [x / 256 % 256, x % 256]
  {
  }

  lemma BigEndianTwoMore(x: nat)
    ensures BigEndian(x, 4) == BigEndian(x / 256 / 256, 2) + [x / 256 % 256, x % 256]
  {
  }

  lemma SmallDword(bigEndian: bool, x: byte)
    ensures FromDword(bigEndian, x) == if bigEndian then [0, 0, 0, x] else [x, 0, 0, 0]
  {
    hide FromDword;
    FromDwordIsBigEndian(x);
    assert BigEndian(0, 0) == [] && BigEndian(0, 1) == [0] && BigEndian(0, 2) == [0, 0] && BigEndian(0, 3) == [0, 0, 0];
    assert BigEndian(x, 4) == BigEndian(0, 3) + [x];
  }

  lemma DwordOfBytes()
    ensures ToDword(true, [1, 2, 3, 4]) == 0x0102_0304 && ToDword(false, [1, 2, 3, 4]) == 0x0403_0201
  {
    hide BitOr;
    JoinBytes(1, 2, 3, 4);
    JoinBytes(4, 3, 2, 1);
  }
}
