/**
 32-bit words: the operations of sections 3.2 and 4.1.1 of FIPS 180-4, the forms in which the library
 writes them, and the bit-vector identities between the two. All bit-level reasoning is here; the
 proofs about rounds and blocks treat these functions as black boxes.
 */
module Sha1Words {
  type Word = bv32
  type Byte = bv8

  /** Addition modulo 2^32. */
  function Plus(x: Word, y: Word): Word { x + y }

  function Rotl(x: Word, n: Word): Word
    requires n < 32
  {
    (x << n) | (x >> (32 - n))
  }

  function Ch(x: Word, y: Word, z: Word): Word { (x & y) ^ (!x & z) }

  function Parity(x: Word, y: Word, z: Word): Word { x ^ y ^ z }

  function Maj(x: Word, y: Word, z: Word): Word { (x & y) ^ (x & z) ^ (y & z) }

  function BigEndianWord(b0: Byte, b1: Byte, b2: Byte, b3: Byte): Word {
    (b0 as Word << 24) | (b1 as Word << 16) | (b2 as Word << 8) | b3 as Word
  }

  function ToByte(value: nat): Byte
    requires value < 256
  {
    value as Byte
  }

  /** Byte `k` of a word, the most significant first. */
  function WordByte(w: Word, k: nat): Byte
    requires k < 4
  {
    var shift: Word := if k == 0 then 24 else if k == 1 then 16 else if k == 2 then 8 else 0;
    ((w >> shift) & 255) as Byte
  }

  /** The four bytes of a word are the ones it is read back from. */
  lemma WordByteInverse(w: Word)
    ensures BigEndianWord(WordByte(w, 0), WordByte(w, 1), WordByte(w, 2), WordByte(w, 3)) == w
  {
    assert w == ((w >> 24) << 24) | (((w >> 16) & 255) << 16) | (((w >> 8) & 255) << 8) | (w & 255);
  }

  // ---- The library's forms ----

  function Choose(w: Word, x: Word, y: Word): Word { (w & (x ^ y)) ^ y }

  function Majority(w: Word, x: Word, y: Word): Word { ((w | x) & y) | (w & x) }

  /** The swap of the four bytes of a word, on a little-endian machine. */
  function SwapBytes(word: Word): Word { (Rotl(word, 24) & 0xFF00FF00) | (Rotl(word, 8) & 0x00FF00FF) }

  lemma ChooseIsCh(w: Word, x: Word, y: Word)
    ensures Choose(w, x, y) == Ch(w, x, y)
  {
    assert (w & (x ^ y)) ^ y == (w & x) ^ (!w & y);
  }

  lemma MajorityIsMaj(w: Word, x: Word, y: Word)
    ensures Majority(w, x, y) == Maj(w, x, y)
  {
    assert ((w | x) & y) | (w & x) == (w & x) ^ (w & y) ^ (x & y);
  }

  lemma SwapBytesReverses(b0: Byte, b1: Byte, b2: Byte, b3: Byte)
    ensures SwapBytes(BigEndianWord(b3, b2, b1, b0)) == BigEndianWord(b0, b1, b2, b3)
  {
  }

  lemma PlusSwap(x: Word, y: Word, z: Word)
    ensures Plus(Plus(x, y), z) == Plus(Plus(x, z), y)
    ensures Plus(x, y) == Plus(y, x)
  {
    assert (x + y) + z == (x + z) + y;
    assert x + y == y + x;
  }

  /** The round macros add the same five words in another order. */
  lemma SumCommutes(z: Word, f: Word, word: Word, k: Word, rotated: Word)
    ensures Plus(Plus(Plus(Plus(z, f), word), k), rotated) == Plus(Plus(Plus(Plus(rotated, f), z), k), word)
  {
    hide Plus;
    PlusSwap(Plus(Plus(z, f), word), k, rotated);
    PlusSwap(Plus(z, f), word, rotated);
    PlusSwap(z, f, rotated);
    PlusSwap(z, rotated, f);
    PlusSwap(rotated, z, f);
    PlusSwap(Plus(Plus(rotated, f), z), word, k);
  }
}
