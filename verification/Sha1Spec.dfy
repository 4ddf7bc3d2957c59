/**
 The SHA-1 function of FIPS 180-4 in its plain form: the 80-word message schedule and the
 five-register shift of section 6.1.2, and the padding of section 5.1.1.
 */
module Sha1Spec {
  import opened ByteOrder
  import opened Sha1Words

  // ---- The functions and constants of the rounds (sections 4.1.1 and 4.2.1) ----

  function F(t: nat, x: Word, y: Word, z: Word): Word {
    if t < 20 then Ch(x, y, z)
    else if t < 40 then Parity(x, y, z)
    else if t < 60 then Maj(x, y, z)
    else Parity(x, y, z)
  }

  function K(t: nat): Word {
    if t < 20 then 0x5A827999
    else if t < 40 then 0x6ED9EBA1
    else if t < 60 then 0x8F1BBCDC
    else 0xCA62C1D6
  }

  // ---- The hash computation (section 6.1.2) ----

  /** Word `i` of a block of sixteen words. */
  function BlockWord(block: seq<Byte>, i: nat): Word
    requires |block| == 64 && i < 16
  {
    BigEndianWord(block[4 * i], block[4 * i + 1], block[4 * i + 2], block[4 * i + 3])
  }

  /** The message schedule W_t of one block. */
  function Schedule(block: seq<Byte>, t: nat): Word
    requires |block| == 64
  {
    if t < 16 then BlockWord(block, t)
    else Rotl(Schedule(block, t - 3) ^ Schedule(block, t - 8)
              ^ Schedule(block, t - 14) ^ Schedule(block, t - 16), 1)
  }

  datatype Registers = Registers(a: Word, b: Word, c: Word, d: Word, e: Word)

  /** One round: T goes into `a` and the other registers move one place down. */
  function Round(r: Registers, t: nat, w: Word): Registers {
    var temp := Plus(Plus(Plus(Plus(Rotl(r.a, 5), F(t, r.b, r.c, r.d)), r.e), K(t)), w);
    Registers(temp, r.a, Rotl(r.b, 30), r.c, r.d)
  }

  /** The registers after the first `n` rounds. */
  function Rounds(r: Registers, block: seq<Byte>, n: nat): Registers
    requires |block| == 64
  {
    if n == 0 then r else Round(Rounds(r, block, n - 1), n - 1, Schedule(block, n - 1))
  }

  /** The next intermediate hash value. */
  function Compress(h: Registers, block: seq<Byte>): Registers
    requires |block| == 64
  {
    var r := Rounds(h, block, 80);
    Registers(Plus(h.a, r.a), Plus(h.b, r.b), Plus(h.c, r.c), Plus(h.d, r.d), Plus(h.e, r.e))
  }

  const INITIAL_HASH := Registers(0x67452301, 0xEFCDAB89, 0x98BADCFE, 0x10325476, 0xC3D2E1F0)

  /** The intermediate hash value after all the blocks of a message of whole blocks. */
  function Fold(h: Registers, bytes: seq<Byte>): Registers
    requires |bytes| % 64 == 0
    decreases |bytes|
  {
    if |bytes| == 0 then h else Fold(Compress(h, bytes[..64]), bytes[64..])
  }

  // ---- Padding (section 5.1.1) and the digest ----

  /** The number of zero bytes that follow the 0x80 byte: the smallest that leaves room for
      exactly the eight length bytes in the last block. */
  function ZeroCount(length: nat): (k: nat)
    ensures (length + 1 + k) % 64 == 56 && k < 64
  {
    (119 - length % 64) % 64
  }

  /** `value` as `n` bytes, the most significant first, modulo 256^n. */
  function BigEndianBytes(value: nat, n: nat): (s: seq<Byte>)
    ensures |s| == n
  {
    seq(n, i requires 0 <= i < n => ToByte(BigEndian(value, n)[i]))
  }

  function Zeros(n: nat): (s: seq<Byte>)
    ensures |s| == n
  {
    if n == 0 then [] else Zeros(n - 1) + [0]
  }

  function Padding(length: nat): (s: seq<Byte>)
    ensures (length + |s|) % 64 == 0
  {
    [0x80] + Zeros(ZeroCount(length)) + BigEndianBytes(8 * length, 8)
  }

  /** The five words of a hash value as twenty bytes. */
  function Digest(h: Registers): (s: seq<Byte>)
    ensures |s| == 20
  {
    seq(20, i requires 0 <= i < 20 =>
      WordByte(if i < 4 then h.a else if i < 8 then h.b else if i < 12 then h.c else if i < 16 then h.d else h.e,
               i % 4))
  }

  /** The message digest. FIPS 180-4 defines it for messages of less than 2^64 bits. */
  function Sha1(message: seq<Byte>): (digest: seq<Byte>)
    ensures |digest| == 20
  {
    Digest(Fold(INITIAL_HASH, message + Padding(|message|)))
  }

  /** Hashing is block by block: a prefix of whole blocks may be folded first. */
  lemma {:induction false} FoldAppend(h: Registers, s: seq<Byte>, t: seq<Byte>)
    requires |s| % 64 == 0 && |t| % 64 == 0
    ensures Fold(h, s + t) == Fold(Fold(h, s), t)
    decreases |s|
  {
    if |s| == 0 {
      assert s + t == t;
    } else {
      assert (s + t)[..64] == s[..64];
      assert (s + t)[64..] == s[64..] + t;
      FoldAppend(Compress(h, s[..64]), s[64..], t);
    }
  }
}
