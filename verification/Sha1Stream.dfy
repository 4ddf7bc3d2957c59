/**
 The streaming interface of SHA-1: a context that is fed in pieces of any length and then closed. The
 context keeps the hash of the whole blocks so far, the unfinished tail, and the bit length in two
 32-bit halves.
 */
module Sha1Stream {
  import opened Arithmetic
  import opened Bits
  import opened ByteOrder
  import opened Chunks
  import opened Sha1Spec
  import opened Sha1Transform
  import opened Sha1Words

  /** The length of the whole blocks of a message of `n` bytes. */
  function Whole(n: nat): (w: nat)
    ensures w % 64 == 0 && w <= n < w + 64
  {
    n / 64 * 64
  }

  /** The two halves hold the bit length of `length` bytes, modulo 2^64. */
  ghost predicate Counts(count0: nat, count1: nat, length: nat) {
    && count0 < 0x1_0000_0000 && count1 < 0x1_0000_0000
    && count1 * 0x1_0000_0000 + count0 == 8 * length % 0x1_0000_0000_0000_0000
  }

  /** Byte `i` of the length field: the high half first, each half from its top byte. */
  function CountByte(count0: nat, count1: nat, i: nat): Byte
    requires i < 8
  {
    ToByte((if i >= 4 then count0 else count1) / Power256(3 - i % 4) % 256)
  }

  lemma WholeIs(n: nat, w: nat)
    requires w % 64 == 0 && w <= n < w + 64
    ensures Whole(n) == w
  {
  }

  /** Whole blocks behind `start` end where the sum with 63 has 32 bits. */
  lemma NoWrap(i: nat, start: nat, length: nat)
    requires start <= i <= length && (i - start) % 64 == 0
    requires start <= 64 && length + 64 - start < 0x1_0000_0000
    ensures (i + 63) % 0x1_0000_0000 == i + 63
  {
  }

  lemma PartBehind(full: seq<Byte>, n: nat, i: nat, k: nat)
    requires i <= k && n + k <= |full|
    ensures full[n..][i..k] == full[n + i..n + k]
  {
  }

  class Context {
    const state: array<Word>
    var count0: nat
    var count1: nat
    const buffer: array<Byte>
    ghost var message: seq<Byte>

    /** The state is the hash of the first `p` bytes of `full`, which are whole blocks. */
    ghost predicate Hashed(full: seq<Byte>, p: nat)
      reads state
    {
      && state.Length == 5 && p % 64 == 0 && p <= |full|
      && ToRegisters(state[..]) == Fold(INITIAL_HASH, full[..p])
    }

    ghost predicate Valid()
      reads this, state, buffer
    {
      && state.Length == 5 && buffer.Length == 64
      && Counts(count0, count1, |message|)
      && Hashed(message, Whole(|message|))
      && buffer[..|message| - Whole(|message|)] == message[Whole(|message|)..]
    }

    constructor Init()
      ensures Valid() && fresh(state) && fresh(buffer) && message == []
    {
      hide Compress;
      state := new Word[] [0x67452301, 0xEFCDAB89, 0x98BADCFE, 0x10325476, 0xC3D2E1F0];
      buffer := new Byte[64];
      count0, count1 := 0, 0;
      message := [];
      new;
      assert ToRegisters(state[..]) == INITIAL_HASH;
    }

    /** `memcpy` into the buffer from position `at`. */
    method Store(at: nat, data: seq<Byte>)
      requires buffer.Length == 64 && at + |data| <= 64
      modifies buffer
      ensures buffer[..at + |data|] == old(buffer[..at]) + data
    {
      forall k | 0 <= k < |data| {
        buffer[at + k] := data[k];
      }
    }

    /** Adds the length of the new data to the two halves of the bit count. */
    method Count(len: nat, ghost length: nat)
      requires len < 0x1_0000_0000 && Counts(count0, count1, length)
      modifies `count0, `count1
      ensures Counts(count0, count1, length + len)
    {
      ModAdd(8 * len, 8 * length, 0x1_0000_0000_0000_0000);
      CountSum(count0, count1, len);
      count0 := (count0 + 8 * len % 0x1_0000_0000) % 0x1_0000_0000;
      if count0 < 8 * len % 0x1_0000_0000 {
        count1 := (count1 + 1) % 0x1_0000_0000;
      }
      count1 := (count1 + len / 0x2000_0000) % 0x1_0000_0000;
    }

    /** Hashes the block that follows the first `p` bytes. */
    method HashBlock(platform: Platform, block: seq<Byte>, ghost full: seq<Byte>, ghost p: nat)
      requires p + 64 <= |full| && block == full[p..p + 64] && Hashed(full, p)
      modifies state
      ensures Hashed(full, p + 64)
    {
      hide Compress, Fold;
      FoldBlock(full, p);
      Transform(platform, state, block);
    }

    lemma AtBlock(full: seq<Byte>, p: nat)
      requires Hashed(full, p)
      ensures p % 64 == 0
    {
    }

    /** Hashes the whole blocks of `data` from `start` on; `data` is what follows the first `n` bytes. */
    method HashBlocks(platform: Platform, data: seq<Byte>, start: nat, ghost full: seq<Byte>, ghost n: nat)
      returns (i: nat)
      requires n + |data| == |full| && full[n..] == data && start <= |data|
      requires start <= 64 && |data| + 64 - start < 0x1_0000_0000
      requires Hashed(full, n + start)
      modifies state
      ensures start <= i <= |data| < i + 64 && (n + i) % 64 == 0 && Hashed(full, n + i)
    {
      hide Hashed;
      i := start;
      while (i + 63) % 0x1_0000_0000 < |data|
        invariant start <= i <= |data| && (i - start) % 64 == 0
        invariant Hashed(full, n + i)
        decreases |data| - i
      {
        NoWrap(i, start, |data|);
        PartBehind(full, n, i, i + 64);
        HashBlock(platform, data[i..i + 64], full, n + i);
        i := i + 64;
      }
      NoWrap(i, start, |data|);
      AtBlock(full, n + i);
    }

    /** Fills up the tail with the first bytes of `data` and hashes it. */
    method CompleteBlock(platform: Platform, data: seq<Byte>, j: nat, ghost full: seq<Byte>, ghost n: nat)
      returns (i: nat)
      requires buffer.Length == 64 && j < 64 && j + |data| > 63
      requires j <= n && n + |data| == |full| && full[n - j..] == buffer[..j] + data
      requires Hashed(full, n - j)
      modifies state, buffer
      ensures i == 64 - j && Hashed(full, n + i)
    {
      hide Fold;
      i := 64 - j;
      assert full[n - j..n + i] == full[n - j..][..64] == buffer[..j] + data[..i];
      Store(j, data[..i]);
      assert buffer[..] == buffer[..j + |data[..i]|];
      HashBlock(platform, buffer[..], full, n - j);
    }

    /** Hashes the blocks that the tail, of length `j`, and `data` complete. Returns where the new tail
        starts in `data` and how much of the old one is left. The sum that decides whether a block is
        complete has 32 bits; where it wraps, nothing is hashed. */
    method Blocks(platform: Platform, data: seq<Byte>, j: nat, ghost full: seq<Byte>, ghost n: nat)
      returns (i: nat, rest: nat)
      requires buffer.Length == 64 && j < 64 && |data| < 0x1_0000_0000
      requires n - j == Whole(n) && n + |data| == |full|
      requires full[n..] == data && full[n - j..] == buffer[..j] + data
      requires Hashed(full, n - j)
      modifies state, buffer
      ensures j + |data| >= 0x1_0000_0000 ==> i == 0 && rest == j
      ensures j + |data| < 0x1_0000_0000 ==>
        && Hashed(full, Whole(|full|))
        && i <= |data| && rest + |data| - i < 64
        && full[Whole(|full|)..] == buffer[..rest] + data[i..]
    {
      hide Hashed;
      if (j + |data|) % 0x1_0000_0000 > 63 {
        i := CompleteBlock(platform, data, j, full, n);
        i := HashBlocks(platform, data, i, full, n);
        rest := 0;
        WholeIs(|full|, n + i);
        PartBehind(full, n, i, |data|);
        assert full[n + i..] == data[i..] == buffer[..rest] + data[i..];
      } else {
        i := 0;
        rest := j;
        if j + |data| < 0x1_0000_0000 { WholeIs(|full|, n - j); }
      }
    }

    /** Feeds `data`, whose length is a 32-bit number. The call stays inside the 64-byte buffer exactly
        when the tail and the data together do not reach 2^32 bytes. */
    method Update(platform: Platform, data: seq<Byte>) returns (ok: bool)
      requires Valid() && |data| < 0x1_0000_0000
      modifies this, state, buffer
      ensures ok <==> |old(message)| % 64 + |data| < 0x1_0000_0000
      ensures ok ==> Valid() && message == old(message) + data
    {
      hide BitAnd, Counts, Hashed;
      var j := BitAnd(count0 / 8, 63);
      TailLength(count0, count1, |message|);
      HashedExtends(message + data);
      TailAnd(message, data, |message| - j);
      Count(|data|, |message|);
      var i, rest := Blocks(platform, data, j, message + data, |message|);
      ok := rest + |data| - i <= 64;
      if ok {
        Store(rest, data[i..]);
        message := message + data;
      }
    }

    /** Appends the 0x80 byte and zeros up to the place of the length. */
    method Pad(platform: Platform)
      requires Valid()
      modifies this, state, buffer
      ensures Valid()
      ensures message == old(message) + [0x80] + Zeros(ZeroCount(|old(message)|))
    {
      hide Valid, BitAnd, ZeroCount;
      ghost var length, count := |message|, 0;
      var ok := Update(platform, [0x80]);
      PaddingTest();
      while BitAnd(count0, 504) != 448
        invariant Valid() && message == old(message) + [0x80] + Zeros(count)
        invariant |message| == length + 1 + count && count <= ZeroCount(length)
        invariant BitAnd(count0, 504) == 8 * (|message| % 64)
        decreases ZeroCount(length) - count
      {
        ok := Update(platform, [0]);
        count := count + 1;
        PaddingTest();
      }
      ZeroCountIs(length, count);
    }

    lemma PaddingTest()
      requires Valid()
      ensures BitAnd(count0, 504) == 8 * (|message| % 64)
    {
      LengthBits(count0, count1, |message|);
    }

    /** The bit count as eight bytes, most significant first. */
    method LengthBytes() returns (finalcount: array<Byte>)
      requires Valid()
      ensures fresh(finalcount) && finalcount[..] == BigEndianBytes(8 * |message|, 8)
    {
      hide BigEndianBytes, CountByte;
      finalcount := new Byte[8];
      ghost var bytes := BigEndianBytes(8 * |message|, 8);
      for i := 0 to 8
        invariant forall k :: 0 <= k < i ==> finalcount[k] == bytes[k]
      {
        LengthByte(count0, count1, |message|, i);
        finalcount[i] := CountByte(count0, count1, i);
      }
    }

    method WriteDigest(digest: array<Byte>)
      requires state.Length == 5 && digest.Length == 20
      modifies digest
      ensures digest[..] == Digest(old(ToRegisters(state[..])))
    {
      hide WordByte;
      for i := 0 to 20
        invariant forall k :: 0 <= k < i ==> digest[k] == Digest(old(ToRegisters(state[..])))[k]
      {
        digest[i] := WordByte(state[i / 4], i % 4);
      }
    }

    /** Pads the message, hashes it to the end and writes the digest. */
    method Final(platform: Platform, digest: array<Byte>)
      requires Valid() && digest.Length == 20 && digest != buffer
      modifies this, state, buffer, digest
      ensures digest[..] == Sha1(old(message))
    {
      hide Valid, Fold;
      var finalcount := LengthBytes();
      Pad(platform);
      var ok := Update(platform, finalcount[..]);
      assert message == old(message) + Padding(|old(message)|);
      WholeMessage();
      WriteDigest(digest);
    }

    lemma WholeMessage()
      requires Valid() && |message| % 64 == 0
      ensures state.Length == 5 && ToRegisters(state[..]) == Fold(INITIAL_HASH, message)
    {
      assert message[..|message|] == message;
    }

    /** A hash of a prefix of the message is one of the extended message. */
    lemma HashedExtends(full: seq<Byte>)
      requires Hashed(message, Whole(|message|)) && message <= full
      ensures Hashed(full, Whole(|message|))
    {
      assert message[..Whole(|message|)] == full[..Whole(|message|)];
    }
  }

  lemma TailAnd(message: seq<Byte>, data: seq<Byte>, k: nat)
    requires k <= |message|
    ensures (message + data)[k..] == message[k..] + data && (message + data)[|message|..] == data
  {
  }

  /** The carry test and the high part of the length make the two halves one 64-bit sum. */
  lemma CountSum(count0: nat, count1: nat, len: nat)
    requires len < 0x1_0000_0000 && count0 < 0x1_0000_0000 && count1 < 0x1_0000_0000
    ensures
      var low := 8 * len % 0x1_0000_0000;
      var sum := (count0 + low) % 0x1_0000_0000;
      var high := if sum < low then (count1 + 1) % 0x1_0000_0000 else count1;
      && sum < 0x1_0000_0000
      && (high + len / 0x2000_0000) % 0x1_0000_0000 * 0x1_0000_0000 + sum
      == (count1 * 0x1_0000_0000 + count0 + 8 * len) % 0x1_0000_0000_0000_0000
  {
    var top := len / 0x2000_0000;
    var low := 8 * len - top * 0x1_0000_0000;
    DivModUnique(8 * len, 0x1_0000_0000, top, low);
    var carry := if count0 + low < 0x1_0000_0000 then 0 else 1;
    var sum := count0 + low - carry * 0x1_0000_0000;
    DivModUnique(count0 + low, 0x1_0000_0000, carry, sum);
    var high := count1 + carry + top;
    var q, r := high / 0x1_0000_0000, high % 0x1_0000_0000;
    ModAdd(top, count1 + carry, 0x1_0000_0000);
    DivModUnique(count1 * 0x1_0000_0000 + count0 + 8 * len, 0x1_0000_0000_0000_0000, q, r * 0x1_0000_0000 + sum);
  }

  /** Bits 3 to 8 of the bit count are the length of the tail. */
  lemma TailLength(count0: nat, count1: nat, length: nat)
    requires Counts(count0, count1, length)
    ensures BitAnd(count0 / 8, 63) == length % 64 == length - Whole(length)
  {
    BitAndMask(count0 / 8, 6);
    assert Pow2(6) == 64;
    var q := 8 * length / 0x1_0000_0000_0000_0000;
    assert count0 == 8 * (length - q * 0x2000_0000_0000_0000 - count1 * 0x2000_0000);
    assert count0 / 8 == length + (-q * 0x80_0000_0000_0000 - count1 * 0x80_0000) * 64;
    ModAddMultiple(length, -q * 0x80_0000_0000_0000 - count1 * 0x80_0000, 64);
  }

  lemma ZeroCountIs(length: nat, k: nat)
    requires (length + 1 + k) % 64 == 56 && k < 64
    ensures k == ZeroCount(length)
  {
  }

  /** The bits that the padding loop tests. */
  lemma LengthBits(count0: nat, count1: nat, length: nat)
    requires Counts(count0, count1, length)
    ensures BitAnd(count0, 504) == 8 * (length % 64)
  {
    hide BitAnd;
    TailLength(count0, count1, length);
    BitAndDouble(count0, 252);
    BitAndDouble(count0 / 2, 126);
    BitAndDouble(count0 / 2 / 2, 63);
    assert count0 / 2 / 2 / 2 == count0 / 8;
  }

  /** The bytes of the two halves of the count are the bytes of the 64-bit length. */
  lemma LengthByte(count0: nat, count1: nat, length: nat, i: nat)
    requires i < 8 && Counts(count0, count1, length)
    ensures CountByte(count0, count1, i) == BigEndianBytes(8 * length, 8)[i]
  {
    hide Power256, Counts, ToByte, ByteOrder.BigEndian;
    BigEndianAt(8 * length, 8, i);
    if i >= 4 {
      LowHalfByte(count0, count1, length, 7 - i);
    } else {
      HighHalfByte(count0, count1, length, 3 - i);
    }
  }

  lemma LowHalfByte(count0: nat, count1: nat, length: nat, n: nat)
    requires n < 4 && Counts(count0, count1, length)
    ensures 8 * length / Power256(n) % 256 == count0 / Power256(n) % 256
  {
    hide Power256;
    var q := 8 * length / 0x1_0000_0000_0000_0000;
    LowByte(count0, q * 0x1_0000_0000 + count1, n);
  }

  lemma HighHalfByte(count0: nat, count1: nat, length: nat, n: nat)
    requires n < 4 && Counts(count0, count1, length)
    ensures 8 * length / Power256(n + 4) % 256 == count1 / Power256(n) % 256
  {
    hide Power256;
    var q := 8 * length / 0x1_0000_0000_0000_0000;
    DivModUnique(8 * length, 0x1_0000_0000, q * 0x1_0000_0000 + count1, count0);
    DivDiv(8 * length, 0x1_0000_0000, Power256(n));
    Power256Four(n);
    LowByte(count1, q, n);
  }

  lemma Power256Four(n: nat)
    ensures Power256(n + 4) == 0x1_0000_0000 * Power256(n)
  {
    assert Power256(n + 4) == 256 * Power256(n + 3);
    assert Power256(n + 3) == 256 * Power256(n + 2);
    assert Power256(n + 2) == 256 * Power256(n + 1);
  }

  lemma LowByte(low: nat, high: nat, n: nat)
    requires low < 0x1_0000_0000 && n < 4
    ensures (high * 0x1_0000_0000 + low) / Power256(n) % 256 == low / Power256(n) % 256
  {
    assert Power256(0) == 1 && Power256(1) == 256 && Power256(2) == 0x1_0000 && Power256(3) == 0x100_0000;
    if n == 0 {
      ModAddMultiple(low, high * 0x100_0000, 256);
    } else if n == 1 {
      assert (high * 0x1_0000_0000 + low) / 256 == low / 256 + high * 0x1_0000 * 256;
      ModAddMultiple(low / 256, high * 0x1_0000, 256);
    } else if n == 2 {
      assert (high * 0x1_0000_0000 + low) / 0x1_0000 == low / 0x1_0000 + high * 0x100 * 256;
      ModAddMultiple(low / 0x1_0000, high * 0x100, 256);
    } else {
      assert (high * 0x1_0000_0000 + low) / 0x100_0000 == low / 0x100_0000 + high * 256;
      ModAddMultiple(low / 0x100_0000, high, 256);
    }
  }

  lemma FoldBlock(full: seq<Byte>, p: nat)
    requires p % 64 == 0 && p + 64 <= |full|
    ensures Fold(INITIAL_HASH, full[..p + 64]) == Compress(Fold(INITIAL_HASH, full[..p]), full[p..p + 64])
  {
    hide Compress;
    var s, t := full[..p], full[p..p + 64];
    assert full[..p + 64] == s + t;
    FoldAppend(INITIAL_HASH, s, t);
    assert t[..64] == t && t[64..] == [];
  }

  /** Whether every update keeps within the range of the 32-bit sum of tail and data. */
  ghost predicate WithinRange(chunks: seq<seq<Byte>>) {
    forall k :: 0 <= k < |chunks| ==> |Concat(chunks[..k])| % 64 + |chunks[k]| < 0x1_0000_0000
  }

  /** However a message is cut into updates, the digest is that of the whole message; the updates stay
      inside the buffer exactly when none of them wraps the 32-bit sum. */
  method HashChunks(platform: Platform, chunks: seq<seq<Byte>>) returns (ok: bool, digest: array<Byte>)
    requires forall k :: 0 <= k < |chunks| ==> |chunks[k]| < 0x1_0000_0000
    ensures ok <==> WithinRange(chunks)
    ensures ok ==> digest.Length == 20 && digest[..] == Sha1(Concat(chunks))
  {
    hide Sha1, Context.Valid;
    var context := new Context.Init();
    digest := new Byte[20];
    for k := 0 to |chunks|
      invariant context.Valid() && context.message == Concat(chunks[..k])
      invariant fresh(context) && fresh(context.state) && fresh(context.buffer)
      invariant forall m :: 0 <= m < k ==> |Concat(chunks[..m])| % 64 + |chunks[m]| < 0x1_0000_0000
    {
      ConcatNext(chunks, k);
      ok := context.Update(platform, chunks[k]);
      if !ok { return; }
    }
    assert chunks[..|chunks|] == chunks;
    context.Final(platform, digest);
    ok := true;
  }

  /** A waiting byte and then 2^32 - 1 more is the smallest update that fails. */
  lemma WaitingByteThenMost(b: Byte, data: seq<Byte>)
    requires |data| < 0x1_0000_0000
    ensures WithinRange([[b], data]) <==> |data| != 0xFFFF_FFFF
  {
    var chunks := [[b], data];
    assert chunks[..0] == [] && chunks[..1] == [[b]];
    assert Concat(chunks[..1]) == [b];
    assert WithinRange(chunks) ==> |Concat(chunks[..1])| % 64 + |chunks[1]| < 0x1_0000_0000;
    assert |Concat(chunks[..0])| % 64 + |chunks[0]| == 1;
  }
}
