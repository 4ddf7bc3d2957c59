/**
 The compression function as the library computes it: a sixteen-word schedule that is overwritten
 in place, and rounds that rotate the roles of the registers instead of moving their contents
 (section 6.1.3 of FIPS 180-4). It is proved equal to section 6.1.2.
 */
module Sha1Transform {
  import opened Sha1Spec
  import opened Sha1Words

  /** The byte order of the machine, which the library finds out at run time. */
  datatype Platform = LittleEndian | BigEndian

  /** The word that a machine reads from four bytes in memory. */
  function NativeWord(platform: Platform, b0: Byte, b1: Byte, b2: Byte, b3: Byte): Word {
    match platform
    case BigEndian => BigEndianWord(b0, b1, b2, b3)
    case LittleEndian => BigEndianWord(b3, b2, b1, b0)
  }

  /** The four bytes of word `i` of a block, read as one word. */
  function NativeWordAt(platform: Platform, bytes: seq<Byte>, i: nat): Word
    requires |bytes| == 64 && i < 16
  {
    NativeWord(platform, bytes[4 * i], bytes[4 * i + 1], bytes[4 * i + 2], bytes[4 * i + 3])
  }

  function ToBigEndian(platform: Platform, word: Word): Word {
    match platform
    case BigEndian => word
    case LittleEndian => SwapBytes(word)
  }

  /** The byte swap of the first sixteen rounds yields the big-endian word on either machine. */
  lemma NativeWordToBigEndian(platform: Platform, bytes: seq<Byte>, i: nat)
    requires |bytes| == 64 && i < 16
    ensures ToBigEndian(platform, NativeWordAt(platform, bytes, i)) == BlockWord(bytes, i)
  {
    hide SwapBytes, BigEndianWord;
    SwapBytesReverses(bytes[4 * i], bytes[4 * i + 1], bytes[4 * i + 2], bytes[4 * i + 3]);
  }

  /** A round macro leaves in `z` and `w` what the round of section 6.1.2 leaves in `a` and `c`. */
  lemma MacroIsRound(v: Word, w: Word, x: Word, y: Word, z: Word, i: nat, f: Word, k: Word, word: Word)
    requires f == F(i, w, x, y) && k == K(i)
    ensures Registers(Plus(Plus(Plus(Plus(z, f), word), k), Rotl(v, 5)), v, Rotl(w, 30), x, y)
            == Round(Registers(v, w, x, y, z), i, word)
  {
    hide Rotl, F, K, Plus;
    SumCommutes(z, f, word, k, Rotl(v, 5));
  }

  ghost function Max(a: int, b: int): int { if a < b then b else a }

  /** The workspace before round `i`: the last sixteen schedule words that were computed, each in
      the slot of its number modulo 16, and the block's own words in the slots not yet reached. */
  ghost predicate Window(platform: Platform, block: seq<Word>, bytes: seq<Byte>, i: nat)
    requires |bytes| == 64
  {
    && |block| == 16
    && (forall t :: Max(0, i - 16) <= t < i ==> block[t % 16] == Schedule(bytes, t))
    && (forall t :: i <= t < 16 ==> block[t] == NativeWordAt(platform, bytes, t))
  }

  lemma DistinctSlots(t: nat, i: nat)
    requires t < i < t + 16
    ensures t % 16 != i % 16
  {
  }

  lemma OtherSlot(block: seq<Word>, t: nat, i: nat, word: Word)
    requires |block| == 16 && i < t + 16
    ensures t == i ==> block[i % 16 := word][t % 16] == word
    ensures t < i ==> block[i % 16 := word][t % 16] == block[t % 16]
    ensures i < t < 16 ==> block[i % 16 := word][t] == block[t]
  {
    if t < i { DistinctSlots(t, i); }
  }

  /** Storing word `i` of the schedule in slot `i` modulo 16 moves the window on by one. */
  lemma WindowStep(platform: Platform, block: seq<Word>, bytes: seq<Byte>, i: nat, word: Word)
    requires |bytes| == 64 && Window(platform, block, bytes, i)
    requires word == Schedule(bytes, i)
    ensures Window(platform, block[i % 16 := word], bytes, i + 1)
  {
    hide Schedule, NativeWordAt;
    var block' := block[i % 16 := word];
    forall t | Max(0, i + 1 - 16) <= t < i + 1
      ensures block'[t % 16] == Schedule(bytes, t)
    {
      OtherSlot(block, t, i, word);
    }
    forall t | i + 1 <= t < 16
      ensures block'[t] == NativeWordAt(platform, bytes, t)
    {
      OtherSlot(block, t, i, word);
    }
  }

  /** From round 16 on, the four words that the recurrence needs are still in the window. */
  lemma WindowWord(platform: Platform, block: seq<Word>, bytes: seq<Byte>, i: nat)
    requires |bytes| == 64 && 16 <= i && Window(platform, block, bytes, i)
    ensures Rotl(block[(i + 13) % 16] ^ block[(i + 8) % 16] ^ block[(i + 2) % 16] ^ block[i % 16], 1)
            == Schedule(bytes, i)
  {
    hide Rotl, NativeWordAt, Window, Schedule;
    InWindow(platform, block, bytes, i, 13);
    InWindow(platform, block, bytes, i, 8);
    InWindow(platform, block, bytes, i, 2);
    InWindow(platform, block, bytes, i, 0);
    ScheduleStep(bytes, i);
  }

  lemma InWindow(platform: Platform, block: seq<Word>, bytes: seq<Byte>, i: nat, n: nat)
    requires |bytes| == 64 && 16 <= i && n < 16 && Window(platform, block, bytes, i)
    ensures |block| == 16 && block[(i + n) % 16] == Schedule(bytes, i + n - 16)
  {
    hide NativeWordAt, Schedule;
    assert (i + n - 16) % 16 == (i + n) % 16;
  }

  lemma ScheduleStep(bytes: seq<Byte>, t: nat)
    requires |bytes| == 64 && 16 <= t
    ensures Schedule(bytes, t)
            == Rotl(Schedule(bytes, t - 3) ^ Schedule(bytes, t - 8) ^ Schedule(bytes, t - 14) ^ Schedule(bytes, t - 16), 1)
  {
    hide Rotl;
  }

  lemma FirstWords(platform: Platform, block: seq<Word>, bytes: seq<Byte>, i: nat)
    requires |bytes| == 64 && i < 16 && Window(platform, block, bytes, i)
    ensures |block| == 16 && i % 16 == i && ToBigEndian(platform, block[i]) == Schedule(bytes, i)
  {
    hide ToBigEndian, NativeWordAt, BlockWord;
    NativeWordToBigEndian(platform, bytes, i);
  }

  method Blk0(platform: Platform, block: array<Word>, ghost bytes: seq<Byte>, i: nat) returns (word: Word)
    requires |bytes| == 64 && i < 16 && Window(platform, block[..], bytes, i)
    modifies block
    ensures Window(platform, block[..], bytes, i + 1)
    ensures word == Schedule(bytes, i)
  {
    hide ToBigEndian, NativeWordAt, Window, Schedule, BlockWord;
    FirstWords(platform, block[..], bytes, i);
    word := ToBigEndian(platform, block[i]);
    WindowStep(platform, block[..], bytes, i, word);
    block[i] := word;
    assert block[..] == old(block[..])[i := word];
  }

  method Blk(platform: Platform, block: array<Word>, ghost bytes: seq<Byte>, i: nat) returns (word: Word)
    requires |bytes| == 64 && 16 <= i && Window(platform, block[..], bytes, i)
    modifies block
    ensures Window(platform, block[..], bytes, i + 1)
    ensures word == Schedule(bytes, i)
  {
    hide Rotl, Schedule, NativeWordAt;
    word := Rotl(block[(i + 13) % 16] ^ block[(i + 8) % 16] ^ block[(i + 2) % 16] ^ block[i % 16], 1);
    WindowWord(platform, block[..], bytes, i);
    WindowStep(platform, block[..], bytes, i, word);
    block[i % 16] := word;
    assert block[..] == old(block[..])[i % 16 := word];
  }

  // The five round macros. Each returns the new values of its arguments `z` and `w`.

  method R0(platform: Platform, block: array<Word>, ghost bytes: seq<Byte>,
            v: Word, w: Word, x: Word, y: Word, z: Word, i: nat) returns (z': Word, w': Word)
    requires |bytes| == 64 && i < 16 && Window(platform, block[..], bytes, i)
    modifies block
    ensures Window(platform, block[..], bytes, i + 1)
    ensures Registers(z', v, w', x, y) == Round(Registers(v, w, x, y, z), i, Schedule(bytes, i))
  {
    hide Rotl, Round, Schedule, Window, Plus, Ch, Parity, Maj, Choose, Majority;
    var word := Blk0(platform, block, bytes, i);
    z' := Plus(Plus(Plus(Plus(z, Choose(w, x, y)), word), 0x5A827999), Rotl(v, 5));
    w' := Rotl(w, 30);
    ChooseIsCh(w, x, y);
    MacroIsRound(v, w, x, y, z, i, Choose(w, x, y), 0x5A827999, word);
  }

  method R1(platform: Platform, block: array<Word>, ghost bytes: seq<Byte>,
            v: Word, w: Word, x: Word, y: Word, z: Word, i: nat) returns (z': Word, w': Word)
    requires |bytes| == 64 && 16 <= i < 20 && Window(platform, block[..], bytes, i)
    modifies block
    ensures Window(platform, block[..], bytes, i + 1)
    ensures Registers(z', v, w', x, y) == Round(Registers(v, w, x, y, z), i, Schedule(bytes, i))
  {
    hide Rotl, Round, Schedule, Window, Plus, Ch, Parity, Maj, Choose, Majority;
    var word := Blk(platform, block, bytes, i);
    z' := Plus(Plus(Plus(Plus(z, Choose(w, x, y)), word), 0x5A827999), Rotl(v, 5));
    w' := Rotl(w, 30);
    ChooseIsCh(w, x, y);
    MacroIsRound(v, w, x, y, z, i, Choose(w, x, y), 0x5A827999, word);
  }

  method R2(platform: Platform, block: array<Word>, ghost bytes: seq<Byte>,
            v: Word, w: Word, x: Word, y: Word, z: Word, i: nat) returns (z': Word, w': Word)
    requires |bytes| == 64 && 20 <= i < 40 && Window(platform, block[..], bytes, i)
    modifies block
    ensures Window(platform, block[..], bytes, i + 1)
    ensures Registers(z', v, w', x, y) == Round(Registers(v, w, x, y, z), i, Schedule(bytes, i))
  {
    hide Rotl, Round, Schedule, Window, Plus, Ch, Parity, Maj, Choose, Majority;
    var word := Blk(platform, block, bytes, i);
    z' := Plus(Plus(Plus(Plus(z, Parity(w, x, y)), word), 0x6ED9EBA1), Rotl(v, 5));
    w' := Rotl(w, 30);
    MacroIsRound(v, w, x, y, z, i, Parity(w, x, y), 0x6ED9EBA1, word);
  }

  method R3(platform: Platform, block: array<Word>, ghost bytes: seq<Byte>,
            v: Word, w: Word, x: Word, y: Word, z: Word, i: nat) returns (z': Word, w': Word)
    requires |bytes| == 64 && 40 <= i < 60 && Window(platform, block[..], bytes, i)
    modifies block
    ensures Window(platform, block[..], bytes, i + 1)
    ensures Registers(z', v, w', x, y) == Round(Registers(v, w, x, y, z), i, Schedule(bytes, i))
  {
    hide Rotl, Round, Schedule, Window, Plus, Ch, Parity, Maj, Choose, Majority;
    var word := Blk(platform, block, bytes, i);
    z' := Plus(Plus(Plus(Plus(z, Majority(w, x, y)), word), 0x8F1BBCDC), Rotl(v, 5));
    w' := Rotl(w, 30);
    MajorityIsMaj(w, x, y);
    MacroIsRound(v, w, x, y, z, i, Majority(w, x, y), 0x8F1BBCDC, word);
  }

  method R4(platform: Platform, block: array<Word>, ghost bytes: seq<Byte>,
            v: Word, w: Word, x: Word, y: Word, z: Word, i: nat) returns (z': Word, w': Word)
    requires |bytes| == 64 && 60 <= i < 80 && Window(platform, block[..], bytes, i)
    modifies block
    ensures Window(platform, block[..], bytes, i + 1)
    ensures Registers(z', v, w', x, y) == Round(Registers(v, w, x, y, z), i, Schedule(bytes, i))
  {
    hide Rotl, Round, Schedule, Window, Plus, Ch, Parity, Maj, Choose, Majority;
    var word := Blk(platform, block, bytes, i);
    z' := Plus(Plus(Plus(Plus(z, Parity(w, x, y)), word), 0xCA62C1D6), Rotl(v, 5));
    w' := Rotl(w, 30);
    MacroIsRound(v, w, x, y, z, i, Parity(w, x, y), 0xCA62C1D6, word);
  }

  /** The macro that the unrolled table of rounds names for round `i`. */
  method R(platform: Platform, block: array<Word>, ghost bytes: seq<Byte>,
           v: Word, w: Word, x: Word, y: Word, z: Word, i: nat) returns (z': Word, w': Word)
    requires |bytes| == 64 && i < 80 && Window(platform, block[..], bytes, i)
    modifies block
    ensures Window(platform, block[..], bytes, i + 1)
    ensures Registers(z', v, w', x, y) == Round(Registers(v, w, x, y, z), i, Schedule(bytes, i))
  {
    if i < 16 {
      z', w' := R0(platform, block, bytes, v, w, x, y, z, i);
    } else if i < 20 {
      z', w' := R1(platform, block, bytes, v, w, x, y, z, i);
    } else if i < 40 {
      z', w' := R2(platform, block, bytes, v, w, x, y, z, i);
    } else if i < 60 {
      z', w' := R3(platform, block, bytes, v, w, x, y, z, i);
    } else {
      z', w' := R4(platform, block, bytes, v, w, x, y, z, i);
    }
  }

  function ToRegisters(state: seq<Word>): Registers
    requires |state| == 5
  {
    Registers(state[0], state[1], state[2], state[3], state[4])
  }

  /** Five rounds of the unrolled table; after them the roles are back where they started. */
  method FiveRounds(platform: Platform, block: array<Word>, bytes: seq<Byte>, r: Registers, i: nat,
                    ghost h: Registers) returns (r': Registers)
    requires |bytes| == 64 && i <= 75 && Window(platform, block[..], bytes, i)
    requires r == Rounds(h, bytes, i)
    modifies block
    ensures Window(platform, block[..], bytes, i + 5)
    ensures r' == Rounds(h, bytes, i + 5)
  {
    hide Round, Schedule, Window;
    var a, b, c, d, e := r.a, r.b, r.c, r.d, r.e;
    e, b := R(platform, block, bytes, a, b, c, d, e, i);
    assert Registers(e, a, b, c, d) == Rounds(h, bytes, i + 1);
    d, a := R(platform, block, bytes, e, a, b, c, d, i + 1);
    assert Registers(d, e, a, b, c) == Rounds(h, bytes, i + 2);
    c, e := R(platform, block, bytes, d, e, a, b, c, i + 2);
    assert Registers(c, d, e, a, b) == Rounds(h, bytes, i + 3);
    b, d := R(platform, block, bytes, c, d, e, a, b, i + 3);
    assert Registers(b, c, d, e, a) == Rounds(h, bytes, i + 4);
    a, c := R(platform, block, bytes, b, c, d, e, a, i + 4);
    r' := Registers(a, b, c, d, e);
  }

  method CopyBlock(platform: Platform, bytes: seq<Byte>) returns (block: array<Word>)
    requires |bytes| == 64
    ensures fresh(block) && Window(platform, block[..], bytes, 0)
  {
    hide NativeWordAt, Schedule;
    block := new Word[16](i requires 0 <= i < 16 => NativeWordAt(platform, bytes, i));
  }

  /** The eighty rounds, on a copy of the block. */
  method AllRounds(platform: Platform, h: Registers, bytes: seq<Byte>) returns (r: Registers)
    requires |bytes| == 64
    ensures r == Rounds(h, bytes, 80)
  {
    hide Round, Window;
    var block := CopyBlock(platform, bytes);
    r := h;
    var i := 0;
    while i < 80
      invariant i % 5 == 0 && i <= 80
      invariant Window(platform, block[..], bytes, i)
      invariant r == Rounds(h, bytes, i)
    {
      r := FiveRounds(platform, block, bytes, r, i, h);
      i := i + 5;
    }
  }

  /** Hashes one block into `state`. */
  method Transform(platform: Platform, state: array<Word>, bytes: seq<Byte>)
    requires state.Length == 5 && |bytes| == 64
    modifies state
    ensures ToRegisters(state[..]) == Compress(old(ToRegisters(state[..])), bytes)
  {
    hide Plus, Rounds;
    var r := AllRounds(platform, ToRegisters(state[..]), bytes);
    state[0] := Plus(state[0], r.a);
    state[1] := Plus(state[1], r.b);
    state[2] := Plus(state[2], r.c);
    state[3] := Plus(state[3], r.d);
    state[4] := Plus(state[4], r.e);
  }
}
