/** The known answer of FIPS 180-4 for the message "abc": every constant of the specification takes part in it. */
module Sha1Answer {
  import opened Arithmetic
  import opened ByteOrder
  import opened Sha1Spec
  import opened Sha1Words

  /** The message, the bit 1, zeros and the length of 24 bits. */
  function AbcBlock(): (s: seq<Byte>)
    ensures |s| == 64
  {
    [97, 98, 99, 128] + seq(59, _ => 0) + [24]
  }

  lemma AbcBytes()
    ensures AbcBlock()[0] == 97 && AbcBlock()[1] == 98 && AbcBlock()[2] == 99 && AbcBlock()[3] == 128
    ensures AbcBlock()[63] == 24 && forall i :: 4 <= i < 63 ==> AbcBlock()[i] == 0
  {
  }

  lemma FirstWord(block: seq<Byte>, t: nat, b0: Byte, b1: Byte, b2: Byte, b3: Byte, w: Word)
    requires |block| == 64 && t < 16
    requires block[4 * t] == b0 && block[4 * t + 1] == b1 && block[4 * t + 2] == b2 && block[4 * t + 3] == b3
    requires BigEndianWord(b0, b1, b2, b3) == w
    ensures Schedule(block, t) == w
  {
  }

  lemma SmallWords()
    ensures BigEndianWord(97, 98, 99, 128) == 0x61626380
    ensures BigEndianWord(0, 0, 0, 0) == 0 && BigEndianWord(0, 0, 0, 24) == 24
  {
  }

  lemma NextWord(block: seq<Byte>, t: nat, w3: Word, w8: Word, w14: Word, w16: Word, w: Word)
    requires |block| == 64 && 16 <= t && Rotl(w3 ^ w8 ^ w14 ^ w16, 1) == w
    requires Schedule(block, t - 3) == w3 && Schedule(block, t - 8) == w8
    requires Schedule(block, t - 14) == w14 && Schedule(block, t - 16) == w16
    ensures Schedule(block, t) == w
  {
    hide Rotl;
  }

  lemma NoRounds(h: Registers, block: seq<Byte>)
    requires |block| == 64
    ensures Rounds(h, block, 0) == h
  {
  }

  lemma NextRound(h: Registers, block: seq<Byte>, n: nat)
    requires |block| == 64
    ensures Rounds(h, block, n + 1) == Round(Rounds(h, block, n), n, Schedule(block, n))
  {
    hide Schedule, Round;
  }

  // ---- The schedule and the rounds ----

  lemma AbcBlockWords0()
    ensures Schedule(AbcBlock(), 0) == 0x61626380 && Schedule(AbcBlock(), 1) == 0x00000000
    ensures Schedule(AbcBlock(), 2) == 0x00000000 && Schedule(AbcBlock(), 3) == 0x00000000
    ensures Schedule(AbcBlock(), 4) == 0x00000000 && Schedule(AbcBlock(), 5) == 0x00000000
    ensures Schedule(AbcBlock(), 6) == 0x00000000 && Schedule(AbcBlock(), 7) == 0x00000000
    ensures Schedule(AbcBlock(), 8) == 0x00000000 && Schedule(AbcBlock(), 9) == 0x00000000
    ensures Schedule(AbcBlock(), 10) == 0x00000000 && Schedule(AbcBlock(), 11) == 0x00000000
    ensures Schedule(AbcBlock(), 12) == 0x00000000 && Schedule(AbcBlock(), 13) == 0x00000000
    ensures Schedule(AbcBlock(), 14) == 0x00000000 && Schedule(AbcBlock(), 15) == 0x00000018
  {
    hide AbcBlock, BigEndianWord, Schedule;
    AbcBytes();
    SmallWords();
    FirstWord(AbcBlock(), 0, 97, 98, 99, 128, 0x61626380);
    FirstWord(AbcBlock(), 1, 0, 0, 0, 0, 0x00000000);
    FirstWord(AbcBlock(), 2, 0, 0, 0, 0, 0x00000000);
    FirstWord(AbcBlock(), 3, 0, 0, 0, 0, 0x00000000);
    FirstWord(AbcBlock(), 4, 0, 0, 0, 0, 0x00000000);
    FirstWord(AbcBlock(), 5, 0, 0, 0, 0, 0x00000000);
    FirstWord(AbcBlock(), 6, 0, 0, 0, 0, 0x00000000);
    FirstWord(AbcBlock(), 7, 0, 0, 0, 0, 0x00000000);
    FirstWord(AbcBlock(), 8, 0, 0, 0, 0, 0x00000000);
    FirstWord(AbcBlock(), 9, 0, 0, 0, 0, 0x00000000);
    FirstWord(AbcBlock(), 10, 0, 0, 0, 0, 0x00000000);
    FirstWord(AbcBlock(), 11, 0, 0, 0, 0, 0x00000000);
    FirstWord(AbcBlock(), 12, 0, 0, 0, 0, 0x00000000);
    FirstWord(AbcBlock(), 13, 0, 0, 0, 0, 0x00000000);
    FirstWord(AbcBlock(), 14, 0, 0, 0, 0, 0x00000000);
    FirstWord(AbcBlock(), 15, 0, 0, 0, 24, 0x00000018);
  }

  lemma AbcBlockWords1()
    ensures Schedule(AbcBlock(), 16) == 0xC2C4C700 && Schedule(AbcBlock(), 17) == 0x00000000
    ensures Schedule(AbcBlock(), 18) == 0x00000030 && Schedule(AbcBlock(), 19) == 0x85898E01
    ensures Schedule(AbcBlock(), 20) == 0x00000000 && Schedule(AbcBlock(), 21) == 0x00000060
    ensures Schedule(AbcBlock(), 22) == 0x0B131C03 && Schedule(AbcBlock(), 23) == 0x00000030
    ensures Schedule(AbcBlock(), 24) == 0x85898EC1 && Schedule(AbcBlock(), 25) == 0x16263806
    ensures Schedule(AbcBlock(), 26) == 0x00000000 && Schedule(AbcBlock(), 27) == 0x00000180
    ensures Schedule(AbcBlock(), 28) == 0x2C4C700C && Schedule(AbcBlock(), 29) == 0x000000F0
    ensures Schedule(AbcBlock(), 30) == 0x93AFB507 && Schedule(AbcBlock(), 31) == 0x5898E048
  {
    hide Schedule;
    AbcBlockWords0();
    NextWord(AbcBlock(), 16, 0x00000000, 0x00000000, 0x00000000, 0x61626380, 0xC2C4C700);
    NextWord(AbcBlock(), 17, 0x00000000, 0x00000000, 0x00000000, 0x00000000, 0x00000000);
    NextWord(AbcBlock(), 18, 0x00000018, 0x00000000, 0x00000000, 0x00000000, 0x00000030);
    NextWord(AbcBlock(), 19, 0xC2C4C700, 0x00000000, 0x00000000, 0x00000000, 0x85898E01);
    NextWord(AbcBlock(), 20, 0x00000000, 0x00000000, 0x00000000, 0x00000000, 0x00000000);
    NextWord(AbcBlock(), 21, 0x00000030, 0x00000000, 0x00000000, 0x00000000, 0x00000060);
    NextWord(AbcBlock(), 22, 0x85898E01, 0x00000000, 0x00000000, 0x00000000, 0x0B131C03);
    NextWord(AbcBlock(), 23, 0x00000000, 0x00000018, 0x00000000, 0x00000000, 0x00000030);
    NextWord(AbcBlock(), 24, 0x00000060, 0xC2C4C700, 0x00000000, 0x00000000, 0x85898EC1);
    NextWord(AbcBlock(), 25, 0x0B131C03, 0x00000000, 0x00000000, 0x00000000, 0x16263806);
    NextWord(AbcBlock(), 26, 0x00000030, 0x00000030, 0x00000000, 0x00000000, 0x00000000);
    NextWord(AbcBlock(), 27, 0x85898EC1, 0x85898E01, 0x00000000, 0x00000000, 0x00000180);
    NextWord(AbcBlock(), 28, 0x16263806, 0x00000000, 0x00000000, 0x00000000, 0x2C4C700C);
    NextWord(AbcBlock(), 29, 0x00000000, 0x00000060, 0x00000018, 0x00000000, 0x000000F0);
    NextWord(AbcBlock(), 30, 0x00000180, 0x0B131C03, 0xC2C4C700, 0x00000000, 0x93AFB507);
    NextWord(AbcBlock(), 31, 0x2C4C700C, 0x00000030, 0x00000000, 0x00000018, 0x5898E048);
  }

  lemma AbcBlockWords2()
    ensures Schedule(AbcBlock(), 32) == 0x8E9A9202 && Schedule(AbcBlock(), 33) == 0x00000600
    ensures Schedule(AbcBlock(), 34) == 0xB131C0F0 && Schedule(AbcBlock(), 35) == 0x16263BC6
    ensures Schedule(AbcBlock(), 36) == 0x4EBED41E && Schedule(AbcBlock(), 37) == 0x626380A1
    ensures Schedule(AbcBlock(), 38) == 0x16263806 && Schedule(AbcBlock(), 39) == 0x000018C0
    ensures Schedule(AbcBlock(), 40) == 0xD2E138C4 && Schedule(AbcBlock(), 41) == 0x00000F00
    ensures Schedule(AbcBlock(), 42) == 0x3AFB5079 && Schedule(AbcBlock(), 43) == 0x898E04E5
    ensures Schedule(AbcBlock(), 44) == 0xE2BA3C2B && Schedule(AbcBlock(), 45) == 0x000060C0
    ensures Schedule(AbcBlock(), 46) == 0x053A37CD && Schedule(AbcBlock(), 47) == 0x74458547
  {
    hide Schedule;
    AbcBlockWords1();
    NextWord(AbcBlock(), 32, 0x000000F0, 0x85898EC1, 0x00000030, 0xC2C4C700, 0x8E9A9202);
    NextWord(AbcBlock(), 33, 0x93AFB507, 0x16263806, 0x85898E01, 0x00000000, 0x00000600);
    NextWord(AbcBlock(), 34, 0x5898E048, 0x00000000, 0x00000000, 0x00000030, 0xB131C0F0);
    NextWord(AbcBlock(), 35, 0x8E9A9202, 0x00000180, 0x00000060, 0x85898E01, 0x16263BC6);
    NextWord(AbcBlock(), 36, 0x00000600, 0x2C4C700C, 0x0B131C03, 0x00000000, 0x4EBED41E);
    NextWord(AbcBlock(), 37, 0xB131C0F0, 0x000000F0, 0x00000030, 0x00000060, 0x626380A1);
    NextWord(AbcBlock(), 38, 0x16263BC6, 0x93AFB507, 0x85898EC1, 0x0B131C03, 0x16263806);
    NextWord(AbcBlock(), 39, 0x4EBED41E, 0x5898E048, 0x16263806, 0x00000030, 0x000018C0);
    NextWord(AbcBlock(), 40, 0x626380A1, 0x8E9A9202, 0x00000000, 0x85898EC1, 0xD2E138C4);
    NextWord(AbcBlock(), 41, 0x16263806, 0x00000600, 0x00000180, 0x16263806, 0x00000F00);
    NextWord(AbcBlock(), 42, 0x000018C0, 0xB131C0F0, 0x2C4C700C, 0x00000000, 0x3AFB5079);
    NextWord(AbcBlock(), 43, 0xD2E138C4, 0x16263BC6, 0x000000F0, 0x00000180, 0x898E04E5);
    NextWord(AbcBlock(), 44, 0x00000F00, 0x4EBED41E, 0x93AFB507, 0x2C4C700C, 0xE2BA3C2B);
    NextWord(AbcBlock(), 45, 0x3AFB5079, 0x626380A1, 0x5898E048, 0x000000F0, 0x000060C0);
    NextWord(AbcBlock(), 46, 0x898E04E5, 0x16263806, 0x8E9A9202, 0x93AFB507, 0x053A37CD);
    NextWord(AbcBlock(), 47, 0xE2BA3C2B, 0x000018C0, 0x00000600, 0x5898E048, 0x74458547);
  }

  lemma AbcBlockWords3()
    ensures Schedule(AbcBlock(), 48) == 0xDA9415ED && Schedule(AbcBlock(), 49) == 0x26380A16
    ensures Schedule(AbcBlock(), 50) == 0x626383A1 && Schedule(AbcBlock(), 51) == 0x4EBF54DE
    ensures Schedule(AbcBlock(), 52) == 0x3835B44B && Schedule(AbcBlock(), 53) == 0x0000F600
    ensures Schedule(AbcBlock(), 54) == 0x1E84C7A3 && Schedule(AbcBlock(), 55) == 0x98E04D98
    ensures Schedule(AbcBlock(), 56) == 0x651D16A0 && Schedule(AbcBlock(), 57) == 0x62658CA1
    ensures Schedule(AbcBlock(), 58) == 0x458544D6 && Schedule(AbcBlock(), 59) == 0x44584CB7
    ensures Schedule(AbcBlock(), 60) == 0x7BA06619 && Schedule(AbcBlock(), 61) == 0x6380AEA2
    ensures Schedule(AbcBlock(), 62) == 0x0AE55269 && Schedule(AbcBlock(), 63) == 0x627B49A1
  {
    hide Schedule;
    AbcBlockWords2();
    NextWord(AbcBlock(), 48, 0x000060C0, 0xD2E138C4, 0xB131C0F0, 0x8E9A9202, 0xDA9415ED);
    NextWord(AbcBlock(), 49, 0x053A37CD, 0x00000F00, 0x16263BC6, 0x00000600, 0x26380A16);
    NextWord(AbcBlock(), 50, 0x74458547, 0x3AFB5079, 0x4EBED41E, 0xB131C0F0, 0x626383A1);
    NextWord(AbcBlock(), 51, 0xDA9415ED, 0x898E04E5, 0x626380A1, 0x16263BC6, 0x4EBF54DE);
    NextWord(AbcBlock(), 52, 0x26380A16, 0xE2BA3C2B, 0x16263806, 0x4EBED41E, 0x3835B44B);
    NextWord(AbcBlock(), 53, 0x626383A1, 0x000060C0, 0x000018C0, 0x626380A1, 0x0000F600);
    NextWord(AbcBlock(), 54, 0x4EBF54DE, 0x053A37CD, 0xD2E138C4, 0x16263806, 0x1E84C7A3);
    NextWord(AbcBlock(), 55, 0x3835B44B, 0x74458547, 0x00000F00, 0x000018C0, 0x98E04D98);
    NextWord(AbcBlock(), 56, 0x0000F600, 0xDA9415ED, 0x3AFB5079, 0xD2E138C4, 0x651D16A0);
    NextWord(AbcBlock(), 57, 0x1E84C7A3, 0x26380A16, 0x898E04E5, 0x00000F00, 0x62658CA1);
    NextWord(AbcBlock(), 58, 0x98E04D98, 0x626383A1, 0xE2BA3C2B, 0x3AFB5079, 0x458544D6);
    NextWord(AbcBlock(), 59, 0x651D16A0, 0x4EBF54DE, 0x000060C0, 0x898E04E5, 0x44584CB7);
    NextWord(AbcBlock(), 60, 0x62658CA1, 0x3835B44B, 0x053A37CD, 0xE2BA3C2B, 0x7BA06619);
    NextWord(AbcBlock(), 61, 0x458544D6, 0x0000F600, 0x74458547, 0x000060C0, 0x6380AEA2);
    NextWord(AbcBlock(), 62, 0x44584CB7, 0x1E84C7A3, 0xDA9415ED, 0x053A37CD, 0x0AE55269);
    NextWord(AbcBlock(), 63, 0x7BA06619, 0x98E04D98, 0x26380A16, 0x74458547, 0x627B49A1);
  }

  lemma AbcBlockWords4()
    ensures Schedule(AbcBlock(), 64) == 0x7CD45C9D && Schedule(AbcBlock(), 65) == 0x000F0000
    ensures Schedule(AbcBlock(), 66) == 0xFB50753A && Schedule(AbcBlock(), 67) == 0xEC6765E8
    ensures Schedule(AbcBlock(), 68) == 0xBA3C2BE2 && Schedule(AbcBlock(), 69) == 0x0060C000
    ensures Schedule(AbcBlock(), 70) == 0x3A37CD05 && Schedule(AbcBlock(), 71) == 0x458546F4
    ensures Schedule(AbcBlock(), 72) == 0xB8599DD6 && Schedule(AbcBlock(), 73) == 0x380A1A26
    ensures Schedule(AbcBlock(), 74) == 0x01E02203 && Schedule(AbcBlock(), 75) == 0xE7CC3456
    ensures Schedule(AbcBlock(), 76) == 0xE6E60B69 && Schedule(AbcBlock(), 77) == 0x00F60A00
    ensures Schedule(AbcBlock(), 78) == 0x5795EF4F && Schedule(AbcBlock(), 79) == 0x822E0879
  {
    hide Schedule;
    AbcBlockWords3();
    NextWord(AbcBlock(), 64, 0x6380AEA2, 0x651D16A0, 0x626383A1, 0xDA9415ED, 0x7CD45C9D);
    NextWord(AbcBlock(), 65, 0x0AE55269, 0x62658CA1, 0x4EBF54DE, 0x26380A16, 0x000F0000);
    NextWord(AbcBlock(), 66, 0x627B49A1, 0x458544D6, 0x3835B44B, 0x626383A1, 0xFB50753A);
    NextWord(AbcBlock(), 67, 0x7CD45C9D, 0x44584CB7, 0x0000F600, 0x4EBF54DE, 0xEC6765E8);
    NextWord(AbcBlock(), 68, 0x000F0000, 0x7BA06619, 0x1E84C7A3, 0x3835B44B, 0xBA3C2BE2);
    NextWord(AbcBlock(), 69, 0xFB50753A, 0x6380AEA2, 0x98E04D98, 0x0000F600, 0x0060C000);
    NextWord(AbcBlock(), 70, 0xEC6765E8, 0x0AE55269, 0x651D16A0, 0x1E84C7A3, 0x3A37CD05);
    NextWord(AbcBlock(), 71, 0xBA3C2BE2, 0x627B49A1, 0x62658CA1, 0x98E04D98, 0x458546F4);
    NextWord(AbcBlock(), 72, 0x0060C000, 0x7CD45C9D, 0x458544D6, 0x651D16A0, 0xB8599DD6);
    NextWord(AbcBlock(), 73, 0x3A37CD05, 0x000F0000, 0x44584CB7, 0x62658CA1, 0x380A1A26);
    NextWord(AbcBlock(), 74, 0x458546F4, 0xFB50753A, 0x7BA06619, 0x458544D6, 0x01E02203);
    NextWord(AbcBlock(), 75, 0xB8599DD6, 0xEC6765E8, 0x6380AEA2, 0x44584CB7, 0xE7CC3456);
    NextWord(AbcBlock(), 76, 0x380A1A26, 0xBA3C2BE2, 0x0AE55269, 0x7BA06619, 0xE6E60B69);
    NextWord(AbcBlock(), 77, 0x01E02203, 0x0060C000, 0x627B49A1, 0x6380AEA2, 0x00F60A00);
    NextWord(AbcBlock(), 78, 0xE7CC3456, 0x3A37CD05, 0x7CD45C9D, 0x0AE55269, 0x5795EF4F);
    NextWord(AbcBlock(), 79, 0xE6E60B69, 0x458546F4, 0x000F0000, 0x627B49A1, 0x822E0879);
  }

  lemma AbcBlockRounds5()
    ensures Rounds(Registers(0x67452301, 0xEFCDAB89, 0x98BADCFE, 0x10325476, 0xC3D2E1F0), AbcBlock(), 5) == Registers(0xCFD499DE, 0xCDD8E11B, 0x284E43C2, 0x626414DB, 0xC045BF0C)
  {
    hide Schedule, Rounds;
    NoRounds(Registers(0x67452301, 0xEFCDAB89, 0x98BADCFE, 0x10325476, 0xC3D2E1F0), AbcBlock());
    AbcBlockWords0();
    NextRound(Registers(0x67452301, 0xEFCDAB89, 0x98BADCFE, 0x10325476, 0xC3D2E1F0), AbcBlock(), 0);
    NextRound(Registers(0x67452301, 0xEFCDAB89, 0x98BADCFE, 0x10325476, 0xC3D2E1F0), AbcBlock(), 1);
    NextRound(Registers(0x67452301, 0xEFCDAB89, 0x98BADCFE, 0x10325476, 0xC3D2E1F0), AbcBlock(), 2);
    NextRound(Registers(0x67452301, 0xEFCDAB89, 0x98BADCFE, 0x10325476, 0xC3D2E1F0), AbcBlock(), 3);
    NextRound(Registers(0x67452301, 0xEFCDAB89, 0x98BADCFE, 0x10325476, 0xC3D2E1F0), AbcBlock(), 4);
  }

  lemma AbcBlockRounds10()
    ensures Rounds(Registers(0x67452301, 0xEFCDAB89, 0x98BADCFE, 0x10325476, 0xC3D2E1F0), AbcBlock(), 10) == Registers(0x8351F929, 0x4B6AE328, 0x27A301F5, 0x664F8C30, 0x0FF1F290)
  {
    hide Schedule, Rounds;
    AbcBlockRounds5();
    AbcBlockWords0();
    NextRound(Registers(0x67452301, 0xEFCDAB89, 0x98BADCFE, 0x10325476, 0xC3D2E1F0), AbcBlock(), 5);
    NextRound(Registers(0x67452301, 0xEFCDAB89, 0x98BADCFE, 0x10325476, 0xC3D2E1F0), AbcBlock(), 6);
    NextRound(Registers(0x67452301, 0xEFCDAB89, 0x98BADCFE, 0x10325476, 0xC3D2E1F0), AbcBlock(), 7);
    NextRound(Registers(0x67452301, 0xEFCDAB89, 0x98BADCFE, 0x10325476, 0xC3D2E1F0), AbcBlock(), 8);
    NextRound(Registers(0x67452301, 0xEFCDAB89, 0x98BADCFE, 0x10325476, 0xC3D2E1F0), AbcBlock(), 9);
  }

  lemma AbcBlockRounds15()
    ensures Rounds(Registers(0x67452301, 0xEFCDAB89, 0x98BADCFE, 0x10325476, 0xC3D2E1F0), AbcBlock(), 15) == Registers(0x196BEE77, 0x9128F695, 0x1181ED99, 0x18C623F9, 0x7EF6A7A2)
  {
    hide Schedule, Rounds;
    AbcBlockRounds10();
    AbcBlockWords0();
    NextRound(Registers(0x67452301, 0xEFCDAB89, 0x98BADCFE, 0x10325476, 0xC3D2E1F0), AbcBlock(), 10);
    NextRound(Registers(0x67452301, 0xEFCDAB89, 0x98BADCFE, 0x10325476, 0xC3D2E1F0), AbcBlock(), 11);
    NextRound(Registers(0x67452301, 0xEFCDAB89, 0x98BADCFE, 0x10325476, 0xC3D2E1F0), AbcBlock(), 12);
    NextRound(Registers(0x67452301, 0xEFCDAB89, 0x98BADCFE, 0x10325476, 0xC3D2E1F0), AbcBlock(), 13);
    NextRound(Registers(0x67452301, 0xEFCDAB89, 0x98BADCFE, 0x10325476, 0xC3D2E1F0), AbcBlock(), 14);
  }

  lemma AbcBlockRounds20()
    ensures Rounds(Registers(0x67452301, 0xEFCDAB89, 0x98BADCFE, 0x10325476, 0xC3D2E1F0), AbcBlock(), 20) == Registers(0xFD9E1D7D, 0xDC64901D, 0x20AA99CA, 0xD3A49608, 0xC82F758B)
  {
    hide Schedule, Rounds;
    AbcBlockRounds15();
    AbcBlockWords0();
    AbcBlockWords1();
    NextRound(Registers(0x67452301, 0xEFCDAB89, 0x98BADCFE, 0x10325476, 0xC3D2E1F0), AbcBlock(), 15);
    NextRound(Registers(0x67452301, 0xEFCDAB89, 0x98BADCFE, 0x10325476, 0xC3D2E1F0), AbcBlock(), 16);
    NextRound(Registers(0x67452301, 0xEFCDAB89, 0x98BADCFE, 0x10325476, 0xC3D2E1F0), AbcBlock(), 17);
    NextRound(Registers(0x67452301, 0xEFCDAB89, 0x98BADCFE, 0x10325476, 0xC3D2E1F0), AbcBlock(), 18);
    NextRound(Registers(0x67452301, 0xEFCDAB89, 0x98BADCFE, 0x10325476, 0xC3D2E1F0), AbcBlock(), 19);
  }

  lemma AbcBlockRounds25()
    ensures Rounds(Registers(0x67452301, 0xEFCDAB89, 0x98BADCFE, 0x10325476, 0xC3D2E1F0), AbcBlock(), 25) == Registers(0xC7567DC6, 0xD541F12D, 0x884A0D21, 0x0CE88EFF, 0x868DEC32)
  {
    hide Schedule, Rounds;
    AbcBlockRounds20();
    AbcBlockWords1();
    NextRound(Registers(0x67452301, 0xEFCDAB89, 0x98BADCFE, 0x10325476, 0xC3D2E1F0), AbcBlock(), 20);
    NextRound(Registers(0x67452301, 0xEFCDAB89, 0x98BADCFE, 0x10325476, 0xC3D2E1F0), AbcBlock(), 21);
    NextRound(Registers(0x67452301, 0xEFCDAB89, 0x98BADCFE, 0x10325476, 0xC3D2E1F0), AbcBlock(), 22);
    NextRound(Registers(0x67452301, 0xEFCDAB89, 0x98BADCFE, 0x10325476, 0xC3D2E1F0), AbcBlock(), 23);
    NextRound(Registers(0x67452301, 0xEFCDAB89, 0x98BADCFE, 0x10325476, 0xC3D2E1F0), AbcBlock(), 24);
  }

  lemma AbcBlockRounds30()
    ensures Rounds(Registers(0x67452301, 0xEFCDAB89, 0x98BADCFE, 0x10325476, 0xC3D2E1F0), AbcBlock(), 30) == Registers(0xC5FBAF5D, 0x8370B52E, 0xD2AA1365, 0x6F8D7EF5, 0x12104EE9)
  {
    hide Schedule, Rounds;
    AbcBlockRounds25();
    AbcBlockWords1();
    NextRound(Registers(0x67452301, 0xEFCDAB89, 0x98BADCFE, 0x10325476, 0xC3D2E1F0), AbcBlock(), 25);
    NextRound(Registers(0x67452301, 0xEFCDAB89, 0x98BADCFE, 0x10325476, 0xC3D2E1F0), AbcBlock(), 26);
    NextRound(Registers(0x67452301, 0xEFCDAB89, 0x98BADCFE, 0x10325476, 0xC3D2E1F0), AbcBlock(), 27);
    NextRound(Registers(0x67452301, 0xEFCDAB89, 0x98BADCFE, 0x10325476, 0xC3D2E1F0), AbcBlock(), 28);
    NextRound(Registers(0x67452301, 0xEFCDAB89, 0x98BADCFE, 0x10325476, 0xC3D2E1F0), AbcBlock(), 29);
  }

  lemma AbcBlockRounds35()
    ensures Rounds(Registers(0x67452301, 0xEFCDAB89, 0x98BADCFE, 0x10325476, 0xC3D2E1F0), AbcBlock(), 35) == Registers(0x21796AD4, 0x2C0EBC11, 0x811BEA82, 0xCEE1174C, 0xC499ED01)
  {
    hide Schedule, Rounds;
    AbcBlockRounds30();
    AbcBlockWords1();
    AbcBlockWords2();
    NextRound(Registers(0x67452301, 0xEFCDAB89, 0x98BADCFE, 0x10325476, 0xC3D2E1F0), AbcBlock(), 30);
    NextRound(Registers(0x67452301, 0xEFCDAB89, 0x98BADCFE, 0x10325476, 0xC3D2E1F0), AbcBlock(), 31);
    NextRound(Registers(0x67452301, 0xEFCDAB89, 0x98BADCFE, 0x10325476, 0xC3D2E1F0), AbcBlock(), 32);
    NextRound(Registers(0x67452301, 0xEFCDAB89, 0x98BADCFE, 0x10325476, 0xC3D2E1F0), AbcBlock(), 33);
    NextRound(Registers(0x67452301, 0xEFCDAB89, 0x98BADCFE, 0x10325476, 0xC3D2E1F0), AbcBlock(), 34);
  }

  lemma AbcBlockRounds40()
    ensures Rounds(Registers(0x67452301, 0xEFCDAB89, 0x98BADCFE, 0x10325476, 0xC3D2E1F0), AbcBlock(), 40) == Registers(0x32DE1CBA, 0x4C986405, 0xF718E5CF, 0x03D447F6, 0xF72EEC32)
  {
    hide Schedule, Rounds;
    AbcBlockRounds35();
    AbcBlockWords2();
    NextRound(Registers(0x67452301, 0xEFCDAB89, 0x98BADCFE, 0x10325476, 0xC3D2E1F0), AbcBlock(), 35);
    NextRound(Registers(0x67452301, 0xEFCDAB89, 0x98BADCFE, 0x10325476, 0xC3D2E1F0), AbcBlock(), 36);
    NextRound(Registers(0x67452301, 0xEFCDAB89, 0x98BADCFE, 0x10325476, 0xC3D2E1F0), AbcBlock(), 37);
    NextRound(Registers(0x67452301, 0xEFCDAB89, 0x98BADCFE, 0x10325476, 0xC3D2E1F0), AbcBlock(), 38);
    NextRound(Registers(0x67452301, 0xEFCDAB89, 0x98BADCFE, 0x10325476, 0xC3D2E1F0), AbcBlock(), 39);
  }

  lemma AbcBlockRounds45()
    ensures Rounds(Registers(0x67452301, 0xEFCDAB89, 0x98BADCFE, 0x10325476, 0xC3D2E1F0), AbcBlock(), 45) == Registers(0x40F28E09, 0xEE1B1AAF, 0x5FC64F71, 0x25C28357, 0xFF21F7B7)
  {
    hide Schedule, Rounds;
    AbcBlockRounds40();
    AbcBlockWords2();
    NextRound(Registers(0x67452301, 0xEFCDAB89, 0x98BADCFE, 0x10325476, 0xC3D2E1F0), AbcBlock(), 40);
    NextRound(Registers(0x67452301, 0xEFCDAB89, 0x98BADCFE, 0x10325476, 0xC3D2E1F0), AbcBlock(), 41);
    NextRound(Registers(0x67452301, 0xEFCDAB89, 0x98BADCFE, 0x10325476, 0xC3D2E1F0), AbcBlock(), 42);
    NextRound(Registers(0x67452301, 0xEFCDAB89, 0x98BADCFE, 0x10325476, 0xC3D2E1F0), AbcBlock(), 43);
    NextRound(Registers(0x67452301, 0xEFCDAB89, 0x98BADCFE, 0x10325476, 0xC3D2E1F0), AbcBlock(), 44);
  }

  lemma AbcBlockRounds50()
    ensures Rounds(Registers(0x67452301, 0xEFCDAB89, 0x98BADCFE, 0x10325476, 0xC3D2E1F0), AbcBlock(), 50) == Registers(0x120731C5, 0xBAF39337, 0xAFAB40B2, 0x2806E11B, 0x8714787C)
  {
    hide Schedule, Rounds;
    AbcBlockRounds45();
    AbcBlockWords2();
    AbcBlockWords3();
    NextRound(Registers(0x67452301, 0xEFCDAB89, 0x98BADCFE, 0x10325476, 0xC3D2E1F0), AbcBlock(), 45);
    NextRound(Registers(0x67452301, 0xEFCDAB89, 0x98BADCFE, 0x10325476, 0xC3D2E1F0), AbcBlock(), 46);
    NextRound(Registers(0x67452301, 0xEFCDAB89, 0x98BADCFE, 0x10325476, 0xC3D2E1F0), AbcBlock(), 47);
    NextRound(Registers(0x67452301, 0xEFCDAB89, 0x98BADCFE, 0x10325476, 0xC3D2E1F0), AbcBlock(), 48);
    NextRound(Registers(0x67452301, 0xEFCDAB89, 0x98BADCFE, 0x10325476, 0xC3D2E1F0), AbcBlock(), 49);
  }

  lemma AbcBlockRounds55()
    ensures Rounds(Registers(0x67452301, 0xEFCDAB89, 0x98BADCFE, 0x10325476, 0xC3D2E1F0), AbcBlock(), 55) == Registers(0x7B71F76D, 0x27E9F1D8, 0x792410DB, 0x8E11EB59, 0x99076CB3)
  {
    hide Schedule, Rounds;
    AbcBlockRounds50();
    AbcBlockWords3();
    NextRound(Registers(0x67452301, 0xEFCDAB89, 0x98BADCFE, 0x10325476, 0xC3D2E1F0), AbcBlock(), 50);
    NextRound(Registers(0x67452301, 0xEFCDAB89, 0x98BADCFE, 0x10325476, 0xC3D2E1F0), AbcBlock(), 51);
    NextRound(Registers(0x67452301, 0xEFCDAB89, 0x98BADCFE, 0x10325476, 0xC3D2E1F0), AbcBlock(), 52);
    NextRound(Registers(0x67452301, 0xEFCDAB89, 0x98BADCFE, 0x10325476, 0xC3D2E1F0), AbcBlock(), 53);
    NextRound(Registers(0x67452301, 0xEFCDAB89, 0x98BADCFE, 0x10325476, 0xC3D2E1F0), AbcBlock(), 54);
  }

  lemma AbcBlockRounds60()
    ensures Rounds(Registers(0x67452301, 0xEFCDAB89, 0x98BADCFE, 0x10325476, 0xC3D2E1F0), AbcBlock(), 60) == Registers(0x3F52DE5A, 0x09D785FD, 0x3498BFD4, 0xF211824F, 0xD79915AB)
  {
    hide Schedule, Rounds;
    AbcBlockRounds55();
    AbcBlockWords3();
    NextRound(Registers(0x67452301, 0xEFCDAB89, 0x98BADCFE, 0x10325476, 0xC3D2E1F0), AbcBlock(), 55);
    NextRound(Registers(0x67452301, 0xEFCDAB89, 0x98BADCFE, 0x10325476, 0xC3D2E1F0), AbcBlock(), 56);
    NextRound(Registers(0x67452301, 0xEFCDAB89, 0x98BADCFE, 0x10325476, 0xC3D2E1F0), AbcBlock(), 57);
    NextRound(Registers(0x67452301, 0xEFCDAB89, 0x98BADCFE, 0x10325476, 0xC3D2E1F0), AbcBlock(), 58);
    NextRound(Registers(0x67452301, 0xEFCDAB89, 0x98BADCFE, 0x10325476, 0xC3D2E1F0), AbcBlock(), 59);
  }

  lemma AbcBlockRounds65()
    ensures Rounds(Registers(0x67452301, 0xEFCDAB89, 0x98BADCFE, 0x10325476, 0xC3D2E1F0), AbcBlock(), 65) == Registers(0x19DFA7AC, 0x6B61C9E1, 0xED9B0082, 0x9523272C, 0xF5D5B051)
  {
    hide Schedule, Rounds;
    AbcBlockRounds60();
    AbcBlockWords3();
    AbcBlockWords4();
    NextRound(Registers(0x67452301, 0xEFCDAB89, 0x98BADCFE, 0x10325476, 0xC3D2E1F0), AbcBlock(), 60);
    NextRound(Registers(0x67452301, 0xEFCDAB89, 0x98BADCFE, 0x10325476, 0xC3D2E1F0), AbcBlock(), 61);
    NextRound(Registers(0x67452301, 0xEFCDAB89, 0x98BADCFE, 0x10325476, 0xC3D2E1F0), AbcBlock(), 62);
    NextRound(Registers(0x67452301, 0xEFCDAB89, 0x98BADCFE, 0x10325476, 0xC3D2E1F0), AbcBlock(), 63);
    NextRound(Registers(0x67452301, 0xEFCDAB89, 0x98BADCFE, 0x10325476, 0xC3D2E1F0), AbcBlock(), 64);
  }

  lemma AbcBlockRounds70()
    ensures Rounds(Registers(0x67452301, 0xEFCDAB89, 0x98BADCFE, 0x10325476, 0xC3D2E1F0), AbcBlock(), 70) == Registers(0x3F2588C2, 0x497093C0, 0xDE37534A, 0x030F7CAD, 0x4405957E)
  {
    hide Schedule, Rounds;
    AbcBlockRounds65();
    AbcBlockWords4();
    NextRound(Registers(0x67452301, 0xEFCDAB89, 0x98BADCFE, 0x10325476, 0xC3D2E1F0), AbcBlock(), 65);
    NextRound(Registers(0x67452301, 0xEFCDAB89, 0x98BADCFE, 0x10325476, 0xC3D2E1F0), AbcBlock(), 66);
    NextRound(Registers(0x67452301, 0xEFCDAB89, 0x98BADCFE, 0x10325476, 0xC3D2E1F0), AbcBlock(), 67);
    NextRound(Registers(0x67452301, 0xEFCDAB89, 0x98BADCFE, 0x10325476, 0xC3D2E1F0), AbcBlock(), 68);
    NextRound(Registers(0x67452301, 0xEFCDAB89, 0x98BADCFE, 0x10325476, 0xC3D2E1F0), AbcBlock(), 69);
  }

  lemma AbcBlockRounds75()
    ensures Rounds(Registers(0x67452301, 0xEFCDAB89, 0x98BADCFE, 0x10325476, 0xC3D2E1F0), AbcBlock(), 75) == Registers(0x5EE76897, 0x11793F6F, 0x3B6D0B79, 0xCE616779, 0xF0667E31)
  {
    hide Schedule, Rounds;
    AbcBlockRounds70();
    AbcBlockWords4();
    NextRound(Registers(0x67452301, 0xEFCDAB89, 0x98BADCFE, 0x10325476, 0xC3D2E1F0), AbcBlock(), 70);
    NextRound(Registers(0x67452301, 0xEFCDAB89, 0x98BADCFE, 0x10325476, 0xC3D2E1F0), AbcBlock(), 71);
    NextRound(Registers(0x67452301, 0xEFCDAB89, 0x98BADCFE, 0x10325476, 0xC3D2E1F0), AbcBlock(), 72);
    NextRound(Registers(0x67452301, 0xEFCDAB89, 0x98BADCFE, 0x10325476, 0xC3D2E1F0), AbcBlock(), 73);
    NextRound(Registers(0x67452301, 0xEFCDAB89, 0x98BADCFE, 0x10325476, 0xC3D2E1F0), AbcBlock(), 74);
  }

  lemma AbcBlockRounds80()
    ensures Rounds(Registers(0x67452301, 0xEFCDAB89, 0x98BADCFE, 0x10325476, 0xC3D2E1F0), AbcBlock(), 80) == Registers(0x42541B35, 0x5738D5E1, 0x21834873, 0x681E6DF6, 0xD8FDF6AD)
  {
    hide Schedule, Rounds;
    AbcBlockRounds75();
    AbcBlockWords4();
    NextRound(Registers(0x67452301, 0xEFCDAB89, 0x98BADCFE, 0x10325476, 0xC3D2E1F0), AbcBlock(), 75);
    NextRound(Registers(0x67452301, 0xEFCDAB89, 0x98BADCFE, 0x10325476, 0xC3D2E1F0), AbcBlock(), 76);
    NextRound(Registers(0x67452301, 0xEFCDAB89, 0x98BADCFE, 0x10325476, 0xC3D2E1F0), AbcBlock(), 77);
    NextRound(Registers(0x67452301, 0xEFCDAB89, 0x98BADCFE, 0x10325476, 0xC3D2E1F0), AbcBlock(), 78);
    NextRound(Registers(0x67452301, 0xEFCDAB89, 0x98BADCFE, 0x10325476, 0xC3D2E1F0), AbcBlock(), 79);
  }

  // ---- The padding and the digest ----

  lemma AbcPadded()
    ensures [97, 98, 99] + Padding(3) == AbcBlock()
  {
    var s := BigEndianBytes(24, 8);
    LengthField();
    ZerosAre(52);
    assert ZeroCount(3) == 52;
    assert [97, 98, 99] + Padding(3) == AbcBlock();
  }

  lemma {:induction false} ZerosAre(n: nat)
    ensures Zeros(n) == seq(n, _ => 0)
  {
    if n > 0 { ZerosAre(n - 1); }
  }

  lemma LengthField()
    ensures BigEndianBytes(24, 8) == [0, 0, 0, 0, 0, 0, 0, 24]
  {
    SmallBigEndian(24, 8);
  }

  lemma {:induction false} SmallBigEndian(value: nat, n: nat)
    requires value < 256 && n > 0
    ensures BigEndian(value, n) == seq(n - 1, _ => 0) + [value]
  {
    if n > 1 { SmallBigEndian(0, n - 1); }
  }

  lemma AbcCompressed()
    ensures Compress(INITIAL_HASH, AbcBlock()) == Registers(0xA9993E36, 0x4706816A, 0xBA3E2571, 0x7850C26C, 0x9CD0D89D)
  {
    hide Rounds, Schedule;
    AbcBlockRounds80();
  }

  lemma FoldOne(h: Registers, block: seq<Byte>)
    requires |block| == 64
    ensures Fold(h, block) == Compress(h, block)
  {
    hide Compress;
    assert block[..64] == block && block[64..] == [];
  }

  /** Every block continues from the hash of the ones before it. */
  lemma FoldTwo(h: Registers, first: seq<Byte>, second: seq<Byte>)
    requires |first| == |second| == 64
    ensures Fold(h, first + second) == Compress(Compress(h, first), second)
  {
    FoldAppend(h, first, second);
    FoldOne(h, first);
    FoldOne(Compress(h, first), second);
  }

  /** Behind a message: one byte 128, then only zeros, then the length in bits; and no shorter padding with
      these three parts fills up the last block. */
  lemma PaddingParts(length: nat)
    ensures
      var p := Padding(length);
      && 9 <= |p| < 73 && (length + |p|) % 64 == 0
      && p[0] == 128 && (forall i :: 1 <= i < |p| - 8 ==> p[i] == 0)
      && forall i :: |p| - 8 <= i < |p| ==> p[i] == ToByte(8 * length / Power256(|p| - 1 - i) % 256)
  {
    hide BigEndian, Power256, ToByte;
    ZerosAre(ZeroCount(length));
    var p := Padding(length);
    forall i | |p| - 8 <= i < |p| ensures p[i] == ToByte(8 * length / Power256(|p| - 1 - i) % 256) {
      BigEndianAt(8 * length, 8, i - (|p| - 8));
    }
  }

  /** The digest a9993e36 4706816a ba3e2571 7850c26c 9cd0d89d. */
  lemma Abc()
    ensures Sha1([97, 98, 99]) == [0xA9, 0x99, 0x3E, 0x36, 0x47, 0x06, 0x81, 0x6A, 0xBA, 0x3E, 0x25, 0x71, 0x78, 0x50, 0xC2, 0x6C, 0x9C, 0xD0, 0xD8, 0x9D]
  {
    hide Fold, Compress, Padding;
    AbcPadded();
    FoldOne(INITIAL_HASH, AbcBlock());
    AbcCompressed();
    var d := Sha1([97, 98, 99]);
    assert d == Digest(Registers(0xA9993E36, 0x4706816A, 0xBA3E2571, 0x7850C26C, 0x9CD0D89D));
  }
}
