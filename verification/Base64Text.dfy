/**
 The base64 alphabet and the text of a byte string, as in section 4 of RFC 4648, and what the decoder
 makes of any text.
 */
module Base64Text {
  import opened Arithmetic
  import opened Bits
  import opened Wrappers

  const PAD: byte := 61
  const CARRIAGE_RETURN: byte := 13
  const LINE_FEED: byte := 10

  /** `A` to `Z`, `a` to `z`, `0` to `9`, `+` and `/`. */
  function Letter(v: int): (c: byte)
    requires 0 <= v < 64
  {
    if v < 26 then 65 + v
    else if v < 52 then 71 + v
    else if v < 62 then v - 4
    else if v == 62 then 43 else 47
  }

  /** The decoding table; `-` and `_` stand for the last two values too, and other characters for 0. */
  function LetterValue(c: byte): (v: int)
    requires c < 128
    ensures 0 <= v < 64
  {
    if 65 <= c <= 90 then c - 65
    else if 97 <= c <= 122 then c - 71
    else if 48 <= c <= 57 then c + 4
    else if c == 43 || c == 45 then 62
    else if c == 47 || c == 95 then 63
    else 0
  }

  lemma LetterRoundTrip(v: int)
    requires 0 <= v < 64
    ensures Letter(v) < 128 && LetterValue(Letter(v)) == v
    ensures Letter(v) != PAD && Letter(v) != CARRIAGE_RETURN && Letter(v) != LINE_FEED
  {
  }

  // ---- The encoded text ----

  /** Three bytes are four letters of six bits; missing bytes count as 0 and their letters are pads. */
  function GroupText(g: Bytes): (t: Bytes)
    requires 1 <= |g| <= 3
    ensures |t| == 4
  {
    var n := Bits24(g[0], if |g| > 1 then g[1] else 0, if |g| > 2 then g[2] else 0);
    [Letter(Sextet(n, 0)), Letter(Sextet(n, 1)),
     if |g| > 1 then Letter(Sextet(n, 2)) else PAD,
     if |g| > 2 then Letter(Sextet(n, 3)) else PAD]
  }

  /** Six of 24 bits, counted from the highest. */
  function Sextet(n: int, i: nat): (v: int)
    ensures 0 <= v < 64
  {
    (if i == 0 then n / 262144 else if i == 1 then n / 4096 else if i == 2 then n / 64 else n) % 64
  }

  function Bits24(a: byte, b: byte, c: byte): (n: int)
    ensures 0 <= n < 0x1000000
  {
    65536 * a + 256 * b + c
  }

  /** How many bytes the first group takes. */
  function First(s: Bytes): (k: nat)
    requires |s| > 0
    ensures 1 <= k <= 3 && k <= |s|
  {
    if |s| < 3 then |s| else 3
  }

  function Encoded(s: Bytes): Bytes {
    if |s| == 0 then [] else GroupText(s[..First(s)]) + Encoded(s[First(s)..])
  }

  function GroupCount(length: nat): nat {
    (length + 2) / 3
  }

  /** What the encoder reserves: the text and two bytes for every line of 72. */
  function EnoughEncodedLength(length: nat): nat {
    var len := (length / 3 + if length % 3 > 0 then 1 else 0) * 4;
    len + (len / 72 + if len % 72 > 0 then 1 else 0) * 2
  }

  lemma {:induction false} EncodedLength(s: Bytes)
    ensures |Encoded(s)| == 4 * GroupCount(|s|) <= EnoughEncodedLength(|s|)
  {
    hide EnoughEncodedLength;
    EnoughLength(|s|);
    if |s| > 0 {
      hide GroupCount;
      GroupCountStep(|s|);
      EncodedLength(s[First(s)..]);
    }
  }

  lemma EnoughLength(length: nat)
    ensures 4 * GroupCount(length) <= EnoughEncodedLength(length)
  {
    assert GroupCount(length) == length / 3 + if length % 3 > 0 then 1 else 0;
  }

  lemma GroupCountStep(length: nat)
    ensures GroupCount(0) == 0 && (GroupCount(length) == 0 <==> length == 0)
    ensures length > 0 ==> GroupCount(length) == 1 + GroupCount(if length < 3 then 0 else length - 3)
    ensures length >= 3 ==> length % 3 == (length - 3) % 3
  {
  }

  // ---- What the decoder makes of a text ----

  datatype Group = Group(bytes: Bytes, taken: nat)

  /** The character at an offset from where the decoder stands. Just after the text there is a zero;
      what lies beyond that, and what the table has for a character above 127, is undefined. */
  function ValueAt(rest: Bytes, i: nat): Option<int> {
    if i < |rest| then if rest[i] < 128 then Some(LetterValue(rest[i])) else None
    else if i == |rest| then Some(0)
    else None
  }

  /** Eight of 24 bits, counted from the highest. */
  function Octet(n: int, i: nat): byte {
    (if i == 0 then n / 65536 else if i == 1 then n / 256 else n) % 256
  }

  predicate PadAt(rest: Bytes, i: nat) {
    i < |rest| && rest[i] == PAD
  }

  /** The bytes of one group, and how many characters it takes: a pad is looked at but not taken. */
  function DecodedGroup(rest: Bytes): (r: Option<Group>)
    ensures r.Some? ==> 1 <= |r.value.bytes| && |r.value.bytes| + 1 == r.value.taken <= 4
    ensures r.Some? ==> r.value.taken <= |rest| + 1
  {
    var v0, v1 := ValueAt(rest, 0), ValueAt(rest, 1);
    if v0.None? || v1.None? then None
    else
      var n := v0.value * 262144 + v1.value * 4096;
      var b0 := Octet(n, 0);
      if PadAt(rest, 2) then Some(Group([b0], 2))
      else if ValueAt(rest, 2).None? then None
      else
        var m := n + ValueAt(rest, 2).value * 64;
        var b1 := Octet(m, 1);
        if PadAt(rest, 3) then Some(Group([b0, b1], 3))
        else if ValueAt(rest, 3).None? then None
        else
          var b2 := Octet(m + ValueAt(rest, 3).value, 2);
          Some(Group([b0, b1, b2], 4))
  }

  predicate LineBreak(c: byte) {
    c == CARRIAGE_RETURN || c == LINE_FEED
  }

  /**
   The decoder stands before `rest` and has `left` characters to go by its own count, which takes four
   off for every group. `None` means that it reads what is not there.
   */
  function DecodedFrom(rest: Bytes, left: int): (r: Option<Bytes>)
    requires left <= |rest|
    decreases |rest|, left
  {
    if left <= 0 then Some([])
    else if LineBreak(rest[0]) then DecodedFrom(rest[1..], left - 1)
    else
      var g := DecodedGroup(rest);
      if g.None? then None
      else if g.value.taken > |rest| then Some(g.value.bytes)
      else
        var tail := DecodedFrom(rest[g.value.taken..], left - 4);
        if tail.None? then None else Some(g.value.bytes + tail.value)
  }

  function Decoded(text: Bytes): Option<Bytes> {
    DecodedFrom(text, |text|)
  }

  /** The decoder reserves as many bytes as the text has; it never writes more. */
  lemma {:induction false} DecodedFits(rest: Bytes, left: int)
    requires left <= |rest|
    ensures DecodedFrom(rest, left).Some? ==> |DecodedFrom(rest, left).value| <= |rest|
    decreases |rest|
  {
    if left > 0 {
      if LineBreak(rest[0]) {
        DecodedFits(rest[1..], left - 1);
      } else {
        var g := DecodedGroup(rest);
        if g.Some? && g.value.taken <= |rest| {
          DecodedFits(rest[g.value.taken..], left - 4);
        }
      }
    }
  }

  // ---- Which texts are read beyond their end ----

  /** Characters that the table has. */
  predicate InTable(text: Bytes) {
    forall c :: c in text ==> c < 128
  }

  predicate Unbroken(text: Bytes) {
    forall c :: c in text ==> !LineBreak(c)
  }

  /** Where the count ends within a group: the characters that are there from the start of that group on,
      which are more than the count has left by the pads that were not taken. */
  function LastStart(rest: Bytes, left: int): (r: Option<nat>)
    requires left <= |rest|
    decreases |rest|, left
  {
    if left <= 0 then None
    else if LineBreak(rest[0]) then LastStart(rest[1..], left - 1)
    else if left < 4 then Some(|rest|)
    else
      var g := DecodedGroup(rest);
      if g.None? then None else LastStart(rest[g.value.taken..], left - 4)
  }

  lemma GroupThere(rest: Bytes)
    requires InTable(rest) && 1 <= |rest|
    ensures DecodedGroup(rest).Some? <==> |rest| >= 3
  {
    hide LetterValue, Octet;
    assert rest[0] in rest;
    if |rest| >= 2 { assert rest[1] in rest; }
    if |rest| >= 3 { assert rest[2] in rest; }
    if |rest| >= 4 { assert rest[3] in rest; }
  }

  lemma NextStep(rest: Bytes, left: int)
    requires 0 < left <= |rest|
    ensures LineBreak(rest[0]) ==> DecodedFrom(rest, left) == DecodedFrom(rest[1..], left - 1)
    ensures
      var g := DecodedGroup(rest);
      !LineBreak(rest[0]) ==>
        (DecodedFrom(rest, left).Some?
         <==> g.Some? && (g.value.taken > |rest| || DecodedFrom(rest[g.value.taken..], left - 4).Some?))
  {
    hide DecodedGroup, LineBreak;
  }

  /** The exact condition, for every text of characters in the table: it is read within its end just when its
      groups are whole, or when the last one finds three characters. */
  lemma {:induction false} ReadWithin(rest: Bytes, left: int)
    requires left <= |rest| && InTable(rest)
    ensures DecodedFrom(rest, left).Some? <==> LastStart(rest, left).None? || LastStart(rest, left).value >= 3
    decreases |rest|
  {
    hide DecodedGroup, DecodedFrom, LineBreak;
    if left <= 0 {
      NoneLeft(rest, left);
    } else {
      GroupThere(rest);
      NextStep(rest, left);
      var g := DecodedGroup(rest);
      if LineBreak(rest[0]) {
        assert forall c :: c in rest[1..] ==> c in rest;
        ReadWithin(rest[1..], left - 1);
      } else if g.Some? && g.value.taken <= |rest| {
        var tail := rest[g.value.taken..];
        assert forall c :: c in tail ==> c in rest;
        if left < 4 { NoneLeft(tail, left - 4); } else { ReadWithin(tail, left - 4); }
      }
    }
  }

  /** Without line breaks, the groups are whole exactly when the length is a multiple of four, wherever there
      are pads. */
  lemma {:induction false} WholeGroups(rest: Bytes, left: nat)
    requires left <= |rest| && InTable(rest) && Unbroken(rest)
    ensures LastStart(rest, left).None? <==> left % 4 == 0
    ensures PAD !in rest && left == |rest| && left % 4 != 0 ==> LastStart(rest, left) == Some(left % 4)
    decreases left
  {
    hide DecodedGroup, LineBreak;
    if left > 0 { assert rest[0] in rest; }
    if left >= 4 {
      GroupThere(rest);
      if PAD !in rest { FourTaken(rest); }
      var tail := rest[DecodedGroup(rest).value.taken..];
      assert forall c :: c in tail ==> c in rest;
      WholeGroups(tail, left - 4);
    }
  }

  lemma FourTaken(rest: Bytes)
    requires |rest| >= 4 && PAD !in rest
    ensures DecodedGroup(rest).Some? ==> DecodedGroup(rest).value.taken == 4
  {
    hide LetterValue, Octet;
    assert rest[2] in rest && rest[3] in rest;
  }

  /** Without pads either, the length decides. */
  lemma ReadWithinUnpadded(text: Bytes)
    requires InTable(text) && Unbroken(text) && PAD !in text
    ensures Decoded(text).Some? <==> |text| % 4 == 0 || |text| % 4 == 3
  {
    hide DecodedFrom, LastStart;
    ReadWithin(text, |text|);
    WholeGroups(text, |text|);
  }

  /** One letter: what comes after the terminating zero is read too. */
  lemma OneLetterReadBeyond(c: byte)
    requires c < 128 && !LineBreak(c)
    ensures Decoded([c]).None?
  {
    hide DecodedFrom;
    var text: Bytes := [c];
    ReadWithin(text, 1);
  }

  // ---- Decoding undoes encoding ----

  /** What follows the characters of a full group does not matter to it. */
  lemma GroupRoundTrip(g: Bytes, rest: Bytes)
    requires 1 <= |g| <= 3
    ensures DecodedGroup(GroupText(g) + rest) == Some(Group(g, |g| + 1))
    ensures !LineBreak(GroupText(g)[0])
  {
    hide Letter, LetterValue, Sextet, Octet, Bits24;
    var a, b, c := g[0], if |g| > 1 then g[1] else 0, if |g| > 2 then g[2] else 0;
    var n := Bits24(a, b, c);
    var text := GroupText(g) + rest;
    PutTogether(a, b, c);
    LetterRoundTrip(Sextet(n, 0));
    LetterRoundTrip(Sextet(n, 1));
    LetterRoundTrip(Sextet(n, 2));
    LetterRoundTrip(Sextet(n, 3));
    assert text[0] == GroupText(g)[0] && text[1] == GroupText(g)[1];
    assert text[2] == GroupText(g)[2] && text[3] == GroupText(g)[3];
    assert g == if |g| == 1 then [a] else if |g| == 2 then [a, b] else [a, b, c];
  }

  lemma PutTogether(a: byte, b: byte, c: byte)
    ensures
      var n := Bits24(a, b, c);
      var x := Sextet(n, 0) * 262144 + Sextet(n, 1) * 4096;
      var y := x + Sextet(n, 2) * 64;
      Octet(x, 0) == a && Octet(y, 1) == b && Octet(y + Sextet(n, 3), 2) == c
  {
    hide Bits24;
    SixBits(a, b, c);
    EightBits(a, b, c);
  }

  /** The 24 bits, cut by six. */
  lemma SixBits(a: byte, b: byte, c: byte)
    ensures
      var n := Bits24(a, b, c);
      && Sextet(n, 0) == a / 4 && Sextet(n, 1) == a % 4 * 16 + b / 16
      && Sextet(n, 2) == b % 16 * 4 + c / 64 && Sextet(n, 3) == c % 64
  {
    var n := Bits24(a, b, c);
    var v0, v1, v2, v3 := a / 4, a % 4 * 16 + b / 16, b % 16 * 4 + c / 64, c % 64;
    assert n == 262144 * v0 + 4096 * v1 + 64 * v2 + v3;
    CutBySix(v0, v1, v2, v3);
  }

  lemma CutBySix(v0: int, v1: int, v2: int, v3: int)
    requires 0 <= v0 < 64 && 0 <= v1 < 64 && 0 <= v2 < 64 && 0 <= v3 < 64
    ensures
      var n := 262144 * v0 + 4096 * v1 + 64 * v2 + v3;
      Sextet(n, 0) == v0 && Sextet(n, 1) == v1 && Sextet(n, 2) == v2 && Sextet(n, 3) == v3
  {
    var n := 262144 * v0 + 4096 * v1 + 64 * v2 + v3;
    DivModUnique(n, 64, 4096 * v0 + 64 * v1 + v2, v3);
    DivModUnique(4096 * v0 + 64 * v1 + v2, 64, 64 * v0 + v1, v2);
    DivModUnique(n, 4096, 64 * v0 + v1, 64 * v2 + v3);
    DivModUnique(64 * v0 + v1, 64, v0, v1);
    DivModUnique(n, 262144, v0, 4096 * v1 + 64 * v2 + v3);
  }

  /** And put together again. */
  lemma EightBits(a: byte, b: byte, c: byte)
    ensures
      var v0, v1, v2, v3 := a / 4, a % 4 * 16 + b / 16, b % 16 * 4 + c / 64, c % 64;
      && Octet(v0 * 262144 + v1 * 4096, 0) == a
      && Octet(v0 * 262144 + v1 * 4096 + v2 * 64, 1) == b
      && Octet(v0 * 262144 + v1 * 4096 + v2 * 64 + v3, 2) == c
  {
    var v0, v1, v2, v3 := a / 4, a % 4 * 16 + b / 16, b % 16 * 4 + c / 64, c % 64;
    DivModUnique(v0 * 262144 + v1 * 4096, 65536, a, 4096 * (b / 16));
    DivModUnique(v0 * 262144 + v1 * 4096 + v2 * 64, 256, 256 * a + b, 64 * (c / 64));
    DivModUnique(256 * a + b, 256, a, b);
    DivModUnique(v0 * 262144 + v1 * 4096 + v2 * 64 + v3, 256, 256 * a + b, c);
  }

  /** The groups of an encoded text with something before, between and after them. */
  function Broken(s: Bytes, breaks: seq<Bytes>): Bytes
    requires |breaks| == GroupCount(|s|) + 1
  {
    if |s| == 0 then breaks[0]
    else breaks[0] + (GroupText(s[..First(s)]) + Broken(s[First(s)..], breaks[1..]))
  }

  predicate LineBreaks(text: Bytes) {
    forall c :: c in text ==> LineBreak(c)
  }

  lemma {:induction false} BreaksSkipped(text: Bytes, rest: Bytes)
    requires LineBreaks(text)
    ensures DecodedFrom(text + rest, |text + rest|) == DecodedFrom(rest, |rest|)
    decreases |text|
  {
    if |text| == 0 {
      assert text + rest == rest;
    } else {
      assert (text + rest)[1..] == text[1..] + rest;
      BreaksSkipped(text[1..], rest);
    }
  }

  /** After a padded group the decoder still stands before the pads, and takes them for another group. */
  lemma PadsTaken(rest: Bytes, left: int)
    requires 0 < left <= |rest| && rest[0] == PAD
    ensures DecodedFrom(rest, left).Some? ==> |DecodedFrom(rest, left).value| > 0
  {
  }

  /**
   With line breaks anywhere between the groups the text decodes to the bytes it was made from, just
   when nothing follows a padded group.
   */
  lemma {:induction false} BrokenRoundTrip(s: Bytes, breaks: seq<Bytes>)
    requires |breaks| == GroupCount(|s|) + 1
    requires forall b :: b in breaks ==> LineBreaks(b)
    ensures Decoded(Broken(s, breaks)) == Some(s) <==> |s| % 3 == 0 || breaks[|breaks| - 1] == []
    decreases |s|
  {
    hide DecodedFrom, GroupText, GroupCount, LineBreaks;
    GroupCountStep(|s|);
    if |s| == 0 {
      BreaksSkipped(breaks[0], []);
      NothingDecoded();
      assert breaks[0] + [] == breaks[0];
    } else {
      var k := First(s);
      var g, later := s[..k], Broken(s[k..], breaks[1..]);
      var text := GroupText(g) + later;
      BreaksSkipped(breaks[0], text);
      FirstGroupDecoded(g, later);
      assert s == g + s[k..];
      if k == 3 {
        assert text[4..] == later;
        BrokenRoundTrip(s[3..], breaks[1..]);
        OnlyTail(g, DecodedFrom(later, |later|), s[3..]);
      } else {
        assert s[k..] == [] && later == breaks[1];
        PadsStay(g, later);
        assert |breaks| == 2 && |s| % 3 != 0 && s == g;
        if later == [] {
          NoneLeft(text[k + 1..], 0);
          assert g + [] == s;
        } else {
          PadsTaken(text[k + 1..], |later|);
        }
      }
    }
  }

  lemma NothingDecoded()
    ensures DecodedFrom([], 0) == Some([])
  {
  }

  lemma NoneLeft(rest: Bytes, left: int)
    requires left <= 0
    ensures DecodedFrom(rest, left) == Some([])
  {
  }

  lemma OnlyTail(g: Bytes, tail: Option<Bytes>, t: Bytes)
    ensures tail.Some? && g + tail.value == g + t <==> tail == Some(t)
  {
    if tail.Some? {
      var u := tail.value;
      assert (g + u)[|g|..] == u && (g + t)[|g|..] == t;
    }
  }

  lemma FirstGroupDecoded(g: Bytes, later: Bytes)
    requires 1 <= |g| <= 3
    ensures
      var text := GroupText(g) + later;
      var tail := DecodedFrom(text[|g| + 1..], |later|);
      DecodedFrom(text, |text|) == if tail.None? then None else Some(g + tail.value)
  {
    hide GroupText, DecodedGroup, LineBreak;
    GroupRoundTrip(g, later);
  }

  lemma PadsStay(g: Bytes, later: Bytes)
    requires 1 <= |g| <= 2
    ensures (GroupText(g) + later)[|g| + 1] == PAD
  {
  }

  lemma {:induction false} BrokenByNothing(s: Bytes, breaks: seq<Bytes>)
    requires |breaks| == GroupCount(|s|) + 1
    requires forall i :: 0 <= i < |breaks| ==> breaks[i] == []
    ensures Broken(s, breaks) == Encoded(s)
    decreases |s|
  {
    hide GroupText, GroupCount;
    GroupCountStep(|s|);
    if |s| > 0 { BrokenByNothing(s[First(s)..], breaks[1..]); }
  }

  lemma RoundTrip(s: Bytes)
    ensures Decoded(Encoded(s)) == Some(s)
  {
    hide GroupCount, Broken, Encoded, DecodedFrom;
    var breaks: seq<Bytes> := seq(GroupCount(|s|) + 1, _ => []);
    BrokenByNothing(s, breaks);
    BrokenRoundTrip(s, breaks);
  }

  /** One byte, and a line feed behind its text: three zeros are decoded too. */
  lemma LineFeedBehindPads()
    ensures Encoded([65]) == [81, 81, PAD, PAD]
    ensures Decoded(Encoded([65]) + [LINE_FEED]) == Some([65, 0, 0, 0])
  {
    var text: Bytes, rest: Bytes := [81, 81, PAD, PAD, LINE_FEED], [PAD, PAD, LINE_FEED];
    var one: Bytes := [65];
    assert one[..1] == one && one[1..] == [];
    assert GroupText(one) == [81, 81, PAD, PAD];
    assert Encoded(one) == GroupText(one) + Encoded([]);
    assert Encoded(one) + [LINE_FEED] == text;
    assert text[2..] == rest;
    assert DecodedGroup(text) == Some(Group([65], 2));
    assert DecodedGroup(rest) == Some(Group([0, 0, 0], 4));
    assert DecodedFrom(rest, 1) == Some([0, 0, 0]);
    var four: Bytes := [65, 0, 0, 0];
    assert one + [0, 0, 0] == four;
    assert DecodedFrom(text, 5) == Some(four);
    assert Decoded(text) == Some(four);
  }

  // ---- The alphabet and the test vectors of section 10 of RFC 4648 ----

  const CAPITALS := "ABCDEFGHIJKLMNOPQRSTUVWXYZ"
  const ALPHABET := CAPITALS + "abcdefghijklmnopqrstuvwxyz0123456789+/"

  lemma LettersAreAlphabet(v: int)
    requires 0 <= v < 64
    ensures |ALPHABET| == 64 && Letter(v) == ALPHABET[v] as int
  {
    if v < 26 { CapitalLetters(v); } else if v < 52 { SmallLetters(v - 26); } else { OtherLetters(v - 52); }
  }

  lemma CapitalLetters(v: int)
    requires 0 <= v < 26
    ensures CAPITALS[v] as int == 65 + v
  {
  }

  lemma SmallLetters(v: int)
    requires 0 <= v < 26
    ensures ALPHABET[26 + v] as int == 97 + v
  {
  }

  lemma OtherLetters(v: int)
    requires 0 <= v < 12
    ensures ALPHABET[52 + v] as int == if v < 10 then 48 + v else if v == 10 then 43 else 47
  {
  }

  /** The bytes of "f", "fo", "foo" and "foobar", and of "Zg==", "Zm8=", "Zm9v" and "Zm9vYmFy". */
  lemma TestVectors()
    ensures Encoded([]) == []
    ensures Encoded([102]) == [90, 103, 61, 61]
    ensures Encoded([102, 111]) == [90, 109, 56, 61]
    ensures Encoded([102, 111, 111]) == [90, 109, 57, 118]
    ensures Encoded([102, 111, 111, 98, 97, 114]) == [90, 109, 57, 118, 89, 109, 70, 121]
  {
    hide Encoded, GroupText;
    OneGroup([102]);
    OneGroup([102, 111]);
    OneGroup([102, 111, 111]);
    OneGroup([98, 97, 114]);
    GroupVectors();
    var s: Bytes := [102, 111, 111, 98, 97, 114];
    TwoGroups(s);
    assert s[..3] == [102, 111, 111] && s[3..] == [98, 97, 114];
  }

  lemma GroupVectors()
    ensures GroupText([102]) == [90, 103, 61, 61]
    ensures GroupText([102, 111]) == [90, 109, 56, 61]
    ensures GroupText([102, 111, 111]) == [90, 109, 57, 118]
    ensures GroupText([98, 97, 114]) == [89, 109, 70, 121]
  {
    hide GroupText, Letter;
    LettersOf([102], 25, 32, 0, 0);
    LettersOf([102, 111], 25, 38, 60, 0);
    LettersOf([102, 111, 111], 25, 38, 61, 47);
    LettersOf([98, 97, 114], 24, 38, 5, 50);
    SomeLetters();
  }

  /** The letters of a group whose sextets are known. */
  lemma LettersOf(g: Bytes, w: int, x: int, y: int, z: int)
    requires 1 <= |g| <= 3
    requires 0 <= w < 64 && 0 <= x < 64 && 0 <= y < 64 && 0 <= z < 64
    requires Bits24(g[0], if |g| > 1 then g[1] else 0, if |g| > 2 then g[2] else 0) == 262144 * w + 4096 * x + 64 * y + z
    ensures GroupText(g) == [Letter(w), Letter(x), if |g| > 1 then Letter(y) else PAD, if |g| > 2 then Letter(z) else PAD]
  {
    hide Letter, Bits24, Sextet;
    SextetsOf(w, x, y, z);
  }

  lemma SextetsOf(w: int, x: int, y: int, z: int)
    requires 0 <= w < 64 && 0 <= x < 64 && 0 <= y < 64 && 0 <= z < 64
    ensures
      var n := 262144 * w + 4096 * x + 64 * y + z;
      Sextet(n, 0) == w && Sextet(n, 1) == x && Sextet(n, 2) == y && Sextet(n, 3) == z
  {
    var n := 262144 * w + 4096 * x + 64 * y + z;
    assert n / 262144 == w;
    assert n / 4096 == 64 * w + x;
    assert n / 64 == 4096 * w + 64 * x + y;
  }

  lemma SomeLetters()
    ensures Letter(25) == 90 && Letter(32) == 103 && Letter(38) == 109 && Letter(60) == 56 && Letter(61) == 57
    ensures Letter(47) == 118 && Letter(24) == 89 && Letter(5) == 70 && Letter(50) == 121
  {
  }

  lemma OneGroup(g: Bytes)
    requires 1 <= |g| <= 3
    ensures Encoded([]) == [] && Encoded(g) == GroupText(g)
  {
    hide GroupText;
    assert g[..|g|] == g && g[|g|..] == [];
  }

  lemma TwoGroups(s: Bytes)
    requires |s| > 3
    ensures Encoded(s) == GroupText(s[..3]) + Encoded(s[3..])
  {
    hide GroupText;
  }

  // ---- The other alphabet ----

  /** The letters that are safe in an address in place of `+` and `/`. */
  function UrlSafe(text: Bytes): (r: Bytes)
    ensures |r| == |text|
  {
    seq(|text|, i requires 0 <= i < |text| => UrlSafeLetter(text[i]))
  }

  function UrlSafeLetter(c: byte): byte {
    if c == 43 then 45 else if c == 47 then 95 else c
  }

  lemma {:induction false} UrlSafeDecoded(rest: Bytes, left: int)
    requires left <= |rest|
    ensures DecodedFrom(UrlSafe(rest), left) == DecodedFrom(rest, left)
    decreases |rest|
  {
    hide DecodedGroup;
    var safe := UrlSafe(rest);
    if left > 0 {
      if LineBreak(rest[0]) {
        UrlSafeDecoded(rest[1..], left - 1);
        assert safe[1..] == UrlSafe(rest[1..]);
      } else {
        UrlSafeGroup(rest);
        var g := DecodedGroup(rest);
        if g.Some? && g.value.taken <= |rest| {
          UrlSafeDecoded(rest[g.value.taken..], left - 4);
          assert safe[g.value.taken..] == UrlSafe(rest[g.value.taken..]);
        }
      }
    }
  }

  lemma UrlSafeGroup(rest: Bytes)
    ensures DecodedGroup(UrlSafe(rest)) == DecodedGroup(rest)
  {
    var safe := UrlSafe(rest);
    assert forall i: nat :: i < |rest| ==> ValueAt(safe, i) == ValueAt(rest, i) && PadAt(safe, i) == PadAt(rest, i);
  }
}
