/** The encoder and the decoder, which move through the source and fill a destination buffer. */
module Base64 {
  import opened Arithmetic
  import opened Bits
  import opened Wrappers
  import opened Base64Text

  // ---- The bits ----

  lemma SixBitMask(x: nat)
    ensures BitAnd(x, 63) == x % 64
  {
    PowersOfTwo();
    BitAndMask(x, 6);
  }

  lemma PowersOfTwo()
    ensures Pow2(2) == 4 && Pow2(4) == 16 && Pow2(6) == 64 && Pow2(8) == 256 && Pow2(16) == 65536
  {
    assert Pow2(2) == 4 && Pow2(4) == 16 && Pow2(6) == 64 && Pow2(8) == 256;
    assert Pow2(10) == 1024 && Pow2(12) == 4096 && Pow2(14) == 16384;
  }

  lemma JoinFour(a: int, b: int)
    requires 0 <= a < 256 && 0 <= b < 256
    ensures BitAnd(BitOr(a * 16, b / 16), 63) == a % 4 * 16 + b / 16
  {
    hide Pow2, BitOr, BitAnd;
    JoinBits(a, b / 16, 4, 16);
    SixBitMask(a * 16 + b / 16);
    DivModUnique(a * 16 + b / 16, 64, a / 4, a % 4 * 16 + b / 16);
  }

  lemma JoinTwo(b: int, c: int)
    requires 0 <= b < 256 && 0 <= c < 256
    ensures BitAnd(BitOr(b * 4, c / 64), 63) == b % 16 * 4 + c / 64
  {
    hide Pow2, BitOr, BitAnd;
    JoinBits(b, c / 64, 2, 4);
    SixBitMask(b * 4 + c / 64);
    DivModUnique(b * 4 + c / 64, 64, b / 16, b % 16 * 4 + c / 64);
  }

  lemma JoinBits(a: nat, r: nat, k: nat, p: nat)
    requires ((k == 2 && p == 4) || (k == 4 && p == 16)) && r < p
    ensures a * p >= 0 && BitOr(a * p, r) == a * p + r
  {
    hide BitOr, Pow2;
    PowersOfTwo();
    MulNonNegative(a, p);
    MultipleMod(a, p);
    BitOrDisjoint(a * p, r, k);
  }

  lemma OctetMask(n: nat)
    ensures BitAnd(n, 0xff0000) / 65536 == Octet(n, 0)
    ensures BitAnd(n, 0xff00) / 256 == Octet(n, 1)
    ensures BitAnd(n, 0xff) == Octet(n, 2)
  {
    hide Pow2, BitAnd;
    PowersOfTwo();
    MovedMask(n, 255, 16, 65536, 0xff0000, n / 65536);
    MovedMask(n, 255, 8, 256, 0xff00, n / 256);
    BitAndMask(n / 65536, 8);
    BitAndMask(n / 256, 8);
    BitAndMask(n, 8);
  }

  lemma TailMasks(a: byte, b: byte)
    ensures BitAnd(a, 0xfc) / 4 == a / 4 && BitAnd(a, 0x03) == a % 4
    ensures BitAnd(b, 0xf0) / 16 == b / 16 && BitAnd(b, 0x0f) == b % 16
  {
    hide Pow2, BitAnd;
    PowersOfTwo();
    MovedMask(a, 63, 2, 4, 0xfc, a / 4);
    MovedMask(b, 15, 4, 16, 0xf0, b / 16);
    SixBitMask(a / 4);
    BitAndMask(b / 16, 4);
    BitAndMask(a, 2);
    BitAndMask(b, 4);
  }

  lemma TailOr(a: byte, b: byte)
    ensures BitOr(a % 4 * 16, b / 16) == a % 4 * 16 + b / 16
  {
    JoinBits(a % 4, b / 16, 4, 16);
  }

  // ---- Encoding ----

  method PutFour(dst: array<byte>, at: nat, c0: byte, c1: byte, c2: byte, c3: byte)
    requires at + 4 <= dst.Length
    modifies dst
    ensures dst[..at + 4] == old(dst[..at]) + [c0, c1, c2, c3]
    ensures forall k :: at + 4 <= k < dst.Length ==> dst[k] == old(dst[k])
  {
    dst[at], dst[at + 1], dst[at + 2], dst[at + 3] := c0, c1, c2, c3;
  }

  lemma ThreeText(a: byte, b: byte, c: byte)
    ensures GroupText([a, b, c])
            == [Letter(a / 4), Letter(a % 4 * 16 + b / 16), Letter(b % 16 * 4 + c / 64), Letter(c % 64)]
    ensures GroupText([a, b]) == [Letter(a / 4), Letter(a % 4 * 16 + b / 16), Letter(b % 16 * 4), PAD]
    ensures GroupText([a]) == [Letter(a / 4), Letter(a % 4 * 16), PAD, PAD]
  {
    hide Letter, Sextet, Bits24;
    SixBits(a, b, c);
    SixBits(a, b, 0);
    SixBits(a, 0, 0);
  }

  method PutThree(dst: array<byte>, at: nat, src: Bytes)
    requires |src| == 3 && at + 4 <= dst.Length
    modifies dst
    ensures dst[..at + 4] == old(dst[..at]) + GroupText(src)
    ensures forall k :: at + 4 <= k < dst.Length ==> dst[k] == old(dst[k])
  {
    hide GroupText, Letter, BitOr, BitAnd;
    var c1: int, c2: int, c3: int := src[0], src[1], src[2];
    assert src == [c1, c2, c3];
    ThreeText(c1, c2, c3);
    JoinFour(c1, c2);
    JoinTwo(c2, c3);
    SixBitMask(c3);
    PutFour(dst, at, Letter(c1 / 4), Letter(BitAnd(BitOr(c1 * 16, c2 / 16), 63)),
            Letter(BitAnd(BitOr(c2 * 4, c3 / 64), 63)), Letter(BitAnd(c3, 63)));
  }

  method PutTwo(dst: array<byte>, at: nat, src: Bytes)
    requires |src| == 2 && at + 4 <= dst.Length
    modifies dst
    ensures dst[..at + 4] == old(dst[..at]) + GroupText(src)
    ensures forall k :: at + 4 <= k < dst.Length ==> dst[k] == old(dst[k])
  {
    hide GroupText, Letter, BitOr, BitAnd;
    var c1: int, c2: int := src[0], src[1];
    assert src == [c1, c2];
    ThreeText(c1, c2, 0);
    TailMasks(c1, c2);
    TailOr(c1, c2);
    PutFour(dst, at, Letter(BitAnd(c1, 0xfc) / 4),
            Letter(BitOr(BitAnd(c1, 0x03) * 16, BitAnd(c2, 0xf0) / 16)), Letter(BitAnd(c2, 0x0f) * 4), PAD);
  }

  method PutOne(dst: array<byte>, at: nat, src: Bytes)
    requires |src| == 1 && at + 4 <= dst.Length
    modifies dst
    ensures dst[..at + 4] == old(dst[..at]) + GroupText(src)
    ensures forall k :: at + 4 <= k < dst.Length ==> dst[k] == old(dst[k])
  {
    hide GroupText, Letter, BitOr, BitAnd;
    var c1: int := src[0];
    assert src == [c1];
    ThreeText(c1, 0, 0);
    TailMasks(c1, 0);
    PutFour(dst, at, Letter(BitAnd(c1, 0xfc) / 4), Letter(BitAnd(c1, 0x03) * 16), PAD, PAD);
  }

  lemma NextGroup(s: Bytes, at: nat, k: nat)
    requires at < |s| && k == First(s[at..])
    ensures Encoded(s[at..]) == GroupText(s[at..at + k]) + Encoded(s[at + k..])
  {
    assert s[at..][..k] == s[at..at + k] && s[at..][k..] == s[at + k..];
  }

  /** One group more of the text: what is written and what is still to come are together all of it. */
  lemma OneGroupMore(all: Bytes, done: Bytes, group: Bytes, later: Bytes)
    requires all == done + (group + later)
    ensures all == done + group + later
  {
  }

  /** The last group, of one or two bytes, if there is one. */
  method PutTail(dst: array<byte>, at: nat, src: Bytes) returns (length: nat)
    requires |src| < 3 && at + (if |src| == 0 then 0 else 4) <= dst.Length
    modifies dst
    ensures length == at + (if |src| == 0 then 0 else 4) && dst[..length] == old(dst[..at]) + Encoded(src)
    ensures forall k :: length <= k < dst.Length ==> dst[k] == old(dst[k])
  {
    hide Encoded, GroupText;
    length := at;
    TailEncoded(src);
    if |src| == 1 {
      PutOne(dst, at, src);
      length := at + 4;
    } else if |src| == 2 {
      PutTwo(dst, at, src);
      length := at + 4;
    }
  }

  lemma TailEncoded(src: Bytes)
    requires |src| < 3
    ensures Encoded(src) == if |src| == 0 then [] else GroupText(src)
  {
    hide GroupText;
    if |src| > 0 { assert src[..First(src)] == src && src[First(src)..] == []; }
  }

  /** Fills the start of the destination with the text, and returns its length. */
  method DoEncode(src: Bytes, dst: array<byte>) returns (length: nat)
    requires dst.Length >= EnoughEncodedLength(|src|)
    modifies dst
    ensures length <= dst.Length && dst[..length] == Encoded(src)
    ensures forall k :: length <= k < dst.Length ==> dst[k] == old(dst[k])
  {
    hide Encoded, GroupText, EnoughEncodedLength, First;
    var div := |src| / 3;
    EncodedLength(src);
    length := 0;
    assert src[0..] == src && dst[..0] + Encoded(src) == Encoded(src);
    for i := 0 to div
      invariant length == 4 * i && length <= dst.Length
      invariant Encoded(src) == dst[..length] + Encoded(src[3 * i..])
      invariant forall k :: length <= k < dst.Length ==> dst[k] == old(dst[k])
    {
      FirstOf(src[3 * i..]);
      NextGroup(src, 3 * i, 3);
      ghost var group := GroupText(src[3 * i..3 * i + 3]);
      OneGroupMore(Encoded(src), dst[..length], group, Encoded(src[3 * i + 3..]));
      PutThree(dst, length, src[3 * i..3 * i + 3]);
      length := length + 4;
    }
    TailEncoded(src[3 * div..]);
    length := PutTail(dst, length, src[3 * div..]);
  }

  lemma FirstOf(s: Bytes)
    requires |s| >= 3
    ensures First(s) == 3
  {
  }

  method Encode(src: Bytes) returns (text: Bytes)
    ensures text == Encoded(src) && Decoded(text) == Some(src)
  {
    var len := (|src| / 3 + if |src| % 3 > 0 then 1 else 0) * 4;
    var dst := new byte[len + (len / 72 + if len % 72 > 0 then 1 else 0) * 2];
    var length := DoEncode(src, dst);
    text := dst[..length];
    RoundTrip(src);
  }

  // ---- Decoding ----

  lemma ValueThere(src: Bytes, p: nat, k: nat)
    requires p <= |src|
    ensures ValueAt(src[p..], k) == ValueAt(src, p + k) && PadAt(src[p..], k) == PadAt(src, p + k)
  {
  }

  /** One group: the bytes it stands for are written, and both positions move on. */
  method DecodeGroup(src: Bytes, p: nat, dst: array<byte>, at: nat) returns (ok: bool, q: nat, length: nat)
    requires at <= p < |src| <= dst.Length
    modifies dst
    ensures ok <==> DecodedGroup(src[p..]).Some?
    ensures ok ==>
      var g := DecodedGroup(src[p..]).value;
      q == p + g.taken && length == at + |g.bytes| <= dst.Length && dst[..length] == old(dst[..at]) + g.bytes
  {
    hide BitAnd, Octet;
    ValueThere(src, p, 0);
    ValueThere(src, p, 1);
    ValueThere(src, p, 2);
    ValueThere(src, p, 3);
    ok, q, length := false, p + 2, at;
    if ValueAt(src, p).None? || ValueAt(src, p + 1).None? { return; }
    var value := ValueAt(src, p).value * 262144 + ValueAt(src, p + 1).value * 4096;
    OctetMask(value);
    dst[length] := BitAnd(value, 0xff0000) / 65536;
    length := length + 1;
    if !PadAt(src, q) {
      if ValueAt(src, q).None? { return; }
      value := value + ValueAt(src, q).value * 64;
      OctetMask(value);
      q := q + 1;
      dst[length] := BitAnd(value, 0xff00) / 256;
      length := length + 1;
      if !PadAt(src, q) {
        if ValueAt(src, q).None? { return; }
        value := value + ValueAt(src, q).value;
        OctetMask(value);
        q := q + 1;
        dst[length] := BitAnd(value, 0xff);
        length := length + 1;
      }
    }
    ok := true;
  }

  /** Fills the start of the destination with the bytes that the text stands for. */
  method DoDecode(src: Bytes, dst: array<byte>) returns (length: Option<nat>)
    requires dst.Length >= |src|
    modifies dst
    ensures length.Some? <==> Decoded(src).Some?
    ensures InTable(src) ==>
      (length.Some? <==> LastStart(src, |src|).None? || LastStart(src, |src|).value >= 3)
    ensures length.Some? ==> length.value <= dst.Length && Decoded(src) == Some(dst[..length.value])
  {
    hide DecodedGroup, DecodedFrom, LastStart, InTable, LineBreak;
    if InTable(src) { ReadWithin(src, |src|); }
    var i: nat, p: nat, n: nat := 0, 0, 0;
    StartDecoding(src, dst[..0]);
    while i < |src|
      invariant n <= p <= i && n <= dst.Length
      invariant p <= |src| || i >= |src|
      invariant Continues(Decoded(src), dst[..n],
                          DecodedFrom(if p <= |src| then src[p..] else [], if p <= |src| then |src| - i else 0))
    {
      if !LineBreak(src[p]) {
        ghost var g, was := DecodedGroup(src[p..]), dst[..n];
        var ok, q, m := DecodeGroup(src, p, dst, n);
        NextDecoded(Decoded(src), was, src, p, |src| - i);
        if !ok { return None; }
        n, p := m, q;
        i := i + 4;
      } else {
        NextStep(src[p..], |src| - i);
        assert src[p..][1..] == src[p + 1..];
        p := p + 1;
        i := i + 1;
      }
    }
    NothingDecodedAfter(Decoded(src), dst[..n], if p <= |src| then src[p..] else [], if p <= |src| then |src| - i else 0);
    return Some(n);
  }

  /** What is decoded in all is what is decoded already and what follows. */
  ghost predicate Continues(all: Option<Bytes>, done: Bytes, tail: Option<Bytes>) {
    all == if tail.None? then None else Some(done + tail.value)
  }

  lemma StartDecoding(src: Bytes, done: Bytes)
    requires done == []
    ensures src[0..] == src && Continues(Decoded(src), done, DecodedFrom(src[0..], |src|))
  {
    assert src[0..] == src;
    var all := Decoded(src);
    if all.Some? { assert done + all.value == all.value; }
  }

  lemma NothingDecodedAfter(all: Option<Bytes>, done: Bytes, rest: Bytes, left: int)
    requires left <= 0 && Continues(all, done, DecodedFrom(rest, left))
    ensures all == Some(done)
  {
    assert done + [] == done;
  }

  lemma NextDecoded(all: Option<Bytes>, done: Bytes, src: Bytes, p: nat, left: int)
    requires p < |src| && 0 < left <= |src| - p && !LineBreak(src[p])
    requires Continues(all, done, DecodedFrom(src[p..], left))
    ensures
      var g := DecodedGroup(src[p..]);
      if g.None? then all.None?
      else
        var q := p + g.value.taken;
        Continues(all, done + g.value.bytes,
                  DecodedFrom(if q <= |src| then src[q..] else [], if q <= |src| then left - 4 else 0))
  {
    hide DecodedGroup, LineBreak;
    var g := DecodedGroup(src[p..]);
    if g.Some? {
      var q := p + g.value.taken;
      if q <= |src| {
        assert src[p..][g.value.taken..] == src[q..];
        var tail := DecodedFrom(src[q..], left - 4);
        if tail.Some? { assert done + (g.value.bytes + tail.value) == done + g.value.bytes + tail.value; }
      } else {
        assert done + g.value.bytes + [] == done + g.value.bytes;
      }
    }
  }

  method Decode(text: Bytes) returns (data: Option<Bytes>)
    ensures data == Decoded(text)
  {
    var dst := new byte[|text|];
    var length := DoDecode(text, dst);
    data := if length.Some? then Some(dst[..length.value]) else None;
  }
}
