/**
 Length-prefixed frames, and the parse of a whole stream of them: the payloads up to the first frame
 that is incomplete or whose length is not allowed.
 */
module PacketStream {
  import opened Bits
  import opened BitConverter
  import opened Wrappers

  datatype Config = Config(bigEndian: bool, maxLength: int)

  /** The limit as the unsigned number that the length is compared with. */
  function Limit(c: Config): nat { c.maxLength % TWO_32 }

  predicate Allowed(c: Config, length: nat) { 0 < length <= Limit(c) }

  /** Whether a frame can hold the payload at all. */
  predicate Framable(p: Bytes) { |p| < TWO_32 }

  function Frame(c: Config, p: Bytes): (f: Bytes)
    requires Framable(p)
    ensures |f| == 4 + |p|
  {
    FromDword(c.bigEndian, |p|) + p
  }

  function Frames(c: Config, ps: seq<Bytes>): Bytes
    requires forall p :: p in ps ==> Framable(p)
  {
    if |ps| == 0 then [] else Frame(c, ps[0]) + Frames(c, ps[1..])
  }

  /** The length field at the front, if it is complete. */
  function Header(c: Config, s: Bytes): (h: Option<nat>)
    ensures h.Some? ==> |s| >= 4 && h.value < TWO_32
  {
    if |s| < 4 then None
    else
      DwordInverse(c.bigEndian, s[..4]);
      Some(ToDword(c.bigEndian, s[..4]))
  }

  /** The payload of the frame at the front, if it is complete and its length is allowed. */
  function Next(c: Config, s: Bytes): (r: Option<Bytes>)
    ensures r.Some? ==> Allowed(c, |r.value|) && Framable(r.value) && |s| >= 4 + |r.value|
  {
    var h := Header(c, s);
    if h.None? || !Allowed(c, h.value) || |s| < 4 + h.value then None else Some(s[4..4 + h.value])
  }

  datatype Parsed = Parsed(payloads: seq<Bytes>, rest: Bytes)

  function Parse(c: Config, s: Bytes): (r: Parsed)
    ensures forall p :: p in r.payloads ==> Allowed(c, |p|) && Framable(p)
  {
    match Next(c, s)
    case None => Parsed([], s)
    case Some(p) =>
      var r := Parse(c, s[4 + |p|..]);
      Parsed([p] + r.payloads, r.rest)
  }

  lemma ParseNext(c: Config, s: Bytes)
    ensures Next(c, s).Some? <==> |Parse(c, s).payloads| > 0
    ensures Next(c, s).None? ==> Parse(c, s) == Parsed([], s)
    ensures Next(c, s).Some? ==>
      var r := Parse(c, s[4 + |Next(c, s).value|..]);
      Parse(c, s) == Parsed([Next(c, s).value] + r.payloads, r.rest)
  {
  }

  // ---- The parse of a longer stream ----

  lemma NextStays(c: Config, s: Bytes, t: Bytes)
    requires Next(c, s).Some?
    ensures Next(c, s + t) == Next(c, s)
    ensures (s + t)[4 + |Next(c, s).value|..] == s[4 + |Next(c, s).value|..] + t
  {
    hide ToDword;
    var n := 4 + |Next(c, s).value|;
    assert (s + t)[..4] == s[..4];
    assert (s + t)[4..n] == s[4..n];
  }

  lemma {:induction false} ParseAppend(c: Config, s: Bytes, t: Bytes)
    ensures
      var p := Parse(c, s);
      var q := Parse(c, p.rest + t);
      Parse(c, s + t) == Parsed(p.payloads + q.payloads, q.rest)
    decreases |s|
  {
    hide Next;
    if Next(c, s).Some? {
      NextStays(c, s, t);
      var tail := s[4 + |Next(c, s).value|..];
      ParseAppend(c, tail, t);
      var p, head := Parse(c, tail), [Next(c, s).value];
      var q := Parse(c, p.rest + t);
      assert head + (p.payloads + q.payloads) == head + p.payloads + q.payloads;
    } else {
      assert Parse(c, s).payloads == [];
      assert [] + Parse(c, s + t).payloads == Parse(c, s + t).payloads;
    }
  }

  lemma NextFrame(c: Config, s: Bytes)
    requires Next(c, s).Some?
    ensures Frame(c, Next(c, s).value) + s[4 + |Next(c, s).value|..] == s
  {
    hide ToDword, FromDword;
    DwordInverse(c.bigEndian, s[..4]);
    var n := 4 + |Next(c, s).value|;
    assert s == s[..4] + s[4..n] + s[n..];
  }

  /** The frames of the payloads and the rest are the stream. */
  lemma {:induction false} ParseConserves(c: Config, s: Bytes)
    ensures Frames(c, Parse(c, s).payloads) + Parse(c, s).rest == s
    decreases |s|
  {
    hide Next, Frame, Frames, Parse, Allowed, Framable;
    ParseNext(c, s);
    FramesNone(c);
    if Next(c, s).Some? {
      var p := Next(c, s).value;
      var tail := s[4 + |p|..];
      NextFrame(c, s);
      ParseConserves(c, tail);
      var r := Parse(c, tail);
      ParseNext(c, s);
      FramesStep(c, [p] + r.payloads, 1 + |r.payloads|);
      assert ([p] + r.payloads)[..1 + |r.payloads|] == [p] + r.payloads;
      assert ([p] + r.payloads)[1..][..|r.payloads|] == r.payloads;
      assert Frame(c, p) + Frames(c, r.payloads) + r.rest == Frame(c, p) + (Frames(c, r.payloads) + r.rest);
    }
  }

  lemma {:induction false} FramesAppend(c: Config, ps: seq<Bytes>, qs: seq<Bytes>)
    requires (forall p :: p in ps ==> Framable(p)) && forall p :: p in qs ==> Framable(p)
    ensures forall p :: p in ps + qs ==> Framable(p)
    ensures Frames(c, ps + qs) == Frames(c, ps) + Frames(c, qs)
  {
    hide Frame;
    if |ps| == 0 {
      assert ps + qs == qs;
    } else {
      assert (ps + qs)[1..] == ps[1..] + qs;
      FramesAppend(c, ps[1..], qs);
    }
  }

  // ---- The parse of frames of any lengths ----

  /** The payloads before the first one whose length is not allowed. */
  function AllowedPrefix(c: Config, ps: seq<Bytes>): (r: seq<Bytes>)
    ensures r <= ps
    ensures r == ps <==> forall p :: p in ps ==> Allowed(c, |p|)
  {
    if |ps| == 0 || !Allowed(c, |ps[0]|) then [] else [ps[0]] + AllowedPrefix(c, ps[1..])
  }

  /** A beginning of a frame shows its length as soon as that is complete, and its payload only at the end. */
  lemma BeginningOfFrame(c: Config, p: Bytes, s: Bytes)
    requires Framable(p)
    requires forall i :: 0 <= i < |s| && i < 4 + |p| ==> s[i] == Frame(c, p)[i]
    ensures |s| >= 4 ==> Header(c, s) == Some(|p|)
    ensures Next(c, s) == if Allowed(c, |p|) && 4 + |p| <= |s| then Some(p) else None
  {
    hide ToDword, FromDword;
    if |s| >= 4 {
      assert s[..4] == FromDword(c.bigEndian, |p|);
      DwordRoundTrip(c.bigEndian, |p|);
      if 4 + |p| <= |s| { assert s[4..4 + |p|] == p; }
    }
  }

  /** The payloads whose frames end within the first `n` bytes, as far as lengths are allowed. */
  ghost predicate CompleteWithin(c: Config, ps: seq<Bytes>, q: seq<Bytes>, n: nat)
    requires forall p :: p in ps ==> Framable(p)
  {
    && q <= AllowedPrefix(c, ps)
    && |Frames(c, ps[..|q|])| <= n
    && (|q| == |AllowedPrefix(c, ps)| || |Frames(c, ps[..|q| + 1])| > n)
  }

  /** A beginning of the frames parses into the payloads whose frames it completes. */
  lemma {:induction false} ParsePrefix(c: Config, ps: seq<Bytes>, s: Bytes)
    requires (forall p :: p in ps ==> Framable(p)) && s <= Frames(c, ps)
    ensures CompleteWithin(c, ps, Parse(c, s).payloads, |s|)
    decreases |ps|
  {
    hide Next, Frame, Frames, Parse, AllowedPrefix, Allowed, CompleteWithin;
    ParseNext(c, s);
    if |ps| == 0 {
      FramesNone(c);
      NextNeedsHeader(c, s);
      NoneComplete(c, ps, |s|);
    } else {
      var p, tail := ps[0], ps[1..];
      FramesStep(c, ps, |ps|);
      assert ps[..|ps|] == ps && tail[..|tail|] == tail;
      SamePrefix(s, Frame(c, p), Frames(c, tail));
      BeginningOfFrame(c, p, s);
      if Next(c, s).Some? {
        ParsePrefix(c, tail, s[4 + |p|..]);
        OneMoreComplete(c, ps, Parse(c, s[4 + |p|..]).payloads, |s| - 4 - |p|);
      } else {
        NoneComplete(c, ps, |s|);
      }
    }
  }

  lemma NoneComplete(c: Config, ps: seq<Bytes>, n: nat)
    requires forall p :: p in ps ==> Framable(p)
    requires |ps| > 0 && Allowed(c, |ps[0]|) ==> n < 4 + |ps[0]|
    ensures CompleteWithin(c, ps, [], n)
  {
    hide Frame, Frames, AllowedPrefix, Allowed;
    AllowedPrefixStep(c, ps);
    FramesNone(c);
    assert ps[..0] == [];
    if |ps| > 0 { FramesStep(c, ps, 1); }
  }

  lemma OneMoreComplete(c: Config, ps: seq<Bytes>, q: seq<Bytes>, n: nat)
    requires (forall p :: p in ps ==> Framable(p)) && |ps| > 0 && Allowed(c, |ps[0]|)
    requires CompleteWithin(c, ps[1..], q, n)
    ensures CompleteWithin(c, ps, [ps[0]] + q, 4 + |ps[0]| + n)
  {
    hide Frame, Frames, AllowedPrefix, Allowed;
    AllowedPrefixStep(c, ps);
    FramesStep(c, ps, |q| + 1);
    if |q| < |AllowedPrefix(c, ps[1..])| { FramesStep(c, ps, |q| + 2); }
  }

  lemma NextNeedsHeader(c: Config, s: Bytes)
    ensures |s| < 4 ==> Next(c, s).None?
  {
  }

  lemma SamePrefix(s: Bytes, f: Bytes, g: Bytes)
    requires s <= f + g
    ensures forall i :: 0 <= i < |s| && i < |f| ==> s[i] == f[i]
    ensures |s| >= |f| ==> s[|f|..] <= g
  {
    forall i | 0 <= i < |s| ensures s[i] == (f + g)[i] {
    }
  }

  lemma FramesOne(c: Config, p: Bytes)
    requires Framable(p)
    ensures Frames(c, [p]) == Frame(c, p)
  {
    hide Frame;
  }

  /** The bytes of a short frame. */
  lemma ShortFrame(c: Config, p: Bytes)
    requires |p| < 256
    ensures Frame(c, p) == (if c.bigEndian then [0, 0, 0, |p|] else [|p|, 0, 0, 0]) + p
    ensures Allowed(c, |p|) ==> Parse(c, Frame(c, p)) == Parsed([p], [])
  {
    hide FromDword, Parse, Frames, Allowed;
    SmallDword(c.bigEndian, |p|);
    if Allowed(c, |p|) {
      hide Frame;
      var ps, s := [p], Frame(c, p);
      FramesOne(c, p);
      ParseFrames(c, ps);
      ParseConserves(c, s);
      assert s + Parse(c, s).rest == s;
    }
  }

  lemma FramesNone(c: Config)
    ensures Frames(c, []) == []
  {
  }

  lemma FramesStep(c: Config, ps: seq<Bytes>, k: nat)
    requires (forall p :: p in ps ==> Framable(p)) && 0 < k <= |ps|
    ensures Frames(c, ps[..k]) == Frame(c, ps[0]) + Frames(c, ps[1..][..k - 1])
  {
    hide Frame;
    assert ps[..k][1..] == ps[1..][..k - 1];
  }

  lemma AllowedPrefixStep(c: Config, ps: seq<Bytes>)
    ensures |ps| == 0 ==> AllowedPrefix(c, ps) == []
    ensures |ps| > 0 ==>
      AllowedPrefix(c, ps) == if Allowed(c, |ps[0]|) then [ps[0]] + AllowedPrefix(c, ps[1..]) else []
  {
  }

  lemma FramesShorter(c: Config, ps: seq<Bytes>, k: nat)
    requires (forall p :: p in ps ==> Framable(p)) && k <= |ps|
    ensures |Frames(c, ps[..k])| <= |Frames(c, ps)|
  {
    hide Frames;
    FramesAppend(c, ps[..k], ps[k..]);
    assert ps == ps[..k] + ps[k..];
  }

  /** All frames: every payload comes out exactly when every length is allowed. */
  lemma ParseFrames(c: Config, ps: seq<Bytes>)
    requires forall p :: p in ps ==> Framable(p)
    ensures Parse(c, Frames(c, ps)).payloads == AllowedPrefix(c, ps)
    ensures Parse(c, Frames(c, ps)).payloads == ps <==> forall p :: p in ps ==> Allowed(c, |p|)
  {
    hide Parse, Frames, Frame, Allowed, AllowedPrefix, Framable;
    var q, all := Parse(c, Frames(c, ps)).payloads, AllowedPrefix(c, ps);
    ParsePrefix(c, ps, Frames(c, ps));
    if |q| < |all| { FramesShorter(c, ps, |q| + 1); }
  }

  // ---- Lengths that are not allowed ----

  predicate Blocked(c: Config, s: Bytes) {
    Header(c, s).Some? && !Allowed(c, Header(c, s).value)
  }

  lemma BlockedParse(c: Config, s: Bytes, more: Bytes)
    requires Blocked(c, Parse(c, s).rest)
    ensures Parse(c, s + more).payloads == Parse(c, s).payloads
    ensures Blocked(c, Parse(c, s + more).rest)
  {
    hide ToDword;
    var r := Parse(c, s).rest;
    ParseAppend(c, s, more);
    assert (r + more)[..4] == r[..4];
    assert Parse(c, r + more) == Parsed([], r + more);
  }

  /** Once the length of the next frame has come in, nothing that follows can add a payload exactly
      when that length is 0 or above the limit. */
  lemma BlockedExactly(c: Config, s: Bytes)
    requires Header(c, Parse(c, s).rest).Some?
    ensures Blocked(c, Parse(c, s).rest) <==> forall more :: Parse(c, s + more).payloads == Parse(c, s).payloads
  {
    hide ToDword, Parse;
    var r := Parse(c, s).rest;
    if Blocked(c, r) {
      forall more ensures Parse(c, s + more).payloads == Parse(c, s).payloads {
        BlockedParse(c, s, more);
      }
    } else {
      var more: Bytes := seq(4 + Header(c, r).value, _ => 0);
      ParseAppend(c, s, more);
      assert (r + more)[..4] == r[..4];
      ParseNext(c, r + more);
      assert Parse(c, s + more).payloads != Parse(c, s).payloads;
    }
  }
}
