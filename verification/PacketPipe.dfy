/**
 The pipe of packets: bytes are fed in pieces of any length, and reading takes out the payload of the
 next frame when it is complete. The position is added to the length in 32 bits.
 */
module PacketPipes {
  import opened Arithmetic
  import opened Bits
  import opened BitConverter
  import opened PacketStream
  import opened Wrappers

  const TWO_31: int := 0x8000_0000

  /** An unsigned 32-bit number as it is stored in a signed one. */
  function Signed(x: nat): int
    requires x < TWO_32
  {
    if x < TWO_31 then x else x - TWO_32
  }

  // ---- One read ----

  /** What a read gives: the size, and the bytes there if the size is not negative. */
  datatype Packet = Packet(size: int, data: Bytes)

  datatype Fetched = Fetched(packet: Option<Packet>, position: nat)

  function Fetch(c: Config, buffer: Bytes, position: nat): (r: Fetched)
    requires position <= |buffer|
    ensures r.position <= |buffer|
  {
    var h := Header(c, buffer[position..]);
    if h.None? || !Allowed(c, h.value) || (position + 4 + h.value) % TWO_32 > |buffer| then Fetched(None, position)
    else
      var start := position + 4;
      var data := if start + h.value <= |buffer| then buffer[start..start + h.value] else [];
      Fetched(Some(Packet(Signed(h.value), data)), (start + h.value) % TWO_32)
  }

  /** The end of the frame does not fit into 32 bits, and seems to lie within the buffer. */
  predicate Wraps(c: Config, buffer: Bytes, position: nat)
    requires position <= |buffer|
  {
    var h := Header(c, buffer[position..]);
    && h.Some? && Allowed(c, h.value)
    && position + 4 + h.value >= TWO_32 && (position + 4 + h.value) % TWO_32 <= |buffer|
  }

  /** The read that the frames ask for. */
  function Proper(c: Config, buffer: Bytes, position: nat): Fetched
    requires position <= |buffer|
  {
    match Next(c, buffer[position..])
    case None => Fetched(None, position)
    case Some(p) => Fetched(Some(Packet(|p|, p)), position + 4 + |p|)
  }

  /** The exact condition of one read: it is the proper one unless the sum wraps, and then the size is
      negative and the position moves back or stays. */
  lemma FetchExactly(c: Config, buffer: Bytes, position: nat)
    requires position <= |buffer| < TWO_31
    ensures Fetch(c, buffer, position) == Proper(c, buffer, position) <==> !Wraps(c, buffer, position)
    ensures Wraps(c, buffer, position) ==>
      var r := Fetch(c, buffer, position);
      r.packet.Some? && r.packet.value.size < 0 && r.position == position + 4 + r.packet.value.size
  {
    hide Header;
    var pending, h := buffer[position..], Header(c, buffer[position..]);
    if h.Some? {
      var end := position + 4 + h.value;
      if end < TWO_32 {
        DivModUnique(end, TWO_32, 0, end);
        if 4 + h.value <= |pending| { assert pending[4..4 + h.value] == buffer[position + 4..end]; }
      } else {
        DivModUnique(end, TWO_32, 1, end - TWO_32);
      }
    }
  }

  lemma HeaderAt(c: Config, buffer: Bytes, position: nat)
    requires position <= |buffer|
    ensures
      Header(c, buffer[position..])
      == if position + 4 > |buffer| then None else Some(ToDword(c.bigEndian, buffer[position..position + 4]))
  {
    hide ToDword;
    if position + 4 <= |buffer| { assert buffer[position..][..4] == buffer[position..position + 4]; }
  }

  // ---- Runs ----

  datatype Op = FeedOp(data: Bytes) | ReadOp

  /** What has been fed and returned so far, and what is in the pipe. */
  datatype Trace = Trace(fed: Bytes, returned: seq<Packet>, buffer: Bytes, position: nat) {
    predicate Valid() { position <= |buffer| }

    function Pending(): Bytes
      requires Valid()
    {
      buffer[position..]
    }
  }

  function Step(c: Config, t: Trace, op: Op): (r: Trace)
    requires t.Valid()
    ensures r.Valid()
  {
    match op
    case FeedOp(data) => Trace(t.fed + data, t.returned, t.Pending() + data, 0)
    case ReadOp =>
      var f := Fetch(c, t.buffer, t.position);
      Trace(t.fed, t.returned + (if f.packet.Some? then [f.packet.value] else []), t.buffer, f.position)
  }

  function Run(c: Config, ops: seq<Op>): (t: Trace)
    ensures t.Valid()
  {
    if |ops| == 0 then Trace([], [], [], 0) else Step(c, Run(c, ops[..|ops| - 1]), ops[|ops| - 1])
  }

  /** The buffer never grows so long that a signed 32-bit position could not point into it. */
  ghost predicate Bounded(c: Config, ops: seq<Op>) {
    forall i :: 0 <= i <= |ops| ==> |Run(c, ops[..i]).buffer| < TWO_31
  }

  /** The maxima for which no sum can wrap. */
  predicate Safe(c: Config) {
    0 <= c.maxLength < TWO_31 || c.maxLength == -TWO_31
  }

  lemma SafeNeverWraps(c: Config, buffer: Bytes, position: nat)
    requires position <= |buffer| < TWO_31 && Safe(c)
    ensures !Wraps(c, buffer, position)
  {
    hide Header;
    if c.maxLength >= 0 {
      DivModUnique(c.maxLength, TWO_32, 0, c.maxLength);
    } else {
      DivModUnique(c.maxLength, TWO_32, -1, TWO_31);
    }
    var h := Header(c, buffer[position..]);
    if h.Some? && position + 4 + h.value >= TWO_32 {
      DivModUnique(position + 4 + h.value, TWO_32, 1, position + 4 + h.value - TWO_32);
    }
  }

  function Payloads(returned: seq<Packet>): (ps: seq<Bytes>)
    ensures |ps| == |returned|
  {
    seq(|returned|, i requires 0 <= i < |returned| => returned[i].data)
  }

  /** Every packet has its own size, and what has been returned and what can still be read from the
      pending bytes are together the parse of all that was fed. */
  ghost predicate Parsing(c: Config, t: Trace) {
    && t.Valid()
    && (forall r :: r in t.returned ==> r.size == |r.data|)
    && var q := Parse(c, t.Pending());
       Parse(c, t.fed) == Parsed(Payloads(t.returned) + q.payloads, q.rest)
  }

  lemma FeedKeeps(c: Config, t: Trace, data: Bytes)
    requires Parsing(c, t)
    ensures Parsing(c, Step(c, t, FeedOp(data)))
  {
    hide Parse;
    var done, q := Payloads(t.returned), Parse(c, t.Pending());
    ParseAppend(c, t.fed, data);
    ParseAppend(c, t.Pending(), data);
    var r := Parse(c, q.rest + data);
    assert done + (q.payloads + r.payloads) == done + q.payloads + r.payloads;
  }

  lemma ReadKeeps(c: Config, t: Trace)
    requires Parsing(c, t) && Fetch(c, t.buffer, t.position) == Proper(c, t.buffer, t.position)
    ensures Parsing(c, Step(c, t, ReadOp))
  {
    hide Parse, Next, Fetch;
    var done, pending := Payloads(t.returned), t.Pending();
    ParseNext(c, pending);
    if Next(c, pending).Some? {
      var p := Next(c, pending).value;
      var r := Parse(c, pending[4 + |p|..]);
      var t' := Step(c, t, ReadOp);
      assert t'.Pending() == pending[4 + |p|..];
      assert Payloads(t'.returned) == done + [p];
      assert done + ([p] + r.payloads) == done + [p] + r.payloads;
    } else {
      assert t.returned + [] == t.returned;
    }
  }

  lemma BoundedPrefix(c: Config, ops: seq<Op>)
    requires Bounded(c, ops)
    ensures |Run(c, ops).buffer| < TWO_31
    ensures |ops| > 0 ==> Bounded(c, ops[..|ops| - 1]) && |Run(c, ops[..|ops| - 1]).buffer| < TWO_31
  {
    hide Run;
    assert ops[..|ops|] == ops;
    if |ops| > 0 {
      var init := ops[..|ops| - 1];
      forall i | 0 <= i <= |init| ensures |Run(c, init[..i]).buffer| < TWO_31 {
        assert init[..i] == ops[..i];
      }
    }
  }

  /** On every run, whatever the lengths in the stream. */
  lemma {:induction false} RunParses(c: Config, ops: seq<Op>)
    requires Safe(c) && Bounded(c, ops)
    ensures Parsing(c, Run(c, ops))
  {
    hide Parsing, Bounded, Step, Safe;
    BoundedPrefix(c, ops);
    if |ops| == 0 {
      NothingParsed(c);
    } else {
      var n := |ops| - 1;
      var t := Run(c, ops[..n]);
      RunParses(c, ops[..n]);
      match ops[n]
      case FeedOp(data) => FeedKeeps(c, t, data);
      case ReadOp =>
        SafeNeverWraps(c, t.buffer, t.position);
        FetchExactly(c, t.buffer, t.position);
        ReadKeeps(c, t);
    }
  }

  lemma NothingParsed(c: Config)
    ensures Parsing(c, Trace([], [], [], 0))
  {
    assert Payloads([]) == [];
  }

  // ---- What the runs return ----

  /** The frames of what was returned and the bytes left in the pipe are together what was fed. */
  ghost predicate Conserved(c: Config, t: Trace) {
    && t.Valid()
    && (forall r :: r in t.returned ==> r.size == |r.data| && Allowed(c, |r.data|))
    && (forall p :: p in Payloads(t.returned) ==> Framable(p))
    && Frames(c, Payloads(t.returned)) + t.Pending() == t.fed
  }

  lemma ParsingConserves(c: Config, t: Trace)
    requires Parsing(c, t)
    ensures Conserved(c, t)
  {
    hide Parse, Frames, Framable, Allowed;
    var done, q := Payloads(t.returned), Parse(c, t.Pending());
    forall i | 0 <= i < |done| ensures Framable(done[i]) && Allowed(c, |done[i]|) {
      assert (done + q.payloads)[i] in Parse(c, t.fed).payloads;
    }
    forall r | r in t.returned ensures Allowed(c, |r.data|) {
      var i :| 0 <= i < |t.returned| && t.returned[i] == r;
      assert done[i] == r.data;
    }
    ParseConserves(c, t.fed);
    ParseConserves(c, t.Pending());
    FramesAppend(c, done, q.payloads);
    assert Frames(c, done) + Frames(c, q.payloads) + q.rest == Frames(c, done) + (Frames(c, q.payloads) + q.rest);
  }

  /** However feeding and reading alternate, no byte is lost, repeated or moved. */
  lemma BytesConserved(c: Config, ops: seq<Op>)
    requires Safe(c) && Bounded(c, ops)
    ensures Conserved(c, Run(c, ops))
  {
    hide *;
    RunParses(c, ops);
    ParsingConserves(c, Run(c, ops));
  }

  /** What is returned is a beginning of the parse of all that was fed, and a read gives the next
      payload of that parse, exactly when there is one. */
  lemma InOrderOnceComplete(c: Config, ops: seq<Op>)
    requires Safe(c) && Bounded(c, ops)
    ensures
      var t := Run(c, ops);
      var all, k := Parse(c, t.fed).payloads, |t.returned|;
      && all == Payloads(t.returned) + Parse(c, t.Pending()).payloads
      && (Next(c, t.Pending()).Some? <==> k < |all|)
      && (k < |all| ==> Fetch(c, t.buffer, t.position).packet == Some(Packet(|all[k]|, all[k])))
      && (k == |all| ==> Fetch(c, t.buffer, t.position) == Fetched(None, t.position))
  {
    hide Parse, Fetch, Next, Wraps, Safe, Bounded, Run;
    var t := Run(c, ops);
    RunParses(c, ops);
    BoundedPrefix(c, ops);
    ParseNext(c, t.Pending());
    SafeNeverWraps(c, t.buffer, t.position);
    FetchExactly(c, t.buffer, t.position);
  }

  /** For a stream of frames of any lengths: the payloads before the first length that is not allowed
      come back, each as soon as its frame is complete, and nothing else ever does. */
  lemma FramesReturned(c: Config, ps: seq<Bytes>, ops: seq<Op>)
    requires Safe(c) && Bounded(c, ops)
    requires (forall p :: p in ps ==> Framable(p)) && Run(c, ops).fed <= Frames(c, ps)
    ensures
      var t := Run(c, ops);
      var all, k := AllowedPrefix(c, ps), |t.returned|;
      && Payloads(t.returned) <= all
      && (Next(c, t.Pending()).Some? <==> k < |all| && |Frames(c, ps[..k + 1])| <= |t.fed|)
      && (Next(c, t.Pending()).Some? ==> Next(c, t.Pending()).value == all[k])
  {
    hide Parse, Fetch, Next, Safe, Bounded, Run, Frames, AllowedPrefix, Allowed;
    var t := Run(c, ops);
    RunParses(c, ops);
    ParseNext(c, t.Pending());
    ParsePrefix(c, ps, t.fed);
    var n, k := |Parse(c, t.fed).payloads|, |t.returned|;
    if k < n {
      FramesShorter(c, ps[..n], k + 1);
      assert ps[..n][..k + 1] == ps[..k + 1];
    }
  }

  /** When everything has been read, all payloads have come back exactly when every length was allowed. */
  lemma AllReturnedExactly(c: Config, ps: seq<Bytes>, ops: seq<Op>)
    requires Safe(c) && Bounded(c, ops)
    requires (forall p :: p in ps ==> Framable(p)) && Run(c, ops).fed == Frames(c, ps)
    requires Next(c, Run(c, ops).Pending()).None?
    ensures Payloads(Run(c, ops).returned) == AllowedPrefix(c, ps)
    ensures Payloads(Run(c, ops).returned) == ps <==> forall p :: p in ps ==> 0 < |p| <= Limit(c)
  {
    hide Parse, Next, Safe, Bounded, Run, Frames, AllowedPrefix;
    var t := Run(c, ops);
    RunParses(c, ops);
    ParseNext(c, t.Pending());
    ParseFrames(c, ps);
    assert Payloads(t.returned) + [] == Payloads(t.returned);
  }

  /** An empty frame and one of a byte behind it: there is nothing in the parse, a read finds nothing and
      does not move, and so does every read after it. */
  lemma EmptyFrameBlocks(c: Config)
    ensures
      var s := Frames(c, [[], [7]]);
      Parse(c, s).payloads == [] && Fetch(c, s, 0) == Fetched(None, 0)
  {
    hide Frame, Frames, Parse, Header;
    var ps: seq<Bytes> := [[], [7]];
    var s := Frames(c, ps);
    ParseFrames(c, ps);
    FramesStep(c, ps, 2);
    assert ps[..2] == ps;
    BeginningOfFrame(c, [], s);
    assert s[0..] == s;
  }

  /** Once a length of 0 or above the limit has come in behind the good frames, whatever is fed and
      read afterwards, nothing but those frames is ever returned. */
  lemma BadLengthBlocks(c: Config, ops: seq<Op>, more: seq<Op>)
    requires Safe(c) && Bounded(c, ops + more)
    requires Blocked(c, Parse(c, Run(c, ops).fed).rest)
    ensures Payloads(Run(c, ops + more).returned) <= Parse(c, Run(c, ops).fed).payloads
  {
    hide Safe, Bounded, Run, Parse, Blocked;
    FedGrows(c, ops, more);
    var s, t := Run(c, ops).fed, Run(c, ops + more);
    BlockedParse(c, s, t.fed[|s|..]);
    assert t.fed == s + t.fed[|s|..];
    RunParses(c, ops + more);
  }

  lemma {:induction false} FedGrows(c: Config, ops: seq<Op>, more: seq<Op>)
    ensures Run(c, ops).fed <= Run(c, ops + more).fed
  {
    if |more| == 0 {
      assert ops + more == ops;
    } else {
      var m := |more| - 1;
      FedGrows(c, ops, more[..m]);
      assert (ops + more)[..|ops + more| - 1] == ops + more[..m];
    }
  }

  // ---- Which maxima are safe ----

  /** Behind a frame of `n` bytes, a length just so large that the sum is 2^32. */
  function WrappingStream(c: Config, n: nat): (s: Bytes)
    requires 0 < n && n + 8 < TWO_31
    ensures |s| == n + 8
  {
    Frame(c, ZeroBytes(n)) + FromDword(c.bigEndian, TWO_32 - (n + 8))
  }

  lemma WrappingRun(c: Config, n: nat)
    requires 0 < n && n + 8 < TWO_31 && TWO_31 < TWO_32 - (n + 8) <= Limit(c)
    ensures
      var ops := [FeedOp(WrappingStream(c, n)), ReadOp, ReadOp];
      Bounded(c, ops) && |Run(c, ops).returned| == 2 && Run(c, ops).returned[1].size < 0
  {
    hide Fetch, Header, Frame, FromDword, Limit, WrappingStream;
    var s, ops := WrappingStream(c, n), [FeedOp(WrappingStream(c, n)), ReadOp, ReadOp];
    assert ops[..0] == [] && ops[..1] == [ops[0]] && ops[..2] == [ops[0], ops[1]] && ops[..3] == ops;
    assert ops[..1][..0] == [] && ops[..2][..1] == ops[..1] && ops[..3][..2] == ops[..2];
    assert [] + s == s;
    WrappingReads(c, n);
    assert Run(c, ops[..1]) == Trace(s, [], s, 0);
    assert Run(c, ops[..2]).returned == [Fetch(c, s, 0).packet.value];
    assert Run(c, ops[..2]).buffer == s && Run(c, ops[..2]).position == n + 4;
    assert Run(c, ops) == Step(c, Run(c, ops[..2]), ReadOp);
  }

  lemma WrappingReads(c: Config, n: nat)
    requires 0 < n && n + 8 < TWO_31 && TWO_31 < TWO_32 - (n + 8) <= Limit(c)
    ensures
      var s := WrappingStream(c, n);
      var first, second := Fetch(c, s, 0), Fetch(c, s, n + 4);
      && first.packet.Some? && first.position == n + 4
      && second.packet.Some? && second.packet.value.size < 0
  {
    hide FromDword, ToDword, Limit;
    var s, h := WrappingStream(c, n), TWO_32 - (n + 8);
    assert s[0..][..4] == FromDword(c.bigEndian, n);
    assert s[n + 4..][..4] == FromDword(c.bigEndian, h);
    DwordRoundTrip(c.bigEndian, n);
    DwordRoundTrip(c.bigEndian, h);
    DivModUnique(n + 4, TWO_32, 0, n + 4);
    DivModUnique(TWO_32, TWO_32, 1, 0);
  }

  /** The exact condition on the maximum, as a C++ int: the bytes are conserved on all runs just for the
      safe ones. */
  lemma SafeExactly(c: Config)
    requires -TWO_31 <= c.maxLength < TWO_31
    ensures Safe(c) <==> forall ops :: Bounded(c, ops) ==> Conserved(c, Run(c, ops))
  {
    hide Bounded, Run, Conserved, Limit;
    if Safe(c) {
      forall ops | Bounded(c, ops) ensures Conserved(c, Run(c, ops)) {
        BytesConserved(c, ops);
      }
    } else {
      var n := if c.maxLength < -8 then -c.maxLength - 8 else 1;
      LimitOfNegative(c);
      WrappingRun(c, n);
      NegativeSize(c, Run(c, [FeedOp(WrappingStream(c, n)), ReadOp, ReadOp]), 1);
    }
  }

  lemma LimitOfNegative(c: Config)
    requires -TWO_31 <= c.maxLength < 0
    ensures Limit(c) == c.maxLength + TWO_32
  {
    DivModUnique(c.maxLength, TWO_32, -1, c.maxLength + TWO_32);
  }

  lemma NegativeSize(c: Config, t: Trace, i: nat)
    requires i < |t.returned| && t.returned[i].size < 0
    ensures !Conserved(c, t)
  {
    assert t.returned[i] in t.returned;
  }

  /** With a maximum of -1, five bytes give a packet of size -4, and the position stays where it is. */
  lemma MinusOneRewinds(bigEndian: bool)
    ensures
      var c := Config(bigEndian, -1);
      Fetch(c, FromDword(bigEndian, 0xFFFF_FFFC) + [7], 0) == Fetched(Some(Packet(-4, [])), 0)
  {
    hide FromDword, ToDword;
    var c := Config(bigEndian, -1);
    var s := FromDword(bigEndian, 0xFFFF_FFFC) + [7];
    LimitOfNegative(c);
    assert s[0..][..4] == FromDword(bigEndian, 0xFFFF_FFFC);
    DwordRoundTrip(bigEndian, 0xFFFF_FFFC);
    DivModUnique(TWO_32, TWO_32, 1, 0);
  }

  // ---- The class ----

  class PacketPipe {
    const config: Config
    var buffer: Bytes
    var position: nat

    ghost predicate Valid()
      reads this
    {
      position <= |buffer|
    }

    ghost function Pending(): Bytes
      requires Valid()
      reads this
    {
      buffer[position..]
    }

    constructor (bigEndian: bool, maxLength: int)
      ensures Valid() && buffer == [] && position == 0 && config == Config(bigEndian, maxLength)
    {
      config := Config(bigEndian, maxLength);
      buffer, position := [], 0;
    }

    method CheckBuffer()
      requires Valid()
      modifies this
      ensures Valid() && position == 0 && buffer == old(Pending())
    {
      if position > 0 {
        if |buffer| >= position {
          buffer := buffer[position..];
        }
        position := 0;
      }
    }

    method Feed(data: Bytes)
      requires Valid()
      modifies this
      ensures Valid() && position == 0 && buffer == old(Pending()) + data
    {
      CheckBuffer();
      buffer := buffer + data;
    }

    /** Takes out the next packet. The size is reported with it, and also, as zero, for an empty frame. */
    method Read() returns (packet: Option<Packet>, size: Option<int>)
      requires Valid()
      modifies `position
      ensures Valid() && Fetched(packet, position) == Fetch(config, buffer, old(position))
      ensures packet.Some? ==> size == Some(packet.value.size)
      ensures packet.None? ==> size == if Header(config, old(Pending())) == Some(0) then Some(0) else None
    {
      hide ToDword, Header, Limit, Signed;
      HeaderAt(config, buffer, position);
      if position + 4 > |buffer| {
        return None, None;
      }
      var msgLen := ToDword(config.bigEndian, buffer[position..position + 4]);
      if msgLen > Limit(config) {
        return None, None;
      }
      var dataPos := position + 4;
      if msgLen == 0 {
        return None, Some(0);
      }
      var end := (dataPos + msgLen) % TWO_32;
      if end > |buffer| {
        return None, None;
      }
      position := end;
      var data := if dataPos + msgLen <= |buffer| then buffer[dataPos..dataPos + msgLen] else [];
      return Some(Packet(Signed(msgLen), data)), Some(Signed(msgLen));
    }
  }

  /** Runs a pipe through any alternation of feeding and reading. */
  method RunPipe(c: Config, ops: seq<Op>) returns (t: Trace)
    ensures t == Run(c, ops)
    ensures Safe(c) && Bounded(c, ops) ==> Conserved(c, t) && Parsing(c, t)
  {
    hide Fetch, Bounded, Conserved, Parsing;
    var pipe := new PacketPipe(c.bigEndian, c.maxLength);
    var fed: Bytes, returned: seq<Packet> := [], [];
    for i := 0 to |ops|
      invariant pipe.Valid() && fresh(pipe) && pipe.config == c
      invariant Trace(fed, returned, pipe.buffer, pipe.position) == Run(c, ops[..i])
    {
      assert ops[..i + 1][..i] == ops[..i];
      match ops[i]
      case FeedOp(data) =>
        pipe.Feed(data);
        fed := fed + data;
      case ReadOp =>
        var packet, size := pipe.Read();
        returned := returned + if packet.Some? then [packet.value] else [];
    }
    assert ops[..|ops|] == ops;
    t := Trace(fed, returned, pipe.buffer, pipe.position);
    if Safe(c) && Bounded(c, ops) {
      RunParses(c, ops);
      BytesConserved(c, ops);
    }
  }
}
