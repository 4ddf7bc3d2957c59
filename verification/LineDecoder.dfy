/**
 The buffered decoder with the line decoder's delimiter search. Bytes come in pieces of any length; a
 listener gets the messages and may abort the decoder from inside its callback.
 */
module LineDecoding {
  import opened Bits
  import opened Chunks
  import opened LineSplit

  /** `stops` is the listener's decision to abort, after the messages it has received. */
  datatype Config = Config(delimiter: Bytes, max: int, stops: seq<Bytes> -> bool)

  datatype State = State(pending: Bytes, aborted: bool, delivered: seq<Bytes>, errors: nat)

  const FRESH := State([], false, [], 0)

  // ---- The decoder as a function ----

  datatype Delivery = Delivery(delivered: seq<Bytes>, aborted: bool)

  /** Hands messages to the listener until it aborts. */
  function Deliver(stops: seq<Bytes> -> bool, sofar: seq<Bytes>, messages: seq<Bytes>): (r: Delivery)
    ensures sofar <= r.delivered
    decreases |messages|
  {
    if |messages| == 0 then Delivery(sofar, false)
    else
      var now := sofar + [messages[0]];
      if stops(now) then Delivery(now, true) else Deliver(stops, now, messages[1..])
  }

  /** One call of `feed`: an error where a nonempty buffer would grow over the limit, and otherwise the
      messages that the pending bytes and the new ones complete. Bytes behind a message at which the
      listener aborts are kept only if nothing was pending. */
  function Fed(c: Config, st: State, data: Bytes): State
    requires |c.delimiter| > 0
  {
    if st.pending != [] && |st.pending| + |data| > AsSize(c.max) then State([], true, st.delivered, st.errors + 1)
    else
      var all := st.pending + data;
      if st.aborted then st.(pending := all)
      else
        var p := Split(c.delimiter, all);
        var r := Deliver(c.stops, st.delivered, p.messages);
        if !r.aborted then State(p.rest, false, r.delivered, st.errors)
        else State(if st.pending == [] then Behind(all, st.delivered, r.delivered) else [], true, r.delivered, st.errors)
  }

  /** The bytes that follow the messages delivered since `before`. */
  function Behind(all: Bytes, before: seq<Bytes>, after: seq<Bytes>): Bytes {
    var n := |Concat(after)| - |Concat(before)|;
    if 0 <= n <= |all| then all[n..] else []
  }

  // ---- Runs ----

  datatype Op = FeedOp(data: Bytes) | AbortOp | ResetOp

  function Step(c: Config, st: State, op: Op): State
    requires |c.delimiter| > 0
  {
    match op
    case FeedOp(data) => Fed(c, st, data)
    case AbortOp => st.(pending := [], aborted := true)
    case ResetOp => st.(pending := [], aborted := false)
  }

  function Run(c: Config, st: State, ops: seq<Op>): State
    requires |c.delimiter| > 0
    decreases |ops|
  {
    if |ops| == 0 then st else Run(c, Step(c, st, ops[0]), ops[1..])
  }

  function FeedsFrom(c: Config, st: State, chunks: seq<Bytes>): State
    requires |c.delimiter| > 0
  {
    if |chunks| == 0 then st else Fed(c, FeedsFrom(c, st, chunks[..|chunks| - 1]), chunks[|chunks| - 1])
  }

  function Feeds(c: Config, chunks: seq<Bytes>): State
    requires |c.delimiter| > 0
  {
    FeedsFrom(c, FRESH, chunks)
  }

  /** Chunk `i` fits behind what the stream before it leaves unfinished. */
  ghost predicate Fits(c: Config, chunks: seq<Bytes>, i: nat)
    requires |c.delimiter| > 0 && i < |chunks|
  {
    var rest := Split(c.delimiter, Concat(chunks[..i])).rest;
    rest == [] || |rest| + |chunks[i]| <= AsSize(c.max)
  }

  ghost predicate WithinLimit(c: Config, chunks: seq<Bytes>)
    requires |c.delimiter| > 0
  {
    forall i :: 0 <= i < |chunks| ==> Fits(c, chunks, i)
  }

  lemma {:induction false} DeliverAppend(stops: seq<Bytes> -> bool, sofar: seq<Bytes>, m: seq<Bytes>, n: seq<Bytes>)
    ensures
      var r := Deliver(stops, sofar, m);
      Deliver(stops, sofar, m + n) == if r.aborted then r else Deliver(stops, r.delivered, n)
    decreases |m|
  {
    if |m| == 0 {
      assert m + n == n;
    } else {
      assert (m + n)[1..] == m[1..] + n;
      DeliverAppend(stops, sofar + [m[0]], m[1..], n);
    }
  }

  lemma WithinLimitPrefix(c: Config, chunks: seq<Bytes>)
    requires |c.delimiter| > 0 && |chunks| > 0
    ensures WithinLimit(c, chunks)
            <==> WithinLimit(c, chunks[..|chunks| - 1]) && Fits(c, chunks, |chunks| - 1)
  {
    var init := chunks[..|chunks| - 1];
    forall i | 0 <= i < |init| ensures Fits(c, chunks, i) <==> Fits(c, init, i) {
      assert chunks[..i] == init[..i];
    }
  }

  /** However a stream is cut, within the limit the listener gets the messages of the whole stream's
      leftmost split, up to the one at which it aborts; what it does not abort leaves the split's rest. */
  lemma ChunksDoNotMatter(c: Config, chunks: seq<Bytes>)
    requires |c.delimiter| > 0 && WithinLimit(c, chunks)
    ensures
      var st, p := Feeds(c, chunks), Split(c.delimiter, Concat(chunks));
      && Delivery(st.delivered, st.aborted) == Deliver(c.stops, [], p.messages)
      && (!st.aborted ==> st.pending == p.rest && st.errors == 0)
  {
    hide *;
    FreshIsEmpty();
    ChunksFrom(c, FRESH, chunks);
    FeedsIs(c, chunks);
  }

  lemma FreshIsEmpty()
    ensures FRESH == State([], false, [], 0)
  {
  }

  lemma FeedsIs(c: Config, chunks: seq<Bytes>)
    requires |c.delimiter| > 0
    ensures Feeds(c, chunks) == FeedsFrom(c, FRESH, chunks)
  {
  }

  /** The same behind what has been delivered already, from every state that is not aborted and has nothing
      pending. */
  lemma {:induction false} ChunksFrom(c: Config, start: State, chunks: seq<Bytes>)
    requires |c.delimiter| > 0 && WithinLimit(c, chunks) && start.pending == [] && !start.aborted
    ensures
      var st, p := FeedsFrom(c, start, chunks), Split(c.delimiter, Concat(chunks));
      && Delivery(st.delivered, st.aborted) == Deliver(c.stops, start.delivered, p.messages)
      && (!st.aborted ==> st.pending == p.rest && st.errors == start.errors)
  {
    hide Split, Deliver;
    var d := c.delimiter;
    if |chunks| == 0 {
      EmptyStream(c, start.delivered);
    } else {
      var n := |chunks| - 1;
      var init, chunk := chunks[..n], chunks[n];
      WithinLimitPrefix(c, chunks);
      ConcatNext(chunks, n);
      assert chunks[..n + 1] == chunks;
      ChunksFrom(c, start, init);
      var p := Split(d, Concat(init));
      var q := Split(d, p.rest + chunk);
      SplitAppend(d, Concat(init), chunk);
      DeliverAppend(c.stops, start.delivered, p.messages, q.messages);
    }
  }

  lemma EmptyStream(c: Config, before: seq<Bytes>)
    requires |c.delimiter| > 0
    ensures Split(c.delimiter, []) == Pieces([], []) && Deliver(c.stops, before, []) == Delivery(before, false)
  {
  }

  /** Where the listener does not abort, every byte fed is delivered or pending. */
  lemma BytesConserved(c: Config, chunks: seq<Bytes>)
    requires |c.delimiter| > 0 && WithinLimit(c, chunks) && !Feeds(c, chunks).aborted
    ensures Concat(Feeds(c, chunks).delivered) + Feeds(c, chunks).pending == Concat(chunks)
  {
    hide Split, Feeds, Deliver, WithinLimit, Concat;
    var p := Split(c.delimiter, Concat(chunks));
    ChunksDoNotMatter(c, chunks);
    DeliverAll(c.stops, [], p.messages);
    assert [] + p.messages == p.messages;
    SplitConcat(c.delimiter, Concat(chunks));
  }

  lemma {:induction false} DeliverAll(stops: seq<Bytes> -> bool, sofar: seq<Bytes>, messages: seq<Bytes>)
    ensures !Deliver(stops, sofar, messages).aborted ==> Deliver(stops, sofar, messages).delivered == sofar + messages
    decreases |messages|
  {
    if |messages| > 0 { DeliverAll(stops, sofar + [messages[0]], messages[1..]); }
  }

  /** A listener that never aborts sees an error exactly when some chunk does not fit. */
  lemma {:induction false} ErrorsAreOverflows(c: Config, chunks: seq<Bytes>)
    requires |c.delimiter| > 0 && forall m :: !c.stops(m)
    ensures Feeds(c, chunks).errors == 0 <==> WithinLimit(c, chunks)
  {
    hide Split;
    if |chunks| > 0 {
      var init := chunks[..|chunks| - 1];
      ErrorsAreOverflows(c, init);
      WithinLimitPrefix(c, chunks);
      if WithinLimit(c, init) {
        ChunksDoNotMatter(c, init);
        NeverAborts(c.stops, [], Split(c.delimiter, Concat(init)).messages);
      }
    }
  }

  lemma {:induction false} NeverAborts(stops: seq<Bytes> -> bool, sofar: seq<Bytes>, messages: seq<Bytes>)
    requires forall m :: !stops(m)
    ensures !Deliver(stops, sofar, messages).aborted
    decreases |messages|
  {
    if |messages| > 0 { NeverAborts(stops, sofar + [messages[0]], messages[1..]); }
  }

  /** A chunk that does not fit ends the decoding: what has been delivered then, and whatever follows,
      is what the stream before it gives. */
  lemma {:induction false} OverflowEnds(c: Config, chunks: seq<Bytes>, i: nat)
    requires |c.delimiter| > 0 && i < |chunks| && WithinLimit(c, chunks[..i]) && !Fits(c, chunks, i)
    ensures
      var messages := Split(c.delimiter, Concat(chunks[..i])).messages;
      Feeds(c, chunks).aborted && Feeds(c, chunks).delivered == Deliver(c.stops, [], messages).delivered
    decreases |chunks|
  {
    hide Split, Deliver, WithinLimit;
    var n := |chunks| - 1;
    var init := chunks[..n];
    if i == n {
      ChunksDoNotMatter(c, init);
    } else {
      assert init[..i] == chunks[..i] && init[i] == chunks[i];
      OverflowEnds(c, init, i);
    }
  }

  /** What is kept of the first bytes fed to a decoder that has nothing pending. */
  function Kept(c: Config, st: State, data: Bytes): Bytes
    requires |c.delimiter| > 0
  {
    var p := Split(c.delimiter, data);
    var r := Deliver(c.stops, st.delivered, p.messages);
    if st.aborted then data
    else if r.aborted then Behind(data, st.delivered, r.delivered)
    else p.rest
  }

  /** What the source asserts at the start of a feed is that no more than the maximum is pending. In every
      state, aborted or not, it holds after a feed exactly when something was pending before that feed, or
      when no more than the maximum is kept of its bytes. */
  lemma EntryAssertion(c: Config, st: State, data: Bytes)
    requires |c.delimiter| > 0 && AsSize(c.max) >= 0
    ensures |Fed(c, st, data).pending| <= AsSize(c.max) <==> st.pending != [] || |Kept(c, st, data)| <= AsSize(c.max)
  {
    hide Split, Deliver, Behind, Concat;
    SplitConcat(c.delimiter, st.pending + data);
    assert [] + data == data;
  }

  /** On the stream, while nothing is aborted: when there was a rest before the last feed, or that feed
      leaves no longer one than the maximum. */
  lemma EntryAssertionOnStream(c: Config, chunks: seq<Bytes>)
    requires |c.delimiter| > 0 && |chunks| > 0 && WithinLimit(c, chunks) && !Feeds(c, chunks).aborted
    ensures
      var n := |chunks| - 1;
      |Feeds(c, chunks).pending| <= AsSize(c.max)
      <==> Split(c.delimiter, Concat(chunks[..n])).rest != []
           || |Split(c.delimiter, chunks[n]).rest| <= AsSize(c.max)
  {
    hide Split, Feeds, Deliver, WithinLimit, Concat;
    var d, n := c.delimiter, |chunks| - 1;
    var rest, chunk := Split(d, Concat(chunks[..n])).rest, chunks[n];
    WithinLimitPrefix(c, chunks);
    ChunksDoNotMatter(c, chunks);
    ConcatNext(chunks, n);
    assert chunks[..n + 1] == chunks;
    SplitAppend(d, Concat(chunks[..n]), chunk);
    SplitConcat(d, rest + chunk);
    if rest == [] { assert rest + chunk == chunk; }
  }

  /** A first feed of two bytes with a maximum of one. */
  lemma EntryAssertionFails(c: Config, a: byte, b: byte)
    requires |c.delimiter| == 1 && a != c.delimiter[0] && b != c.delimiter[0] && c.max == 1
    ensures WithinLimit(c, [[a, b]]) && Feeds(c, [[a, b]]).pending == [a, b]
    ensures |Feeds(c, [[a, b]]).pending| > AsSize(c.max)
  {
    var chunks := [[a, b]];
    assert chunks[..0] == [] && chunks[..1] == chunks;
    assert FeedsFrom(c, FRESH, chunks[..0]) == FRESH;
    FindStep(c.delimiter, [a, b], 0);
    FindStep(c.delimiter, [a, b], 1);
    FindStep(c.delimiter, [a, b], 2);
    assert Split(c.delimiter, [a, b]) == Pieces([], [a, b]);
    assert [] + [a, b] == [a, b];
  }

  /** An aborted decoder keeps all bytes, messages or not. */
  lemma AbortedEntryAssertionFails(c: Config, a: byte)
    requires |c.delimiter| == 1 && c.max == 1
    ensures
      var t := Run(c, FRESH, [AbortOp, FeedOp([a] + c.delimiter)]);
      t.pending == [a] + c.delimiter && |t.pending| > AsSize(c.max)
  {
    hide Split, Deliver;
    var data := [a] + c.delimiter;
    var ops := [AbortOp, FeedOp(data)];
    var st := Step(c, FRESH, AbortOp);
    assert ops[1..] == [FeedOp(data)] && ops[1..][1..] == [];
    assert [] + data == data;
    assert Run(c, FRESH, ops) == Run(c, st, ops[1..]);
    assert Run(c, st, ops[1..]) == Fed(c, st, data);
  }

  /** After an abort nothing more is delivered until a reset, whatever is fed. */
  lemma {:induction false} AbortedStaysSilent(c: Config, st: State, ops: seq<Op>)
    requires |c.delimiter| > 0 && st.aborted && ResetOp !in ops
    ensures Run(c, st, ops).aborted && Run(c, st, ops).delivered == st.delivered
    decreases |ops|
  {
    if |ops| > 0 {
      hide Split, Deliver;
      assert ops[0] in ops;
      AbortedStaysSilent(c, Step(c, st, ops[0]), ops[1..]);
    }
  }

  function FeedOps(chunks: seq<Bytes>): seq<Op> {
    seq(|chunks|, i requires 0 <= i < |chunks| => FeedOp(chunks[i]))
  }

  lemma {:induction false} RunFeeds(c: Config, st: State, chunks: seq<Bytes>)
    requires |c.delimiter| > 0
    ensures Run(c, st, FeedOps(chunks)) == FeedsFrom(c, st, chunks)
    decreases |chunks|
  {
    hide Fed;
    if |chunks| > 0 {
      var n := |chunks| - 1;
      assert FeedOps(chunks) == FeedOps(chunks[..n]) + [FeedOp(chunks[n])];
      RunFeeds(c, st, chunks[..n]);
      RunOneMore(c, st, FeedOps(chunks[..n]), FeedOp(chunks[n]));
    }
  }

  lemma {:induction false} RunOneMore(c: Config, st: State, ops: seq<Op>, op: Op)
    requires |c.delimiter| > 0
    ensures Run(c, st, ops + [op]) == Step(c, Run(c, st, ops), op)
    decreases |ops|
  {
    hide Step;
    if |ops| == 0 {
      assert ops + [op] == [op] && [op][1..] == [];
    } else {
      assert (ops + [op])[1..] == ops[1..] + [op];
      RunOneMore(c, Step(c, st, ops[0]), ops[1..], op);
    }
  }

  /** After a reset, in whatever state, decoding starts afresh: a stream within the limit, however it is cut,
      gives all the messages of its split. */
  lemma ResetStartsAfresh(c: Config, st: State, chunks: seq<Bytes>)
    requires |c.delimiter| > 0 && WithinLimit(c, chunks)
    ensures
      var t, p := Run(c, st, [ResetOp] + FeedOps(chunks)), Split(c.delimiter, Concat(chunks));
      && Delivery(t.delivered, t.aborted) == Deliver(c.stops, st.delivered, p.messages)
      && (!t.aborted ==> t.pending == p.rest && t.errors == st.errors)
  {
    hide Split, Deliver, WithinLimit, FeedOps, FeedsFrom;
    var start := Step(c, st, ResetOp);
    assert ([ResetOp] + FeedOps(chunks))[1..] == FeedOps(chunks);
    RunFeeds(c, start, chunks);
    ChunksFrom(c, start, chunks);
  }

  /** The listener gets the messages in order, up to the first one after which it aborts. */
  lemma {:induction false} DeliverExactly(stops: seq<Bytes> -> bool, sofar: seq<Bytes>, messages: seq<Bytes>, k: nat)
    requires k <= |messages| && forall i :: 0 < i < k ==> !stops(sofar + messages[..i])
    ensures 0 < k && stops(sofar + messages[..k]) ==>
      Deliver(stops, sofar, messages) == Delivery(sofar + messages[..k], true)
    ensures k == |messages| && (k > 0 ==> !stops(sofar + messages)) ==>
      Deliver(stops, sofar, messages) == Delivery(sofar + messages, false)
    decreases |messages|
  {
    if |messages| > 0 && k > 0 {
      var now, tail := sofar + [messages[0]], messages[1..];
      assert messages[..1] == [messages[0]];
      assert forall i :: 0 < i <= |messages| ==> sofar + messages[..i] == now + tail[..i - 1];
      assert messages[..|messages|] == messages && now + tail == sofar + messages;
      if k > 1 || !stops(now) {
        forall i | 0 < i < k - 1 ensures !stops(now + tail[..i]) {
          assert now + tail[..i] == sofar + messages[..i + 1];
        }
        DeliverExactly(stops, now, tail, k - 1);
        assert now + tail[..k - 1] == sofar + messages[..k];
      } else {
        if |messages| == 1 { assert messages == [messages[0]]; }
      }
    } else {
      assert sofar + [] == sofar;
    }
  }

  /** When the listener aborts, the bytes behind the last message it got are kept if nothing was pending
      before, and are lost otherwise. */
  lemma ListenerAborts(c: Config, st: State, data: Bytes)
    requires |c.delimiter| > 0 && !st.aborted && Fed(c, st, data).aborted
    requires st.pending == [] || |st.pending| + |data| <= AsSize(c.max)
    ensures Fed(c, st, data).errors == st.errors
    ensures st.pending == [] ==>
      Concat(Fed(c, st, data).delivered) + Fed(c, st, data).pending == Concat(st.delivered) + data
    ensures st.pending != [] ==> Fed(c, st, data).pending == []
  {
    hide Split, Deliver, Behind;
    if st.pending == [] {
      assert [] + data == data;
      BytesBehind(c, st.delivered, data);
    }
  }

  lemma BytesBehind(c: Config, before: seq<Bytes>, data: Bytes)
    requires |c.delimiter| > 0
    ensures
      var r := Deliver(c.stops, before, Split(c.delimiter, data).messages).delivered;
      Concat(r) + Behind(data, before, r) == Concat(before) + data
  {
    hide Split, Deliver, Concat;
    var p := Split(c.delimiter, data);
    var r := Deliver(c.stops, before, p.messages).delivered;
    DeliveredIsBeginning(c.stops, before, p.messages);
    var m := |r| - |before|;
    SplitConcat(c.delimiter, data);
    ConcatAppend(before, p.messages[..m]);
    ConcatAppend(p.messages[..m], p.messages[m..]);
    assert p.messages[..m] + p.messages[m..] == p.messages;
    var head, tail := Concat(p.messages[..m]), Concat(p.messages[m..]) + p.rest;
    assert data == head + tail;
    assert Behind(data, before, r) == tail;
    assert Concat(before) + head + tail == Concat(before) + (head + tail);
  }

  lemma {:induction false} DeliveredIsBeginning(stops: seq<Bytes> -> bool, sofar: seq<Bytes>, messages: seq<Bytes>)
    ensures
      var r := Deliver(stops, sofar, messages).delivered;
      |sofar| <= |r| <= |sofar| + |messages| && r == sofar + messages[..|r| - |sofar|]
    decreases |messages|
  {
    if |messages| > 0 {
      DeliveredIsBeginning(stops, sofar + [messages[0]], messages[1..]);
    }
  }

  /** A feed that goes over the limit: one more error, nothing delivered, nothing kept, and no decoding. */
  lemma OverflowIsError(c: Config, st: State, data: Bytes)
    requires |c.delimiter| > 0
    ensures st.pending != [] && |st.pending| + |data| > AsSize(c.max)
            <==> Fed(c, st, data).errors == st.errors + 1
    ensures Fed(c, st, data).errors != st.errors ==> Fed(c, st, data) == State([], true, st.delivered, st.errors + 1)
  {
    hide Split, Deliver;
  }

  // ---- The class ----

  class LineDecoder {
    const config: Config
    var buffer: Bytes
    var position: int
    var aborted: bool
    // What the listener has received.
    var delivered: seq<Bytes>
    var errors: nat

    ghost predicate Valid()
      reads this
    {
      |config.delimiter| > 0 && 0 <= position <= |buffer|
    }

    ghost function Abstract(): State
      requires Valid()
      reads this
    {
      State(buffer[position..], aborted, delivered, errors)
    }

    constructor (config: Config)
      requires |config.delimiter| > 0
      ensures this.config == config && Valid() && Abstract() == FRESH && position == 0
    {
      this.config := config;
      buffer, position, aborted := [], 0, false;
      delivered, errors := [], 0;
    }

    method Reset()
      requires Valid()
      modifies this
      ensures Valid() && Abstract() == Step(config, old(Abstract()), ResetOp)
      ensures buffer == [] && position == 0
    {
      buffer, position, aborted := [], 0, false;
    }

    method Abort()
      requires Valid()
      modifies this
      ensures Valid() && Abstract() == Step(config, old(Abstract()), AbortOp)
      ensures buffer == [] && position == 0
    {
      Reset();
      aborted := true;
    }

    /** Drops the bytes already processed. */
    method CheckBuffer()
      requires |config.delimiter| > 0 && position >= 0
      modifies this
      ensures position == 0 && aborted == old(aborted) && delivered == old(delivered) && errors == old(errors)
      ensures buffer == if old(position) <= |old(buffer)| then old(buffer)[old(position)..] else old(buffer)
    {
      if position > 0 {
        if |buffer| >= position {
          buffer := buffer[position..];
        }
        position := 0;
      } else {
        assert buffer == buffer[0..];
      }
    }

    /** Looks for the delimiter, as the library search does: the end of the data where there is none. */
    method Search(data: Bytes) returns (pos: nat)
      requires |config.delimiter| > 0
      ensures pos == if Find(config.delimiter, data, 0) < 0 then |data| else Find(config.delimiter, data, 0)
    {
      hide Find;
      var d := config.delimiter;
      pos := 0;
      while pos < |data|
        invariant pos <= |data| && Find(d, data, pos) == Find(d, data, 0)
      {
        FindStep(d, data, pos);
        var i := 0;
        while i < |d| && pos + i < |data| && data[pos + i] == d[i]
          invariant i <= |d| && pos + i <= |data|
          invariant forall j :: 0 <= j < i ==> data[pos + j] == d[j]
        {
          i := i + 1;
        }
        if i == |d| {
          assert data[pos..pos + |d|] == d;
          return;
        }
        NotAt(d, data, pos, i);
        pos := pos + 1;
      }
      FindStep(d, data, pos);
    }

    /** Delivers the first message of the data, if it is complete. Returns its length, or 0. */
    method DoDecode(data: Bytes) returns (ret: int)
      requires Valid() && !aborted
      modifies this
      ensures Valid() && errors == old(errors)
      ensures
        var k := Find(config.delimiter, data, 0);
        if k < 0 then ret == 0 && Abstract() == old(Abstract()) && buffer == old(buffer) && position == old(position)
        else
          && ret == k + |config.delimiter| <= |data|
          && delivered == old(delivered) + [data[..ret]]
          && aborted == config.stops(delivered)
          && (if aborted then buffer == [] && position == 0 else buffer == old(buffer) && position == old(position))
    {
      hide Find;
      var pos := Search(data);
      if pos == |data| {
        FoundInside(config.delimiter, data);
        return 0;
      }
      FoundInside(config.delimiter, data);
      pos := pos + |config.delimiter|;
      OnMessage(data[..pos]);
      return pos;
    }

    /** The listener's callback. */
    method OnMessage(message: Bytes)
      requires Valid()
      modifies this
      ensures Valid() && errors == old(errors)
      ensures delivered == old(delivered) + [message]
      ensures config.stops(delivered) ==> aborted && buffer == [] && position == 0
      ensures !config.stops(delivered) ==> aborted == old(aborted) && buffer == old(buffer) && position == old(position)
    {
      delivered := delivered + [message];
      if config.stops(delivered) {
        Abort();
      }
    }

    /** Delivers the complete messages at the front of the data. Returns how many bytes they have. */
    method DecodeBuffer(data: Bytes) returns (processed: int)
      requires Valid()
      modifies this
      ensures Valid() && errors == old(errors)
      ensures old(aborted) ==> processed == 0 && buffer == old(buffer) && position == old(position)
                               && aborted && delivered == old(delivered)
      ensures !old(aborted) ==>
        var p := Split(config.delimiter, data);
        && Delivery(delivered, aborted) == Deliver(config.stops, old(delivered), p.messages)
        && 0 <= processed <= |data|
        && Concat(delivered) == Concat(old(delivered)) + data[..processed]
        && (!aborted ==> data[processed..] == p.rest && buffer == old(buffer) && position == old(position))
        && (aborted ==> buffer == [] && position == 0)
    {
      hide Find, Split, Deliver, Concat;
      processed := 0;
      ghost var p := Split(config.delimiter, data);
      while processed < |data|
        invariant Valid() && errors == old(errors) && 0 <= processed <= |data|
        invariant old(aborted) ==> processed == 0 && buffer == old(buffer) && position == old(position)
                                   && aborted && delivered == old(delivered)
        invariant !old(aborted) && !aborted ==>
          && Split(config.delimiter, data[processed..]).rest == p.rest
          && Deliver(config.stops, delivered, Split(config.delimiter, data[processed..]).messages)
             == Deliver(config.stops, old(delivered), p.messages)
          && buffer == old(buffer) && position == old(position)
        invariant !old(aborted) && aborted ==>
          Deliver(config.stops, old(delivered), p.messages) == Delivery(delivered, true) && buffer == [] && position == 0
        invariant !old(aborted) ==> Concat(delivered) == Concat(old(delivered)) + data[..processed]
      {
        if aborted {
          break;
        }
        ghost var before := delivered;
        SplitStep(config, before, data[processed..]);
        var ret := DoDecode(data[processed..]);
        if ret == 0 {
          break;
        }
        NextMessage(before, data, processed, ret);
        processed := processed + ret;
      }
      SplitNothing(config, delivered);
      assert data[|data|..] == [];
    }

    /** Decodes what is in the buffer, and drops the bytes of the messages delivered. */
    method DecodePending() returns (done: bool)
      requires Valid() && position == 0
      modifies this
      ensures Valid() && position == 0 && errors == old(errors)
      ensures old(aborted) ==> aborted && delivered == old(delivered) && buffer == old(buffer)
      ensures !old(aborted) ==>
        var p := Split(config.delimiter, old(buffer));
        && Delivery(delivered, aborted) == Deliver(config.stops, old(delivered), p.messages)
        && buffer == if aborted then [] else p.rest
      ensures done <==> buffer == []
    {
      hide Split, Deliver, Concat;
      SplitNothing(config, delivered);
      if |buffer| == 0 {
        return true;
      }
      var processed := DecodeBuffer(buffer);
      position := position + processed;
      CheckBuffer();
      done := |buffer| == 0;
    }

    /** With nothing pending, the bytes are decoded where they are, and only the others are kept. */
    method DecodeFirst(data: Bytes)
      requires Valid() && buffer == [] && position == 0
      modifies this
      ensures Valid() && position == 0 && errors == old(errors)
      ensures old(aborted) ==> aborted && delivered == old(delivered) && buffer == data
      ensures !old(aborted) ==>
        var p := Split(config.delimiter, data);
        && Delivery(delivered, aborted) == Deliver(config.stops, old(delivered), p.messages)
        && buffer == if aborted then Behind(data, old(delivered), delivered) else p.rest
    {
      hide Split, Deliver, Concat;
      var processed := DecodeBuffer(data);
      if |data| > processed {
        buffer := buffer + data[processed..];
      }
      assert buffer == data[processed..];
    }

    /** Feeds bytes. Returns whether nothing is pending afterwards. Between two feeds, all of the buffer is
        pending. */
    method Feed(data: Bytes) returns (done: bool)
      requires Valid()
      modifies this
      ensures Valid() && Abstract() == Fed(config, old(Abstract()), data) && position == 0
      ensures done <==> Abstract().pending == []
    {
      hide Split, Deliver, Concat, Behind;
      CheckBuffer();
      ghost var st := old(Abstract());
      assert buffer == st.pending;
      if |buffer| == 0 {
        DecodeFirst(data);
        assert st.pending + data == data;
        SplitRest(config.delimiter, data);
        NothingMore(config, delivered);
      } else {
        if |buffer| + |data| > AsSize(config.max) {
          Abort();
          errors := errors + 1;
          return true;
        }
        buffer := buffer + data;
      }
      done := DecodePending();
    }
  }

  /** A new decoder that is fed a stream in pieces, within the limit. */
  method FeedAll(config: Config, chunks: seq<Bytes>) returns (st: State)
    requires |config.delimiter| > 0
    ensures st == Feeds(config, chunks)
    ensures WithinLimit(config, chunks) ==>
      Delivery(st.delivered, st.aborted) == Deliver(config.stops, [], Split(config.delimiter, Concat(chunks)).messages)
    ensures WithinLimit(config, chunks) && !st.aborted ==> Concat(st.delivered) + st.pending == Concat(chunks)
  {
    hide Split, Deliver, Concat, WithinLimit, Fed;
    var decoder := new LineDecoder(config);
    for i := 0 to |chunks|
      invariant decoder.Valid() && fresh(decoder) && decoder.config == config
      invariant decoder.Abstract() == Feeds(config, chunks[..i])
    {
      assert chunks[..i + 1][..i] == chunks[..i];
      var done := decoder.Feed(chunks[i]);
    }
    assert chunks[..|chunks|] == chunks;
    st := State(decoder.buffer[decoder.position..], decoder.aborted, decoder.delivered, decoder.errors);
    if WithinLimit(config, chunks) {
      ChunksDoNotMatter(config, chunks);
      if !st.aborted { BytesConserved(config, chunks); }
    }
  }

  lemma FindStep(d: Bytes, s: Bytes, k: nat)
    requires |d| > 0
    ensures Find(d, s, k) == if k >= |s| then -1 else if At(d, s, k) then k else Find(d, s, k + 1)
  {
  }

  lemma FoundInside(d: Bytes, s: Bytes)
    requires |d| > 0
    ensures Find(d, s, 0) >= 0 ==> Find(d, s, 0) + |d| <= |s|
  {
  }

  /** What delivering the first message leaves to deliver. */
  lemma SplitStep(c: Config, before: seq<Bytes>, data: Bytes)
    requires |c.delimiter| > 0
    ensures
      var k := Find(c.delimiter, data, 0);
      var p := Split(c.delimiter, data);
      if k < 0 then p == Pieces([], data) && Deliver(c.stops, before, p.messages) == Delivery(before, false)
      else
        var n := k + |c.delimiter|;
        && n <= |data|
        && p.rest == Split(c.delimiter, data[n..]).rest
        && Deliver(c.stops, before, p.messages)
           == (var now := before + [data[..n]];
               if c.stops(now) then Delivery(now, true)
               else Deliver(c.stops, now, Split(c.delimiter, data[n..]).messages))
  {
    hide Find;
    FoundInside(c.delimiter, data);
  }

  lemma NextMessage(before: seq<Bytes>, data: Bytes, processed: nat, ret: nat)
    requires processed + ret <= |data|
    ensures data[processed..][ret..] == data[processed + ret..]
    ensures data[..processed] + data[processed..][..ret] == data[..processed + ret]
    ensures Concat(before + [data[processed..][..ret]]) == Concat(before) + data[processed..][..ret]
  {
    hide Concat;
    var m := data[processed..][..ret];
    ConcatNext(before + [m], |before|);
    assert (before + [m])[..|before|] == before && (before + [m])[..|before| + 1] == before + [m];
  }

  lemma SplitNothing(c: Config, delivered: seq<Bytes>)
    requires |c.delimiter| > 0
    ensures Split(c.delimiter, []) == Pieces([], [])
    ensures Deliver(c.stops, delivered, []) == Delivery(delivered, false)
  {
  }

  /** The rest of a split has nothing more to split off. */
  lemma SplitRest(d: Bytes, s: Bytes)
    requires |d| > 0
    ensures Split(d, Split(d, s).rest) == Pieces([], Split(d, s).rest)
  {
    hide Split;
    var p := Split(d, s);
    SplitAppend(d, s, []);
    assert s + [] == s && p.rest + [] == p.rest;
    var q := Split(d, p.rest);
    assert p.messages == p.messages + q.messages;
    assert |q.messages| == 0;
  }

  lemma NothingMore(c: Config, delivered: seq<Bytes>)
    ensures Deliver(c.stops, delivered, []) == Delivery(delivered, false)
  {
  }
}
