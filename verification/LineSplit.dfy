/** Cutting a byte stream into messages at a delimiter: the reference against which the incremental
    decoder is proved. */
module LineSplit {
  import opened Bits
  import opened Chunks

  /** The delimiter stands in `s` at position `k`. */
  predicate At(d: Bytes, s: Bytes, k: int) {
    0 <= k <= |s| - |d| && s[k..k + |d|] == d
  }

  lemma AtElements(d: Bytes, s: Bytes, k: nat, i: nat)
    requires At(d, s, k) && i < |d|
    ensures k + i < |s| && s[k + i] == d[i]
  {
    assert s[k..k + |d|][i] == d[i];
  }

  lemma NotAt(d: Bytes, s: Bytes, k: nat, i: nat)
    requires i < |d| && (k + i >= |s| || s[k + i] != d[i])
    ensures !At(d, s, k)
  {
    hide At;
    if At(d, s, k) { AtElements(d, s, k, i); }
  }

  /** `k` is the leftmost place of the delimiter. */
  ghost predicate Leftmost(d: Bytes, s: Bytes, k: int) {
    At(d, s, k) && forall j :: 0 <= j < k ==> !At(d, s, j)
  }

  /** A message has the delimiter at its end and nowhere before. */
  ghost predicate IsMessage(d: Bytes, m: Bytes) {
    Leftmost(d, m, |m| - |d|)
  }

  ghost predicate Absent(d: Bytes, s: Bytes) {
    forall j :: 0 <= j < |s| ==> !At(d, s, j)
  }

  datatype Pieces = Pieces(messages: seq<Bytes>, rest: Bytes)

  /** The least position from `k` on where the delimiter stands, or -1. */
  function Find(d: Bytes, s: Bytes, k: nat): (r: int)
    requires |d| > 0
    ensures r >= 0 ==> k <= r && At(d, s, r)
    ensures forall j :: k <= j < (if r < 0 then |s| else r) ==> !At(d, s, j)
    decreases |s| - k
  {
    if k >= |s| then -1 else if At(d, s, k) then k else Find(d, s, k + 1)
  }

  /** All of the stream cut at the leftmost delimiter, again and again; a message includes its delimiter. */
  function Split(d: Bytes, s: Bytes): Pieces
    requires |d| > 0
    decreases |s|
  {
    var k := Find(d, s, 0);
    if k < 0 then Pieces([], s)
    else
      var r := Split(d, s[k + |d|..]);
      Pieces([s[..k + |d|]] + r.messages, r.rest)
  }

  lemma FindIs(d: Bytes, s: Bytes, k: int)
    requires |d| > 0
    ensures Leftmost(d, s, k) ==> Find(d, s, 0) == k
    ensures Absent(d, s) ==> Find(d, s, 0) < 0
  {
  }

  lemma AtPrefix(d: Bytes, s: Bytes, t: Bytes, j: nat)
    requires j + |d| <= |s|
    ensures At(d, s + t, j) <==> At(d, s, j)
  {
    assert (s + t)[j..j + |d|] == s[j..j + |d|];
  }

  /** More bytes behind the stream do not move the leftmost delimiter. */
  lemma LeftmostStays(d: Bytes, s: Bytes, t: Bytes)
    requires |d| > 0 && Find(d, s, 0) >= 0
    ensures Find(d, s + t, 0) == Find(d, s, 0)
  {
    hide At, Find;
    var k := Find(d, s, 0);
    AtInside(d, s, k);
    forall j | 0 <= j <= k ensures At(d, s + t, j) <==> At(d, s, j) {
      AtPrefix(d, s, t, j);
    }
    FindIs(d, s + t, k);
  }

  lemma AtInside(d: Bytes, s: Bytes, k: int)
    requires At(d, s, k)
    ensures 0 <= k && k + |d| <= |s|
  {
  }

  /** The first message has the delimiter at its end and nowhere before. */
  lemma FirstMessage(d: Bytes, s: Bytes)
    requires |d| > 0 && Find(d, s, 0) >= 0
    ensures
      var k := Find(d, s, 0);
      k + |d| <= |s| && IsMessage(d, s[..k + |d|])
  {
    hide At, Find;
    var k := Find(d, s, 0);
    AtInside(d, s, k);
    var m, t := s[..k + |d|], s[k + |d|..];
    assert s == m + t;
    forall j | 0 <= j <= k ensures At(d, s, j) <==> At(d, m, j) {
      AtPrefix(d, m, t, j);
    }
  }

  /** The split of a longer stream goes on from the rest of the shorter one. */
  lemma {:induction false} SplitAppend(d: Bytes, s: Bytes, t: Bytes)
    requires |d| > 0
    ensures
      var p := Split(d, s);
      var q := Split(d, p.rest + t);
      Split(d, s + t) == Pieces(p.messages + q.messages, q.rest)
    decreases |s|
  {
    hide Find, At;
    var k := Find(d, s, 0);
    if k < 0 {
      assert [] + Split(d, s + t).messages == Split(d, s + t).messages;
    } else {
      AtInside(d, s, k);
      LeftmostStays(d, s, t);
      var n := k + |d|;
      assert (s + t)[..n] == s[..n] && (s + t)[n..] == s[n..] + t;
      SplitAppend(d, s[n..], t);
      var p := Split(d, s[n..]);
      var q := Split(d, p.rest + t);
      assert [s[..n]] + (p.messages + q.messages) == [s[..n]] + p.messages + q.messages;
    }
  }

  /** The pieces make up the stream. */
  lemma {:induction false} SplitConcat(d: Bytes, s: Bytes)
    requires |d| > 0
    ensures Concat(Split(d, s).messages) + Split(d, s).rest == s
    decreases |s|
  {
    hide Find, At, Split, Concat;
    SplitOnce(d, s);
    var k := Find(d, s, 0);
    if k >= 0 {
      AtInside(d, s, k);
      var head, tail := s[..k + |d|], s[k + |d|..];
      SplitConcat(d, tail);
      var r := Split(d, tail);
      ConcatCons(head, r.messages);
      assert s == head + tail;
      assert head + Concat(r.messages) + r.rest == head + (Concat(r.messages) + r.rest);
    } else {
      ConcatNone();
      assert [] + s == s;
    }
  }

  lemma SplitOnce(d: Bytes, s: Bytes)
    requires |d| > 0
    ensures
      var k := Find(d, s, 0);
      if k < 0 then Split(d, s) == Pieces([], s)
      else
        && k + |d| <= |s|
        && var r := Split(d, s[k + |d|..]);
           Split(d, s) == Pieces([s[..k + |d|]] + r.messages, r.rest)
  {
    hide Find, At;
    if Find(d, s, 0) >= 0 { AtInside(d, s, Find(d, s, 0)); }
  }

  lemma ConcatNone()
    ensures Concat<byte>([]) == []
  {
  }

  /** A message ends with its only delimiter, and the rest has none. */
  lemma {:induction false} SplitMessages(d: Bytes, s: Bytes)
    requires |d| > 0
    ensures forall m :: m in Split(d, s).messages ==> IsMessage(d, m)
    ensures Absent(d, Split(d, s).rest)
    decreases |s|
  {
    hide Find, At, IsMessage, Absent;
    var k := Find(d, s, 0);
    FindAbsent(d, s);
    if k >= 0 {
      AtInside(d, s, k);
      var n := k + |d|;
      SplitMessages(d, s[n..]);
      FirstMessage(d, s);
      forall m | m in Split(d, s).messages ensures IsMessage(d, m) {
        assert m == s[..n] || m in Split(d, s[n..]).messages;
      }
    }
  }

  lemma FindAbsent(d: Bytes, s: Bytes)
    requires |d| > 0
    ensures Find(d, s, 0) < 0 ==> Absent(d, s)
  {
  }

  /** That determines the pieces: there is no other way to cut the stream like this. */
  lemma {:induction false} SplitUnique(d: Bytes, s: Bytes, p: Pieces)
    requires |d| > 0
    requires Concat(p.messages) + p.rest == s
    requires forall m :: m in p.messages ==> IsMessage(d, m)
    requires Absent(d, p.rest)
    ensures Split(d, s) == p
    decreases |p.messages|
  {
    if |p.messages| == 0 {
      assert s == p.rest;
      FindIs(d, s, 0);
    } else {
      var m, tail := p.messages[0], Concat(p.messages[1..]) + p.rest;
      assert s == m + tail && m in p.messages;
      FindIs(d, m, |m| - |d|);
      LeftmostStays(d, m, tail);
      assert s[..|m|] == m && s[|m|..] == tail;
      SplitUnique(d, tail, Pieces(p.messages[1..], p.rest));
      assert p.messages == [m] + p.messages[1..];
    }
  }
}
