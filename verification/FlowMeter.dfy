/**
 Meters of the traffic of the last few seconds: a ring of counts per second, with a running sum that
 must agree with the history it summarises.
 */
module FlowMeters {
  import opened Arithmetic

  datatype Count = Count(bytes: int, packets: int) {
    function Plus(x: Count): Count { Count(bytes + x.bytes, packets + x.packets) }

    function Minus(x: Count): Count { Count(bytes - x.bytes, packets - x.packets) }

    predicate NonNegative() { bytes >= 0 && packets >= 0 }
  }

  const ZERO := Count(0, 0)

  lemma PlusZero(c: Count)
    ensures c.Plus(ZERO) == c == ZERO.Plus(c)
  {
  }

  function Sum(s: seq<Count>): Count {
    if |s| == 0 then ZERO else s[0].Plus(Sum(s[1..]))
  }

  lemma {:induction false} SumAppend(s: seq<Count>, t: seq<Count>)
    ensures Sum(s + t) == Sum(s).Plus(Sum(t))
  {
    if |s| == 0 {
      assert s + t == t;
    } else {
      assert (s + t)[1..] == s[1..] + t;
      SumAppend(s[1..], t);
    }
  }

  ghost predicate AllNonNegative(s: seq<Count>) {
    forall c :: c in s ==> c.NonNegative()
  }

  lemma {:induction false} SumNonNegative(s: seq<Count>)
    requires AllNonNegative(s)
    ensures Sum(s).NonNegative()
    ensures Sum(s) == ZERO ==> s == Zeros(|s|)
  {
    if |s| > 0 {
      hide AllNonNegative, Zeros, Count.Plus, Count.NonNegative;
      FirstNonNegative(s);
      SumNonNegative(s[1..]);
      ZerosCons(|s|);
      NonNegativeParts(s[0], Sum(s[1..]));
      assert s == [s[0]] + s[1..];
    } else {
      assert s == Zeros(0);
    }
  }

  lemma NonNegativeParts(c: Count, d: Count)
    requires c.NonNegative() && d.NonNegative()
    ensures c.Plus(d).NonNegative()
    ensures c.Plus(d) == ZERO ==> c == ZERO && d == ZERO
  {
    hide Count.Plus;
    PlusFields(c, d);
  }

  lemma PlusFields(c: Count, d: Count)
    ensures c.Plus(d).bytes == c.bytes + d.bytes && c.Plus(d).packets == c.packets + d.packets
  {
  }

  lemma FirstNonNegative(s: seq<Count>)
    requires AllNonNegative(s) && |s| > 0
    ensures s[0].NonNegative() && AllNonNegative(s[1..])
  {
  }

  function Zeros(n: nat): (s: seq<Count>)
    ensures |s| == n
  {
    seq(n, _ => ZERO)
  }

  lemma ZerosCons(n: nat)
    requires n > 0
    ensures Zeros(n) == [ZERO] + Zeros(n - 1)
  {
  }

  lemma {:induction false} SumUpdate(s: seq<Count>, i: nat, c: Count)
    requires i < |s|
    ensures Sum(s[i := c]) == Sum(s).Minus(s[i]).Plus(c)
  {
    assert s == s[..i] + [s[i]] + s[i + 1..];
    assert s[i := c] == s[..i] + [c] + s[i + 1..];
    SumAppend(s[..i] + [s[i]], s[i + 1..]);
    SumAppend(s[..i] + [c], s[i + 1..]);
    SumAppend(s[..i], [s[i]]);
    SumAppend(s[..i], [c]);
    assert Sum([s[i]]) == s[i] && Sum([c]) == c;
  }

  // ---- The meter that is told when a second is over ----

  /** The last `n` entries of a history, or all of it while it is shorter. */
  function Last(history: seq<Count>, n: nat): seq<Count> {
    if |history| <= n then history else history[|history| - n..]
  }

  /** Another second: it comes in, and the one `n` seconds before it goes out. */
  lemma LastStep(history: seq<Count>, n: nat, c: Count)
    requires n > 0
    ensures Sum(Last(history + [c], n))
            == Sum(Last(history, n)).Minus(if |history| < n then ZERO else history[|history| - n]).Plus(c)
  {
    hide Sum;
    var window := Last(history, n);
    SumSingle(c);
    SumAppend(window, [c]);
    if |history| < n {
      assert Last(history + [c], n) == window + [c];
    } else {
      assert Last(history + [c], n) == window[1..] + [c];
      SumAppend(window[1..], [c]);
      assert window == [window[0]] + window[1..];
      SumAppend([window[0]], window[1..]);
      SumSingle(window[0]);
    }
  }

  lemma SumSingle(c: Count)
    ensures Sum([c]) == c && Sum([]) == ZERO
  {
  }

  /** The ring after a history: second `i` in slot `i` modulo `n`. */
  ghost function Slots(history: seq<Count>, n: nat): (r: seq<Count>)
    requires n > 0
    ensures |r| == n
  {
    if |history| == 0 then Zeros(n)
    else
      var i := |history| - 1;
      Slots(history[..i], n)[i % n := history[i]]
  }

  lemma SlotsStep(history: seq<Count>, n: nat, c: Count)
    requires n > 0
    ensures Slots(history + [c], n) == Slots(history, n)[|history| % n := c]
  {
    assert (history + [c])[..|history|] == history;
  }

  /** Each of the last `n` seconds is still in its slot. */
  lemma {:induction false} SlotHolds(history: seq<Count>, n: nat, i: nat)
    requires n > 0 && i < |history| <= i + n
    ensures Slots(history, n)[i % n] == history[i]
  {
    var t := |history| - 1;
    if i < t {
      SlotHolds(history[..t], n, i);
      SlotsDiffer(i, t, n);
    }
  }

  lemma {:induction false} SlotEmpty(history: seq<Count>, n: nat, k: nat)
    requires |history| <= k < n
    ensures Slots(history, n)[k] == ZERO
  {
    if |history| > 0 {
      var t := |history| - 1;
      SlotEmpty(history[..t], n, k);
      DivModUnique(t, n, 0, t);
    }
  }

  /** The slot to be overwritten holds the second that leaves the window. */
  lemma Oldest(history: seq<Count>, n: nat)
    requires n > 0
    ensures Slots(history, n)[|history| % n] == if |history| < n then ZERO else history[|history| - n]
  {
    var t := |history|;
    if t < n {
      SlotEmpty(history, n, t);
      DivModUnique(t, n, 0, t);
    } else {
      SlotHolds(history, n, t - n);
      ModAddMultiple(t - n, 1, n);
    }
  }

  lemma Cleared(s: seq<Count>)
    requires |s| > 0 && forall k :: 0 <= k < |s| ==> s[k] == ZERO
    ensures s == Slots([], |s|) && Sum(Last([], |s|)) == ZERO && Sum([]) == ZERO && AllNonNegative([])
    ensures s == Zeros(|s|)
  {
  }

  /** Seconds less than `n` apart have different slots. */
  lemma SlotsDiffer(i: nat, t: nat, n: nat)
    requires i < t < i + n
    ensures i % n != t % n
  {
    if i % n == t % n {
      DivMod(i, n);
      DivMod(t, n);
      if i / n < t / n { MulStep(i / n, t / n, n); }
      else if i / n > t / n { MulStep(t / n, i / n, n); }
    }
  }

  lemma WindowNonNegative(history: seq<Count>, n: nat)
    requires n > 0 && AllNonNegative(history)
    ensures Sum(Last(history, n)).NonNegative()
    ensures Sum(Last(history, n)).Minus(if |history| < n then ZERO else history[|history| - n]).NonNegative()
  {
    hide Sum;
    var window := Last(history, n);
    SumNonNegative(window);
    if |history| >= n {
      assert window == [window[0]] + window[1..];
      SumNonNegative(window[1..]);
      SumAppend([window[0]], window[1..]);
      SumSingle(window[0]);
    }
  }

  class FlowMeter {
    const counts: array<Count>
    var updateTimes: nat
    var totalBytes: int
    var totalPackets: int
    var recent: Count
    var latest: Count
    /** The counts of all the seconds completed so far. */
    ghost var history: seq<Count>

    ghost predicate Valid()
      reads this, counts
    {
      && counts.Length > 0
      && updateTimes == |history|
      && AllNonNegative(history) && latest.NonNegative()
      && counts[..] == Slots(history, counts.Length)
      && recent == Sum(Last(history, counts.Length)).Plus(latest)
      && Count(totalBytes, totalPackets) == Sum(history).Plus(latest)
    }

    constructor (unitCount: nat)
      requires unitCount > 0
      ensures Valid() && fresh(counts) && counts.Length == unitCount && history == [] && latest == ZERO
    {
      hide Sum, Slots, Last, AllNonNegative, Count.Plus;
      counts := new Count[unitCount](_ => ZERO);
      updateTimes, totalBytes, totalPackets := 0, 0, 0;
      recent, latest := ZERO, ZERO;
      history := [];
      new;
      Cleared(counts[..]);
      PlusZero(ZERO);
    }

    method Clear()
      requires Valid()
      modifies this, counts
      ensures Valid() && history == [] && latest == ZERO && recent == ZERO
    {
      hide Sum, Slots, Last, AllNonNegative, Count.Plus;
      for i := 0 to counts.Length
        invariant forall k :: 0 <= k < i ==> counts[k] == ZERO
      {
        counts[i] := ZERO;
      }
      totalBytes, totalPackets := 0, 0;
      recent, latest := ZERO, ZERO;
      updateTimes := 0;
      history := [];
      Cleared(counts[..]);
      PlusZero(ZERO);
    }

    method Add(count: int)
      requires Valid() && count >= 0
      modifies this
      ensures Valid() && history == old(history) && latest == old(latest).Plus(Count(count, 1))
    {
      latest := latest.Plus(Count(count, 1));
      recent := recent.Plus(Count(count, 1));
      totalBytes := totalBytes + count;
      totalPackets := totalPackets + 1;
    }

    /** The end of a second. The sum never goes below zero. */
    method Update()
      requires Valid()
      modifies this, counts
      ensures Valid() && history == old(history) + [old(latest)] && latest == ZERO
    {
      hide Sum, Slots, Last;
      var n := counts.Length;
      var position := updateTimes % n;
      LastStep(history, n, latest);
      SlotsStep(history, n, latest);
      SumAppend(history, [latest]);
      SumSingle(latest);
      Oldest(history, n);
      WindowNonNegative(history, n);
      assert counts[position] == counts[..][position];
      assert recent.bytes >= 0 && recent.packets >= 0;
      recent := recent.Minus(counts[position]);
      assert recent.bytes >= 0 && recent.packets >= 0;
      counts[position] := latest;
      assert counts[..] == Slots(history, n)[position := latest];
      history := history + [latest];
      latest := ZERO;
      updateTimes := updateTimes + 1;
    }

    /** The sum that is reported is that of the running second and the last seconds before it. */
    lemma RecentIsWindow()
      requires Valid()
      ensures recent == Sum(Last(history, counts.Length) + [latest]) && recent.NonNegative()
    {
      SumAppend(Last(history, counts.Length), [latest]);
      SumSingle(latest);
      WindowNonNegative(history, counts.Length);
    }
  }

  // ---- The meter that looks at the clock itself ----

  /** `k` seconds on: the oldest `k` counts of the ring go out, and empty ones come in. */
  function Advanced(ring: seq<Count>, k: nat): (r: seq<Count>)
    requires k <= |ring|
    ensures |r| == |ring|
  {
    ring[k..] + Zeros(k)
  }

  function Added(ring: seq<Count>, count: int): (r: seq<Count>)
    requires |ring| > 0
    ensures |r| == |ring|
  {
    ring[|ring| - 1 := ring[|ring| - 1].Plus(Count(count, 1))]
  }

  /** A ring read from the slot after `p`, round to `p` itself. */
  function Rotated(x: seq<Count>, p: nat): (r: seq<Count>)
    requires p < |x|
    ensures |r| == |x|
  {
    x[p + 1..] + x[..p + 1]
  }

  class SimpleFlowMeter {
    const counts: array<Count>
    var updateTimes: nat
    var lastPosition: nat
    var totalBytes: int
    var totalPackets: int
    var recent: Count
    /** The second of the last call. */
    ghost var slot: nat

    ghost predicate Valid()
      reads this, counts
    {
      && counts.Length > 0
      && lastPosition == slot % counts.Length < counts.Length
      && recent == Sum(counts[..]) && AllNonNegative(counts[..])
    }

    /** The counts from the oldest second to the current one. */
    ghost function Ring(): (r: seq<Count>)
      requires counts.Length > 0 && lastPosition < counts.Length
      reads `lastPosition, counts
      ensures |r| == counts.Length
    {
      Rotated(counts[..], lastPosition)
    }

    constructor (unitCount: nat)
      requires unitCount > 0
      ensures Valid() && fresh(counts) && counts.Length == unitCount && slot == 0
      ensures Ring() == Zeros(unitCount) && totalBytes == totalPackets == 0
    {
      hide Sum, AllNonNegative;
      counts := new Count[unitCount](_ => ZERO);
      updateTimes, lastPosition, totalBytes, totalPackets := 0, 0, 0, 0;
      recent := ZERO;
      slot := 0;
      new;
      DivModUnique(0, counts.Length, 0, 0);
      ZerosSum(counts[..]);
    }

    /** Forgets everything and starts the clock again. */
    method Clear()
      requires counts.Length > 0
      modifies this, counts
      ensures Valid() && slot == 0 && Ring() == Zeros(counts.Length) && totalBytes == totalPackets == 0
    {
      hide Sum, AllNonNegative;
      for i := 0 to counts.Length
        invariant forall k :: 0 <= k < i ==> counts[k] == ZERO
      {
        counts[i] := ZERO;
      }
      updateTimes, lastPosition, totalBytes, totalPackets := 0, 0, 0, 0;
      recent := ZERO;
      slot := 0;
      DivModUnique(0, counts.Length, 0, 0);
      ZerosSum(counts[..]);
    }

    /** One slot is emptied. The sum never goes below zero. */
    method EmptyOne(offset: nat)
      requires offset < counts.Length && recent == Sum(counts[..]) && AllNonNegative(counts[..])
      modifies counts, `recent, `updateTimes
      ensures counts[..] == old(counts[..])[offset := ZERO]
      ensures recent == Sum(counts[..]) && AllNonNegative(counts[..])
    {
      hide Sum, AllNonNegative;
      ghost var x := counts[..];
      EmptySlot(x, offset);
      assert recent.bytes >= 0 && recent.packets >= 0;
      recent := recent.Minus(counts[offset]);
      assert recent.bytes >= 0 && recent.packets >= 0;
      counts[offset] := ZERO;
      assert counts[..] == x[offset := ZERO];
      updateTimes := updateTimes + 1;
    }

    /** Empties the slots after the last position up to `pos`, going round. */
    method StepNext(pos: nat)
      requires counts.Length > 0 && lastPosition < counts.Length && pos < counts.Length && pos != lastPosition
      requires recent == Sum(counts[..]) && AllNonNegative(counts[..])
      modifies counts, `recent, `lastPosition, `updateTimes
      ensures lastPosition == pos
      ensures recent == Sum(counts[..]) && AllNonNegative(counts[..])
      ensures Ring() == Advanced(old(Ring()), if pos < old(lastPosition) then pos + counts.Length - old(lastPosition)
                                              else pos - old(lastPosition))
    {
      hide Sum, AllNonNegative, Emptied, Advanced, Count.Minus;
      var n := counts.Length;
      var end := if pos < lastPosition then pos + n else pos;
      ghost var x, last := counts[..], lastPosition;
      EmptiedNone(x, last);
      for i := lastPosition + 1 to end + 1
        invariant lastPosition == last
        invariant recent == Sum(counts[..]) && AllNonNegative(counts[..])
        invariant counts[..] == Emptied(x, last, i - 1)
      {
        var offset := i % n;
        EmptiedStep(x, last, i - 1);
        WrapOnce(i, n);
        EmptyOne(offset);
      }
      EmptiedRing(x, last, end);
      WrapOnce(end, n);
      lastPosition := end % n;
    }

    /** Moves to the second that has been reached `elapsed` milliseconds after the start. */
    method Update(elapsed: nat)
      requires Valid() && slot <= (elapsed + 999) / 1000
      modifies counts, `recent, `lastPosition, `updateTimes, `slot
      ensures Valid() && slot == (elapsed + 999) / 1000
      ensures 0 <= (slot - old(slot)) % counts.Length < counts.Length
      ensures Ring() == Advanced(old(Ring()), (slot - old(slot)) % counts.Length)
    {
      hide Sum, AllNonNegative, Advanced, Rotated;
      var posdiff := (elapsed + 1000 - 1) / 1000;
      SlotDistance(slot, posdiff, counts.Length);
      var pos := posdiff % counts.Length;
      if pos != lastPosition {
        StepNext(pos);
      } else {
        AdvancedNone(Ring());
      }
      slot := posdiff;
    }

    method Add(elapsed: nat, count: int)
      requires Valid() && slot <= (elapsed + 999) / 1000 && count >= 0
      modifies counts, this
      ensures Valid() && slot == (elapsed + 999) / 1000
      ensures 0 <= (slot - old(slot)) % counts.Length < counts.Length
      ensures Ring() == Added(Advanced(old(Ring()), (slot - old(slot)) % counts.Length), count)
      ensures totalBytes == old(totalBytes) + count && totalPackets == old(totalPackets) + 1
    {
      hide Sum, AllNonNegative, Advanced, Rotated, Added, Count.Plus;
      Update(elapsed);
      var pos := lastPosition;
      ghost var x := counts[..];
      AddToSlot(x, pos, Count(count, 1));
      RotatedAdd(x, pos, count);
      counts[pos] := counts[pos].Plus(Count(count, 1));
      assert counts[..] == x[pos := x[pos].Plus(Count(count, 1))];
      recent := recent.Plus(Count(count, 1));
      totalBytes := totalBytes + count;
      totalPackets := totalPackets + 1;
    }

    /** The running sum is at every moment the sum of the ring. */
    lemma RecentIsRing()
      requires Valid()
      ensures recent == Sum(Ring()) && recent.NonNegative()
    {
      hide Sum;
      RotatedSum(counts[..], lastPosition);
      SumNonNegative(counts[..]);
    }
  }

  lemma RotatedSum(x: seq<Count>, p: nat)
    requires p < |x|
    ensures Sum(Rotated(x, p)) == Sum(x)
  {
    hide Sum;
    SumAppend(x[p + 1..], x[..p + 1]);
    SumAppend(x[..p + 1], x[p + 1..]);
    assert x == x[..p + 1] + x[p + 1..];
  }

  lemma RotatedAdd(x: seq<Count>, p: nat, count: int)
    requires p < |x|
    ensures Rotated(x[p := x[p].Plus(Count(count, 1))], p) == Added(Rotated(x, p), count)
  {
  }

  lemma ZerosSum(s: seq<Count>)
    requires |s| > 0 && forall k :: 0 <= k < |s| ==> s[k] == ZERO
    ensures Sum(s) == ZERO && AllNonNegative(s) && Rotated(s, 0) == Zeros(|s|)
  {
    hide Count.Plus, Sum;
    ZerosAdd(|s|);
    assert s == Zeros(|s|);
  }

  lemma {:induction false} ZerosAdd(n: nat)
    ensures Sum(Zeros(n)) == ZERO
  {
    hide Count.Plus, Zeros;
    if n > 0 {
      ZerosCons(n);
      ZerosAdd(n - 1);
      PlusZero(ZERO);
      assert Zeros(n)[1..] == Zeros(n - 1);
    }
  }

  /** The slots after `last` up to number `i`, going round, are empty. */
  ghost function Emptied(x: seq<Count>, last: nat, i: nat): (r: seq<Count>)
    requires last < |x| && last <= i
    ensures |r| == |x|
  {
    if i == last then x else Emptied(x, last, i - 1)[i % |x| := ZERO]
  }

  lemma EmptiedNone(x: seq<Count>, last: nat)
    requires last < |x|
    ensures Emptied(x, last, last) == x
  {
  }

  lemma EmptiedStep(x: seq<Count>, last: nat, i: nat)
    requires last < |x| && last <= i
    ensures Emptied(x, last, i + 1) == Emptied(x, last, i)[(i + 1) % |x| := ZERO]
  {
  }

  lemma WrapOnce(i: nat, n: nat)
    requires i < 2 * n
    ensures i % n == if i < n then i else i - n
  {
    DivModUnique(i, n, if i < n then 0 else 1, if i < n then i else i - n);
  }

  /** Read from the new position, the ring has moved on by the slots emptied. */
  lemma {:induction false} EmptiedRing(x: seq<Count>, last: nat, i: nat)
    requires last < |x| && last <= i < last + |x|
    ensures
      var p := i % |x|;
      var y := Emptied(x, last, i);
      p < |x| && Rotated(y, p) == Advanced(Rotated(x, last), i - last)
  {
    hide Emptied, Advanced, Rotated;
    var n := |x|;
    WrapOnce(i, n);
    if i == last {
      EmptiedNone(x, last);
      AdvancedNone(Rotated(x, last));
    } else {
      EmptiedRing(x, last, i - 1);
      EmptiedStep(x, last, i - 1);
      WrapOnce(i - 1, n);
      RotateAndEmpty(Emptied(x, last, i - 1), (i - 1) % n, i % n);
      AdvanceAgain(Rotated(x, last), i - 1 - last);
    }
  }

  lemma RotateAndEmpty(y: seq<Count>, q: nat, p: nat)
    requires q < |y| && p == if q + 1 < |y| then q + 1 else 0
    ensures Rotated(y[p := ZERO], p) == Advanced(Rotated(y, q), 1)
  {
    var z := y[p := ZERO];
    var r := y[q + 1..] + y[..q + 1];
    assert Zeros(1) == [ZERO];
    if q + 1 < |y| {
      assert r[1..] == y[p + 1..] + y[..p];
      assert z[..p + 1] == y[..p] + [ZERO] && z[p + 1..] == y[p + 1..];
    } else {
      assert r == y && z == [ZERO] + y[1..];
      assert z[1..] == y[1..] && z[..1] == [ZERO];
    }
  }

  lemma AdvancedNone(ring: seq<Count>)
    ensures Advanced(ring, 0) == ring
  {
  }

  lemma AdvanceAgain(ring: seq<Count>, k: nat)
    requires k < |ring|
    ensures Advanced(Advanced(ring, k), 1) == Advanced(ring, k + 1)
  {
    assert Zeros(k + 1) == Zeros(k) + Zeros(1);
    assert (ring[k..] + Zeros(k))[1..] == ring[k + 1..] + Zeros(k);
  }

  lemma EmptySlot(s: seq<Count>, i: nat)
    requires i < |s| && AllNonNegative(s)
    ensures Sum(s).NonNegative()
    ensures Sum(s).Minus(s[i]) == Sum(s[i := ZERO]) && Sum(s).Minus(s[i]).NonNegative()
    ensures AllNonNegative(s[i := ZERO])
  {
    hide Sum;
    SumNonNegative(s);
    SumUpdate(s, i, ZERO);
    PlusZero(Sum(s).Minus(s[i]));
    forall c | c in s[i := ZERO] ensures c.NonNegative() {
      if c != ZERO { assert c in s; }
    }
    SumNonNegative(s[i := ZERO]);
  }

  lemma AddToSlot(s: seq<Count>, i: nat, c: Count)
    requires i < |s| && AllNonNegative(s) && c.NonNegative()
    ensures Sum(s[i := s[i].Plus(c)]) == Sum(s).Plus(c) && AllNonNegative(s[i := s[i].Plus(c)])
  {
    hide Sum;
    SumUpdate(s, i, s[i].Plus(c));
    var t := s[i := s[i].Plus(c)];
    assert s[i] in s;
    forall d | d in t ensures d.NonNegative() {
      if d != s[i].Plus(c) { assert d in s; }
    }
  }

  /** How far apart two seconds are in the ring. */
  lemma SlotDistance(a: nat, b: nat, n: nat)
    requires n > 0 && a <= b
    ensures 0 <= a % n < n && 0 <= b % n < n && 0 <= (b - a) % n < n
    ensures (b - a) % n == if b % n < a % n then b % n + n - a % n else b % n - a % n
  {
    DivMod(a, n);
    DivMod(b, n);
    var q := b / n - a / n;
    Distribute(n, b / n, -(a / n));
    if b % n < a % n {
      Distribute(n, q, -1);
      DivModUnique(b - a, n, q - 1, b % n + n - a % n);
    } else {
      DivModUnique(b - a, n, q, b % n - a % n);
    }
  }
}
