/**
 Whole runs of the meter that looks at the clock itself. The meter keeps only slots modulo the length
 of its ring, so a gap between two calls shrinks to its remainder: what it reports is an exact window,
 but of a history in which the long gaps have been shortened.
 */
module FlowRuns {
  import opened Arithmetic
  import opened Wrappers
  import opened FlowMeters

  /** A call some milliseconds after the start: an addition, or only a look at the clock. */
  datatype Call = Call(elapsed: nat, count: Option<nat>)

  /** The same, in seconds rounded up. */
  datatype Event = Event(slot: nat, count: Option<nat>) {
    function Value(): Count {
      if count.Some? then Count(count.value, 1) else ZERO
    }

    predicate Within(lo: int, hi: int) { lo < slot <= hi }
  }

  function Events(calls: seq<Call>): (r: seq<Event>)
    ensures |r| == |calls|
  {
    seq(|calls|, i requires 0 <= i < |calls| => Event((calls[i].elapsed + 999) / 1000, calls[i].count))
  }

  /** Second 0 is the first instant alone; second `s` is the time after s - 1 whole seconds up to `s`. */
  lemma SecondsRoundedUp(calls: seq<Call>, i: nat)
    requires i < |calls|
    ensures
      var e := Events(calls)[i];
      1000 * (e.slot - 1) < calls[i].elapsed <= 1000 * e.slot && e.count == calls[i].count
  {
  }

  function Now(events: seq<Event>): nat {
    if |events| == 0 then 0 else events[|events| - 1].slot
  }

  ghost predicate Ordered(events: seq<Event>) {
    forall i, j :: 0 <= i < j < |events| ==> events[i].slot <= events[j].slot
  }

  /** What was added in the seconds after `lo` up to `hi`. */
  function Total(events: seq<Event>, lo: int, hi: int): Count {
    if |events| == 0 then ZERO
    else
      var e := events[|events| - 1];
      Total(events[..|events| - 1], lo, hi).Plus(if e.Within(lo, hi) then e.Value() else ZERO)
  }

  /** The ring after a run. */
  function RingAfter(events: seq<Event>, n: nat): (r: seq<Count>)
    requires n > 0
    ensures |r| == n
  {
    if |events| == 0 then Zeros(n)
    else
      var before := events[..|events| - 1];
      RingStep(RingAfter(before, n), Gap(events, n), events[|events| - 1].count)
  }

  function RingStep(ring: seq<Count>, gap: nat, count: Option<nat>): (r: seq<Count>)
    requires gap < |ring|
    ensures |r| == |ring|
  {
    if count.Some? then Added(Advanced(ring, gap), count.value) else Advanced(ring, gap)
  }

  /** How far the last event moves the ring. */
  function Gap(events: seq<Event>, n: nat): (g: nat)
    requires n > 0 && |events| > 0
    ensures g < n
  {
    var d := events[|events| - 1].slot - Now(events[..|events| - 1]);
    DivMod(d, n);
    d % n
  }

  /** The run as the meter sees it: every gap is its remainder. */
  function Retimed(events: seq<Event>, n: nat): (r: seq<Event>)
    requires n > 0
    ensures |r| == |events|
  {
    if |events| == 0 then []
    else
      var before := Retimed(events[..|events| - 1], n);
      before + [Event(Now(before) + Gap(events, n), events[|events| - 1].count)]
  }

  lemma RetimedStep(events: seq<Event>, n: nat)
    requires n > 0 && |events| > 0
    ensures
      var before := Retimed(events[..|events| - 1], n);
      Retimed(events, n) == before + [Event(Now(before) + Gap(events, n), events[|events| - 1].count)]
  {
  }

  lemma RetimedNone(n: nat)
    requires n > 0
    ensures Retimed([], n) == []
  {
  }

  /** No second is later than the last. */
  lemma {:induction false} RetimedOrdered(events: seq<Event>, n: nat)
    requires n > 0
    ensures Ordered(Retimed(events, n))
    ensures forall e :: e in Retimed(events, n) ==> e.slot <= Now(Retimed(events, n))
  {
    if |events| > 0 {
      RetimedOrdered(events[..|events| - 1], n);
    }
  }

  // ---- Sums over seconds ----

  lemma TotalStep(events: seq<Event>, lo: int, hi: int)
    requires |events| > 0
    ensures
      var e := events[|events| - 1];
      Total(events, lo, hi) == Total(events[..|events| - 1], lo, hi).Plus(if e.Within(lo, hi) then e.Value() else ZERO)
  {
  }

  lemma TotalNone(lo: int, hi: int)
    ensures Total([], lo, hi) == ZERO
  {
  }

  lemma PlusShuffle(a: Count, b: Count, v: Count)
    ensures a.Plus(b).Plus(v) == a.Plus(v).Plus(b.Plus(ZERO)) == a.Plus(ZERO).Plus(b.Plus(v))
    ensures a.Plus(b).Plus(ZERO) == a.Plus(ZERO).Plus(b.Plus(ZERO))
  {
  }

  lemma {:induction false} TotalBeyond(events: seq<Event>, lo: int, hi: int)
    requires forall e :: e in events ==> e.slot <= lo
    ensures Total(events, lo, hi) == ZERO
  {
    hide Count.Plus, Total;
    TotalNone(lo, hi);
    if |events| > 0 {
      TotalBeyond(events[..|events| - 1], lo, hi);
      TotalStep(events, lo, hi);
      assert events[|events| - 1] in events;
      PlusZero(ZERO);
    } else {
      assert events == [];
    }
  }

  lemma {:induction false} TotalSplit(events: seq<Event>, lo: int, mid: int, hi: int)
    requires lo <= mid <= hi
    ensures Total(events, lo, hi) == Total(events, lo, mid).Plus(Total(events, mid, hi))
  {
    hide Count.Plus, Total;
    TotalNone(lo, hi);
    TotalNone(lo, mid);
    TotalNone(mid, hi);
    PlusZero(ZERO);
    if |events| > 0 {
      var before := events[..|events| - 1];
      TotalSplit(before, lo, mid, hi);
      TotalStep(events, lo, hi);
      TotalStep(events, lo, mid);
      TotalStep(events, mid, hi);
      PlusShuffle(Total(before, lo, mid), Total(before, mid, hi), events[|events| - 1].Value());
    } else {
      assert events == [];
    }
  }

  lemma {:induction false} TotalEmpty(events: seq<Event>, lo: int)
    ensures Total(events, lo, lo) == ZERO
  {
    if |events| > 0 {
      TotalEmpty(events[..|events| - 1], lo);
      PlusZero(ZERO);
    }
  }

  /** A list of the totals of successive seconds adds up to the total of all of them. */
  lemma {:induction false} SumOfSlots(events: seq<Event>, r: seq<Count>, lo: int)
    requires forall j :: 0 <= j < |r| ==> r[j] == Total(events, lo + j, lo + j + 1)
    ensures Sum(r) == Total(events, lo, lo + |r|)
  {
    hide Sum, Total, Count.Plus;
    if |r| == 0 {
      TotalEmpty(events, lo);
      assert r == [];
      SumSingle(ZERO);
    } else {
      var m := |r| - 1;
      SumOfSlots(events, r[..m], lo);
      assert r == r[..m] + [r[m]];
      SumAppend(r[..m], [r[m]]);
      SumSingle(r[m]);
      TotalSplit(events, lo, lo + m, lo + m + 1);
    }
  }

  // ---- What the ring holds ----

  /** Slot by slot, the ring is the window of the retimed run. */
  lemma {:induction false} RingIsWindow(events: seq<Event>, n: nat, j: nat)
    requires n > 0 && j < n
    ensures
      var seen := Retimed(events, n);
      var s := Now(seen) - n + j;
      RingAfter(events, n)[j] == Total(seen, s, s + 1)
  {
    hide Total, RingAfter, RingStep, Gap, Count.Plus, Retimed, Ordered;
    var seen := Retimed(events, n);
    if |events| > 0 {
      RetimedStep(events, n);
      var before, g := events[..|events| - 1], Gap(events, n);
      var was := Retimed(before, n);
      var s := Now(seen) - n + j;
      RingAfterStep(events, n);
      RingStepAt(RingAfter(before, n), g, events[|events| - 1].count, j);
      TotalStep(seen, s, s + 1);
      assert seen[..|seen| - 1] == was;
      assert seen[|seen| - 1].Within(s, s + 1) <==> j == n - 1;
      if j + g < n {
        RingIsWindow(before, n, j + g);
      } else {
        RetimedOrdered(before, n);
        TotalBeyond(was, s, s + 1);
      }
    } else {
      assert events == [];
      RetimedNone(n);
      RingAfterNone(n);
      TotalNone(j - n, j - n + 1);
    }
  }

  lemma RingAfterStep(events: seq<Event>, n: nat)
    requires n > 0 && |events| > 0
    ensures RingAfter(events, n)
            == RingStep(RingAfter(events[..|events| - 1], n), Gap(events, n), events[|events| - 1].count)
  {
  }

  lemma RingStepAt(ring: seq<Count>, g: nat, count: Option<nat>, j: nat)
    requires g < |ring| && j < |ring|
    ensures
      RingStep(ring, g, count)[j]
      == (if j + g < |ring| then ring[j + g] else ZERO).Plus(if j == |ring| - 1 then Event(0, count).Value() else ZERO)
  {
    hide Count.Plus;
    assert Advanced(ring, g)[j] == if j + g < |ring| then ring[j + g] else ZERO;
    PlusZero(Advanced(ring, g)[j]);
  }

  /** The reported sum is the exact window of the retimed run. */
  lemma SumIsRetimedWindow(events: seq<Event>, n: nat)
    requires n > 0
    ensures Sum(RingAfter(events, n)) == Total(Retimed(events, n), Now(Retimed(events, n)) - n, Now(Retimed(events, n)))
  {
    hide Sum, Total, RingAfter;
    var seen := Retimed(events, n);
    var lo := Now(seen) - n;
    forall j | 0 <= j < n ensures RingAfter(events, n)[j] == Total(seen, lo + j, lo + j + 1) {
      RingIsWindow(events, n, j);
    }
    SumOfSlots(seen, RingAfter(events, n), lo);
  }

  // ---- When that is the window of the run itself ----

  /** How long before the end an event happened. */
  function Age(events: seq<Event>, i: nat): int
    requires i < |events|
  {
    Now(events) - events[i].slot
  }

  /** The meter never takes an event for older than it is. */
  lemma {:induction false} AgeShrinks(events: seq<Event>, n: nat, i: nat)
    requires n > 0 && Ordered(events) && i < |events|
    ensures 0 <= Age(Retimed(events, n), i) <= Age(events, i)
    ensures Retimed(events, n)[i].count == events[i].count
  {
    var m := |events| - 1;
    var before, was := events[..m], Retimed(events[..m], n);
    if i < m {
      AgeShrinks(before, n, i);
      DivMod(events[m].slot - events[m - 1].slot, n);
      RemainderSmaller(events[m].slot - events[m - 1].slot, n);
      assert Now(before) == events[m - 1].slot;
      assert Retimed(events, n)[i] == was[i];
    }
  }

  lemma RemainderSmaller(d: nat, n: nat)
    requires n > 0
    ensures d % n <= d
  {
    if d < n { DivModUnique(d, n, 0, d); } else { DivMod(d, n); }
  }

  /** Two runs of the same additions whose windows hold the same of them, but for some more in the second. */
  lemma {:induction false} WindowsAgree(a: seq<Event>, b: seq<Event>, lo: int, hi: int, lo2: int, hi2: int)
    requires |a| == |b|
    requires forall i :: 0 <= i < |a| ==> a[i].count == b[i].count
    requires forall i :: 0 <= i < |a| ==> a[i].Within(lo, hi) ==> b[i].Within(lo2, hi2)
    ensures Total(a, lo, hi).packets <= Total(b, lo2, hi2).packets
    ensures Total(a, lo, hi).packets == Total(b, lo2, hi2).packets <==> Total(a, lo, hi) == Total(b, lo2, hi2)
    ensures Total(a, lo, hi) == Total(b, lo2, hi2)
            <==> forall i :: 0 <= i < |a| && b[i].count.Some? && b[i].Within(lo2, hi2) ==> a[i].Within(lo, hi)
  {
    hide Total, Count.Plus;
    TotalNone(lo, hi);
    TotalNone(lo2, hi2);
    if |a| > 0 {
      var m := |a| - 1;
      var c, d := a[..m], b[..m];
      assert forall i :: 0 <= i < m ==> c[i] == a[i] && d[i] == b[i];
      WindowsAgree(c, d, lo, hi, lo2, hi2);
      TotalStep(a, lo, hi);
      TotalStep(b, lo2, hi2);
      AgreeStep(Total(c, lo, hi), Total(d, lo2, hi2), a[m].Within(lo, hi), b[m].Within(lo2, hi2), a[m].Value());
    } else {
      assert a == [] && b == [];
    }
  }

  lemma AgreeStep(x: Count, y: Count, first: bool, second: bool, v: Count)
    requires x.packets <= y.packets && (x.packets == y.packets <==> x == y)
    requires (first ==> second) && (v == ZERO || v.packets == 1)
    ensures
      var x2, y2 := x.Plus(if first then v else ZERO), y.Plus(if second then v else ZERO);
      && x2.packets <= y2.packets && (x2.packets == y2.packets <==> x2 == y2)
      && (x2 == y2 <==> x == y && (v.packets == 1 && second ==> first))
  {
  }

  /**
   For every run: the reported sum is what was added in the last `n` seconds exactly when no addition
   that is at least `n` seconds old still looks younger to the meter.
   */
  lemma ExactIff(events: seq<Event>, n: nat)
    requires n > 0 && Ordered(events)
    ensures Sum(RingAfter(events, n)) == Total(events, Now(events) - n, Now(events))
            <==> forall i :: 0 <= i < |events| && events[i].count.Some? && Age(events, i) >= n
                             ==> Age(Retimed(events, n), i) >= n
  {
    hide Sum, Total, RingAfter, Retimed;
    var seen := Retimed(events, n);
    SumIsRetimedWindow(events, n);
    forall i | 0 <= i < |events|
      ensures 0 <= Age(seen, i) <= Age(events, i) && seen[i].count == events[i].count
    {
      AgeShrinks(events, n, i);
    }
    WindowsAgree(events, seen, Now(events) - n, Now(events), Now(seen) - n, Now(seen));
    assert forall i :: 0 <= i < |events| ==> (events[i].Within(Now(events) - n, Now(events)) <==> Age(events, i) < n);
    assert forall i :: 0 <= i < |events| ==> (seen[i].Within(Now(seen) - n, Now(seen)) <==> Age(seen, i) < n);
  }

  ghost predicate Frequent(events: seq<Event>, n: nat) {
    forall i :: 0 <= i < |events| ==> events[i].slot < Now(events[..i]) + n
  }

  lemma FrequentPrefix(events: seq<Event>, n: nat)
    requires |events| > 0 && Ordered(events) && Frequent(events, n)
    ensures
      var m := |events| - 1;
      Ordered(events[..m]) && Frequent(events[..m], n) && 0 <= events[m].slot - Now(events[..m]) < n
  {
    var before := events[..|events| - 1];
    forall i | 0 <= i < |before| ensures before[i].slot < Now(before[..i]) + n {
      assert before[..i] == events[..i];
    }
  }

  /** In particular when no two calls, and no call and the start, are `n` seconds apart. */
  lemma FrequentCallsExact(events: seq<Event>, n: nat)
    requires n > 0 && Ordered(events) && Frequent(events, n)
    ensures Sum(RingAfter(events, n)) == Total(events, Now(events) - n, Now(events))
  {
    hide *;
    SumIsRetimedWindow(events, n);
    FrequentIsItself(events, n);
  }

  lemma GapSmall(events: seq<Event>, n: nat)
    requires n > 0 && |events| > 0 && 0 <= events[|events| - 1].slot - Now(events[..|events| - 1]) < n
    ensures Gap(events, n) == events[|events| - 1].slot - Now(events[..|events| - 1])
  {
    var d := events[|events| - 1].slot - Now(events[..|events| - 1]);
    DivModUnique(d, n, 0, d);
  }

  lemma {:induction false} FrequentIsItself(events: seq<Event>, n: nat)
    requires n > 0 && Ordered(events) && Frequent(events, n)
    ensures Retimed(events, n) == events
  {
    hide Ordered, Frequent, Retimed, Gap, Now;
    RetimedNone(n);
    if |events| > 0 {
      var m := |events| - 1;
      FrequentPrefix(events, n);
      FrequentIsItself(events[..m], n);
      RetimedStep(events, n);
      GapSmall(events, n);
      assert events == events[..m] + [events[m]];
    } else {
      assert events == [];
    }
  }

  /** Five slots, an addition at once, and a look at the clock five seconds later: it still counts. */
  lemma LateCallKeepsOldBytes(count: nat)
    ensures
      var events := [Event(0, Some(count)), Event(5, None)];
      && Sum(RingAfter(events, 5)) == Count(count, 1)
      && Total(events, Now(events) - 5, Now(events)) == ZERO
  {
    hide Sum, Total, RingAfter, Count.Plus;
    var first, events := [Event(0, Some(count))], [Event(0, Some(count)), Event(5, None)];
    var seen := [Event(0, Some(count)), Event(0, None)];
    assert first[..0] == [] && events[..1] == first == seen[..1];
    DivModUnique(0, 5, 0, 0);
    DivModUnique(5, 5, 1, 0);
    assert Retimed(first[..0], 5) == [];
    assert Retimed(events[..1], 5) == first;
    assert Retimed(events, 5) == seen;
    SumIsRetimedWindow(events, 5);
    TotalNone(-5, 0);
    TotalStep(first, -5, 0);
    TotalStep(seen, -5, 0);
    TotalBeyond(first, 0, 5);
    TotalStep(events, 0, 5);
    PlusZero(Count(count, 1));
    PlusZero(ZERO);
  }

  // ---- The meter does what the runs say ----

  lemma RingAfterNone(n: nat)
    requires n > 0
    ensures RingAfter([], n) == Zeros(n)
  {
  }

  lemma RingAfterAppend(events: seq<Event>, e: Event, n: nat)
    requires n > 0 && Ordered(events + [e])
    ensures
      && e.slot >= Now(events) && 0 <= (e.slot - Now(events)) % n < n
      && RingAfter(events + [e], n) == RingStep(RingAfter(events, n), (e.slot - Now(events)) % n, e.count)
  {
    hide RingStep;
    var all := events + [e];
    assert all[..|events|] == events && all[|events|] == e;
    if |events| > 0 { assert all[|events| - 1].slot <= all[|events|].slot; }
    RingAfterStep(all, n);
    DivMod(e.slot - Now(events), n);
  }

  lemma EventsPrefix(calls: seq<Call>, i: nat)
    requires i < |calls| && Ordered(Events(calls))
    ensures Events(calls[..i + 1]) == Events(calls[..i]) + [Events(calls)[i]]
    ensures Ordered(Events(calls[..i + 1]))
  {
    assert Events(calls[..i + 1]) == Events(calls)[..i + 1];
  }

  /** All that was added, as the totals count it. */
  function Everything(events: seq<Event>): Count {
    if |events| == 0 then ZERO else Everything(events[..|events| - 1]).Plus(events[|events| - 1].Value())
  }

  ghost predicate Totals(events: seq<Event>, bytes: int, packets: int) {
    Everything(events) == Count(bytes, packets)
  }

  lemma NoTotals()
    ensures Totals([], 0, 0)
  {
  }

  lemma NextTotals(events: seq<Event>, e: Event, bytes: int, packets: int)
    requires Totals(events, bytes, packets)
    ensures e.count.None? ==> Totals(events + [e], bytes, packets)
    ensures e.count.Some? ==> Totals(events + [e], bytes + e.count.value, packets + 1)
  {
    hide Everything, Count.Plus;
    EverythingAppend(events, e);
    PlusZero(Count(bytes, packets));
    PlusFields(Count(bytes, packets), e.Value());
  }

  lemma EverythingAppend(events: seq<Event>, e: Event)
    ensures Everything(events + [e]) == Everything(events).Plus(e.Value())
  {
    hide Count.Plus;
    assert (events + [e])[..|events|] == events;
  }

  lemma TotalsAre(events: seq<Event>, bytes: int, packets: int)
    requires Totals(events, bytes, packets)
    ensures Everything(events) == Count(bytes, packets)
  {
  }

  /** The totals are those of a window that began before the first second. */
  lemma {:induction false} EverythingIsTotal(events: seq<Event>, hi: int)
    requires forall e :: e in events ==> e.slot <= hi
    ensures Everything(events) == Total(events, -1, hi)
  {
    hide Count.Plus;
    if |events| > 0 {
      assert events[|events| - 1] in events;
      EverythingIsTotal(events[..|events| - 1], hi);
    }
  }

  method Make(meter: SimpleFlowMeter, call: Call)
    requires meter.Valid() && meter.slot <= (call.elapsed + 999) / 1000
    modifies meter, meter.counts
    ensures meter.Valid() && meter.slot == (call.elapsed + 999) / 1000
    ensures 0 <= (meter.slot - old(meter.slot)) % meter.counts.Length < meter.counts.Length
    ensures meter.Ring() == RingStep(old(meter.Ring()), (meter.slot - old(meter.slot)) % meter.counts.Length, call.count)
    ensures meter.totalBytes == old(meter.totalBytes) + if call.count.Some? then call.count.value else 0
    ensures meter.totalPackets == old(meter.totalPackets) + if call.count.Some? then 1 else 0
  {
    hide Sum, Added, Advanced, AllNonNegative;
    if call.count.Some? {
      meter.Add(call.elapsed, call.count.value);
    } else {
      meter.Update(call.elapsed);
    }
  }

  /** Runs a fresh meter; its sum is at the end the sum of the ring that the run leads to. */
  method Run(unitCount: nat, calls: seq<Call>) returns (recent: Count, total: Count)
    requires unitCount > 0 && Ordered(Events(calls))
    ensures recent == Sum(RingAfter(Events(calls), unitCount)) && recent.NonNegative()
    ensures total == Everything(Events(calls))
  {
    hide Sum, RingAfter, RingStep, Totals, AllNonNegative;
    var meter := new SimpleFlowMeter(unitCount);
    assert Events(calls[..0]) == [];
    RingAfterNone(unitCount);
    NoTotals();
    for i := 0 to |calls|
      invariant meter.Valid() && meter.counts.Length == unitCount && fresh(meter) && fresh(meter.counts)
      invariant meter.slot == Now(Events(calls[..i]))
      invariant Totals(Events(calls[..i]), meter.totalBytes, meter.totalPackets)
      invariant meter.Ring() == RingAfter(Events(calls[..i]), unitCount)
    {
      ghost var done, all := Events(calls[..i]), Events(calls[..i + 1]);
      ghost var e := Events(calls)[i];
      EventsPrefix(calls, i);
      RingAfterAppend(done, e, unitCount);
      NextTotals(done, e, meter.totalBytes, meter.totalPackets);
      Make(meter, calls[i]);
    }
    assert calls[..|calls|] == calls;
    meter.RecentIsRing();
    recent := meter.recent;
    total := Count(meter.totalBytes, meter.totalPackets);
    TotalsAre(Events(calls), meter.totalBytes, meter.totalPackets);
  }
}
