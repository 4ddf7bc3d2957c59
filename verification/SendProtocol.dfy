/**
 The sending queue of a socket as a state machine. Its steps are the calls of the owner and the
 completions of the operating system; `outstanding` holds the writes that have been started and not
 completed yet.
 */
module SendProtocol {
  import opened Bits

  type Buffer = seq<byte>

  /** A buffer that has left the queue: its write has succeeded, or it has been dropped. */
  datatype Settled = Settled(buffer: Buffer, ok: bool)

  datatype State = State(
    queue: seq<Buffer>, max: int, open: bool, connected: bool,
    outstanding: seq<Buffer>,
    accepted: seq<Buffer>, started: seq<Buffer>, written: seq<Buffer>, settled: seq<Settled>)

  datatype Step =
    | Send(data: Buffer)
    | WriteCompleted(i: nat)
    | WriteFailed(i: nat)
    | Close
    | Connect
    | ConnectCompleted(ok: bool)
    | ReceiveFailed
    | SetMax(max: int)

  function Failures(buffers: seq<Buffer>): (r: seq<Settled>)
    ensures |r| == |buffers|
  {
    seq(|buffers|, i requires 0 <= i < |buffers| => Settled(buffers[i], false))
  }

  function Cleared(s: State): State {
    s.(queue := [], settled := s.settled + Failures(s.queue))
  }

  /** Starts the write of the front buffer. */
  function Processed(s: State): State {
    if s.queue == [] then s
    else if !s.open then Cleared(s)
    else s.(outstanding := s.outstanding + [s.queue[0]], started := s.started + [s.queue[0]])
  }

  function Sent(s: State, data: Buffer): State {
    if |s.queue| >= AsSize(s.max) then s
    else
      var pushed := s.(queue := s.queue + [data], accepted := s.accepted + [data]);
      if |pushed.queue| == 1 then Processed(pushed) else pushed
  }

  function Without(buffers: seq<Buffer>, i: nat): seq<Buffer>
    requires i < |buffers|
  {
    buffers[..i] + buffers[i + 1..]
  }

  function Completed(s: State, i: nat): State
    requires i < |s.outstanding|
  {
    var done := s.(outstanding := Without(s.outstanding, i), written := s.written + [s.outstanding[i]]);
    if done.queue == [] then done
    else Processed(done.(queue := done.queue[1..], settled := done.settled + [Settled(done.queue[0], true)]))
  }

  function Apply(s: State, step: Step): State
    requires Enabled(s, step)
  {
    match step
    case Send(data) => Sent(s, data)
    case WriteCompleted(i) => Completed(s, i)
    case WriteFailed(i) => Cleared(s.(outstanding := Without(s.outstanding, i), connected := false))
    case Close => s.(open := false, connected := false)
    case Connect => s.(open := true, connected := false)
    case ConnectCompleted(ok) => Cleared(s).(connected := ok)
    case ReceiveFailed => Cleared(s.(connected := false))
    case SetMax(max) => if max == 0 then s else s.(max := max)
  }

  /** A completion belongs to a write that is outstanding; nothing empty is sent. */
  predicate Enabled(s: State, step: Step) {
    && (step.Send? ==> step.data != [])
    && (step.WriteCompleted? || step.WriteFailed? ==> step.i < |s.outstanding|)
  }

  /** No receive fails and no connect completes while a write is outstanding. */
  predicate Orderly(s: State, step: Step) {
    Enabled(s, step) && (step.ReceiveFailed? || step.ConnectCompleted? ==> s.outstanding == [])
  }

  ghost predicate OrderlyRun(s: State, steps: seq<Step>)
    decreases |steps|
  {
    |steps| > 0 ==> Orderly(s, steps[0]) && OrderlyRun(Apply(s, steps[0]), steps[1..])
  }

  function Run(s: State, steps: seq<Step>): State
    requires OrderlyRun(s, steps)
    decreases |steps|
  {
    if |steps| == 0 then s else Run(Apply(s, steps[0]), steps[1..])
  }

  /** A socket that nothing has been sent on. */
  function Initial(open: bool, connected: bool): State {
    State([], 16, open, connected, [], [], [], [], [])
  }

  // ---- What every step keeps ----

  /** At most one write is outstanding: that of the front buffer, as long as there is one. */
  ghost predicate OneWrite(s: State) {
    s.outstanding == if s.queue == [] then [] else [s.queue[0]]
  }

  function Buffers(settled: seq<Settled>): (r: seq<Buffer>)
    ensures |r| == |settled|
  {
    seq(|settled|, i requires 0 <= i < |settled| => settled[i].buffer)
  }

  function Successes(settled: seq<Settled>): seq<Buffer> {
    if |settled| == 0 then []
    else
      var last := settled[|settled| - 1];
      Successes(settled[..|settled| - 1]) + (if last.ok then [last.buffer] else [])
  }

  /**
   Every buffer that was accepted has been settled or is still in the queue, in the order in which
   they came; what was written is just what was settled as a success, in that order too.
   */
  ghost predicate Accounted(s: State) {
    && s.accepted == Buffers(s.settled) + s.queue
    && s.written == Successes(s.settled)
  }

  lemma SuccessesAppend(settled: seq<Settled>, last: Settled)
    ensures Successes(settled + [last]) == Successes(settled) + (if last.ok then [last.buffer] else [])
  {
    assert (settled + [last])[..|settled|] == settled;
  }

  lemma {:induction false} FailuresAdd(settled: seq<Settled>, buffers: seq<Buffer>)
    ensures Successes(settled + Failures(buffers)) == Successes(settled)
  {
    hide Successes, Failures;
    FailuresStep(settled, buffers);
    if |buffers| > 0 {
      var m := |buffers| - 1;
      FailuresAdd(settled, buffers[..m]);
      SuccessesAppend(settled + Failures(buffers[..m]), Settled(buffers[m], false));
    }
  }

  lemma FailuresStep(settled: seq<Settled>, buffers: seq<Buffer>)
    ensures |buffers| == 0 ==> settled + Failures(buffers) == settled
    ensures
      |buffers| > 0 ==>
        var m := |buffers| - 1;
        settled + Failures(buffers) == settled + Failures(buffers[..m]) + [Settled(buffers[m], false)]
  {
  }

  lemma ClearedAccounted(s: State)
    requires Accounted(s)
    ensures Accounted(Cleared(s))
  {
    FailuresAdd(s.settled, s.queue);
    assert Buffers(s.settled + Failures(s.queue)) == Buffers(s.settled) + s.queue;
  }

  lemma ProcessedKeeps(s: State)
    requires s.outstanding == [] && Accounted(s)
    ensures OneWrite(Processed(s)) && Accounted(Processed(s))
  {
    ClearedAccounted(s);
  }

  lemma SentKeeps(s: State, data: Buffer)
    requires OneWrite(s) && Accounted(s)
    ensures OneWrite(Sent(s, data)) && Accounted(Sent(s, data))
  {
    var pushed := s.(queue := s.queue + [data], accepted := s.accepted + [data]);
    assert Accounted(pushed);
    if s.queue == [] {
      ProcessedKeeps(pushed);
    }
  }

  lemma CompletedKeeps(s: State, i: nat)
    requires OneWrite(s) && Accounted(s) && i < |s.outstanding|
    ensures OneWrite(Completed(s, i)) && Accounted(Completed(s, i))
  {
    var front := Settled(s.queue[0], true);
    SuccessesAppend(s.settled, front);
    assert s.queue == [s.queue[0]] + s.queue[1..];
    assert Buffers(s.settled + [front]) == Buffers(s.settled) + [s.queue[0]];
    var popped := s.(outstanding := Without(s.outstanding, i), written := s.written + [s.outstanding[i]],
                     queue := s.queue[1..], settled := s.settled + [front]);
    ProcessedKeeps(popped);
  }

  lemma StepKeeps(s: State, step: Step)
    requires OneWrite(s) && Accounted(s) && Orderly(s, step)
    ensures OneWrite(Apply(s, step)) && Accounted(Apply(s, step))
  {
    match step
    case Send(data) => SentKeeps(s, data);
    case WriteCompleted(i) => CompletedKeeps(s, i);
    case WriteFailed(i) => ClearedAccounted(s.(outstanding := Without(s.outstanding, i), connected := false));
    case ConnectCompleted(ok) => ClearedAccounted(s);
    case ReceiveFailed => ClearedAccounted(s.(connected := false));
    case _ =>
  }

  /** On every orderly run, from a state that has these properties. */
  lemma {:induction false} RunKeeps(s: State, steps: seq<Step>)
    requires OneWrite(s) && Accounted(s) && OrderlyRun(s, steps)
    ensures OneWrite(Run(s, steps)) && Accounted(Run(s, steps))
    decreases |steps|
  {
    if |steps| > 0 {
      StepKeeps(s, steps[0]);
      RunKeeps(Apply(s, steps[0]), steps[1..]);
    }
  }

  /** The exact condition: a failed receive or a completed connect breaks this whenever it is not orderly. */
  lemma OrderlyIsNeeded(s: State, step: Step)
    requires OneWrite(s) && Accounted(s) && Enabled(s, step)
    ensures OneWrite(Apply(s, step)) <==> Orderly(s, step)
  {
    if Orderly(s, step) {
      StepKeeps(s, step);
    }
  }

  /** And then a further buffer starts a second write beside the first. */
  lemma SecondWrite(s: State, data: Buffer)
    requires OneWrite(s) && s.queue != [] && s.open && AsSize(s.max) > 0 && data != []
    ensures Apply(Apply(s, ReceiveFailed), Send(data)).outstanding == [s.queue[0], data]
  {
    var cleared := Apply(s, ReceiveFailed);
    assert [] + [data] == [data];
  }

  // ---- The bound ----

  /** The queue is never longer than the largest maximum it has had. */
  lemma {:induction false} QueueBounded(s: State, steps: seq<Step>, bound: int)
    requires OneWrite(s) && Accounted(s) && OrderlyRun(s, steps)
    requires |s.queue| <= bound && AsSize(s.max) <= bound
    requires forall i :: 0 <= i < |steps| && steps[i].SetMax? ==> AsSize(steps[i].max) <= bound
    ensures |Run(s, steps).queue| <= bound
    decreases |steps|
  {
    if |steps| > 0 {
      StepKeeps(s, steps[0]);
      QueueBounded(Apply(s, steps[0]), steps[1..], bound);
    }
  }

  // ---- Until the first trouble ----

  predicate Smooth(step: Step) {
    !step.Close? && !step.WriteFailed?
  }

  /** Nothing has been dropped. */
  ghost predicate InOrder(s: State) {
    && s.open
    && s.accepted == s.written + s.queue
    && s.started == s.written + s.outstanding
  }

  lemma SmoothStep(s: State, step: Step)
    requires OneWrite(s) && InOrder(s) && Orderly(s, step) && Smooth(step)
    ensures InOrder(Apply(s, step))
  {
    match step
    case Send(data) =>
      assert s.accepted + [data] == s.written + (s.queue + [data]);
    case WriteCompleted(i) =>
      assert s.queue == [s.queue[0]] + s.queue[1..];
      assert s.written + s.queue == s.written + [s.queue[0]] + s.queue[1..];
    case _ =>
  }

  /**
   As long as the socket is not closed and no write fails, the writes are those of a prefix of the
   accepted buffers, in order and each once, and all but the last of them are completed; nothing
   waits without a write.
   */
  lemma {:induction false} WritesArePrefix(s: State, steps: seq<Step>)
    requires OneWrite(s) && Accounted(s) && InOrder(s) && OrderlyRun(s, steps)
    requires forall i :: 0 <= i < |steps| ==> Smooth(steps[i])
    ensures
      var t := Run(s, steps);
      && InOrder(t) && t.started <= t.accepted && |t.started| <= |t.written| + 1
      && (t.started == t.accepted || |t.started| == |t.written| + 1)
    decreases |steps|
  {
    if |steps| > 0 {
      assert Smooth(steps[0]);
      StepKeeps(s, steps[0]);
      SmoothStep(s, steps[0]);
      WritesArePrefix(Apply(s, steps[0]), steps[1..]);
    }
  }

  /** A whole life, from a connected socket: the three results together. */
  lemma LifeOfQueue(steps: seq<Step>)
    requires OrderlyRun(Initial(true, true), steps)
    ensures
      var t := Run(Initial(true, true), steps);
      && |t.outstanding| <= 1
      && (t.queue != [] <==> |t.outstanding| == 1)
      && (t.queue != [] ==> t.outstanding[0] == t.queue[0])
      && |t.accepted| == |t.settled| + |t.queue|
      && t.written == Successes(t.settled)
      && ((forall i :: 0 <= i < |steps| ==> !steps[i].SetMax?) ==> |t.queue| <= 16)
      && ((forall i :: 0 <= i < |steps| ==> Smooth(steps[i])) ==> t.accepted == t.written + t.queue)
  {
    var s := Initial(true, true);
    RunKeeps(s, steps);
    if forall i :: 0 <= i < |steps| ==> !steps[i].SetMax? { QueueBounded(s, steps, 16); }
    if forall i :: 0 <= i < |steps| ==> Smooth(steps[i]) { WritesArePrefix(s, steps); }
  }

  // ---- A closed socket ----

  /** Nothing is started while the socket is closed. */
  lemma ClosedStartsNothing(s: State, step: Step)
    requires Enabled(s, step) && !s.open
    ensures Apply(s, step).started == s.started && |Apply(s, step).outstanding| <= |s.outstanding|
    ensures !step.Connect? ==> !Apply(s, step).open
  {
  }

  /** A buffer that is sent on a closed and idle socket is accepted and dropped. */
  lemma ClosedSendDropped(s: State, data: Buffer)
    requires !s.open && s.queue == s.outstanding == [] && data != [] && AsSize(s.max) > 0
    ensures
      var t := Apply(s, Send(data));
      && t.queue == t.outstanding == [] && t.started == s.started && t.written == s.written
      && t.accepted == s.accepted + [data] && t.settled == s.settled + [Settled(data, false)]
  {
    assert [] + [data] == [data];
    assert Failures([data]) == [Settled(data, false)];
  }

  /** From a close to the next connect nothing is started. A write that was outstanding may still complete;
      nothing else is ever written, and when it is gone, so is the queue. */
  lemma {:induction false} ClosedRun(s: State, steps: seq<Step>)
    requires OneWrite(s) && Accounted(s) && !s.open && OrderlyRun(s, steps)
    requires forall i :: 0 <= i < |steps| ==> !steps[i].Connect?
    ensures
      var t := Run(s, steps);
      && !t.open && t.started == s.started
      && (t.written == s.written || t.written == s.written + s.outstanding)
      && (t.written + t.outstanding == s.written + s.outstanding || t.outstanding == [])
      && (t.outstanding == [] ==> t.queue == [] && t.accepted == Buffers(t.settled))
    decreases |steps|
  {
    if |steps| > 0 {
      assert !steps[0].Connect?;
      StepKeeps(s, steps[0]);
      ClosedStep(s, steps[0]);
      ClosedRun(Apply(s, steps[0]), steps[1..]);
    } else {
      assert s.accepted == Buffers(s.settled) + s.queue;
    }
  }

  lemma ClosedStep(s: State, step: Step)
    requires OneWrite(s) && !s.open && Orderly(s, step) && !step.Connect?
    ensures
      var t := Apply(s, step);
      && !t.open && t.started == s.started
      && ((t.written == s.written && (t.outstanding == s.outstanding || t.outstanding == []))
          || (t.written == s.written + s.outstanding && t.outstanding == []))
  {
    hide Failures;
    if step.WriteCompleted? { assert s.outstanding == [s.outstanding[0]]; }
  }

  lemma CloseEndsWrites(s: State, steps: seq<Step>)
    requires OneWrite(s) && Accounted(s) && OrderlyRun(Apply(s, Close), steps)
    requires forall i :: 0 <= i < |steps| ==> !steps[i].Connect?
    ensures
      var t := Run(Apply(s, Close), steps);
      && t.started == s.started && (t.written == s.written || t.written == s.written + s.outstanding)
  {
    hide Run, OrderlyRun;
    ClosedRun(Apply(s, Close), steps);
  }

  // ---- The other effects of the steps ----

  /** Closing and failures end the connection, and only a connect that completes begins one; a failure drops
      the whole queue. */
  lemma Connections(s: State, step: Step)
    requires Enabled(s, step)
    ensures
      var t := Apply(s, step);
      && (step.Close? || step.Connect? || step.WriteFailed? || step.ReceiveFailed? ==> !t.connected)
      && (step.Close? ==> !t.open && t.queue == s.queue && t.outstanding == s.outstanding)
      && (step.Connect? ==> t.open)
      && (step == ConnectCompleted(true) ==> t.connected) && (step == ConnectCompleted(false) ==> !t.connected)
      && (step.WriteFailed? || step.ReceiveFailed? || step.ConnectCompleted? ==>
            && t.queue == [] && t.accepted == s.accepted && |t.settled| == |s.settled| + |s.queue|
            && forall i :: 0 <= i < |s.queue| ==> t.settled[|s.settled| + i] == Settled(s.queue[i], false))
      && (step == SetMax(0) ==> t == s) && (step.SetMax? && step.max != 0 ==> t == s.(max := step.max))
  {
  }

  /** Of buffers sent without any completion, the first sixteen are accepted, and only the first is started. */
  lemma {:induction false} SixteenWait(data: seq<Buffer>)
    ensures Waiting(SentAll(data), data[..Least(|data|, 16)])
    decreases |data|
  {
    if |data| == 0 {
      hide Sent;
      assert Waiting(Initial(true, true), []);
    } else {
      hide Sent, Waiting, SentAll, Initial;
      var n := |data| - 1;
      var m := Least(n, 16);
      SixteenWait(data[..n]);
      SentLast(data);
      BeginningOf(data, m);
      var s, buffers := SentAll(data[..n]), data[..m];
      assert Waiting(s, buffers);
      OneMoreWaits(s, buffers, data[n]);
    }
  }

  lemma SentLast(data: seq<Buffer>)
    requires |data| > 0
    ensures SentAll(data) == Sent(SentAll(data[..|data| - 1]), data[|data| - 1])
  {
    hide Sent;
  }

  /** These buffers have been accepted and wait, with the write of the first one. */
  predicate Waiting(s: State, buffers: seq<Buffer>) {
    && s.open && s.max == 16 && s.queue == buffers == s.accepted
    && s.started == s.outstanding == buffers[..Least(|buffers|, 1)]
  }

  lemma OneMoreWaits(s: State, buffers: seq<Buffer>, data: Buffer)
    requires Waiting(s, buffers) && |buffers| <= 16
    ensures Waiting(Sent(s, data), if |buffers| < 16 then buffers + [data] else buffers)
  {
    hide Cleared;
    var more := buffers + [data];
    assert |buffers| == 0 ==> more[..1] == [] + [data];
    assert |buffers| > 0 ==> more[..1] == buffers[..1];
  }

  lemma BeginningOf(data: seq<Buffer>, m: nat)
    requires m < |data|
    ensures data[..|data| - 1][..m] == data[..m] && data[..m] + [data[m]] == data[..m + 1]
  {
  }

  function Least(m: nat, n: nat): nat {
    if m < n then m else n
  }

  function SentAll(data: seq<Buffer>): State {
    if |data| == 0 then Initial(true, true) else Sent(SentAll(data[..|data| - 1]), data[|data| - 1])
  }
}
