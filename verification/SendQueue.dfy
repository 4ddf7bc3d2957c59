/** The sending side of the socket class. */
module SendQueue {
  import opened Bits
  import opened SendProtocol

  class TcpSocket {
    var maxSendingQueueSize: int
    var sendingQueue: seq<Buffer>
    var connected: bool
    /** Whether the operating system's socket is open. */
    var open: bool
    /** What the operating system has been given, and the history of the queue. */
    ghost var outstanding: seq<Buffer>
    ghost var accepted: seq<Buffer>
    ghost var started: seq<Buffer>
    ghost var written: seq<Buffer>
    ghost var settled: seq<Settled>

    ghost function Current(): State
      reads this
    {
      State(sendingQueue, maxSendingQueueSize, open, connected, outstanding, accepted, started, written, settled)
    }

    constructor (open: bool, connected: bool)
      ensures Current() == Initial(open, connected)
    {
      maxSendingQueueSize, sendingQueue := 16, [];
      this.open, this.connected := open, connected;
      outstanding, accepted, started, written, settled := [], [], [], [], [];
    }

    method SetMaxSendingQueueSize(max: int)
      modifies this
      ensures Current() == Apply(old(Current()), SetMax(max))
    {
      if max == 0 { return; }
      maxSendingQueueSize := max;
    }

    /** Stands for the asynchronous write: it is outstanding until its completion is delivered. */
    method DoSendN(buffer: Buffer)
      modifies `outstanding, `started
      ensures outstanding == old(outstanding) + [buffer] && started == old(started) + [buffer]
    {
      outstanding := outstanding + [buffer];
      started := started + [buffer];
    }

    method ClearSendingQueue()
      modifies `sendingQueue, `settled
      ensures Current() == Cleared(old(Current()))
    {
      settled := settled + Failures(sendingQueue);
      sendingQueue := [];
    }

    method ProcessSendingQueue()
      modifies this
      ensures Current() == Processed(old(Current()))
    {
      if sendingQueue == [] { return; }
      if !open {
        ClearSendingQueue();
        return;
      }
      DoSendN(sendingQueue[0]);
    }

    method SendN(data: Buffer) returns (ok: bool)
      requires data != []
      modifies this
      ensures Current() == Apply(old(Current()), Send(data))
      ensures ok <==> |old(sendingQueue)| < AsSize(old(maxSendingQueueSize))
      ensures ok ==> accepted == old(accepted) + [data]
      ensures !ok ==> Current() == old(Current())
    {
      if |sendingQueue| >= AsSize(maxSendingQueueSize) { return false; }
      sendingQueue := sendingQueue + [data];
      accepted := accepted + [data];
      if |sendingQueue| == 1 {
        ProcessSendingQueue();
      }
      return true;
    }

    /** The completion of the `i`-th outstanding write. */
    method OnSend(failed: bool, ghost i: nat)
      requires i < |outstanding|
      modifies this
      ensures Current() == Apply(old(Current()), if failed then WriteFailed(i) else WriteCompleted(i))
    {
      ghost var buffer := outstanding[i];
      outstanding := Without(outstanding, i);
      if failed {
        connected := false;
        ClearSendingQueue();
        return;
      }
      written := written + [buffer];
      if sendingQueue == [] { return; }
      settled := settled + [Settled(sendingQueue[0], true)];
      sendingQueue := sendingQueue[1..];
      ProcessSendingQueue();
    }

    method Close()
      modifies this
      ensures Current() == Apply(old(Current()), Step.Close)
    {
      if open {
        open := false;
      }
      connected := false;
    }

    /** Closes what was open, and starts to connect, which opens the socket again. */
    method Connect()
      modifies this
      ensures Current() == Apply(old(Current()), Step.Connect)
    {
      Close();
      open := true;
    }

    method OnConnect(failed: bool)
      modifies this
      ensures Current() == Apply(old(Current()), ConnectCompleted(!failed))
    {
      ClearSendingQueue();
      connected := !failed;
    }

    method OnReceive(failed: bool)
      modifies this
      ensures Current() == if failed then Apply(old(Current()), ReceiveFailed) else old(Current())
    {
      if failed {
        connected := false;
        ClearSendingQueue();
      }
    }

    method Do(step: Step)
      requires Enabled(Current(), step)
      modifies this
      ensures Current() == Apply(old(Current()), step)
    {
      match step
      case Send(data) => var _ := SendN(data);
      case WriteCompleted(i) => OnSend(false, i);
      case WriteFailed(i) => OnSend(true, i);
      case Close => Close();
      case Connect => Connect();
      case ConnectCompleted(ok) => OnConnect(!ok);
      case ReceiveFailed => OnReceive(true);
      case SetMax(max) => SetMaxSendingQueueSize(max);
    }
  }

  /** A whole run on a connected socket: the queue holds just the accepted buffers that are not settled. */
  method RunSocket(steps: seq<Step>) returns (socket: TcpSocket)
    requires OrderlyRun(Initial(true, true), steps)
    ensures fresh(socket) && socket.Current() == Run(Initial(true, true), steps)
    ensures OneWrite(socket.Current()) && Accounted(socket.Current())
  {
    socket := new TcpSocket(true, true);
    ghost var s := Initial(true, true);
    for i := 0 to |steps|
      invariant OrderlyRun(socket.Current(), steps[i..])
      invariant fresh(socket)
      invariant Run(socket.Current(), steps[i..]) == Run(s, steps)
    {
      assert steps[i..][0] == steps[i] && steps[i..][1..] == steps[i + 1..];
      socket.Do(steps[i]);
    }
    RunKeeps(s, steps);
  }
}
