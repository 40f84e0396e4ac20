/** Runs of an asynchronous context: how it ends when the connection fails, and the two runs in
    which the C program stops. */
module AsyncExamples {
  import opened Bytes
  import opened ReplyMachine
  import opened CallbackQueues
  import opened AsyncTrace
  import opened Async
  import Commands

  const GET: seq<bytes> := [[71, 69, 84], [107]]

  /** A client sends a command before the connection stands. */
  method QueueGet(cb: Callback) returns (ac: AsyncContext)
    ensures ac.Ready() && ac.Explained() && fresh(ac.Repr()) && ac.handled == [Client(Command(GET, cb))]
    ensures ac.flags == Flags(false, false, false, false, false, false) && !ac.cErr && ac.obuf == Commands.Wire(GET)
    ensures ac.replies.Items() == [cb] && ac.t.got == [] && ac.t.delivered == []
  {
    hide AsyncContext.Valid, AsyncContext.Settled, AsyncContext.FailureTold, AsyncContext.Explained;
    hide Commands.Wire, CallbackList.Items;
    ac := new AsyncContext(_ => [], false);
    ac.Handle(Client(Command(GET, cb)));
    ac.MatchedAll();
    assert [] + Commands.Wire(GET) == Commands.Wire(GET);
  }

  /** The connection is refused: the command waiting gets null. */
  method RefusedExample(cb: Callback, data: Incoming) returns (ac: AsyncContext)
    ensures ac.handled == [Client(Command(GET, cb)), Readable(Refused, data)]
    ensures ac.freed && ac.failure.None? && ac.t.got == [] && ac.t.delivered == [Delivery(cb, None)]
  {
    hide AsyncContext.Valid, AsyncContext.Settled, AsyncContext.FailureTold, AsyncContext.Explained;
    hide Commands.Wire, CallbackList.Items;
    ac := QueueGet(cb);
    ac.Handle(Readable(Refused, data));
  }

  /** An error found while connecting is met by the next read, whatever that brings. */
  method InProgressExample(cb: Callback, data: Incoming) returns (ac: AsyncContext)
    ensures ac.handled == [Client(Command(GET, cb)), Readable(InProgress, data), Readable(Established, data)]
    ensures ac.freed && ac.failure.None? && ac.t.got == [] && ac.t.delivered == [Delivery(cb, None)]
  {
    hide AsyncContext.Valid, AsyncContext.Settled, AsyncContext.FailureTold, AsyncContext.Explained;
    hide Commands.Wire, CallbackList.Items;
    ac := QueueGet(cb);
    ac.Handle(Readable(InProgress, data));
    ac.Handle(Readable(Established, data));
  }

  /** What a write does not take stays to be written. */
  method PartialExample(cb: Callback) returns (ac: AsyncContext)
    ensures ac.handled == [Client(Command(GET, cb)), Writable(Established, Some(3))]
    ensures |Commands.Wire(GET)| > 3 && ac.obuf == Commands.Wire(GET)[3..] && ac.Live() && ac.flags.connected
  {
    hide AsyncContext.Valid, AsyncContext.Settled, AsyncContext.FailureTold, AsyncContext.Explained;
    hide CallbackList.Items;
    Commands.WireParts(GET);
    hide Commands.Wire;
    ac := QueueGet(cb);
    ac.Handle(Writable(Established, Some(3)));
  }

  const MONITOR_COMMAND: seq<bytes> := [[77, 79, 78, 73, 84, 79, 82]]

  /** A run in which the program uses a callback that was never set: the client monitors, and a
      read brings no whole reply. */
  method MonitorExample(cb: Callback) returns (ac: AsyncContext)
    ensures ac.handled == [Client(Command(MONITOR_COMMAND, cb)), Readable(Established, Bytes([], false))]
    ensures ac.failure == Some(NoCallbackSet)
  {
    hide AsyncContext.Valid, AsyncContext.Settled, AsyncContext.FailureTold, AsyncContext.Explained;
    hide Commands.Wire, CallbackList.Items;
    MonitorIsMonitor();
    ac := new AsyncContext(_ => [], false);
    ac.Handle(Client(Command(MONITOR_COMMAND, cb)));
    ac.Handle(Readable(Established, Bytes([], false)));
  }

  lemma MonitorIsMonitor()
    ensures KindOfCommand(MONITOR_COMMAND) == Monitor
  {
  }

  /** A run in which the assertion on a clean disconnect fails: all of the command goes out, the
      client disconnects, and a read brings no whole reply. */
  method PendingExample(cb: Callback) returns (ac: AsyncContext)
    ensures ac.handled
         == [Client(Command(GET, cb)), Writable(Established, Some(|Commands.Wire(GET)|)), Client(Disconnect),
             Readable(Established, Bytes([], false))]
    ensures ac.failure == Some(PendingCallbacks) && !ac.freed
  {
    hide AsyncContext.Valid, AsyncContext.Settled, AsyncContext.FailureTold, AsyncContext.Explained;
    hide Commands.Wire, CallbackList.Items, AsyncContext.NullsGiven;
    ac := QueueGet(cb);
    ac.Handle(Writable(Established, Some(|Commands.Wire(GET)|)));
    ac.Handle(Client(Disconnect));
    assert ac.Live() && ac.flags.disconnecting && ac.flags.connected && ac.obuf == [] && !ac.cErr;
    assert ac.replies.Items() == [cb];
    ac.Handle(Readable(Established, Bytes([], false)));
  }
}
