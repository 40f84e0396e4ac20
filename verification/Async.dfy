/** The asynchronous context of hiredis (async.c): flags, callback queues, subscriptions. User
    callbacks are arbitrary: the n-th callback that runs makes the API calls `script(n)`. */
module Async {
  import opened Bytes
  import opened ReplyMachine
  import opened CallbackQueues
  import opened AsyncTrace
  import Commands

  class AsyncContext {
    const replies: CallbackList
    const invalid: CallbackList
    const script: nat -> seq<ApiCall>
    const hasOnDisconnect: bool
    var flags: Flags
    var cErr: bool
    var err: bool
    var obuf: bytes
    var channels: map<bytes, Callback>
    var patterns: map<bytes, Callback>
    var runCount: nat
    var freed: bool
    var failure: Option<Failure>
    var disconnectStatus: Option<bool>

    /** What happened so far, and the events that brought it about. */
    ghost var t: Trace
    ghost var handled: seq<Event>

    ghost function Repr(): set<object>
      reads replies`Repr, invalid`Repr
    {
      {this} + replies.Repr + invalid.Repr
    }

    ghost predicate ListsOk()
      reads replies, replies.Repr, invalid, invalid.Repr
    {
      && replies.Valid() && invalid.Valid()
      && replies.Repr !! invalid.Repr && this !in replies.Repr + invalid.Repr
    }

    ghost predicate HistoryOk()
      reads `t, `flags, `channels, `patterns, `freed, `failure, replies`nodes, invalid`nodes
    {
      && TraceOk(t, replies.Items())
      && (!t.special ==>
            && !flags.subscribed && !flags.monitoring
            && invalid.Items() == [] && channels == map[] && patterns == map[])
      && (freed || failure.Some? ==> t.ended)
    }

    ghost predicate Valid()
      reads this, replies, replies.Repr, invalid, invalid.Repr
    {
      ListsOk() && HistoryOk()
    }

    predicate Closing()
      reads `flags
    {
      flags.disconnecting || flags.freeing
    }

    /** The calls made so far explain what was accepted. */
    ghost predicate Steady()
      reads `t, `flags
    {
      CallsOk(t, Closing())
    }

    /** All callbacks that should have run have run, but for the runs `d`, and have made the
        calls of their scripts. */
    ghost predicate Due(d: seq<Delivery>)
      reads `t, `flags, `runCount
    {
      && Steady()
      && runCount == |t.runs|
      && Made(t.calls, true) == Scripts(script, runCount)
      && (!t.special ==> t.runs + d == Runs(t.delivered))
    }

    ghost predicate Settled()
      reads `t, `flags, `runCount
    {
      Due([])
    }

    /** Still in use. */
    predicate Live()
      reads `freed, `failure
    {
      !freed && failure.None?
    }

    /** Ready for an event. */
    ghost predicate Ready()
      reads this, replies, replies.Repr, invalid, invalid.Repr
    {
      Valid() && Settled() && Live() && !t.ended && !flags.inCallback
    }

    /** After an event. */
    ghost predicate Rested()
      reads this, replies, replies.Repr, invalid, invalid.Repr
    {
      Valid() && Settled() && !flags.inCallback && (Live() <==> !t.ended)
    }

    lemma Apart()
      requires Valid()
      ensures replies in replies.Repr && invalid in invalid.Repr && replies.Repr !! invalid.Repr
      ensures this !in replies.Repr + invalid.Repr
    {
    }

    /** `redisAsyncInitialize` */
    constructor (s: nat -> seq<ApiCall>, onDisconnect: bool)
      ensures Ready() && fresh(Repr()) && script == s
      ensures flags == Flags(false, false, false, false, false, false) && !cErr && obuf == []
      ensures t == EMPTY_TRACE && handled == [] && replies.Items() == [] && Explained()
    {
      var r := new CallbackList();
      var i := new CallbackList();
      replies, invalid := r, i;
      script, hasOnDisconnect := s, onDisconnect;
      flags := Flags(false, false, false, false, false, false);
      cErr, err, obuf := false, false, [];
      channels, patterns := map[], map[];
      runCount, freed, failure, disconnectStatus := 0, false, None, None;
      t := EMPTY_TRACE;
      handled := [];
    }

    function Subscriptions(): Subs
      reads `flags, `channels, `patterns
    {
      Subs(flags.(inCallback := false), channels, patterns)
    }

    /** What running a callback leaves alone; all queues, once the context is closing. */
    twostate predicate Unharmed()
      reads this, replies, invalid
    {
      && freed == old(freed) && failure == old(failure) && cErr == old(cErr) && err == old(err)
      && disconnectStatus == old(disconnectStatus) && flags.connected == old(flags.connected)
      && t.delivered == old(t.delivered) && t.got == old(t.got) && t.matched == old(t.matched)
      && t.ended == old(t.ended) && Made(t.calls, false) == old(Made(t.calls, false))
      && (old(flags.disconnecting) ==> flags.disconnecting) && (old(flags.freeing) ==> flags.freeing)
      && (old(t.special) ==> t.special)
      && (old(Closing()) ==>
            && t.(calls := old(t.calls), runs := old(t.runs)) == old(t)
            && replies.Items() == old(replies.Items()) && invalid.Items() == old(invalid.Items())
            && channels == old(channels) && patterns == old(patterns) && obuf == old(obuf))
    }

    /** What a call inside a callback leaves alone. */
    twostate predicate Quiet()
      reads this, replies, invalid
    {
      Unharmed() && runCount == old(runCount) && t.runs == old(t.runs)
    }

    // -------------------------------------------------------------------------------------
    // Commands
    // -------------------------------------------------------------------------------------

    /** Register the callback for every channel or pattern named. */
    method AddSubscriptions(argv: seq<bytes>, cb: Callback)
      requires Valid() && argv != []
      modifies `flags, `channels, `patterns, `t
      ensures Valid() && t == old(t).(special := true)
      ensures flags == old(flags).(subscribed := true)
      ensures patterns == if IsPattern(argv[0]) then RegisterAll(old(patterns), argv, cb) else old(patterns)
      ensures channels == if IsPattern(argv[0]) then old(channels) else RegisterAll(old(channels), argv, cb)
    {
      hide TraceOk;
      SubscribedTrace(t, replies.Items());
      t := t.(special := true);
      flags := flags.(subscribed := true);
      var table := if IsPattern(argv[0]) then patterns else channels;
      ghost var before := table;
      var i := 1;
      while i < |argv|
        invariant 1 <= i <= |argv| && table == RegisterAll(before, argv[..i], cb)
      {
        assert argv[..i + 1][..i] == argv[..i];
        table := table[argv[i] := cb];
        i := i + 1;
      }
      assert argv[..|argv|] == argv;
      if IsPattern(argv[0]) {
        patterns := table;
      } else {
        channels := table;
      }
    }

    lemma SubscribedTrace(t: Trace, queued: seq<Callback>)
      requires TraceOk(t, queued)
      ensures TraceOk(t.(special := true), queued)
    {
    }

    /** Put a callback in the queue for replies. */
    method Enqueue(cb: Callback)
      requires Valid()
      modifies replies.Repr, `t
      ensures Valid() && fresh(Repr() - old(Repr()))
      ensures replies.Items() == old(replies.Items()) + [cb]
      ensures t == old(t).(accepted := old(t).accepted + [cb])
    {
      hide TraceOk;
      AcceptOne(t, replies.Items(), cb);
      replies.Push(cb);
      t := t.(accepted := t.accepted + [cb]);
    }

    /** Start monitoring: the callback waits for a reply, and will for every later one. */
    method StartMonitor(cb: Callback)
      requires Valid()
      modifies `flags, replies.Repr, `t
      ensures Valid() && fresh(Repr() - old(Repr())) && flags == old(flags).(monitoring := true)
      ensures replies.Items() == old(replies.Items()) + [cb]
      ensures t == old(t).(accepted := old(t).accepted + [cb], special := true)
    {
      hide TraceOk;
      AcceptOne(t, replies.Items(), cb);
      SubscribedTrace(t.(accepted := t.accepted + [cb]), replies.Items() + [cb]);
      replies.Push(cb);
      t := t.(accepted := t.accepted + [cb], special := true);
      flags := flags.(monitoring := true);
    }

    /** Put it in the queue for commands that will fail. */
    method EnqueueInvalid(cb: Callback)
      requires Valid() && flags.subscribed
      modifies invalid.Repr
      ensures Valid() && fresh(Repr() - old(Repr())) && replies.Items() == old(replies.Items())
      ensures invalid.Items() == old(invalid.Items()) + [cb] && t.special
    {
      hide TraceOk;
      invalid.Push(cb);
    }

    /** Whether a command is accepted. */
    predicate Accepts(argv: seq<bytes>)
      requires argv != []
      reads `flags
    {
      !Closing() && (KindOfCommand(argv) == Unsubscribe ==> flags.subscribed)
    }

    /** The flags after a command is accepted. */
    static function FlagsAfter(f: Flags, kind: CommandKind): Flags {
      if kind.Subscribe? then f.(subscribed := true)
      else if kind.Monitor? then f.(monitoring := true)
      else f
    }

    /** What an accepted command does, apart from being sent: a regular one, and MONITOR, joins
        a queue, a subscription enters its table. */
    twostate predicate Commanded(argv: seq<bytes>, cb: Callback)
      requires argv != []
      reads `flags, `t, `cErr, `obuf, `freed, `failure, `channels, `patterns, replies`nodes, invalid`nodes
    {
      var ok, kind := old(Accepts(argv)), KindOfCommand(argv);
      var refused := old(flags.subscribed) && kind.Regular?;
      var now := if ok && (kind.Regular? || kind.Monitor?) then [cb] else [];
      && replies.Items() == old(replies.Items()) + (if refused then [] else now)
      && t.accepted == old(t.accepted) + (if refused then [] else now)
      && invalid.Items() == old(invalid.Items()) + (if refused then now else [])
      && flags == (if ok then FlagsAfter(old(flags), kind) else old(flags))
      && channels == (if ok && kind.Subscribe? && !IsPattern(argv[0])
                      then RegisterAll(old(channels), argv, cb) else old(channels))
      && patterns == (if ok && kind.Subscribe? && IsPattern(argv[0])
                      then RegisterAll(old(patterns), argv, cb) else old(patterns))
      && obuf == old(obuf) + (if ok then Commands.Wire(argv) else [])
    }

    /** The part of `__redisAsyncCommand` that decides, and registers the callback. */
    method Register(argv: seq<bytes>, cb: Callback) returns (ok: bool)
      requires Valid() && argv != []
      modifies `flags, `channels, `patterns, `t, replies.Repr, invalid.Repr
      ensures Valid() && fresh(Repr() - old(Repr())) && ok == old(Accepts(argv))
      ensures var kind := KindOfCommand(argv);
              && flags == (if ok then FlagsAfter(old(flags), kind) else old(flags))
              && channels == (if ok && kind.Subscribe? && !IsPattern(argv[0])
                              then RegisterAll(old(channels), argv, cb) else old(channels))
              && patterns == (if ok && kind.Subscribe? && IsPattern(argv[0])
                              then RegisterAll(old(patterns), argv, cb) else old(patterns))
      ensures var kind := KindOfCommand(argv);
              var refused := old(flags.subscribed) && kind.Regular?;
              var now := if ok && (kind.Regular? || kind.Monitor?) then [cb] else [];
              && replies.Items() == old(replies.Items()) + (if refused then [] else now)
              && invalid.Items() == old(invalid.Items()) + (if refused then now else [])
              && t.accepted == old(t.accepted) + (if refused then [] else now)
      ensures old(t.special) ==> t.special
      ensures t == old(t).(accepted := t.accepted, special := t.special)
      ensures !t.special ==> !old(flags.subscribed) && (ok ==> !KindOfCommand(argv).Monitor?)
      ensures !ok ==> t == old(t)
    {
      hide TraceOk, KindOfCommand, RegisterAll, AsyncContext.Valid, IsPattern, CallbackList.Items, CallbackList.Valid;
      Apart();
      NeverSubscribed();
      if Closing() {
        return false;
      }
      match KindOfCommand(argv) {
        case Subscribe =>
          AddSubscriptions(argv, cb);
        case Unsubscribe =>
          if !flags.subscribed {
            return false;
          }
        case Monitor =>
          StartMonitor(cb);
        case Regular =>
          if flags.subscribed {
            EnqueueInvalid(cb);
          } else {
            Enqueue(cb);
          }
      }
      ok := true;
    }

    lemma NeverSubscribed()
      requires Valid()
      ensures !t.special ==> !flags.subscribed
    {
    }

    /** `__redisAsyncCommand` */
    method Command(argv: seq<bytes>, cb: Callback) returns (ok: bool)
      requires Valid() && argv != []
      requires Steady() && (t.ended ==> Closing())
      modifies Repr()
      ensures Valid() && Steady() && fresh(Repr() - old(Repr())) && SameBut()
      ensures ok == old(Accepts(argv)) && Commanded(argv, cb)
      ensures old(t.special) ==> t.special
      ensures t == old(t).(accepted := t.accepted, special := t.special, calls := t.calls)
      ensures !ok ==> t == old(t).(calls := t.calls)
      ensures t.calls == old(t.calls) + [Issue(Call.Command(argv, cb), old(flags.inCallback))]
    {
      hide TraceOk, CallsOk, KindOfCommand, RegisterAll, AsyncContext.Valid, IsPattern, Commands.Wire;
      hide CallbackList.Items, CallbackList.Valid;
      Apart();
      ghost var before, closing := t, Closing();
      ok := Register(argv, cb);
      if ok {
        Append(argv);
      }
      ghost var i := Issue(Call.Command(argv, cb), flags.inCallback);
      CallNoted(before, closing, i, t.accepted, t.special);
      NoteCall(i);
    }

    /** What a command makes of flags and tables, told as that of a call. */
    static lemma CommandCases(s: Subs, argv: seq<bytes>, cb: Callback)
      requires argv != []
      ensures var u, kind := AfterCall(s, Call.Command(argv, cb)), KindOfCommand(argv);
              var ok := !s.flags.disconnecting && !s.flags.freeing && (kind == Unsubscribe ==> s.flags.subscribed);
              && u.flags == (if ok then FlagsAfter(s.flags, kind) else s.flags)
              && u.channels == (if ok && kind.Subscribe? && !IsPattern(argv[0])
                                then RegisterAll(s.channels, argv, cb) else s.channels)
              && u.patterns == (if ok && kind.Subscribe? && IsPattern(argv[0])
                                then RegisterAll(s.patterns, argv, cb) else s.patterns)
    {
      hide KindOfCommand, RegisterAll, IsPattern;
    }

    /** What a command leaves alone whatever it is. */
    twostate predicate SameBut()
      reads this
    {
      && freed == old(freed) && failure == old(failure) && cErr == old(cErr) && err == old(err)
      && disconnectStatus == old(disconnectStatus) && runCount == old(runCount)
    }

    /** `__redisAppendCommand` */
    method Append(argv: seq<bytes>)
      requires Valid()
      modifies `obuf
      ensures Valid() && obuf == old(obuf) + Commands.Wire(argv)
    {
      hide TraceOk;
      obuf := obuf + Commands.Wire(argv);
    }

    ghost method NoteCall(i: Issue)
      requires Valid()
      modifies `t
      ensures Valid() && t == old(t).(calls := old(t).calls + [i])
    {
      t := t.(calls := t.calls + [i]);
    }

    // -------------------------------------------------------------------------------------
    // Running callbacks
    // -------------------------------------------------------------------------------------

    /** Take the next callback from the queue, to be given `reply`: its run is due. */
    method Take(reply: Option<Reply>) returns (c: Option<Callback>)
      requires Valid() && Settled() && (reply.Some? <==> !t.ended)
      modifies replies, `t
      ensures Valid() && Repr() == old(Repr())
      ensures old(replies.Items()) == [] ==> c == None && t == old(t) && replies.Items() == []
      ensures old(replies.Items()) != [] ==>
        var first := old(replies.Items())[0];
        && c == Some(first) && t == Served(old(t), first, reply) && replies.Items() == old(replies.Items())[1..]
        && Due(RunOf(first, reply))
    {
      hide TraceOk, CallsOk, Runs, RunOf, Made, Scripts;
      ghost var queued := replies.Items();
      c := replies.Shift();
      if c.Some? {
        ServeOne(t, queued, reply);
        RunsSnoc(t.delivered, Delivery(c.value, reply));
        SameCalls(t, Served(t, c.value, reply));
        assert t.runs + [] == t.runs;
        t := Served(t, c.value, reply);
      }
    }

    lemma SameCalls(t: Trace, u: Trace)
      requires u.calls == t.calls && u.closedAt == t.closedAt && u.accepted == t.accepted
      requires u.ended == t.ended && u.special == t.special
      ensures CallsOk(t, Closing()) ==> CallsOk(u, Closing())
    {
    }

    /** What a callback calls when it is the n-th to run. */
    function CallsOf(cb: Callback, n: nat): seq<ApiCall> {
      if cb.fn.Some? then script(n) else []
    }

    /** `__redisRunCallback`. The callback is run with the reply and makes its calls; none of
        them can tear the context down. */
    method RunCallback(cb: Callback, reply: Option<Reply>)
      requires Valid() && Live() && !flags.inCallback && (t.ended ==> Closing())
      requires Due(RunOf(cb, reply))
      modifies Repr()
      ensures Valid() && fresh(Repr() - old(Repr())) && Unharmed() && !flags.inCallback && Settled()
      ensures t.runs == old(t.runs) + RunOf(cb, reply)
      ensures runCount == old(runCount) + |RunOf(cb, reply)|
      ensures t.calls == old(t.calls) + AsInside(CallsOf(cb, old(runCount)))
      ensures Subscriptions() == AfterCalls(old(Subscriptions()), CallsOf(cb, old(runCount)))
      decreases 1, 1
    {
      hide AsyncContext.Valid, CallsOk, Made, Runs, AsInside, Scripts, TraceOk, AfterCall, AfterCalls;
      hide AsyncContext.Subscriptions;
      AsInsideNothing(t.calls);
      AfterCallsSnoc(Subscriptions(), [], Free);
      if cb.fn.None? {
        assert t.runs + [] == t.runs;
        return;
      }
      ghost var before := t.calls;
      var calls := EnterCallback(cb, reply);
      MadeInside(before, calls);
      MakeCalls(calls);
      LeaveCallback();
    }

    /** The calls of a callback, one by one. */
    method MakeCalls(calls: seq<ApiCall>)
      requires Valid() && Live() && flags.inCallback && Steady() && (t.ended ==> Closing())
      modifies Repr()
      ensures Valid() && fresh(Repr() - old(Repr())) && Quiet() && flags.inCallback && Steady()
      ensures t.calls == old(t.calls) + AsInside(calls)
      ensures Subscriptions() == AfterCalls(old(Subscriptions()), calls)
      decreases 0, 6
    {
      hide AsyncContext.Valid, AsyncContext.Steady, CallsOk, Made, AsInside, AfterCall, AfterCalls;
      hide AsyncContext.Subscriptions;
      AsInsideNothing(t.calls);
      AfterCallsSnoc(Subscriptions(), [], Free);
      assert calls[..0] == [];
      for i := 0 to |calls|
        invariant Valid() && fresh(Repr() - old(Repr())) && Quiet() && flags.inCallback && Steady()
        invariant t.calls == old(t.calls) + AsInside(calls[..i])
        invariant Subscriptions() == AfterCalls(old(Subscriptions()), calls[..i])
      {
        assert calls[..i + 1] == calls[..i] + [calls[i]];
        AsInsideSnoc(old(t.calls), calls[..i], calls[i]);
        AfterCallsSnoc(old(Subscriptions()), calls[..i], calls[i]);
        Api(calls[i]);
      }
      assert calls[..|calls|] == calls;
    }

    /** What the callback that starts now will call. */
    method EnterCallback(cb: Callback, reply: Option<Reply>) returns (calls: seq<ApiCall>)
      requires Valid() && Due(RunOf(cb, reply)) && cb.fn.Some?
      modifies `flags, `runCount, `t
      ensures Valid() && Steady() && flags == old(flags).(inCallback := true)
      ensures calls == script(old(runCount)) && runCount == old(runCount) + 1
      ensures t == old(t).(runs := old(t).runs + RunOf(cb, reply))
      ensures Made(t.calls, true) == Scripts(script, old(runCount)) && |t.runs| == runCount
      ensures !t.special ==> t.runs == Runs(t.delivered)
      ensures Subscriptions() == old(Subscriptions())
    {
      hide Made, Runs, Scripts, CallsOk;
      SameCalls(t, t.(runs := t.runs + RunOf(cb, reply)));
      flags := flags.(inCallback := true);
      calls := script(runCount);
      runCount := runCount + 1;
      t := t.(runs := t.runs + RunOf(cb, reply));
    }

    method LeaveCallback()
      requires Valid() && Steady() && runCount > 0 && |t.runs| == runCount
      requires Made(t.calls, true) == Scripts(script, runCount - 1) + script(runCount - 1)
      requires !t.special ==> t.runs == Runs(t.delivered)
      modifies `flags
      ensures Valid() && flags == old(flags).(inCallback := false) && Settled()
      ensures Subscriptions() == old(Subscriptions())
    {
      hide Made, Runs, CallsOk, TraceOk;
      flags := flags.(inCallback := false);
      assert t.runs + [] == t.runs;
    }

    /** A call of the client, inside a callback or outside. */
    method Api(c: ApiCall)
      requires Valid() && Live() && Steady() && (t.ended ==> flags.inCallback && Closing())
      requires !flags.inCallback ==> Settled()
      modifies Repr()
      ensures Valid() && Steady() && fresh(Repr() - old(Repr())) && flags.inCallback == old(flags.inCallback)
      ensures flags.inCallback ==> Quiet() && t.calls == old(t.calls) + [Issue(c, true)]
      ensures flags.inCallback || c.Command? ==>
        t.runs == old(t.runs) && Subscriptions() == AfterCall(old(Subscriptions()), c)
      ensures !flags.inCallback ==> Rested() && ClientDone(c)
      decreases if flags.inCallback then 0 else 1, 5
    {
      hide AsyncContext.Valid, KindOfCommand, CallsOk, Made, AfterCall, RegisterAll, IsPattern;
      match c {
        case Command(argv, cb) =>
          MadeOneMore(t.calls, Issue(c, flags.inCallback));
          CommandCases(Subscriptions(), argv, cb);
          var ok := Command(argv, cb);
        case Disconnect =>
          AsyncDisconnect();
        case Free =>
          AsyncFree();
      }
    }

    /** What a call outside callbacks does. */
    twostate predicate ClientDone(c: ApiCall)
      reads `flags, `t, `cErr, `obuf, `freed, `failure, `channels, `patterns, replies`nodes, invalid`nodes
    {
      && t.got == old(t.got) && t.matched == old(t.matched) && failure.None? && (freed ==> replies.Items() == [])
      && (old(t.special) ==> t.special)
      && Made(t.calls, false) == old(Made(t.calls, false)) + [c]
      && (Live() ==> cErr == old(cErr) && flags.connected == old(flags.connected))
      && match c {
           case Command(argv, cb) => Live() && Commanded(argv, cb)
           case Disconnect =>
             if old(replies.Items()) == [] then freed
             else Live() && flags == old(flags).(disconnecting := true) && obuf == old(obuf)
                  && replies.Items() == old(replies.Items())
           case Free => freed
         }
    }

    // -------------------------------------------------------------------------------------
    // Teardown
    // -------------------------------------------------------------------------------------

    /** Note a call that closes the context, and set its flag. */
    method Ask(c: ApiCall, f: Flags)
      requires Valid() && Steady() && (t.ended ==> Closing()) && !c.Command?
      requires f == (if c.Disconnect? then flags.(disconnecting := true) else flags.(freeing := true))
      modifies `flags, `t
      ensures Valid() && Steady() && flags == f && (old(Settled()) && !flags.inCallback ==> Settled())
      ensures t == old(t).(calls := old(t).calls + [Issue(c, old(flags.inCallback))])
      ensures Made(t.calls, false) == old(Made(t.calls, false)) + (if flags.inCallback then [] else [c])
    {
      hide CallsOk, Made, Runs;
      ghost var i := Issue(c, flags.inCallback);
      CallNoted(t, Closing(), i, t.accepted, t.special);
      MadeOneMore(t.calls, i);
      flags := f;
      t := t.(calls := t.calls + [i]);
    }

    /** `redisAsyncFree` */
    method AsyncFree()
      requires Valid() && Live() && Steady() && (t.ended ==> flags.inCallback && Closing())
      requires !flags.inCallback ==> Settled()
      modifies Repr()
      ensures Valid() && Steady() && fresh(Repr() - old(Repr())) && flags.inCallback == old(flags.inCallback)
      ensures flags.freeing
      ensures flags.inCallback ==>
        && Quiet() && t.calls == old(t.calls) + [Issue(Free, true)]
        && Subscriptions() == AfterCall(old(Subscriptions()), Free)
      ensures !flags.inCallback ==> Rested() && ClientDone(Free) && NullsGiven(old(t), old(replies.Items()))
      decreases if flags.inCallback then 0 else 1, 4
    {
      hide AsyncContext.Valid, CallsOk, Made, Nulls, Runs, SubscriptionsRun, CallbackList.Items;
      Ask(Free, flags.(freeing := true));
      if !flags.inCallback {
        Teardown();
      }
    }

    /** Change flags that do not close the context. */
    method SetFlags(f: Flags)
      requires Valid() && f.subscribed == flags.subscribed && f.monitoring == flags.monitoring
      requires t.ended || (f.disconnecting == flags.disconnecting && f.freeing == flags.freeing)
      modifies `flags
      ensures Valid() && flags == f && (old(Settled()) ==> Settled())
    {
      hide TraceOk, Made, Runs, Accepted;
      flags := f;
    }

    /** The callbacks that were still queued got null, in order. */
    ghost predicate NullsGiven(before: Trace, queued: seq<Callback>)
      reads `t, replies`nodes
    {
      && t.ended && replies.Items() == []
      && t.accepted == before.accepted && t.got == before.got && t.matched == before.matched
      && t.special == before.special
      && t.delivered == before.delivered + Nulls(queued)
    }

    /** The context is gone, and what was still waiting got null. */
    twostate predicate TornDown()
      reads this, replies, invalid
    {
      && freed && failure.None? && NullsGiven(old(t), old(replies.Items()))
      && (old(flags.freeing) ==> flags.freeing) && (old(flags.disconnecting) ==> flags.disconnecting)
      && Made(t.calls, false) == old(Made(t.calls, false)) && obuf == old(obuf) && cErr == old(cErr)
    }

    /** What the parts of a teardown leave alone. */
    twostate predicate Draining()
      reads this
    {
      && Live() && !flags.inCallback && Closing() && t.ended && t.special == old(t.special)
      && t.accepted == old(t.accepted) && t.got == old(t.got) && t.matched == old(t.matched)
      && Made(t.calls, false) == old(Made(t.calls, false))
      && err == old(err) && disconnectStatus == old(disconnectStatus) && flags.connected == old(flags.connected)
      && obuf == old(obuf) && cErr == old(cErr)
      && (old(flags.freeing) ==> flags.freeing) && (old(flags.disconnecting) ==> flags.disconnecting)
    }

    /** Take everything from the queue for replies, with null. */
    method DrainReplies()
      requires Valid() && Live() && !flags.inCallback && Closing() && t.ended && Settled()
      modifies Repr()
      ensures Valid() && fresh(Repr() - old(Repr())) && Draining() && replies.Items() == [] && Settled()
      ensures t.delivered == old(t.delivered) + Nulls(old(replies.Items()))
      ensures t.runs == old(t.runs) + Runs(Nulls(old(replies.Items())))
      ensures channels == old(channels) && patterns == old(patterns) && invalid.Items() == old(invalid.Items())
      decreases 1, 2, 1
    {
      hide AsyncContext.Valid, Nulls, Runs, Made, AsyncContext.Due, AsyncContext.Settled, CallbackList.Items, RunOf;
      ghost var all, runs := t.delivered + Nulls(replies.Items()), t.runs + Runs(Nulls(replies.Items()));
      Apart();
      NullsStep(t.delivered, replies.Items());
      RunsStep(t.runs, replies.Items());
      var c := TakeNull();
      while c.Some?
        invariant Valid() && fresh(Repr() - old(Repr())) && Draining()
        invariant c.None? ==> replies.Items() == [] && Settled()
        invariant c.Some? ==> Due(RunOf(c.value, None))
        invariant t.delivered + Nulls(replies.Items()) == all
        invariant t.runs + (if c.Some? then RunOf(c.value, None) else []) + Runs(Nulls(replies.Items())) == runs
        invariant channels == old(channels) && patterns == old(patterns) && invalid.Items() == old(invalid.Items())
        decreases |replies.Items()| + if c.Some? then 1 else 0
      {
        c := DrainOne(c.value);
      }
      NullsStep(t.delivered, []);
      RunsStep(t.runs, []);
    }

    /** Run the callback taken with null, and take the next. */
    method DrainOne(cb: Callback) returns (c: Option<Callback>)
      requires Valid() && Live() && !flags.inCallback && Closing() && t.ended && Due(RunOf(cb, None))
      modifies Repr()
      ensures Valid() && fresh(Repr() - old(Repr())) && Draining()
      ensures c.None? ==> replies.Items() == [] && Settled()
      ensures c.Some? ==> Due(RunOf(c.value, None))
      ensures t.delivered + Nulls(replies.Items()) == old(t.delivered + Nulls(replies.Items()))
      ensures t.runs + (if c.Some? then RunOf(c.value, None) else []) + Runs(Nulls(replies.Items()))
           == old(t.runs) + RunOf(cb, None) + Runs(Nulls(old(replies.Items())))
      ensures channels == old(channels) && patterns == old(patterns) && invalid.Items() == old(invalid.Items())
      ensures |replies.Items()| + (if c.Some? then 1 else 0) == |old(replies.Items())|
      decreases 1, 2, 0
    {
      hide AsyncContext.Valid, Nulls, Runs, Made, AsyncContext.Due, AsyncContext.Settled, CallbackList.Items;
      hide RunOf;
      RunCallback(cb, None);
      NullsStep(t.delivered, replies.Items());
      RunsStep(t.runs, replies.Items());
      Apart();
      c := TakeNull();
    }

    /** Take the next callback from the queue, to be given null. */
    method TakeNull() returns (c: Option<Callback>)
      requires Valid() && t.ended && Settled()
      modifies replies, `t
      ensures Valid() && Repr() == old(Repr())
      ensures old(replies.Items()) == [] ==> c == None && t == old(t) && replies.Items() == [] && Settled()
      ensures old(replies.Items()) != [] ==>
        var first := old(replies.Items())[0];
        && c == Some(first) && replies.Items() == old(replies.Items())[1..] && Due(RunOf(first, None))
        && t == old(t).(delivered := old(t).delivered + [Delivery(first, None)])
    {
      hide AsyncContext.Valid, AsyncContext.Due;
      c := Take(None);
    }

    /** Run a callback of the subscriptions, with null. */
    method RunSubscribed(cb: Callback)
      requires Valid() && t.special && Settled()
      requires Live() && !flags.inCallback && Closing() && t.ended
      modifies Repr()
      ensures Valid() && fresh(Repr() - old(Repr())) && Draining() && Settled()
      ensures t.runs == old(t.runs) + RunOf(cb, None) && t.delivered == old(t.delivered)
      ensures replies.Items() == old(replies.Items()) && invalid.Items() == old(invalid.Items())
      ensures channels == old(channels) && patterns == old(patterns)
      decreases 1, 2, 0
    {
      hide AsyncContext.Valid, CallsOk, Made, Runs;
      RunCallback(cb, None);
    }

    /** `__redisShiftCallback` on the queue of commands that will fail. */
    method ShiftInvalid() returns (c: Option<Callback>)
      requires Valid()
      modifies invalid
      ensures Valid() && Repr() == old(Repr())
      ensures old(invalid.Items()) == [] ==> c.None? && invalid.Items() == []
      ensures old(invalid.Items()) != [] ==>
        t.special && c == Some(old(invalid.Items())[0]) && invalid.Items() == old(invalid.Items())[1..]
    {
      hide TraceOk;
      c := invalid.Shift();
    }

    /** Take everything from the queue of commands that will fail, with null. */
    method DrainInvalid()
      requires Valid() && Live() && !flags.inCallback && Closing() && t.ended && Settled()
      modifies Repr()
      ensures Valid() && fresh(Repr() - old(Repr())) && Draining() && Settled() && invalid.Items() == []
      ensures t.runs == old(t.runs) + Runs(Nulls(old(invalid.Items()))) && t.delivered == old(t.delivered)
      ensures replies.Items() == old(replies.Items()) && channels == old(channels) && patterns == old(patterns)
      decreases 1, 2, 1
    {
      hide AsyncContext.Valid, Runs, Nulls, Made, AsyncContext.Settled, CallbackList.Items;
      ghost var all := t.runs + Runs(Nulls(invalid.Items()));
      Apart();
      RunsStep(t.runs, invalid.Items());
      var c := ShiftInvalid();
      while c.Some?
        invariant Valid() && fresh(Repr() - old(Repr())) && Draining() && (c.Some? ==> t.special) && Settled()
        invariant c.None? ==> invalid.Items() == []
        invariant replies.Items() == old(replies.Items()) && t.delivered == old(t.delivered)
        invariant channels == old(channels) && patterns == old(patterns)
        invariant t.runs + (if c.Some? then RunOf(c.value, None) else []) + Runs(Nulls(invalid.Items())) == all
        decreases |invalid.Items()| + if c.Some? then 1 else 0
      {
        RunSubscribed(c.value);
        RunsStep(t.runs, invalid.Items());
        Apart();
        c := ShiftInvalid();
      }
      RunsStep(t.runs, []);
    }

    /** Run the callbacks of a table, each with null, in some order. */
    method DrainTable(table: map<bytes, Callback>)
      requires Valid() && Live() && !flags.inCallback && Closing() && t.ended && Settled()
      requires table == channels || table == patterns
      modifies Repr()
      ensures Valid() && fresh(Repr() - old(Repr())) && Draining() && Settled() && t.delivered == old(t.delivered)
      ensures channels == old(channels) && patterns == old(patterns) && replies.Items() == old(replies.Items())
      ensures old(t.runs) <= t.runs && RunOfTable(table, t.runs[|old(t.runs)|..])
      decreases 1, 2, 1
    {
      hide AsyncContext.Valid, AsyncContext.Settled, CallbackList.Items, Made, Runs, RunOf, TableRunning, RunOfTable;
      TablesSubscribed();
      var left := table.Keys;
      NoneRan(table, t.runs);
      while left != {}
        invariant left <= table.Keys && Valid() && fresh(Repr() - old(Repr())) && Draining() && Settled()
        invariant channels == old(channels) && patterns == old(patterns) && replies.Items() == old(replies.Items())
        invariant left != {} ==> t.special
        invariant t.delivered == old(t.delivered) && TableRunning(table, left, old(t.runs), t.runs)
        decreases |left|
      {
        var k :| k in left;
        OneRan(table, left, old(t.runs), t.runs, k);
        RunSubscribed(table[k]);
        left := left - {k};
      }
      AllRan(table, old(t.runs), t.runs);
    }

    lemma TablesSubscribed()
      requires Valid()
      ensures channels != map[] || patterns != map[] ==> t.special
    {
    }

    /** Run what the subscriptions still have, with null. */
    method DrainSubscriptions()
      requires Valid() && Live() && !flags.inCallback && Closing() && t.ended && Settled()
      modifies Repr()
      ensures Valid() && fresh(Repr() - old(Repr())) && Draining() && Settled() && t.delivered == old(t.delivered)
      ensures replies.Items() == old(replies.Items())
      ensures SubscriptionsRun(old(t.runs) + Runs(Nulls(old(invalid.Items()))), old(channels), old(patterns), t.runs)
      decreases 1, 2, 2
    {
      hide AsyncContext.Valid, AsyncContext.Settled, Runs, Nulls, Made, CallbackList.Items;
      DrainInvalid();
      ghost var r0 := t.runs;
      DrainTable(channels);
      ghost var r1 := t.runs;
      DrainTable(patterns);
      BothTables(r0, r1, t.runs, old(channels), old(patterns));
    }

    /** `__redisAsyncFree`: everything still waiting gets null, then the context is freed. No
        command is accepted meanwhile, so this ends. */
    method Teardown()
      requires Valid() && Live() && !flags.inCallback && Closing() && Settled()
      modifies Repr()
      ensures Rested() && fresh(Repr() - old(Repr())) && TornDown()
      ensures SubscriptionsRun(old(t.runs) + Runs(Nulls(old(replies.Items()))) + Runs(Nulls(old(invalid.Items()))),
                               old(channels), old(patterns), t.runs)
      ensures disconnectStatus == if hasOnDisconnect && flags.connected then Some(flags.freeing || !err)
                                  else old(disconnectStatus)
      ensures flags.connected == old(flags.connected) && err == old(err)
      ensures channels == map[] && patterns == map[]
      decreases 1, 2, 3
    {
      hide AsyncContext.Valid, AsyncContext.Settled, Runs, Nulls, Made, CallbackList.Items, SubscriptionsRun;
      BeginEnd();
      DrainReplies();
      DrainSubscriptions();
      Release(if hasOnDisconnect && flags.connected then Some(flags.freeing || !err) else disconnectStatus);
    }

    /** The end of the context begins: no later call is accepted. */
    ghost method BeginEnd()
      requires Valid()
      modifies `t
      ensures Valid() && t == Ended(old(t)) && (old(Settled()) ==> Settled())
    {
      hide Made, Runs, CallsOk;
      if CallsOk(t, Closing()) {
        EndNoted(t, Closing(), Closing());
      }
      t := Ended(t);
    }

    /** Free the context, after the disconnect callback got its status, if it is called. */
    method Release(status: Option<bool>)
      requires Valid() && t.ended && replies.Items() == []
      modifies `freed, `channels, `patterns, `disconnectStatus
      ensures Valid() && freed && disconnectStatus == status && channels == map[] && patterns == map[]
    {
      hide TraceOk;
      disconnectStatus := status;
      channels, patterns := map[], map[];
      freed := true;
    }

    /** `__redisAsyncDisconnect`. The C program asserts that a disconnect without an error finds
        no callback waiting. */
    method DisconnectNow()
      requires Valid() && Live() && !flags.inCallback && (flags.disconnecting || cErr) && Settled()
      modifies Repr()
      ensures Rested() && fresh(Repr() - old(Repr()))
      ensures !old(cErr) && old(replies.Items()) != [] ==>
        && failure == Some(PendingCallbacks) && !freed && t == Ended(old(t))
        && flags == old(flags) && obuf == old(obuf) && cErr == old(cErr) && replies.Items() == old(replies.Items())
      ensures old(cErr) || old(replies.Items()) == [] ==> TornDown() && flags.disconnecting
      decreases 1, 3
    {
      hide AsyncContext.Valid, AsyncContext.Settled, Made, Nulls, Runs, CallsOk, SubscriptionsRun, CallbackList.Items;
      HeadTells();
      CopyError();
      if !err {
        if replies.head != null {
          Fail(PendingCallbacks);
          return;
        }
      } else {
        BeginEnd();
        SetFlags(flags.(disconnecting := true));
      }
      Teardown();
    }

    /** `__redisAsyncCopyError` */
    method CopyError()
      requires Valid()
      modifies `err
      ensures Valid() && err == cErr
    {
      hide TraceOk;
      err := cErr;
    }

    method Fail(f: Failure)
      requires Valid()
      modifies `failure, `t
      ensures Valid() && failure == Some(f) && t == Ended(old(t)) && (old(Settled()) ==> Settled())
    {
      hide AsyncContext.Settled, TraceOk;
      BeginEnd();
      failure := Some(f);
    }

    lemma HeadTells()
      requires Valid()
      ensures replies.head == null <==> replies.Items() == []
    {
    }

    /** `redisAsyncDisconnect`: at once only outside callbacks and with nothing waiting. */
    method AsyncDisconnect()
      requires Valid() && Live() && Steady() && (t.ended ==> flags.inCallback && Closing())
      requires !flags.inCallback ==> Settled()
      modifies Repr()
      ensures Valid() && Steady() && fresh(Repr() - old(Repr())) && flags.inCallback == old(flags.inCallback)
      ensures flags.inCallback ==>
        && Quiet() && t.calls == old(t.calls) + [Issue(Disconnect, true)]
        && Subscriptions() == AfterCall(old(Subscriptions()), Disconnect)
      ensures !flags.inCallback ==> Rested() && ClientDone(Disconnect)
      ensures !flags.inCallback && old(replies.Items()) == [] ==> NullsGiven(old(t), [])
      decreases if flags.inCallback then 0 else 1, 4
    {
      hide AsyncContext.Valid, CallsOk, Made, Nulls, Runs, SubscriptionsRun, CallbackList.Items;
      HeadTells();
      Ask(Disconnect, flags.(disconnecting := true));
      if !flags.inCallback && replies.head == null {
        DisconnectNow();
      }
    }

    // -------------------------------------------------------------------------------------
    // Replies
    // -------------------------------------------------------------------------------------

    /** The part of `__redisGetSubscribeCallback` for a subscription message. If its channel is
        not known, the callback left over from the reply before stays. */
    method TakeMessage(reply: Reply, stale: Option<Callback>) returns (cb: Option<Callback>)
      requires Valid() && Settled() && Live() && t.special && IsMessage(reply) && flags.subscribed
      modifies `flags, `channels, `patterns, `failure, `t
      ensures Valid() && Settled() && !freed
      ensures failure == if BadCount(reply, old(Table(reply))) then Some(BadMessage) else None
      ensures t == if failure.Some? then Ended(old(t)) else old(t)
      ensures cb == if NameIn(reply) in old(Table(reply)) then Some(old(Table(reply))[NameIn(reply)]) else stale
      ensures Subscriptions() == AfterMessage(old(Subscriptions()), reply)
      ensures flags == old(flags).(subscribed := flags.subscribed)
    {
      hide AsyncContext.Valid, AsyncContext.Settled, IsPattern, IsUnsubscribe, AfterMessage, LastUnsubscribe, BadCount;
      hide AsyncContext.Subscriptions;
      SubscribedMessage(reply);
      cb := stale;
      var name := NameIn(reply);
      var callbacks := Table(reply);
      if name !in callbacks {
        return;
      }
      cb := Some(callbacks[name]);
      if IsUnsubscribe(reply) {
        EndSubscription(reply);
      }
    }

    /** What a message changes unless it ends a subscription: nothing. */
    lemma SubscribedMessage(reply: Reply)
      requires flags.subscribed && IsMessage(reply)
      ensures NameIn(reply) !in Table(reply) || !IsUnsubscribe(reply) ==>
        AfterMessage(Subscriptions(), reply) == Subscriptions() && !BadCount(reply, Table(reply))
    {
      hide IsPattern, IsUnsubscribe, AfterMessage;
      MessageCases(Subscriptions(), reply);
    }

    /** The part for the message that ends a subscription. */
    method EndSubscription(reply: Reply)
      requires Valid() && Settled() && Live() && t.special && IsMessage(reply) && flags.subscribed
      requires NameIn(reply) in Table(reply) && IsUnsubscribe(reply)
      modifies `flags, `channels, `patterns, `failure, `t
      ensures Valid() && Settled() && !freed && flags == old(flags).(subscribed := flags.subscribed)
      ensures failure == if BadCount(reply, old(Table(reply))) then Some(BadMessage) else None
      ensures t == if failure.Some? then Ended(old(t)) else old(t)
      ensures Subscriptions() == AfterMessage(old(Subscriptions()), reply)
    {
      hide AsyncContext.Valid, AsyncContext.Settled, IsPattern, IsUnsubscribe, AfterMessage, Ended;
      MessageCases(Subscriptions(), reply);
      Forget(NameIn(reply), IsPattern(reply.element[0].text));
      if |reply.element| < 3 || !reply.element[2].Integer? {
        Fail(BadMessage);
      } else if reply.element[2].value == 0 {
        ClearSubscribed();
      }
    }

    /** Remove a subscription. */
    method Forget(name: bytes, pattern: bool)
      requires Valid() && t.special
      modifies `channels, `patterns
      ensures Valid() && patterns == (if pattern then old(patterns) - {name} else old(patterns))
      ensures channels == if pattern then old(channels) else old(channels) - {name}
    {
      hide TraceOk;
      if pattern {
        patterns := patterns - {name};
      } else {
        channels := channels - {name};
      }
    }

    method ClearSubscribed()
      requires Valid()
      modifies `flags
      ensures Valid() && flags == old(flags).(subscribed := false) && (old(Settled()) ==> Settled())
    {
      hide TraceOk, Made, Runs, CallsOk;
      flags := flags.(subscribed := false);
    }

    /** `__redisGetSubscribeCallback`: the callback for a reply when no regular command waits. */
    method GetSubscribeCallback(reply: Reply, stale: Option<Callback>) returns (cb: Option<Callback>)
      requires Valid() && Settled() && Live() && t.special && flags.subscribed
      modifies `flags, `channels, `patterns, invalid, `failure, `t
      ensures Valid() && Settled() && Repr() == old(Repr()) && replies.Items() == old(replies.Items()) && !freed
      ensures Subscriptions() == AfterMessage(old(Subscriptions()), reply)
      ensures flags == old(flags).(subscribed := flags.subscribed)
      ensures failure == if reply.Arr? && (IsMessage(reply) ==> BadCount(reply, old(Table(reply))))
                         then Some(BadMessage) else None
      ensures t == if failure.Some? then Ended(old(t)) else old(t)
      ensures cb == CallbackFor(reply, true, old(channels), old(patterns), old(invalid.Items()), stale)
      ensures !reply.Arr? && old(invalid.Items()) != [] ==> invalid.Items() == old(invalid.Items())[1..]
    {
      hide IsUnsubscribe, AsyncContext.Settled, AsyncContext.Valid, CallbackList.Items, BadCount, LastUnsubscribe;
      hide TableOf, CallbackFor, IsMessage, NameIn;
      Apart();
      CallbackCases(reply, channels, patterns, invalid.Items(), stale);
      if !reply.Arr? {
        var c := ShiftInvalid();
        cb := if c.Some? then c else stale;
      } else if IsMessage(reply) {
        cb := TakeMessage(reply, stale);
      } else {
        Fail(BadMessage);
        cb := stale;
      }
    }

    /** The table a subscription message is about. */
    function Table(reply: Reply): map<bytes, Callback>
      requires IsMessage(reply)
      reads `channels, `patterns
    {
      TableOf(reply, channels, patterns)
    }

    /** A reply that no regular command waits for; without a subscription it is the end. */
    ghost method Unexpected(reply: Reply, end: bool)
      requires Valid() && Settled() && !t.ended && (end || flags.subscribed || flags.monitoring)
      modifies `t
      ensures Valid() && Settled()
      ensures t == (if end then Ended(old(t)) else old(t)).(got := old(t).got + [reply])
      ensures flags.subscribed || flags.monitoring ==> t.special
    {
      hide Made, Runs, CallsOk;
      if end {
        EndNoted(t, Closing(), Closing());
      }
      ghost var u := if end then Ended(t) else t;
      SameCalls(u, u.(got := t.got + [reply]));
      t := u.(got := t.got + [reply]);
    }

    method SetError()
      requires Valid()
      modifies `cErr
      ensures Valid() && cErr
    {
      hide TraceOk;
      cErr := true;
    }

    /** The part of `redisProcessCallbacks` for a reply without a waiting command: an error ends
        the context, and anything else must belong to a subscription. */
    method ServeUnexpected(reply: Reply, stale: Option<Callback>) returns (cb: Option<Callback>)
      requires Ready() && replies.Items() == []
      modifies Repr()
      ensures Rested() && fresh(Repr() - old(Repr())) && Made(t.calls, false) == old(Made(t.calls, false))
      ensures t.got == old(t.got) + [reply] && t.matched == old(t.matched) && t.special == old(t.special)
      ensures replies.Items() == []
      ensures failure
           == FailureAt(reply, old(flags), old(channels), old(patterns), old(invalid.Items()), stale)
      ensures (freed <==> reply.Error?) && (freed ==> cErr)
      ensures Live() ==>
        && t == old(t).(got := t.got) && t.special && cErr == old(cErr) && flags.connected == old(flags.connected)
        && cb.Some?
        && cb == CallbackFor(reply, old(flags.subscribed), old(channels), old(patterns), old(invalid.Items()), stale)
        && Subscriptions() == AfterMessage(old(Subscriptions()), reply) && runCount == old(runCount)
    {
      hide AsyncContext.Valid, AsyncContext.Settled, IsMessage, BadCount, Made, AfterMessage;
      hide AsyncContext.Subscriptions;
      Apart();
      NotSubscribed(reply);
      cb := stale;
      Unexpected(reply, reply.Error? || !(flags.subscribed || flags.monitoring));
      if reply.Error? {
        SetError();
        DisconnectNow();
        return;
      }
      if !flags.subscribed && !flags.monitoring {
        Fail(UnexpectedReply);
        return;
      }
      if flags.subscribed {
        cb := GetSubscribeCallback(reply, stale);
      }
      if failure.None? && cb.None? {
        Fail(NoCallbackSet);
      }
    }

    lemma NotSubscribed(reply: Reply)
      ensures !flags.subscribed ==> AfterMessage(Subscriptions(), reply) == Subscriptions()
    {
    }

    lemma DueSubscribed(d: seq<Delivery>)
      requires t.special && Settled()
      ensures Due(d)
    {
    }

    /** One reply: find its callback and run it. `cb` is the variable in which the callback is
        copied, and which keeps the one before if none is found. */
    method ServeReply(reply: Reply, cb: Option<Callback>) returns (now: Option<Callback>)
      requires Ready()
      modifies Repr()
      ensures Rested() && fresh(Repr() - old(Repr())) && Made(t.calls, false) == old(Made(t.calls, false))
      ensures t.got == old(t.got) + [reply]
      ensures failure == if old(replies.Items()) != [] then None
                         else FailureAt(reply, old(flags), old(channels), old(patterns),
                                        old(invalid.Items()), cb)
      ensures t.matched == old(t.matched) + if old(replies.Items()) != [] then [reply] else []
      ensures old(t.special) ==> t.special
      ensures !Live() ==> replies.Items() == [] && (failure.Some? ==> !freed)
      ensures freed && !flags.freeing ==> old(replies.Items()) == [] && reply.Error? && cErr
      ensures old(replies.Items()) != [] || (!reply.Error? && failure.None?) ==>
        && now == (if old(replies.Items()) != [] then Some(old(replies.Items())[0])
                   else CallbackFor(reply, old(flags.subscribed), old(channels), old(patterns),
                                    old(invalid.Items()), cb))
        && now.Some? && old(t.runs) + RunOf(now.value, Some(reply)) <= t.runs
      ensures Live() ==>
        && now.Some? && (now.value.fn.Some? ==> !flags.freeing)
        && t.runs == old(t.runs) + RunOf(now.value, Some(reply))
        && cErr == old(cErr) && flags.connected == old(flags.connected)
        && Subscriptions() == AfterCalls(if old(replies.Items()) != [] then old(Subscriptions())
                                         else AfterMessage(old(Subscriptions()), reply),
                                         CallsOf(now.value, old(runCount)))
    {
      hide AsyncContext.Valid, AsyncContext.Settled, AsyncContext.Due, Made, Runs, FailureAt, CallbackFor, FailsAt;
      hide SubscriptionsRun, CallbackList.Items, Nulls, AfterMessage, AfterCalls, AsyncContext.Subscriptions;
      Apart();
      now := Take(Some(reply));
      if now.None? {
        FailureIsAt(reply, flags, channels, patterns, invalid.Items(), cb);
        now := ServeUnexpected(reply, cb);
        if !Live() {
          return;
        }
        DueSubscribed(RunOf(now.value, Some(reply)));
      }
      RunCallback(now.value, Some(reply));
      if now.value.fn.Some? && flags.freeing {
        ghost var runs, queued, failing := t.runs, replies.Items(), invalid.Items();
        ghost var cs, ps := channels, patterns;
        Teardown();
        RunsBehind(runs, Runs(Nulls(queued)), Runs(Nulls(failing)), cs, ps, t.runs);
      }
    }

    /** While monitoring, the callback used last waits for the next reply too. The C program
        pushes what is in its variable, even if nothing was ever copied there. */
    method PushAgain(cb: Option<Callback>)
      requires Ready() && flags.monitoring
      modifies Repr()
      ensures Rested() && fresh(Repr() - old(Repr())) && flags == old(flags)
      ensures !freed && cErr == old(cErr) && obuf == old(obuf)
      ensures failure == if cb.None? then Some(NoCallbackSet) else None
      ensures cb.None? ==> t == Ended(old(t)) && replies.Items() == old(replies.Items())
      ensures cb.Some? ==> t == old(t).(accepted := old(t).accepted + [cb.value])
                           && replies.Items() == old(replies.Items()) + [cb.value]
    {
      hide AsyncContext.Valid, CallsOk, Made, Runs, Scripts, CallbackList.Items;
      MonitorIsSpecial();
      Apart();
      if cb.None? {
        Fail(NoCallbackSet);
      } else {
        SameUnlessPlain(t, t.(accepted := t.accepted + [cb.value]));
        Enqueue(cb.value);
      }
    }

    lemma MonitorIsSpecial()
      requires Valid() && flags.monitoring
      ensures t.special
    {
    }

    lemma SameUnlessPlain(t: Trace, u: Trace)
      requires t.special && u.special && t.ended == u.ended && t.calls == u.calls && t.closedAt == u.closedAt
      ensures CallsOk(t, Closing()) ==> CallsOk(u, Closing())
    {
    }

    /** When there are no more replies: a pending disconnect happens once everything is sent.
        That replies may still be missing is not looked at, and then the assertion fails. */
    method NoMoreReplies(cb: Option<Callback>)
      requires Ready()
      modifies Repr()
      ensures Rested() && fresh(Repr() - old(Repr()))
      ensures var now, again := old(flags.disconnecting && obuf == []), old(flags.monitoring);
              && (!now && !again ==> t == old(t) && replies.Items() == old(replies.Items()))
              && (!now && again && cb.Some? ==> t == old(t).(accepted := old(t).accepted + [cb.value])
                                                && replies.Items() == old(replies.Items()) + [cb.value])
              && (!now ==> (Live() <==> !again || cb.Some?) && flags == old(flags) && !freed && t.got == old(t.got))
              && (failure == Some(NoCallbackSet) <==> !now && again && cb.None?)
              && (failure == Some(PendingCallbacks) <==> now && !old(cErr) && old(replies.Items()) != [])
              && (failure.Some? ==> flags == old(flags) && t == Ended(old(t)) && !freed
                                    && replies.Items() == old(replies.Items()))
              && (now && (old(cErr) || old(replies.Items()) == []) ==> TornDown())
              && (failure.None? || failure == Some(PendingCallbacks) || failure == Some(NoCallbackSet))
      ensures cErr == old(cErr) && obuf == old(obuf)
    {
      hide AsyncContext.Valid, AsyncContext.Settled, Made, Nulls, CallbackList.Items;
      if flags.disconnecting && obuf == [] {
        DisconnectNow();
        return;
      }
      if flags.monitoring {
        PushAgain(cb);
      }
    }

    /** How the context can end while replies are processed, told by what is there afterwards. */
    twostate predicate ProcessDone(input: seq<Reply>, bad: bool)
      reads `flags, `t, `cErr, `obuf, `freed, `failure, `channels, `patterns, replies`nodes, invalid`nodes
    {
      var all, some := t.got == old(t.got) + input, |t.got| > |old(t.got)|;
      && old(t.got) <= t.got <= old(t.got) + input
      && (old(t.special) ==> t.special) && Made(t.calls, false) == old(Made(t.calls, false))
      && (Live() ==> all && !bad && !(flags.disconnecting && obuf == []) && cErr == old(cErr))
      && (failure.Some? ==> !freed)
      && (failure == Some(PendingCallbacks) ==>
            replies.Items() != [] && all && !bad && !cErr && flags.disconnecting && obuf == [])
      && (!Live() && replies.Items() != [] ==> failure == Some(PendingCallbacks) || failure == Some(NoCallbackSet))
      && (failure.Some? && failure != Some(PendingCallbacks) ==>
            || (some && FailsAt(t.got[|t.got| - 1], failure.value))
            || (failure == Some(NoCallbackSet) && all && !bad && flags.monitoring))
      && (freed && !flags.freeing && !cErr ==>
            all && !bad && flags.disconnecting && obuf == [] && |t.matched| == |t.delivered|)
      && (freed && !flags.freeing && cErr && !old(cErr) ==> (all && bad) || (some && t.got[|t.got| - 1].Error?))
      && (input == [] && !bad ==>
            var now := old(flags.disconnecting && obuf == []);
            && (Live() <==> !now && !old(flags.monitoring))
            && (failure == Some(PendingCallbacks) <==> now && !old(cErr) && old(replies.Items()) != [])
            && (failure == Some(NoCallbackSet) <==> !now && old(flags.monitoring)))
    }

    /** In a run without subscriptions and MONITOR, whether the last reply had no command waiting for it,
        and was not an error; and whether the context ended with commands still waiting. */
    ghost predicate FailureTold()
      reads `t, `failure, `freed, replies`nodes
    {
      !t.special ==>
        && (failure == Some(UnexpectedReply) <==> |t.got| > |t.matched| && !t.got[|t.got| - 1].Error?)
        && (failure == Some(PendingCallbacks) <==> !Live() && replies.Items() != [])
        && (failure.Some? ==> failure == Some(UnexpectedReply) || failure == Some(PendingCallbacks))
    }

    lemma MatchedAll()
      requires Valid() && !t.ended
      ensures !t.special ==> !flags.subscribed && !flags.monitoring && |t.got| == |t.matched|
      ensures |t.matched| == |t.delivered|
    {
    }

    /** The replies that are there, up to the one that ends the context. */
    method ServeReplies(input: seq<Reply>) returns (cb: Option<Callback>)
      requires Ready()
      modifies Repr()
      ensures Rested() && fresh(Repr() - old(Repr())) && old(t.got) <= t.got <= old(t.got) + input
      ensures Made(t.calls, false) == old(Made(t.calls, false)) && (old(t.special) ==> t.special)
      ensures Live() ==>
        t.got == old(t.got) + input && cErr == old(cErr) && flags.connected == old(flags.connected)
      ensures !Live() ==> |t.got| > |old(t.got)| && replies.Items() == [] && FailureTold()
      ensures failure.Some? ==>
        !freed && FailsAt(t.got[|t.got| - 1], failure.value) && !failure.value.PendingCallbacks?
      ensures freed && !flags.freeing ==> cErr && t.got[|t.got| - 1].Error?
      ensures input == [] ==>
        && Live() && cb.None? && flags == old(flags) && obuf == old(obuf) && replies.Items() == old(replies.Items())
    {
      hide AsyncContext.Valid, AsyncContext.Settled, Made, Nulls, Runs, FailureAt, CallbackFor, FailsAt;
      hide CallbackList.Items;
      cb := None;
      var i := 0;
      while i < |input|
        invariant 0 <= i <= |input| && Ready() && fresh(Repr() - old(Repr())) && t.got == old(t.got) + input[..i]
        invariant Made(t.calls, false) == old(Made(t.calls, false)) && (old(t.special) ==> t.special)
        invariant cErr == old(cErr) && flags.connected == old(flags.connected)
        invariant input == [] ==>
          cb.None? && flags == old(flags) && obuf == old(obuf) && replies.Items() == old(replies.Items())
      {
        MatchedAll();
        FailureIsAt(input[i], flags, channels, patterns, invalid.Items(), cb);
        cb := ServeReply(input[i], cb);
        Assoc(old(t.got), input[..i], [input[i]]);
        assert input[..i] + [input[i]] == input[..i + 1];
        i := i + 1;
        if !Live() {
          return;
        }
      }
      assert input[..i] == input;
    }

    /** `redisProcessCallbacks`: `input` are the replies the reader has; `bad` says that it
        stops with an error behind them. */
    method ProcessCallbacks(input: seq<Reply>, bad: bool)
      requires Ready()
      modifies Repr()
      ensures Rested() && fresh(Repr() - old(Repr()))
      ensures ProcessDone(input, bad) && FailureTold() && (Live() ==> flags.connected == old(flags.connected))
    {
      hide AsyncContext.Valid, AsyncContext.Settled, Made, Nulls, Runs, FailsAt, CallbackList.Items;
      var cb := ServeReplies(input);
      if !Live() {
        return;
      }
      MatchedAll();
      if bad {
        SetError();
        DisconnectNow();
      } else {
        NoMoreReplies(cb);
      }
    }

    // -------------------------------------------------------------------------------------
    // Events
    // -------------------------------------------------------------------------------------

    /** The context is gone, and nothing was read. */
    twostate predicate GoneUnread()
      reads `flags, `t, `cErr, `obuf, `freed, `failure, `channels, `patterns, replies`nodes, invalid`nodes
    {
      && freed && failure.None? && t.got == old(t.got) && t.matched == old(t.matched)
      && t.special == old(t.special) && Made(t.calls, false) == old(Made(t.calls, false))
    }

    /** An error was found: the context is torn down. */
    method Abort()
      requires Ready()
      modifies Repr()
      ensures Rested() && fresh(Repr() - old(Repr())) && GoneUnread() && NullsGiven(old(t), old(replies.Items()))
    {
      hide AsyncContext.Valid, AsyncContext.Settled, Made, Nulls;
      SetError();
      DisconnectNow();
    }

    /** `__redisAsyncHandleConnect`: whether to go on. */
    method HandleConnect(sock: Socket) returns (ok: bool)
      requires Ready()
      modifies Repr()
      ensures Rested() && fresh(Repr() - old(Repr())) && ok == !sock.Refused?
      ensures ok ==> Live() && t == old(t) && obuf == old(obuf) && replies.Items() == old(replies.Items())
      ensures sock.Established? ==> flags == old(flags).(connected := true) && cErr == old(cErr)
      ensures sock.InProgress? ==> flags == old(flags) && cErr
      ensures sock.Refused? ==> GoneUnread() && NullsGiven(old(t), old(replies.Items()))
    {
      hide AsyncContext.Valid, AsyncContext.Settled, Made, Nulls;
      match sock {
        case Established =>
          SetFlags(flags.(connected := true));
          ok := true;
        case InProgress =>
          SetError();
          ok := true;
        case Refused =>
          Abort();
          ok := false;
      }
    }

    /** The connection stands once the event has looked at it. */
    twostate predicate Up(sock: Socket)
      reads `flags, `t, `cErr, `obuf, `freed, `failure, `channels, `patterns, replies`nodes, invalid`nodes
    {
      old(flags.connected) || sock.Established?
    }

    /** What an event does that finds the connection not standing. */
    twostate predicate NotUp(sock: Socket)
      reads `flags, `t, `cErr, `obuf, `freed, `failure, `channels, `patterns, replies`nodes, invalid`nodes
    {
      if sock.Refused? then GoneUnread() && NullsGiven(old(t), old(replies.Items()))
      else Live() && t == old(t) && flags == old(flags) && obuf == old(obuf) && cErr
           && replies.Items() == old(replies.Items())
    }

    /** What a read event does. */
    twostate predicate ReadDone(sock: Socket, data: Incoming)
      reads `flags, `t, `cErr, `obuf, `freed, `failure, `channels, `patterns, replies`nodes, invalid`nodes
    {
      && (!Up(sock) ==> NotUp(sock))
      && (Up(sock) && (old(cErr) || data.ReadFailed?) ==>
            GoneUnread() && NullsGiven(old(t), old(replies.Items())))
      && (Up(sock) && !old(cErr) && data.Bytes? ==>
            ProcessDone(data.replies, data.bad) && (Live() ==> flags.connected && !cErr))
    }

    /** `redisAsyncHandleRead` */
    method HandleRead(sock: Socket, data: Incoming)
      requires Ready()
      modifies Repr()
      ensures Rested() && fresh(Repr() - old(Repr())) && ReadDone(sock, data) && FailureTold()
    {
      hide AsyncContext.Valid, AsyncContext.Settled, Made, Nulls;
      MatchedAll();
      if !flags.connected {
        var ok := HandleConnect(sock);
        if !ok || !flags.connected {
          return;
        }
      }
      if cErr || data.ReadFailed? {
        Abort();
      } else {
        ProcessCallbacks(data.replies, data.bad);
      }
    }

    /** What a write event does. */
    twostate predicate WriteDone(sock: Socket, written: Option<nat>)
      reads `flags, `t, `cErr, `obuf, `freed, `failure, `channels, `patterns, replies`nodes, invalid`nodes
    {
      && (!Up(sock) ==> NotUp(sock))
      && (Up(sock) && (old(cErr) || (old(obuf) != [] && written.None?)) ==>
            GoneUnread() && NullsGiven(old(t), old(replies.Items())))
      && (Up(sock) && !old(cErr) && (old(obuf) == [] || written.Some?) ==>
            && Live() && t == old(t) && flags == old(flags).(connected := true) && !cErr
            && replies.Items() == old(replies.Items())
            && obuf == if old(obuf) == [] || written.value >= |old(obuf)| then [] else old(obuf)[written.value..])
    }

    /** `redisAsyncHandleWrite`: `written` bytes went out, or writing failed. */
    method HandleWrite(sock: Socket, written: Option<nat>)
      requires Ready()
      modifies Repr()
      ensures Rested() && fresh(Repr() - old(Repr())) && WriteDone(sock, written) && FailureTold()
    {
      hide AsyncContext.Valid, AsyncContext.Settled, Made, Nulls;
      MatchedAll();
      if !flags.connected {
        var ok := HandleConnect(sock);
        if !ok || !flags.connected {
          return;
        }
      }
      if cErr || (obuf != [] && written.None?) {
        Abort();
      } else if obuf != [] {
        Sent(if written.value < |obuf| then written.value else |obuf|);
      }
    }

    method Sent(n: nat)
      requires Valid() && n <= |obuf|
      modifies `obuf
      ensures Valid() && obuf == old(obuf)[n..]
    {
      hide TraceOk;
      obuf := obuf[n..];
    }

    /** What an event does; a call of the client is outside any callback. */
    twostate predicate EventDone(e: Event)
      reads `flags, `t, `cErr, `obuf, `freed, `failure, `channels, `patterns, replies`nodes, invalid`nodes
    {
      match e
      case Readable(sock, data) => ReadDone(sock, data)
      case Writable(sock, written) => WriteDone(sock, written)
      case Client(c) => ClientDone(c)
    }

    method Dispatch(e: Event)
      requires Ready()
      modifies Repr()
      ensures Rested() && fresh(Repr() - old(Repr())) && EventDone(e) && FailureTold()
    {
      hide AsyncContext.Valid, Runs, CallsOk, Made, Nulls, KindOfCommand;
      MatchedAll();
      match e {
        case Client(c) =>
          Api(c);
        case Readable(sock, data) =>
          HandleRead(sock, data);
        case Writable(sock, written) =>
          HandleWrite(sock, written);
      }
    }

    /** The state of the connection, while the context is in use. */
    ghost function LinkNow(): Option<Link>
      reads `flags, `cErr, `freed, `failure
    {
      if Live() then Some(Link(flags.connected, cErr)) else None
    }

    /** The events handled explain what was called and read. */
    ghost predicate Explained()
      reads `t, `handled, `flags, `cErr, `freed, `failure
    {
      ExplainedBy(handled, t, LinkNow())
    }

    twostate lemma EventAdded(e: Event)
      requires old(Live()) && EventDone(e)
      ensures EventAdds(e, old(Link(flags.connected, cErr)), old(t), t, LinkNow())
    {
      hide Made, Nulls, KindOfCommand, AsyncContext.Commanded;
    }

    method Handle(e: Event)
      requires Ready() && Explained()
      modifies Repr()
      ensures Rested() && fresh(Repr() - old(Repr())) && EventDone(e) && FailureTold()
      ensures handled == old(handled) + [e] && Explained()
    {
      hide AsyncContext.Valid, AsyncContext.Settled, AsyncContext.FailureTold, AsyncContext.EventDone;
      hide ExplainedBy, EventAdds;
      ghost var before, told := handled, t;
      Dispatch(e);
      EventAdded(e);
      ExplainedOneMore(before, e, old(Link(flags.connected, cErr)), told, t, LinkNow());
      NoteHandled(before + [e]);
    }

    ghost method NoteHandled(es: seq<Event>)
      requires Valid()
      modifies `handled
      ensures Valid() && handled == es && (old(Settled()) ==> Settled())
    {
      hide TraceOk, AsyncContext.Settled;
      handled := es;
    }

    /** Any run: `n` events are handled, all of them unless one ends the context. What was read
        and called is what they say, and the callbacks that ran called what their scripts say. */
    method Run(events: seq<Event>) returns (n: nat)
      requires Ready() && Explained()
      modifies Repr()
      ensures Rested() && fresh(Repr() - old(Repr())) && Explained() && FailureTold()
      ensures n <= |events| && handled == old(handled) + events[..n] && (Live() ==> n == |events|)
      ensures Made(t.calls, true) == Scripts(script, |t.runs|)
      ensures !t.special ==>
        && PairedUp(t, replies.Items(), freed)
        && (t.ended ==> t.closedAt <= |t.calls|)
        && t.accepted == Accepted(if t.ended then t.calls[..t.closedAt] else t.calls)
    {
      hide AsyncContext.Valid, AsyncContext.Settled, AsyncContext.FailureTold, AsyncContext.Explained;
      hide PairedUp, Made, Accepted, KindOfCommand;
      n := 0;
      assert handled == old(handled) + events[..n];
      ToldAtFirst();
      while n < |events| && Live()
        invariant n <= |events| && Rested() && Explained() && FailureTold()
        invariant handled == old(handled) + events[..n]
        invariant fresh(Repr() - old(Repr()))
      {
        Assoc(old(handled), events[..n], [events[n]]);
        assert events[..n + 1] == events[..n] + [events[n]];
        Handle(events[n]);
        n := n + 1;
      }
      History();
    }

    lemma ToldAtFirst()
      requires Ready()
      ensures FailureTold()
    {
      MatchedAll();
    }

    lemma History()
      requires Rested()
      ensures Made(t.calls, true) == Scripts(script, |t.runs|)
      ensures !t.special ==>
        && PairedUp(t, replies.Items(), freed)
        && (t.ended ==> t.closedAt <= |t.calls|)
        && t.accepted == Accepted(if t.ended then t.calls[..t.closedAt] else t.calls)
    {
      hide Made, Scripts, Runs, Accepted, PairedUp;
      assert t.runs + [] == t.runs;
      if !t.special {
        CallbackPairing(t, replies.Items(), freed);
      }
    }
  }
}
