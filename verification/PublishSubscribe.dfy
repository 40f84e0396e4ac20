/** Publish and subscribe, by the words on the wire: which callback gets a message is the one
    that subscribed to its channel or pattern last. */
module PublishSubscribe {
  import opened Bytes
  import opened ReplyMachine
  import opened CallbackQueues
  import opened AsyncTrace
  import opened Async

  /** `s` is the lower-case word `w`, in upper or lower case. */
  predicate Spelled(s: bytes, w: bytes) {
    |s| == |w| && forall i :: 0 <= i < |w| ==> s[i] == w[i] || (97 <= w[i] <= 122 && s[i] == w[i] - 32)
  }

  /** "subscribe" or "psubscribe" */
  predicate SaysSubscribe(s: bytes) {
    || Spelled(s, [115, 117, 98, 115, 99, 114, 105, 98, 101])
    || Spelled(s, [112, 115, 117, 98, 115, 99, 114, 105, 98, 101])
  }

  /** "unsubscribe" or "punsubscribe" */
  predicate SaysUnsubscribe(s: bytes) {
    || Spelled(s, [117, 110, 115, 117, 98, 115, 99, 114, 105, 98, 101])
    || Spelled(s, [112, 117, 110, 115, 117, 98, 115, 99, 114, 105, 98, 101])
  }

  /** "monitor", or with a p in front, which the C program skips here too */
  predicate SaysMonitor(s: bytes) {
    || Spelled(s, [109, 111, 110, 105, 116, 111, 114])
    || Spelled(s, [112, 109, 111, 110, 105, 116, 111, 114])
  }

  predicate StartsWithP(s: bytes) {
    s != [] && (s[0] == 112 || s[0] == 80)
  }

  // ---------------------------------------------------------------------------------------
  // Commands
  // ---------------------------------------------------------------------------------------

  lemma LowerIs(b: byte, l: byte)
    requires 97 <= l <= 122
    ensures Lower(b) == l <==> b == l || b == l - 32
  {
  }

  /** A name without CR is followed by CR LF in the buffer, so only the whole name counts. */
  lemma WordMatches(name: bytes, w: bytes)
    requires 13 !in name && forall i :: 0 <= i < |w| ==> 97 <= w[i] <= 122
    ensures StartsWith(name + CRLF, w + CRLF) <==> Spelled(name, w)
  {
    var s, l := name + CRLF, w + CRLF;
    assert forall i :: 0 <= i < |name| ==> s[i] == name[i];
    forall i | 0 <= i < |w| && i < |s| ensures Lower(s[i]) == l[i] <==> s[i] == w[i] || s[i] == w[i] - 32 {
      LowerIs(s[i], w[i]);
    }
    if StartsWith(s, l) {
      assert Lower(s[|w|]) == l[|w|] == 13;
    }
    if Spelled(name, w) {
      assert forall i :: 0 <= i < |w| ==> Lower(s[i]) == l[i];
    }
  }

  lemma SpelledBehind(s: bytes, w: bytes)
    requires s != []
    ensures Spelled(s, [112] + w) <==> (s[0] == 112 || s[0] == 80) && Spelled(s[1..], w)
  {
    var p := [112] + w;
    assert forall i :: 0 <= i < |w| ==> p[i + 1] == w[i];
    assert forall i :: 0 <= i < |s| - 1 ==> s[1..][i] == s[i + 1];
    if Spelled(s, p) {
      forall i | 0 <= i < |w| ensures s[1..][i] == w[i] || (97 <= w[i] <= 122 && s[1..][i] == w[i] - 32) {
        assert s[i + 1] == p[i + 1] || s[i + 1] == p[i + 1] - 32;
      }
    }
    if s[0] in [112, 80] && Spelled(s[1..], w) {
      forall i | 0 <= i < |p| ensures s[i] == p[i] || (97 <= p[i] <= 122 && s[i] == p[i] - 32) {
        assert i > 0 ==> s[i] == s[1..][i - 1] && p[i] == w[i - 1];
      }
    }
  }

  /** Behind a p the rest of the word follows. */
  lemma BareSpelled(s: bytes, w: bytes)
    requires w != [] && 97 <= w[0] && w[0] != 112
    ensures IsPattern(s) <==> StartsWithP(s)
    ensures Spelled(Bare(s), w) <==> Spelled(s, w) || Spelled(s, [112] + w)
  {
    if s != [] {
      SpelledBehind(s, w);
    }
  }

  /** What a command is, by its name in upper or lower case, if that has no CR in it. */
  lemma CommandKinds(argv: seq<bytes>)
    requires argv != [] && 13 !in argv[0]
    ensures KindOfCommand(argv).Subscribe? <==> |argv| > 1 && SaysSubscribe(argv[0])
    ensures KindOfCommand(argv).Unsubscribe? <==> SaysUnsubscribe(argv[0])
    ensures KindOfCommand(argv).Monitor? <==> SaysMonitor(argv[0])
    ensures IsPattern(argv[0]) <==> StartsWithP(argv[0])
  {
    hide StartsWith, Spelled;
    var s := argv[0];
    var sub: bytes := [115, 117, 98, 115, 99, 114, 105, 98, 101];
    var unsub: bytes := [117, 110, 115, 117, 98, 115, 99, 114, 105, 98, 101];
    var mon: bytes := [109, 111, 110, 105, 116, 111, 114];
    assert [112] + sub == [112, 115, 117, 98, 115, 99, 114, 105, 98, 101];
    assert [112] + unsub == [112, 117, 110, 115, 117, 98, 115, 99, 114, 105, 98, 101];
    assert [112] + mon == [112, 109, 111, 110, 105, 116, 111, 114];
    assert SUBSCRIBE == sub && UNSUBSCRIBE == unsub && MONITOR == mon;
    BareSpelled(s, sub);
    BareSpelled(s, unsub);
    BareSpelled(s, mon);
    WordMatches(Bare(s), sub);
    WordMatches(Bare(s), unsub);
    WordMatches(Bare(s), mon);
    OneWord(Bare(s));
  }

  lemma OneWord(s: bytes)
    ensures Spelled(s, [115, 117, 98, 115, 99, 114, 105, 98, 101]) ==> |s| == 9
    ensures Spelled(s, [117, 110, 115, 117, 98, 115, 99, 114, 105, 98, 101]) ==> |s| == 11
    ensures Spelled(s, [109, 111, 110, 105, 116, 111, 114]) ==> |s| == 7
  {
  }

  // ---------------------------------------------------------------------------------------
  // Registrations
  // ---------------------------------------------------------------------------------------

  /** The callback registered for a channel, or for a pattern. */
  function Registered(s: Subs, name: bytes, pattern: bool): Option<Callback> {
    var table := if pattern then s.patterns else s.channels;
    if name in table then Some(table[name]) else None
  }

  lemma {:induction false} RegistersAll(table: map<bytes, Callback>, argv: seq<bytes>, cb: Callback, name: bytes)
    requires argv != []
    ensures name in argv[1..] ==> name in RegisterAll(table, argv, cb) && RegisterAll(table, argv, cb)[name] == cb
    ensures name !in argv[1..] ==>
      && (name in RegisterAll(table, argv, cb) <==> name in table)
      && (name in table ==> RegisterAll(table, argv, cb)[name] == table[name])
    decreases |argv|
  {
    if |argv| > 1 {
      var front, last := argv[..|argv| - 1], argv[|argv| - 1];
      RegistersAll(table, front, cb, name);
      assert argv[1..] == front[1..] + [last];
    }
  }

  predicate Closed(s: Subs) {
    s.flags.disconnecting || s.flags.freeing
  }

  /** A (P)SUBSCRIBE that is accepted registers its callback for every channel or pattern it
      names, and changes nothing else. */
  lemma SubscribeRegisters(s: Subs, argv: seq<bytes>, cb: Callback, name: bytes, pattern: bool)
    requires |argv| > 1 && 13 !in argv[0] && SaysSubscribe(argv[0]) && !Closed(s)
    ensures var u := AfterCall(s, Command(argv, cb));
            && u.flags == s.flags.(subscribed := true)
            && Registered(u, name, pattern)
            == if pattern == StartsWithP(argv[0]) && name in argv[1..] then Some(cb) else Registered(s, name, pattern)
  {
    hide KindOfCommand, SaysSubscribe, RegisterAll, IsPattern;
    CommandKinds(argv);
    RegistersAll(s.channels, argv, cb, name);
    RegistersAll(s.patterns, argv, cb, name);
  }

  predicate Subscribes(c: ApiCall, name: bytes, pattern: bool) {
    c.Command? && |c.argv| > 1 && SaysSubscribe(c.argv[0]) && pattern == StartsWithP(c.argv[0]) && name in c.argv[1..]
  }

  /** No other call does. */
  lemma OtherCallsKeep(s: Subs, c: ApiCall, name: bytes, pattern: bool)
    requires c.Command? ==> 13 !in c.argv[0]
    requires !Subscribes(c, name, pattern) || Closed(s)
    ensures Registered(AfterCall(s, c), name, pattern) == Registered(s, name, pattern)
  {
    hide KindOfCommand, SaysSubscribe, RegisterAll, IsPattern, StartsWithP;
    if c.Command? {
      CommandKinds(c.argv);
      RegistersAll(s.channels, c.argv, c.cb, name);
      RegistersAll(s.patterns, c.argv, c.cb, name);
    }
  }

  // ---------------------------------------------------------------------------------------
  // Messages
  // ---------------------------------------------------------------------------------------

  /** A message of some type for a channel or a pattern. */
  function Message(kind: bytes, name: bytes, more: seq<Reply>): Reply {
    Arr(2 + |more|, [Str(kind), Str(name)] + more)
  }

  lemma MessageParts(kind: bytes, name: bytes, more: seq<Reply>)
    ensures var r := Message(kind, name, more);
            && IsMessage(r) && NameIn(r) == name && r.element[0] == Str(kind) && !r.Error?
            && |r.element| == 2 + |more| && (more != [] ==> r.element[2] == more[0])
  {
  }

  lemma UnsubscribeMessage(kind: bytes, name: bytes, more: seq<Reply>)
    requires 0 !in kind
    ensures IsUnsubscribe(Message(kind, name, more)) <==> SaysUnsubscribe(kind)
    ensures IsPattern(kind) <==> StartsWithP(kind)
  {
    hide Spelled;
    MessageParts(kind, name, more);
    var unsub: bytes := [117, 110, 115, 117, 98, 115, 99, 114, 105, 98, 101];
    assert [112] + unsub == [112, 117, 110, 115, 117, 98, 115, 99, 114, 105, 98, 101] && UNSUBSCRIBE == unsub;
    BareSpelled(kind, unsub);
    assert 0 !in Bare(kind);
    SameWord(Bare(kind), unsub);
  }

  lemma SameWord(s: bytes, w: bytes)
    requires forall i :: 0 <= i < |w| ==> 97 <= w[i] <= 122
    ensures |s| == |w| && StartsWith(s, w) <==> Spelled(s, w)
  {
    if |s| == |w| {
      forall i | 0 <= i < |w| ensures Lower(s[i]) == w[i] <==> s[i] == w[i] || s[i] == w[i] - 32 {
        LowerIs(s[i], w[i]);
      }
    }
  }

  /** An unsubscribe message says how many subscriptions are left. */
  predicate Counted(kind: bytes, more: seq<Reply>) {
    SaysUnsubscribe(kind) ==> more != [] && more[0].Integer?
  }

  /** A message finds the callback registered for its channel, or, if its type starts with a p,
      for its pattern; the program does not stop at it. */
  lemma MessageFinds(s: Subs, kind: bytes, name: bytes, more: seq<Reply>, waiting: seq<Callback>,
                     stale: Option<Callback>, cb: Callback)
    requires 0 !in kind && Counted(kind, more) && s.flags.subscribed
    requires Registered(s, name, StartsWithP(kind)) == Some(cb)
    ensures var r := Message(kind, name, more);
            && CallbackFor(r, true, s.channels, s.patterns, waiting, stale) == Some(cb)
            && FailureAt(r, s.flags, s.channels, s.patterns, waiting, stale) == None
  {
    hide IsUnsubscribe, SaysUnsubscribe, IsPattern, StartsWithP;
    MessageParts(kind, name, more);
    UnsubscribeMessage(kind, name, more);
  }

  /** One for which nothing is registered gets what the reply before it got; if there was none,
      the program stops. */
  lemma MessageLost(s: Subs, kind: bytes, name: bytes, more: seq<Reply>, waiting: seq<Callback>,
                    stale: Option<Callback>)
    requires 0 !in kind && s.flags.subscribed && Registered(s, name, StartsWithP(kind)) == None
    ensures var r := Message(kind, name, more);
            && CallbackFor(r, true, s.channels, s.patterns, waiting, stale) == stale
            && FailureAt(r, s.flags, s.channels, s.patterns, waiting, stale)
            == if stale.None? then Some(NoCallbackSet) else None
  {
    hide IsUnsubscribe, SaysUnsubscribe, IsPattern, StartsWithP;
    MessageParts(kind, name, more);
    UnsubscribeMessage(kind, name, more);
  }

  /** An unsubscribe message ends the one registration it names, and all other messages end
      none. The context stops being subscribed if such a message, for something registered,
      counts 0. */
  lemma MessageRemoves(s: Subs, kind: bytes, name: bytes, more: seq<Reply>, other: bytes, pattern: bool)
    requires 0 !in kind && Counted(kind, more) && s.flags.subscribed
    ensures var u := AfterMessage(s, Message(kind, name, more));
            && Registered(u, other, pattern)
            == (if SaysUnsubscribe(kind) && other == name && pattern == StartsWithP(kind) then None
                else Registered(s, other, pattern))
            && u.flags == s.flags.(subscribed := u.flags.subscribed)
            && (u.flags.subscribed <==> !(SaysUnsubscribe(kind) && Registered(s, name, StartsWithP(kind)).Some?
                                          && more[0] == Integer(0)))
  {
    hide IsUnsubscribe, SaysUnsubscribe, IsPattern, StartsWithP;
    MessageParts(kind, name, more);
    UnsubscribeMessage(kind, name, more);
    MessageCases(s, Message(kind, name, more));
  }

  /** An unsubscribe message for something registered must have a count, and an array must be a
      message; otherwise the program stops. */
  lemma BadMessages(s: Subs, r: Reply, waiting: seq<Callback>, stale: Option<Callback>)
    requires s.flags.subscribed && r.Arr?
    requires || |r.element| < 2 || !r.element[0].Str? || !r.element[1].Str?
             || (exists kind, name, more :: r == Message(kind, name, more) && 0 !in kind && !Counted(kind, more)
                                            && Registered(s, name, StartsWithP(kind)).Some?)
    ensures FailureAt(r, s.flags, s.channels, s.patterns, waiting, stale) == Some(BadMessage)
  {
    hide IsUnsubscribe, SaysUnsubscribe, IsPattern, StartsWithP;
    if IsMessage(r) {
      var kind, name, more :| r == Message(kind, name, more) && 0 !in kind && !Counted(kind, more)
                              && Registered(s, name, StartsWithP(kind)).Some?;
      MessageParts(kind, name, more);
      UnsubscribeMessage(kind, name, more);
    }
  }

  /** A reply that is no array belongs to the first regular command sent while subscribed. */
  lemma OtherReplies(s: Subs, r: Reply, waiting: seq<Callback>, stale: Option<Callback>)
    requires s.flags.subscribed && !r.Arr? && !r.Error? && waiting != []
    ensures CallbackFor(r, true, s.channels, s.patterns, waiting, stale) == Some(waiting[0])
    ensures FailureAt(r, s.flags, s.channels, s.patterns, waiting, stale) == None
    ensures AfterMessage(s, r) == s
  {
  }

  // ---------------------------------------------------------------------------------------
  // Histories
  // ---------------------------------------------------------------------------------------

  /** What may happen between a subscription and a message: a call, or another message. */
  datatype Happening = Called(call: ApiCall) | Got(kind: bytes, name: bytes, more: seq<Reply>)

  predicate HappeningOk(h: Happening) {
    match h
    case Called(c) => c.Command? ==> 13 !in c.argv[0]
    case Got(kind, _, more) => 0 !in kind && Counted(kind, more)
  }

  function AfterHappening(s: Subs, h: Happening): Subs {
    match h
    case Called(c) => AfterCall(s, c)
    case Got(kind, name, more) => AfterMessage(s, Message(kind, name, more))
  }

  function AfterAll(s: Subs, hs: seq<Happening>): Subs {
    if hs == [] then s else AfterHappening(AfterAll(s, hs[..|hs| - 1]), hs[|hs| - 1])
  }

  /** It neither subscribes to the name again nor ends its subscription. */
  predicate Passes(h: Happening, name: bytes, pattern: bool) {
    match h
    case Called(c) => !Subscribes(c, name, pattern)
    case Got(kind, n, _) => !(SaysUnsubscribe(kind) && n == name && pattern == StartsWithP(kind))
  }

  lemma {:induction false} PassesKeep(s: Subs, hs: seq<Happening>, name: bytes, pattern: bool)
    requires forall h <- hs :: HappeningOk(h) && Passes(h, name, pattern)
    ensures Registered(AfterAll(s, hs), name, pattern) == Registered(s, name, pattern)
    decreases |hs|
  {
    hide AfterCall, AfterMessage, Registered, Subscribes, SaysUnsubscribe, StartsWithP, Counted;
    if hs != [] {
      var front, h := hs[..|hs| - 1], hs[|hs| - 1];
      assert h in hs && HappeningOk(h) && Passes(h, name, pattern);
      PassesKeep(s, front, name, pattern);
      var u := AfterAll(s, front);
      match h {
        case Called(c) => OtherCallsKeep(u, c, name, pattern);
        case Got(kind, n, more) =>
          if u.flags.subscribed {
            MessageRemoves(u, kind, n, more, name, pattern);
          } else {
            NoMessage(u, Message(kind, n, more));
          }
      }
    }
  }

  lemma NoMessage(s: Subs, r: Reply)
    requires !s.flags.subscribed
    ensures AfterMessage(s, r) == s
  {
  }

  /** Whatever happens in between, the callback of the last subscription to a name is the one
      its messages find, until a message ends that subscription; then they find none, until the
      next subscription. */
  lemma LastSubscriptionCounts(s: Subs, argv: seq<bytes>, cb: Callback, k: nat, before: seq<Happening>,
                               off: seq<Happening>, after: seq<Happening>)
    requires 1 <= k < |argv| && 13 !in argv[0] && SaysSubscribe(argv[0]) && !Closed(s)
    requires forall h <- before + after :: HappeningOk(h) && Passes(h, argv[k], StartsWithP(argv[0]))
    requires |off| <= 1 && forall h <- off :: HappeningOk(h) && h.Got? && SaysUnsubscribe(h.kind)
                                              && h.name == argv[k] && StartsWithP(h.kind) == StartsWithP(argv[0])
    ensures var u := AfterAll(AfterCall(s, Command(argv, cb)), before);
            && Registered(u, argv[k], StartsWithP(argv[0])) == Some(cb)
            && (u.flags.subscribed ==>
                  Registered(AfterAll(AfterAll(u, off), after), argv[k], StartsWithP(argv[0]))
                  == if off == [] then Some(cb) else None)
  {
    hide AfterCall, AfterMessage, Registered, SaysUnsubscribe, SaysSubscribe, StartsWithP, Counted, Passes;
    var name, pattern := argv[k], StartsWithP(argv[0]);
    var u := AfterAll(AfterCall(s, Command(argv, cb)), before);
    assert name == argv[1..][k - 1];
    SubscribeRegisters(s, argv, cb, name, pattern);
    PassesKeep(AfterCall(s, Command(argv, cb)), before, name, pattern);
    PassesKeep(AfterAll(u, off), after, name, pattern);
    if off != [] && u.flags.subscribed {
      assert off[..0] == [] && off[0] in off;
      MessageRemoves(u, off[0].kind, name, off[0].more, name, pattern);
    }
  }

  // ---------------------------------------------------------------------------------------
  // Through the context
  // ---------------------------------------------------------------------------------------

  /** Nothing waits for a reply, and a callback is registered for the name. */
  ghost predicate Listening(ac: AsyncContext, name: bytes, pattern: bool, cb: Callback)
    reads ac, ac.replies, ac.replies.Repr, ac.invalid, ac.invalid.Repr
  {
    && ac.Ready() && ac.replies.Items() == [] && ac.flags.subscribed
    && Registered(ac.Subscriptions(), name, pattern) == Some(cb)
  }

  /** A message that is read runs the callback that is registered for it, with the message, and
      changes the registrations as a message should and then as the callback's calls do. */
  method Deliver(ac: AsyncContext, kind: bytes, name: bytes, more: seq<Reply>, stale: Option<Callback>,
                 ghost cb: Callback) returns (now: Option<Callback>)
    requires Listening(ac, name, StartsWithP(kind), cb) && 0 !in kind && Counted(kind, more)
    modifies ac.Repr()
    ensures ac.Rested() && fresh(ac.Repr() - old(ac.Repr())) && ac.failure.None? && now == Some(cb)
    ensures old(ac.t.runs) + RunOf(cb, Some(Message(kind, name, more))) <= ac.t.runs
    ensures ac.Live() ==>
      ac.Subscriptions() == AfterCalls(AfterMessage(old(ac.Subscriptions()), Message(kind, name, more)),
                                       ac.CallsOf(cb, old(ac.runCount)))
  {
    hide AsyncContext.Valid, AsyncContext.Settled, AsyncContext.Due, Made, FailureAt, CallbackFor, RunOf, Registered;
    hide AfterMessage, AfterCalls, CallbackList.Items, StartsWithP, Counted, Message;
    MessageFinds(ac.Subscriptions(), kind, name, more, ac.invalid.Items(), stale, cb);
    SameFailure(ac, Message(kind, name, more), stale);
    MessageParts(kind, name, more);
    now := ac.ServeReply(Message(kind, name, more), stale);
  }

  /** A command is accepted unless the context is closing, or it is an (P)UNSUBSCRIBE and there
      is no subscription. */
  lemma AcceptedWhen(ac: AsyncContext, argv: seq<bytes>)
    requires argv != [] && 13 !in argv[0]
    ensures ac.Accepts(argv)
       <==> !ac.flags.disconnecting && !ac.flags.freeing && (SaysUnsubscribe(argv[0]) ==> ac.flags.subscribed)
  {
    hide KindOfCommand, SaysUnsubscribe, SaysSubscribe, SaysMonitor;
    CommandKinds(argv);
  }

  /** Whether a callback is running does not matter for where the program stops. */
  lemma SameFailure(ac: AsyncContext, r: Reply, stale: Option<Callback>)
    ensures var s := ac.Subscriptions();
            && FailureAt(r, ac.flags, ac.channels, ac.patterns, ac.invalid.Items(), stale)
            == FailureAt(r, s.flags, s.channels, s.patterns, ac.invalid.Items(), stale)
            && CallbackFor(r, ac.flags.subscribed, ac.channels, ac.patterns, ac.invalid.Items(), stale)
            == CallbackFor(r, s.flags.subscribed, s.channels, s.patterns, ac.invalid.Items(), stale)
  {
  }

  /** After an accepted (P)SUBSCRIBE a message for any of its channels or patterns, whose type
      starts with a p exactly if the command does, runs its callback with the message. */
  method SubscribeThenMessage(ac: AsyncContext, argv: seq<bytes>, cb: Callback, k: nat, kind: bytes, more: seq<Reply>,
                              stale: Option<Callback>) returns (ok: bool, now: Option<Callback>)
    requires ac.Ready() && ac.replies.Items() == [] && !ac.Closing()
    requires 1 <= k < |argv| && 13 !in argv[0] && SaysSubscribe(argv[0])
    requires 0 !in kind && StartsWithP(kind) == StartsWithP(argv[0]) && Counted(kind, more)
    modifies ac.Repr()
    ensures ok && ac.Rested() && ac.failure.None? && now == Some(cb)
    ensures cb.fn.Some? ==> old(ac.t.runs) + [Delivery(cb, Some(Message(kind, argv[k], more)))] <= ac.t.runs
  {
    hide AsyncContext.Valid, CallsOk, Made, Registered, AfterCall, AfterMessage, Runs, Scripts;
    hide AfterCalls, CallbackList.Items, StartsWithP, Counted, Message, SaysSubscribe, KindOfCommand;
    CommandKinds(argv);
    assert argv[k] == argv[1..][k - 1];
    SubscribeRegisters(ac.Subscriptions(), argv, cb, argv[k], StartsWithP(kind));
    ok := ac.Accepts(argv);
    ac.Api(Command(argv, cb));
    now := Deliver(ac, kind, argv[k], more, stale, cb);
  }

  /** While subscribed, a regular command waits apart: the next reply that is no array, and no
      error, runs its callback. */
  method CommandThenReply(ac: AsyncContext, argv: seq<bytes>, cb: Callback, reply: Reply, stale: Option<Callback>)
    returns (now: Option<Callback>)
    requires ac.Ready() && ac.replies.Items() == [] && ac.invalid.Items() == [] && ac.flags.subscribed && !ac.Closing()
    requires argv != [] && 13 !in argv[0] && !reply.Arr? && !reply.Error?
    requires !SaysUnsubscribe(argv[0]) && !SaysMonitor(argv[0]) && !(|argv| > 1 && SaysSubscribe(argv[0]))
    modifies ac.Repr()
    ensures ac.Rested() && ac.failure.None? && now == Some(cb)
    ensures cb.fn.Some? ==> old(ac.t.runs) + [Delivery(cb, Some(reply))] <= ac.t.runs
  {
    hide AsyncContext.Valid, CallsOk, Made, AfterCall, AfterMessage, Runs, Scripts, AfterCalls, CallbackList.Items;
    hide SaysUnsubscribe, SaysSubscribe, SaysMonitor, KindOfCommand, FailureAt, CallbackFor;
    CommandKinds(argv);
    ac.Api(Command(argv, cb));
    assert ac.invalid.Items() == [cb];
    OtherReplies(ac.Subscriptions(), reply, [cb], stale);
    SameFailure(ac, reply, stale);
    now := ac.ServeReply(reply, stale);
  }

  /** Otherwise it waits for the next reply of any kind, an error included. */
  method RegularThenReply(ac: AsyncContext, argv: seq<bytes>, cb: Callback, reply: Reply, stale: Option<Callback>)
    returns (now: Option<Callback>)
    requires ac.Ready() && ac.replies.Items() == [] && !ac.flags.subscribed && !ac.Closing()
    requires argv != [] && 13 !in argv[0]
    requires !SaysUnsubscribe(argv[0]) && !(|argv| > 1 && SaysSubscribe(argv[0]))
    modifies ac.Repr()
    ensures ac.Rested() && ac.failure.None? && now == Some(cb)
    ensures cb.fn.Some? ==> old(ac.t.runs) + [Delivery(cb, Some(reply))] <= ac.t.runs
  {
    hide AsyncContext.Valid, CallsOk, Made, AfterCall, AfterMessage, Runs, Scripts, AfterCalls, CallbackList.Items;
    hide SaysUnsubscribe, SaysSubscribe, SaysMonitor, KindOfCommand, FailureAt, CallbackFor;
    CommandKinds(argv);
    ac.Api(Command(argv, cb));
    assert ac.replies.Items() == [cb];
    now := ac.ServeReply(reply, stale);
  }
}
