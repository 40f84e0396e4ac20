/** What the asynchronous context of hiredis did in a run, and what that has to do with the calls
    made and the replies read. */
module AsyncTrace {
  import opened Bytes
  import opened ReplyMachine
  import opened CallbackQueues

  // ---------------------------------------------------------------------------------------
  // Commands
  // ---------------------------------------------------------------------------------------

  function Lower(b: byte): byte {
    if 65 <= b <= 90 then b + 32 else b
  }

  /** `strncasecmp(s, lower, |lower|) == 0` for a lower-case word without zero bytes. */
  predicate StartsWith(s: bytes, lower: bytes) {
    |lower| <= |s| && forall i :: 0 <= i < |lower| ==> Lower(s[i]) == lower[i]
  }

  /** `c->flags` */
  datatype Flags = Flags(
    connected: bool, disconnecting: bool, freeing: bool, inCallback: bool, subscribed: bool, monitoring: bool)

  const SUBSCRIBE: bytes := [115, 117, 98, 115, 99, 114, 105, 98, 101]
  const UNSUBSCRIBE: bytes := [117, 110] + SUBSCRIBE
  const MONITOR: bytes := [109, 111, 110, 105, 116, 111, 114]

  /** The variant for patterns starts with a p. */
  predicate IsPattern(s: bytes) {
    s != [] && Lower(s[0]) == 112
  }

  function Bare(s: bytes): bytes {
    if IsPattern(s) then s[1..] else s
  }

  datatype CommandKind = Subscribe | Unsubscribe | Monitor | Regular

  /** What a command is, by its first argument as it stands in the buffer. */
  function KindOfCommand(argv: seq<bytes>): CommandKind
    requires argv != []
  {
    var name := Bare(argv[0]) + CRLF;
    if |argv| > 1 && StartsWith(name, SUBSCRIBE + CRLF) then Subscribe
    else if StartsWith(name, UNSUBSCRIBE + CRLF) then Unsubscribe
    else if StartsWith(name, MONITOR + CRLF) then Monitor
    else Regular
  }

  datatype Call = Command(argv: seq<bytes>, cb: Callback) | Disconnect | Free

  /** A call a client may make: a command has at least one argument. */
  type ApiCall = c: Call | c.Command? ==> c.argv != [] witness Free

  /** A call, made inside a callback or outside. */
  datatype Issue = Issue(call: ApiCall, inside: bool)

  /** The calls made inside callbacks, or those made outside. */
  function Made(issues: seq<Issue>, inside: bool): seq<ApiCall> {
    if issues == [] then []
    else
      var last := issues[|issues| - 1];
      Made(issues[..|issues| - 1], inside) + if last.inside == inside then [last.call] else []
  }

  function AsInside(calls: seq<ApiCall>): (issues: seq<Issue>)
    ensures |issues| == |calls| && forall i :: 0 <= i < |calls| ==> issues[i] == Issue(calls[i], true)
  {
    seq(|calls|, i requires 0 <= i < |calls| => Issue(calls[i], true))
  }

  lemma MadeOneMore(issues: seq<Issue>, i: Issue)
    ensures Made(issues + [i], i.inside) == Made(issues, i.inside) + [i.call]
    ensures Made(issues + [i], !i.inside) == Made(issues, !i.inside)
  {
    assert (issues + [i])[..|issues|] == issues;
  }

  lemma AsInsideSnoc(issues: seq<Issue>, front: seq<ApiCall>, last: ApiCall)
    ensures issues + AsInside(front + [last]) == issues + AsInside(front) + [Issue(last, true)]
  {
    assert AsInside(front + [last]) == AsInside(front) + [Issue(last, true)];
    Assoc(issues, AsInside(front), [Issue(last, true)]);
  }

  lemma AsInsideNothing(issues: seq<Issue>)
    ensures issues + AsInside([]) == issues
  {
  }

  lemma {:induction false} MadeInside(issues: seq<Issue>, calls: seq<ApiCall>)
    ensures Made(issues + AsInside(calls), true) == Made(issues, true) + calls
    ensures Made(issues + AsInside(calls), false) == Made(issues, false)
  {
    hide Made, AsInside, KindOfCommand;
    if calls == [] {
      AsInsideNothing(issues);
    } else {
      var front, last := calls[..|calls| - 1], calls[|calls| - 1];
      assert calls == front + [last];
      MadeInside(issues, front);
      MadeOneMore(issues + AsInside(front), Issue(last, true));
      AsInsideSnoc(issues, front, last);
      Assoc(Made(issues, true), front, [last]);
    }
  }

  /** What the first `n` callbacks that run call, in order. */
  function Scripts(script: nat -> seq<ApiCall>, n: nat): seq<ApiCall> {
    if n == 0 then [] else Scripts(script, n - 1) + script(n - 1)
  }

  /** Neither a disconnect nor a free was asked for. */
  predicate Open(issues: seq<Issue>) {
    forall i <- issues :: i.call.Command?
  }

  /** The callbacks of the regular commands that come before any disconnect or free. */
  function Accepted(issues: seq<Issue>): seq<Callback> {
    if issues == [] then []
    else
      var front, last := issues[..|issues| - 1], issues[|issues| - 1].call;
      Accepted(front)
      + if last.Command? && KindOfCommand(last.argv).Regular? && Open(front) then [last.cb] else []
  }

  lemma AcceptedOneMore(issues: seq<Issue>, i: Issue)
    ensures Accepted(issues + [i])
         == Accepted(issues)
            + if i.call.Command? && KindOfCommand(i.call.argv).Regular? && Open(issues) then [i.call.cb] else []
    ensures Open(issues + [i]) <==> Open(issues) && i.call.Command?
  {
    assert (issues + [i])[..|issues|] == issues;
    assert forall x :: x in issues + [i] <==> x in issues || x == i;
  }

  // ---------------------------------------------------------------------------------------
  // The record of a run
  // ---------------------------------------------------------------------------------------

  /** A callback with the reply it got; None stands for a null reply. */
  datatype Delivery = Delivery(cb: Callback, reply: Option<Reply>)

  /** `accepted` are the callbacks put in the queue for replies; `delivered` those taken from
      it, with what they are for; `got` the replies read; `matched` those of them for which the
      queue had a callback; `runs` the callbacks that were run, with the reply each was given;
      `calls` all calls of the API. `special` says whether the context ever was subscribed or
      monitoring, `ended` whether it is being torn down; `closedAt` is the number of calls made
      before that. */
  datatype Trace = Trace(
    accepted: seq<Callback>, delivered: seq<Delivery>, got: seq<Reply>, matched: seq<Reply>,
    runs: seq<Delivery>, calls: seq<Issue>, closedAt: nat, special: bool, ended: bool)

  const EMPTY_TRACE: Trace := Trace([], [], [], [], [], [], 0, false, false)

  function Ended(t: Trace): Trace {
    if t.ended then t else t.(ended := true, closedAt := |t.calls|)
  }

  function CallbacksIn(ds: seq<Delivery>): (cs: seq<Callback>)
    ensures |cs| == |ds| && forall i :: 0 <= i < |cs| ==> cs[i] == ds[i].cb
  {
    seq(|ds|, i requires 0 <= i < |ds| => ds[i].cb)
  }

  /** The run of a callback with a reply: a null callback is not run. */
  function RunOf(cb: Callback, reply: Option<Reply>): seq<Delivery> {
    if cb.fn.Some? then [Delivery(cb, reply)] else []
  }

  /** The runs that some deliveries ask for. */
  function Runs(ds: seq<Delivery>): seq<Delivery> {
    if ds == [] then []
    else
      var last := ds[|ds| - 1];
      Runs(ds[..|ds| - 1]) + RunOf(last.cb, last.reply)
  }

  lemma RunsSnoc(ds: seq<Delivery>, d: Delivery)
    ensures Runs(ds + [d]) == Runs(ds) + RunOf(d.cb, d.reply)
  {
    assert (ds + [d])[..|ds|] == ds;
  }

  lemma {:induction false} RunsFront(ds: seq<Delivery>)
    requires ds != []
    ensures Runs(ds) == RunOf(ds[0].cb, ds[0].reply) + Runs(ds[1..])
  {
    if |ds| > 1 {
      hide RunOf;
      var front, last := ds[..|ds| - 1], ds[|ds| - 1];
      RunsFront(front);
      assert ds[1..][..|ds| - 2] == front[1..];
      Assoc(RunOf(ds[0].cb, ds[0].reply), Runs(front[1..]), RunOf(last.cb, last.reply));
    }
  }

  /** All that were taken run, in order, unless they are null. */
  lemma {:induction false} RunsAll(ds: seq<Delivery>)
    requires forall d <- ds :: d.cb.fn.Some?
    ensures Runs(ds) == ds
  {
    if ds != [] {
      var front, last := ds[..|ds| - 1], ds[|ds| - 1];
      RunsAll(front);
      assert ds == front + [last];
    }
  }

  lemma NullNotRun(a: seq<Delivery>, reply: Option<Reply>)
    ensures Runs(a + [Delivery(Callback(None), reply)]) == Runs(a)
  {
    RunsSnoc(a, Delivery(Callback(None), reply));
  }

  /** The callbacks of a queue, each with a null reply. */
  function Nulls(queued: seq<Callback>): (ds: seq<Delivery>)
    ensures |ds| == |queued| && forall i :: 0 <= i < |ds| ==> ds[i] == Delivery(queued[i], None)
  {
    seq(|queued|, i requires 0 <= i < |queued| => Delivery(queued[i], None))
  }

  lemma NullsStep(ds: seq<Delivery>, queued: seq<Callback>)
    ensures queued != [] ==> ds + Nulls(queued) == (ds + [Delivery(queued[0], None)]) + Nulls(queued[1..])
    ensures ds + Nulls([]) == ds
  {
    if queued != [] {
      NullsFront(queued);
      Assoc(ds, [Delivery(queued[0], None)], Nulls(queued[1..]));
    }
  }

  lemma NullsFront(queued: seq<Callback>)
    requires queued != []
    ensures Nulls(queued) == [Delivery(queued[0], None)] + Nulls(queued[1..])
  {
  }

  lemma RunsStep(rs: seq<Delivery>, queued: seq<Callback>)
    ensures queued != [] ==>
      rs + Runs(Nulls(queued)) == rs + RunOf(queued[0], None) + Runs(Nulls(queued[1..]))
    ensures rs + [] + Runs(Nulls(queued)) == rs + Runs(Nulls(queued))
    ensures rs + Runs(Nulls([])) == rs
  {
    if queued != [] {
      RunsFront(Nulls(queued));
      assert Nulls(queued)[1..] == Nulls(queued[1..]);
      Assoc(rs, RunOf(queued[0], None), Runs(Nulls(queued[1..])));
    }
  }

  /** The k-th callback taken from the queue is for the k-th matched reply, or for null. */
  ghost predicate Paired(t: Trace) {
    && |t.matched| <= |t.delivered|
    && (forall k :: 0 <= k < |t.delivered| ==>
          t.delivered[k].reply == if k < |t.matched| then Some(t.matched[k]) else None)
    && (!t.ended ==> |t.matched| == |t.delivered|)
  }

  /** The queue holds what was accepted and not yet taken; without subscriptions and MONITOR
      every reply read was matched, save one that ended the context. */
  ghost predicate TraceOk(t: Trace, queued: seq<Callback>) {
    && t.accepted == CallbacksIn(t.delivered) + queued
    && Paired(t)
    && (!t.special ==> t.matched <= t.got && |t.got| <= |t.matched| + if t.ended then 1 else 0)
  }

  /** What was accepted follows from the calls made before the teardown, as long as there is no
      subscription and no MONITOR; the context is closing exactly if a call asked for that. */
  ghost predicate CallsOk(t: Trace, closing: bool) {
    && (t.ended ==> t.closedAt <= |t.calls|)
    && (!t.ended ==> (closing <==> !Open(t.calls)))
    && (!t.special ==> t.accepted == Accepted(if t.ended then t.calls[..t.closedAt] else t.calls))
  }

  lemma AcceptOne(t: Trace, queued: seq<Callback>, cb: Callback)
    requires TraceOk(t, queued)
    ensures TraceOk(t.(accepted := t.accepted + [cb]), queued + [cb])
  {
    Assoc(CallbacksIn(t.delivered), queued, [cb]);
  }

  /** Taking the next callback from the queue for a reply. */
  function Served(t: Trace, cb: Callback, reply: Option<Reply>): Trace {
    t.(delivered := t.delivered + [Delivery(cb, reply)],
       got := if reply.Some? then t.got + [reply.value] else t.got,
       matched := if reply.Some? then t.matched + [reply.value] else t.matched)
  }

  lemma ServeOne(t: Trace, queued: seq<Callback>, reply: Option<Reply>)
    requires TraceOk(t, queued) && queued != []
    requires reply.Some? <==> !t.ended
    ensures TraceOk(Served(t, queued[0], reply), queued[1..])
  {
    var u := Served(t, queued[0], reply);
    assert u.delivered[..|t.delivered|] == t.delivered;
    assert CallbacksIn(u.delivered) == CallbacksIn(t.delivered) + [queued[0]];
    assert queued == [queued[0]] + queued[1..];
    Assoc(CallbacksIn(t.delivered), [queued[0]], queued[1..]);
  }

  /** A call is noted; `accepted` and `special` are what the call made of these. */
  lemma CallNoted(t: Trace, closing: bool, i: Issue, accepted: seq<Callback>, special: bool)
    requires CallsOk(t, closing) && (t.ended ==> closing)
    requires t.special ==> special
    requires !special ==>
      accepted == t.accepted
        + if i.call.Command? && KindOfCommand(i.call.argv).Regular? && !closing then [i.call.cb] else []
    ensures CallsOk(t.(calls := t.calls + [i], accepted := accepted, special := special),
                    closing || !i.call.Command?)
  {
    hide Accepted, KindOfCommand;
    AcceptedOneMore(t.calls, i);
    if t.ended {
      assert (t.calls + [i])[..t.closedAt] == t.calls[..t.closedAt];
    }
  }

  lemma EndNoted(t: Trace, closing: bool, now: bool)
    requires CallsOk(t, closing)
    ensures CallsOk(Ended(t), now)
  {
    assert t.calls[..|t.calls|] == t.calls;
  }

  // ---------------------------------------------------------------------------------------
  // Events
  // ---------------------------------------------------------------------------------------

  /** The state of the connection as the first event finds it. InProgress also records an
      error, which the next read or write then reports. */
  datatype Socket = Established | InProgress | Refused

  /** What a read brings: an error, or bytes with which the reader yields `replies`, and stops
      with an error behind them if `bad`. */
  datatype Incoming = ReadFailed | Bytes(replies: seq<Reply>, bad: bool)

  datatype Event =
    | Client(call: ApiCall)
    | Readable(sock: Socket, data: Incoming)
    | Writable(sock: Socket, written: Option<nat>)

  /** Whether the connection stands, and whether an error is recorded. */
  datatype Link = Link(connected: bool, err: bool)

  function LinkAfter(events: seq<Event>): Link {
    if events == [] then Link(false, false)
    else LinkStep(LinkAfter(events[..|events| - 1]), events[|events| - 1])
  }

  function LinkStep(l: Link, e: Event): Link {
    if e.Client? || l.connected || e.sock.Refused? then l
    else if e.sock.Established? then l.(connected := true)
    else l.(err := true)
  }

  /** The replies that an event makes the context read. */
  function ReadBy(l: Link, e: Event): seq<Reply> {
    if e.Readable? && (l.connected || e.sock.Established?) && !l.err && e.data.Bytes? then e.data.replies else []
  }

  /** The replies that some events make the context read. */
  function ReadsOf(events: seq<Event>): seq<Reply> {
    if events == [] then []
    else
      var front := events[..|events| - 1];
      ReadsOf(front) + ReadBy(LinkAfter(front), events[|events| - 1])
  }

  /** The calls among some events. */
  function ClientCalls(events: seq<Event>): seq<ApiCall> {
    if events == [] then []
    else
      var last := events[|events| - 1];
      ClientCalls(events[..|events| - 1]) + if last.Client? then [last.call] else []
  }

  lemma EventsOneMore(events: seq<Event>, e: Event)
    ensures LinkAfter(events + [e]) == LinkStep(LinkAfter(events), e)
    ensures ReadsOf(events + [e]) == ReadsOf(events) + ReadBy(LinkAfter(events), e)
    ensures ClientCalls(events + [e]) == ClientCalls(events) + if e.Client? then [e.call] else []
  {
    assert (events + [e])[..|events|] == events;
  }

  /** The calls of the client and the replies read are those of the events handled: all
      replies, as long as the context is in use and its connection is as `link` says. */
  ghost predicate ExplainedBy(handled: seq<Event>, t: Trace, link: Option<Link>) {
    && Made(t.calls, false) == ClientCalls(handled)
    && t.got <= ReadsOf(handled)
    && (handled != [] ==> ReadsOf(handled[..|handled| - 1]) <= t.got)
    && (link.Some? ==> t.got == ReadsOf(handled) && link.value == LinkAfter(handled))
  }

  /** What an event adds to the record, and what it makes of the connection. */
  ghost predicate EventAdds(e: Event, before: Link, t: Trace, u: Trace, after: Option<Link>) {
    && Made(u.calls, false) == Made(t.calls, false) + (if e.Client? then [e.call] else [])
    && t.got <= u.got <= t.got + ReadBy(before, e)
    && (after.Some? ==> u.got == t.got + ReadBy(before, e) && after.value == LinkStep(before, e))
  }

  lemma ExplainedOneMore(handled: seq<Event>, e: Event, before: Link, t: Trace, u: Trace, after: Option<Link>)
    requires ExplainedBy(handled, t, Some(before)) && EventAdds(e, before, t, u, after)
    ensures ExplainedBy(handled + [e], u, after)
  {
    hide Made, ReadBy, LinkStep, LinkAfter, ReadsOf, ClientCalls;
    EventsOneMore(handled, e);
    assert (handled + [e])[..|handled|] == handled;
  }

  // ---------------------------------------------------------------------------------------
  // Pairing
  // ---------------------------------------------------------------------------------------

  /** In a run without subscriptions and MONITOR the k-th command's callback is run with the k-th reply,
      unless it is null; the commands not answered are still queued, or, when the context is
      gone, were run with null in order. */
  ghost predicate PairedUp(t: Trace, queued: seq<Callback>, freed: bool) {
    && (forall k :: 0 <= k < |t.matched| ==>
          k < |t.accepted| && k < |t.got| && k < |t.delivered|
          && t.delivered[k] == Delivery(t.accepted[k], Some(t.got[k])))
    && (forall k :: |t.matched| <= k < |t.delivered| ==>
          k < |t.accepted| && t.delivered[k] == Delivery(t.accepted[k], None))
    && t.runs == Runs(t.delivered)
    && |t.got| <= |t.matched| + (if t.ended then 1 else 0)
    && (!t.ended ==> |t.delivered| == |t.got| && t.accepted == CallbacksIn(t.delivered) + queued)
    && (freed && queued == [] ==> |t.delivered| == |t.accepted|)
  }

  lemma CallbackPairing(t: Trace, queued: seq<Callback>, freed: bool)
    requires TraceOk(t, queued) && !t.special && t.runs == Runs(t.delivered)
    ensures PairedUp(t, queued, freed)
  {
    forall k | 0 <= k < |t.delivered| ensures k < |t.accepted| && t.accepted[k] == t.delivered[k].cb {
      assert CallbacksIn(t.delivered)[k] == t.delivered[k].cb;
    }
    forall k | 0 <= k < |t.matched| ensures k < |t.got| && t.matched[k] == t.got[k] {
    }
  }

  // ---------------------------------------------------------------------------------------
  // Subscriptions
  // ---------------------------------------------------------------------------------------

  /** The table after the callback is set for every argument behind the first. */
  function RegisterAll(table: map<bytes, Callback>, argv: seq<bytes>, cb: Callback): map<bytes, Callback> {
    if |argv| <= 1 then table
    else RegisterAll(table, argv[..|argv| - 1], cb)[argv[|argv| - 1] := cb]
  }

  /** The callbacks of some names of a table, each with a null reply. */
  function NullsFor(table: map<bytes, Callback>, names: seq<bytes>): (ds: seq<Delivery>)
    requires forall k :: k in names ==> k in table
    ensures |ds| == |names| && forall i :: 0 <= i < |ds| ==> ds[i] == Delivery(table[names[i]], None)
  {
    seq(|names|, i requires 0 <= i < |names| => Delivery(table[names[i]], None))
  }

  /** Every name, once. */
  ghost predicate Each(names: seq<bytes>, all: set<bytes>) {
    (forall i, j :: 0 <= i < j < |names| ==> names[i] != names[j]) && forall k :: k in names <==> k in all
  }

  /** The callbacks of a table, each run once with null, in some order. */
  ghost predicate RunOfTable(table: map<bytes, Callback>, rs: seq<Delivery>) {
    exists names :: Each(names, table.Keys) && rs == Runs(NullsFor(table, names))
  }

  /** Behind `before`, the callbacks of the channels ran with null, then those of the patterns,
      and nothing else. */
  ghost predicate SubscriptionsRun(before: seq<Delivery>, channels: map<bytes, Callback>,
                                   patterns: map<bytes, Callback>, after: seq<Delivery>)
  {
    exists a, b :: RunOfTable(channels, a) && RunOfTable(patterns, b) && after == before + a + b
  }

  /** The callbacks of a table have run behind `before`, but for those of the names `left`. */
  ghost predicate TableRunning(table: map<bytes, Callback>, left: set<bytes>, before: seq<Delivery>,
                               after: seq<Delivery>)
  {
    exists names ::
      Each(names, table.Keys - left) && after == before + Runs(NullsFor(table, names))
  }

  lemma NoneRan(table: map<bytes, Callback>, before: seq<Delivery>)
    ensures TableRunning(table, table.Keys, before, before)
  {
    assert Each([], table.Keys - table.Keys);
    assert before + Runs(NullsFor(table, [])) == before;
  }

  lemma OneRan(table: map<bytes, Callback>, left: set<bytes>, before: seq<Delivery>, after: seq<Delivery>, k: bytes)
    requires TableRunning(table, left, before, after) && k in left && k in table
    ensures TableRunning(table, left - {k}, before, after + RunOf(table[k], None))
  {
    hide RunOf, Runs;
    var names :| Each(names, table.Keys - left) && after == before + Runs(NullsFor(table, names));
    assert Each(names + [k], table.Keys - (left - {k}));
    assert NullsFor(table, names + [k]) == NullsFor(table, names) + [Delivery(table[k], None)];
    RunsSnoc(NullsFor(table, names), Delivery(table[k], None));
    Assoc(before, Runs(NullsFor(table, names)), RunOf(table[k], None));
  }

  lemma AllRan(table: map<bytes, Callback>, before: seq<Delivery>, after: seq<Delivery>)
    requires TableRunning(table, {}, before, after)
    ensures before <= after && RunOfTable(table, after[|before|..])
  {
    hide Runs;
    var names :| Each(names, table.Keys - {}) && after == before + Runs(NullsFor(table, names));
    assert table.Keys - {} == table.Keys;
    assert after[|before|..] == Runs(NullsFor(table, names));
  }

  lemma BothTables(r0: seq<Delivery>, r1: seq<Delivery>, r2: seq<Delivery>, channels: map<bytes, Callback>,
                   patterns: map<bytes, Callback>)
    requires r0 <= r1 <= r2 && RunOfTable(channels, r1[|r0|..]) && RunOfTable(patterns, r2[|r1|..])
    ensures SubscriptionsRun(r0, channels, patterns, r2)
  {
    hide RunOfTable;
    assert r2 == r0 + r1[|r0|..] + r2[|r1|..];
  }

  lemma RunsBehind(before: seq<Delivery>, a: seq<Delivery>, b: seq<Delivery>, channels: map<bytes, Callback>,
                   patterns: map<bytes, Callback>, after: seq<Delivery>)
    requires SubscriptionsRun(before + a + b, channels, patterns, after)
    ensures before <= after
  {
    hide RunOfTable;
    assert before <= before + a <= before + a + b;
  }

  /** What the C program asserts of a subscription message. */
  predicate IsMessage(r: Reply) {
    r.Arr? && |r.element| >= 2 && r.element[0].Str? && r.element[1].Str?
  }

  function TableOf(r: Reply, channels: map<bytes, Callback>, patterns: map<bytes, Callback>): map<bytes, Callback>
    requires IsMessage(r)
  {
    if IsPattern(r.element[0].text) then patterns else channels
  }

  function NameIn(r: Reply): bytes
    requires IsMessage(r)
  {
    r.element[1].text
  }

  predicate IsUnsubscribe(r: Reply)
    requires IsMessage(r)
  {
    var word := CString(Bare(r.element[0].text));
    |word| == |UNSUBSCRIBE| && StartsWith(word, UNSUBSCRIBE)
  }

  /** The callback for a reply that no command waits for; `stale` is the one left over from the
      reply before, which a context that is only monitoring uses. */
  function CallbackFor(r: Reply, subscribed: bool, channels: map<bytes, Callback>, patterns: map<bytes, Callback>,
                       waiting: seq<Callback>, stale: Option<Callback>): Option<Callback>
  {
    if !subscribed then stale
    else if !r.Arr? then if waiting == [] then stale else Some(waiting[0])
    else if IsMessage(r) && NameIn(r) in TableOf(r, channels, patterns)
      then Some(TableOf(r, channels, patterns)[NameIn(r)])
    else stale
  }

  lemma CallbackCases(r: Reply, channels: map<bytes, Callback>, patterns: map<bytes, Callback>,
                      waiting: seq<Callback>, stale: Option<Callback>)
    ensures IsMessage(r) ==> r.Arr?
    ensures var cb := CallbackFor(r, true, channels, patterns, waiting, stale);
            && (!r.Arr? ==> cb == if waiting == [] then stale else Some(waiting[0]))
            && (r.Arr? && !IsMessage(r) ==> cb == stale)
            && (IsMessage(r) ==>
                  var table := TableOf(r, channels, patterns);
                  cb == if NameIn(r) in table then Some(table[NameIn(r)]) else stale)
  {
  }

  /** The last subscription is gone. */
  predicate LastUnsubscribe(r: Reply, table: map<bytes, Callback>)
    requires IsMessage(r)
  {
    NameIn(r) in table && IsUnsubscribe(r) && |r.element| >= 3 && r.element[2] == Integer(0)
  }

  /** The count of remaining subscriptions is missing where it is looked at. */
  predicate BadCount(r: Reply, table: map<bytes, Callback>)
    requires IsMessage(r)
  {
    NameIn(r) in table && IsUnsubscribe(r) && (|r.element| < 3 || !r.element[2].Integer?)
  }

  /** Ways in which the C program stops: the assertion that a clean disconnect finds no
      pending callback, the one that a reply without a callback comes from a subscription,
      those on the shape of subscription messages, and the use of a callback never set. */
  datatype Failure = PendingCallbacks | UnexpectedReply | BadMessage | NoCallbackSet

  /** Where the program stops at a reply that no command waits for. */
  function FailureAt(r: Reply, flags: Flags, channels: map<bytes, Callback>, patterns: map<bytes, Callback>,
                     waiting: seq<Callback>, stale: Option<Callback>): Option<Failure>
  {
    if r.Error? then None
    else if !flags.subscribed && !flags.monitoring then Some(UnexpectedReply)
    else if flags.subscribed && r.Arr? && (IsMessage(r) ==> BadCount(r, TableOf(r, channels, patterns)))
      then Some(BadMessage)
    else if CallbackFor(r, flags.subscribed, channels, patterns, waiting, stale).None? then Some(NoCallbackSet)
    else None
  }

  /** The flags, but for whether a callback is running, and the two tables of subscriptions. */
  datatype Subs = Subs(flags: Flags, channels: map<bytes, Callback>, patterns: map<bytes, Callback>)

  /** What a call makes of them, if it does not tear the context down. */
  function AfterCall(s: Subs, c: ApiCall): Subs {
    match c
    case Disconnect => s.(flags := s.flags.(disconnecting := true))
    case Free => s.(flags := s.flags.(freeing := true))
    case Command(argv, cb) =>
      var kind := KindOfCommand(argv);
      if s.flags.disconnecting || s.flags.freeing then s
      else if kind.Monitor? then s.(flags := s.flags.(monitoring := true))
      else if !kind.Subscribe? then s
      else if IsPattern(argv[0])
        then Subs(s.flags.(subscribed := true), s.channels, RegisterAll(s.patterns, argv, cb))
      else Subs(s.flags.(subscribed := true), RegisterAll(s.channels, argv, cb), s.patterns)
  }

  function AfterCalls(s: Subs, calls: seq<ApiCall>): Subs {
    if calls == [] then s else AfterCall(AfterCalls(s, calls[..|calls| - 1]), calls[|calls| - 1])
  }

  lemma AfterCallsSnoc(s: Subs, front: seq<ApiCall>, last: ApiCall)
    ensures AfterCalls(s, front + [last]) == AfterCall(AfterCalls(s, front), last)
    ensures AfterCalls(s, []) == s
  {
    assert (front + [last])[..|front|] == front;
  }

  /** What a reply makes of them that no command waits for, before its callback runs. */
  function AfterMessage(s: Subs, r: Reply): Subs {
    if !s.flags.subscribed || !IsMessage(r) then s
    else
      var table := TableOf(r, s.channels, s.patterns);
      var now := if IsUnsubscribe(r) then table - {NameIn(r)} else table;
      var flags := s.flags.(subscribed := !LastUnsubscribe(r, table));
      if IsPattern(r.element[0].text) then Subs(flags, s.channels, now) else Subs(flags, now, s.patterns)
  }

  lemma MessageCases(s: Subs, r: Reply)
    requires s.flags.subscribed && IsMessage(r)
    ensures var table, u := TableOf(r, s.channels, s.patterns), AfterMessage(s, r);
            && (NameIn(r) in table && IsUnsubscribe(r) ==>
                  && u.flags == s.flags.(subscribed := !LastUnsubscribe(r, table))
                  && u.patterns == (if IsPattern(r.element[0].text) then s.patterns - {NameIn(r)} else s.patterns)
                  && u.channels == (if IsPattern(r.element[0].text) then s.channels else s.channels - {NameIn(r)}))
            && (NameIn(r) !in table || !IsUnsubscribe(r) ==> u == s)
  {
    hide IsUnsubscribe, IsPattern;
  }

  /** What a reply at which the program stops must look like. */
  predicate FailsAt(r: Reply, f: Failure) {
    && !r.Error? && !f.PendingCallbacks?
    && (f.BadMessage? ==> r.Arr?)
    && (f.BadMessage? && IsMessage(r) ==> IsUnsubscribe(r) && (|r.element| < 3 || !r.element[2].Integer?))
  }

  lemma FailureIsAt(r: Reply, flags: Flags, channels: map<bytes, Callback>, patterns: map<bytes, Callback>,
                    waiting: seq<Callback>, stale: Option<Callback>)
    ensures var f := FailureAt(r, flags, channels, patterns, waiting, stale);
            && (f.Some? ==> FailsAt(r, f.value) && !r.Error? && !f.value.PendingCallbacks?)
            && (!flags.subscribed && !flags.monitoring ==> f == if r.Error? then None else Some(UnexpectedReply))
  {
  }
}
