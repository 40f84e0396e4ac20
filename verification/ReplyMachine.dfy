/** The reply reader as a pure machine over the bytes that were fed and not yet consumed.
    The machine says what hiredis's `redisReader` means; the class in ReplyReader.dfy says how it
    does it. */
module ReplyMachine {
  import opened Bytes

  /** A reply object. `count` is the `elements` field of an array object and `element` its
      vector; a slot that holds NULL is `Missing`. The two disagree only for a negative
      count other than -1, which hiredis turns into an array object without a vector. */
  datatype Reply =
    | Str(text: bytes)
    | Status(text: bytes)
    | Error(text: bytes)
    | Integer(value: int)
    | Nil
    | Arr(count: int, element: seq<Reply>)
    | Missing

  datatype Kind = KError | KStatus | KInteger | KBulk | KArray

  /** Why a reader stopped for good. `CountRange` stands for an array count that is positive
      as a `long` but not as the `int` it is stored in, on which the C code writes through a
      null vector. */
  datatype Fault = ProtocolByte(got: byte) | TooDeep | CountRange

  const MAX_TASK: nat := 8

  function KindOf(b: byte): Option<Kind> {
    match b
    case 45 => Some(KError)
    case 43 => Some(KStatus)
    case 58 => Some(KInteger)
    case 36 => Some(KBulk)
    case 42 => Some(KArray)
    case _ => None
  }

  predicate CrlfAt(s: bytes, k: int) {
    0 <= k && k + 1 < |s| && s[k] == CR && s[k + 1] == LF
  }

  /** Index of the first CR LF pair. */
  function Newline(s: bytes): (i: Option<nat>)
    ensures i.Some? ==> CrlfAt(s, i.value) && forall k :: k < i.value ==> !CrlfAt(s, k)
    ensures i.None? ==> forall k :: !CrlfAt(s, k)
  {
    if |s| < 2 then None
    else if CrlfAt(s, 0) then Some(0)
    else
      assert forall k :: CrlfAt(s, k) ==> CrlfAt(s[1..], k - 1);
      match Newline(s[1..])
      case None => None
      case Some(i) => assert CrlfAt(s, i + 1); Some(i + 1)
  }

  /** The digits loop: the value with a 64-bit accumulator, or None at a byte that is no digit.
      The loop ends at a CR even when no LF follows it. */
  function Scan(s: bytes, acc: int): Option<int>
    decreases |s|
  {
    if s == [] || s[0] == CR then Some(acc)
    else if IsDigit(s[0]) then Scan(s[1..], Int64(Int64(acc * 10) + (s[0] - 48)))
    else None
  }

  /** The number at the start of a line; -1 for a line that is not a number. */
  function LongLong(line: bytes): int {
    var negative := line != [] && line[0] == 45;
    var signed := line != [] && (line[0] == 45 || line[0] == 43);
    match Scan(if signed then line[1..] else line, 0)
    case None => -1
    case Some(v) => if negative then Int64(-v) else v
  }

  function Repeat<T>(x: T, n: nat): (r: seq<T>)
    ensures |r| == n && forall i :: 0 <= i < n ==> r[i] == x
  {
    seq(n, i => x)
  }

  /** The object made for an array header that opens no task. */
  function ClosedArray(m: int): Reply {
    Arr(SizeT(m), Repeat(Missing, if m > 0 then m else 0))
  }

  /** What one item at the front of the input amounts to: wait for more bytes, a complete
      value that took `used` bytes, the header of a non-empty array, or a fault. */
  datatype Item = Wait | Leaf(reply: Reply, used: nat) | Open(count: int, used: nat) | Bad(fault: Fault)

  /** The value of an item that is a single line. */
  function LineValue(kind: Kind, line: bytes): Reply
    requires kind.KError? || kind.KStatus? || kind.KInteger?
  {
    match kind
    case KError => Error(line)
    case KStatus => Status(line)
    case KInteger => Integer(LongLong(line))
  }

  /** A bulk item whose length line ends at i. */
  function BulkItem(s: bytes, i: nat): (r: Item)
    requires CrlfAt(s, i)
    ensures r.Wait? || (r.Leaf? && 2 <= r.used <= |s|)
  {
    var n := LongLong(s[..i]);
    if n < 0 then Leaf(Nil, i + 2)
    else if i + 2 + n + 2 <= |s| then Leaf(Str(s[i + 2..i + 2 + n]), i + 2 + n + 2)
    else Wait
  }

  /** An array header with the number `n`, `used` bytes long. */
  function HeaderItem(n: int, used: nat): (r: Item)
    ensures r.Leaf? || r.Open? ==> r.used == used
    ensures r.Open? ==> r.count > 0
    ensures !r.Wait?
  {
    if n == -1 then Leaf(Nil, used)
    else if n <= 0 then Leaf(ClosedArray(Int32(n)), used)
    else if Int32(n) <= 0 then Bad(CountRange)
    else Open(Int32(n), used)
  }

  /** The item whose type byte is already read. */
  function Body(depth: nat, kind: Kind, s: bytes): (r: Item)
    ensures r.Leaf? || r.Open? ==> 2 <= r.used <= |s|
    ensures r.Leaf? ==> r.reply != Missing
    ensures r.Open? ==> r.count > 0 && depth != MAX_TASK
  {
    if kind.KArray? && depth == MAX_TASK then Bad(TooDeep)
    else
      match Newline(s)
      case None => Wait
      case Some(i) =>
        match kind
        case KBulk => BulkItem(s, i)
        case KArray => HeaderItem(LongLong(s[..i]), i + 2)
        case _ => Leaf(LineValue(kind, s[..i]), i + 2)
  }

  lemma BodyOfLine(depth: nat, kind: Kind, s: bytes)
    requires kind.KError? || kind.KStatus? || kind.KInteger?
    ensures Body(depth, kind, s)
         == match Newline(s)
            case None => Wait
            case Some(i) => Leaf(LineValue(kind, s[..i]), i + 2)
  {
  }

  lemma BodyOfBulk(depth: nat, s: bytes)
    ensures Body(depth, KBulk, s)
         == match Newline(s)
            case None => Wait
            case Some(i) => BulkItem(s, i)
  {
  }

  /** An array header at the front of the input. */
  function Heading(s: bytes): (r: Item)
    ensures r.Leaf? || r.Open? ==> 2 <= r.used <= |s|
    ensures r.Leaf? ==> r.reply != Missing
    ensures r.Open? ==> r.count > 0
  {
    match Newline(s)
    case None => Wait
    case Some(i) => HeaderItem(LongLong(s[..i]), i + 2)
  }

  lemma BodyOfArray(depth: nat, s: bytes)
    ensures Body(depth, KArray, s) == if depth == MAX_TASK then Bad(TooDeep) else Heading(s)
  {
  }

  /** An array whose first |done| of `count` elements are complete. */
  datatype Frame = Frame(count: int, done: seq<Reply>)

  predicate FrameOk(f: Frame) {
    |f.done| < f.count && Missing !in f.done
  }

  predicate FramesOk(frames: seq<Frame>) {
    |frames| <= MAX_TASK && forall i :: 0 <= i < |frames| ==> FrameOk(frames[i])
  }

  datatype State =
    | Live(frames: seq<Frame>, kind: Option<Kind>, rest: bytes)
    | Dead(fault: Fault)

  predicate StateOk(st: State) {
    st.Live? ==> FramesOk(st.frames)
  }

  const START: State := Live([], None, [])

  /** Hand a finished value to the innermost open array, closing every array it completes. */
  function Attach(frames: seq<Frame>, r: Reply): (p: (seq<Frame>, Option<Reply>))
    requires FramesOk(frames) && r != Missing
    ensures FramesOk(p.0) && |p.0| <= |frames|
    ensures p.1.Some? ==> p.0 == [] && p.1 != Some(Missing)
    ensures p.1.None? ==> p.0 != []
    decreases |frames|
  {
    if frames == [] then ([], Some(r))
    else
      var top := frames[|frames| - 1];
      var below := frames[..|frames| - 1];
      if |top.done| + 1 == top.count then Attach(below, Arr(top.count, top.done + [r]))
      else (below + [Frame(top.count, top.done + [r])], None)
  }

  datatype Move = Stop(st: State) | Go(out: Option<Reply>, st: State)

  function AfterItem(st: State, item: Item): Move
    requires StateOk(st) && st.Live?
    requires item.Leaf? || item.Open? ==> item.used <= |st.rest|
    requires item.Leaf? ==> item.reply != Missing
    requires item.Open? ==> item.count > 0 && |st.frames| != MAX_TASK
  {
    match item
    case Wait => Stop(st)
    case Bad(f) => Stop(Dead(f))
    case Open(n, used) => Go(None, Live(st.frames + [Frame(n, [])], None, st.rest[used..]))
    case Leaf(r, used) =>
      var (frames, root) := Attach(st.frames, r);
      Go(root, Live(frames, None, st.rest[used..]))
  }

  lemma AfterStop(st: State)
    requires StateOk(st) && st.Live?
    ensures AfterItem(st, Wait) == Stop(st)
    ensures forall f :: AfterItem(st, Bad(f)) == Stop(Dead(f))
  {
  }

  /** The state once the type byte of the current item is read, if there is one. */
  function ReadKind(st: State): (r: State)
    requires StateOk(st)
    ensures StateOk(r)
    ensures r.Live? ==> r.kind.Some? || r.rest == []
  {
    if st.Live? && st.kind.None? && st.rest != [] then
      match KindOf(st.rest[0])
      case None => Dead(ProtocolByte(st.rest[0]))
      case Some(k) => Live(st.frames, Some(k), st.rest[1..])
    else st
  }

  /** One round of `processItem`. */
  function Step(st: State): (m: Move)
    requires StateOk(st)
    ensures StateOk(m.st)
    ensures m.Go? ==> st.Live? && m.st.Live? && |m.st.rest| < |st.rest|
    ensures m.Go? && m.out.Some? ==> m.st.frames == [] && m.st.kind == None
  {
    var t := ReadKind(st);
    if t.Dead? || t.kind.None? then Stop(t)
    else AfterItem(t, Body(|t.frames|, t.kind.value, t.rest))
  }

  function Length(st: State): nat {
    if st.Live? then |st.rest| else 0
  }

  /** `redisReaderGetReply`: the next complete reply, or none and where the reader stopped. */
  function Next(st: State): (r: (Option<Reply>, State))
    requires StateOk(st)
    ensures StateOk(r.1)
    ensures r.0.Some? ==> r.1.Live? && |r.1.rest| < Length(st)
    decreases Length(st)
  {
    match Step(st)
    case Stop(s) => (None, s)
    case Go(Some(r), s) => (Some(r), s)
    case Go(None, s) => Next(s)
  }

  lemma NextOfDead(f: Fault)
    ensures Next(Dead(f)) == (None, Dead(f))
  {
  }

  /** Without bytes there is no reply, and nothing changes; only an array too deep fails. */
  lemma NextOnNothing(st: State)
    requires StateOk(st) && st.Live? && st.rest == []
    requires |st.frames| == MAX_TASK ==> st.kind != Some(KArray)
    ensures Next(st) == (None, st)
  {
    assert ReadKind(st) == st;
    if st.kind.Some? {
      assert Body(|st.frames|, st.kind.value, []) == Wait;
    }
    assert Step(st) == Stop(st);
  }

  function Feed(st: State, chunk: bytes): State {
    if st.Live? then st.(rest := st.rest + chunk) else st
  }

  /** Replies taken from a reader and the state it is left in. */
  datatype Run = Run(out: seq<Reply>, st: State)

  /** Take replies until there is none. */
  function Drain(st: State): (r: Run)
    requires StateOk(st)
    ensures StateOk(r.st)
    decreases Length(st)
  {
    var (reply, s) := Next(st);
    if reply.None? then Run([], s)
    else
      var more := Drain(s);
      Run([reply.value] + more.out, more.st)
  }

  /** Feed the chunks one by one, taking all complete replies after each. */
  function Session(st: State, chunks: seq<bytes>): (r: Run)
    requires StateOk(st)
    ensures StateOk(r.st)
    decreases |chunks|
  {
    if chunks == [] then Run([], st)
    else
      var first := Drain(Feed(st, chunks[0]));
      var more := Session(first.st, chunks[1..]);
      Run(first.out + more.out, more.st)
  }

  // ---------------------------------------------------------------------------------------
  // Independence of chunking
  // ---------------------------------------------------------------------------------------

  lemma NewlineUnique(s: bytes, i: nat)
    requires CrlfAt(s, i) && forall k :: k < i ==> !CrlfAt(s, k)
    ensures Newline(s) == Some(i)
  {
    assert Newline(s).Some?;
  }

  lemma NewlineExtends(s: bytes, t: bytes)
    requires Newline(s).Some?
    ensures Newline(s + t) == Newline(s)
  {
    var i := Newline(s).value;
    assert forall k :: k <= i ==> CrlfAt(s + t, k) == CrlfAt(s, k);
    NewlineUnique(s + t, i);
  }

  /** More input never changes an item that could already be decided. */
  lemma BodyExtends(depth: nat, kind: Kind, s: bytes, t: bytes)
    requires !Body(depth, kind, s).Wait?
    ensures Body(depth, kind, s + t) == Body(depth, kind, s)
  {
    if !(kind.KArray? && depth == MAX_TASK) {
      NewlineExtends(s, t);
      var i := Newline(s).value;
      assert (s + t)[..i] == s[..i];
      if kind.KBulk? {
        var n := LongLong(s[..i]);
        if n >= 0 {
          assert (s + t)[i + 2..i + 2 + n] == s[i + 2..i + 2 + n];
        }
      }
    }
  }

  lemma ReadKindExtends(st: State, t: bytes)
    requires StateOk(st) && st.Live?
    ensures st.kind.Some? || st.rest != [] ==> ReadKind(Feed(st, t)) == Feed(ReadKind(st), t)
    ensures ReadKind(Feed(ReadKind(st), t)) == ReadKind(Feed(st, t))
  {
    if st.kind.None? && st.rest != [] {
      assert (st.rest + t)[1..] == st.rest[1..] + t;
    }
  }

  /** A step that was possible stays possible, and a reader that waits can be fed either
      before or after it waited. */
  lemma StepExtends(st: State, t: bytes)
    requires StateOk(st)
    ensures Step(st).Go? ==> Step(Feed(st, t)) == Go(Step(st).out, Feed(Step(st).st, t))
    ensures Step(st).Stop? && Step(st).st.Dead? ==> Step(Feed(st, t)) == Step(st)
    ensures Step(st).Stop? ==> Step(Feed(Step(st).st, t)) == Step(Feed(st, t))
  {
    if st.Live? {
      ReadKindExtends(st, t);
      var k := ReadKind(st);
      if k.Live? && k.kind.Some? {
        var item := Body(|k.frames|, k.kind.value, k.rest);
        if !item.Wait? {
          BodyExtends(|k.frames|, k.kind.value, k.rest, t);
          if item.Leaf? || item.Open? {
            assert (k.rest + t)[item.used..] == k.rest[item.used..] + t;
          }
        }
      }
    }
  }

  lemma {:induction false} NextExtends(st: State, t: bytes)
    requires StateOk(st)
    ensures Next(st).0.Some? ==> Next(Feed(st, t)) == (Next(st).0, Feed(Next(st).1, t))
    ensures Next(st).0.None? ==> Next(Feed(Next(st).1, t)) == Next(Feed(st, t))
    decreases Length(st)
  {
    StepExtends(st, t);
    var m := Step(st);
    if m.Go? && m.out.None? {
      NextExtends(m.st, t);
    }
  }

  function Then(a: Run, b: Run): Run {
    Run(a.out + b.out, b.st)
  }

  lemma {:induction false} DrainExtends(st: State, t: bytes)
    requires StateOk(st)
    ensures Drain(Feed(st, t)) == Then(Drain(st), Drain(Feed(Drain(st).st, t)))
    decreases Length(st)
  {
    NextExtends(st, t);
    var (reply, s) := Next(st);
    if reply.Some? {
      DrainExtends(s, t);
      DrainOne(st, reply.value, s);
      DrainOne(Feed(st, t), reply.value, Feed(s, t));
      ThenAssociates([reply.value], Drain(s), Drain(Feed(Drain(s).st, t)));
    } else {
      DrainSame(Feed(s, t), Feed(st, t));
    }
  }

  lemma ThenAssociates(out: seq<Reply>, a: Run, b: Run)
    ensures Then(Run(out + a.out, a.st), b) == Run(out + Then(a, b).out, b.st)
  {
    assert out + a.out + b.out == out + (a.out + b.out);
  }

  lemma DrainNone(st: State, out: seq<Reply>)
    requires StateOk(st) && Next(st).0.None?
    ensures Then(Run(out, st), Drain(st)) == Run(out, Next(st).1)
  {
    hide Next;
    assert Drain(st) == Run([], Next(st).1);
  }

  /** Taking one reply more moves it from what is left to what was taken. */
  lemma DrainSome(st: State, out: seq<Reply>)
    requires StateOk(st) && Next(st).0.Some?
    ensures Then(Run(out, st), Drain(st)) == Then(Run(out + [Next(st).0.value], Next(st).1), Drain(Next(st).1))
  {
    hide Next;
    var (r, s) := Next(st);
    DrainOne(st, r.value, s);
    assert out + ([r.value] + Drain(s).out) == out + [r.value] + Drain(s).out;
  }

  /** Handling one chunk more moves its replies from what is left to what was taken. */
  lemma SessionStep(st: State, out: seq<Reply>, chunks: seq<bytes>)
    requires StateOk(st) && chunks != []
    ensures var d := Drain(Feed(st, chunks[0]));
            Then(Run(out, st), Session(st, chunks)) == Then(Run(out + d.out, d.st), Session(d.st, chunks[1..]))
  {
    var d := Drain(Feed(st, chunks[0]));
    ThenAssociates(out, d, Session(d.st, chunks[1..]));
  }

  lemma DrainOne(st: State, r: Reply, s: State)
    requires StateOk(st) && StateOk(s) && Next(st) == (Some(r), s)
    ensures Drain(st) == Run([r] + Drain(s).out, Drain(s).st)
  {
  }

  lemma DrainSame(a: State, b: State)
    requires StateOk(a) && StateOk(b) && Next(a) == Next(b)
    ensures Drain(a) == Drain(b)
  {
  }

  lemma FeedTwice(st: State, a: bytes, b: bytes)
    ensures Feed(Feed(st, a), b) == Feed(st, a + b)
  {
    if st.Live? {
      assert st.rest + a + b == st.rest + (a + b);
    }
  }

  /** However a stream is cut into feeds, draining after each feed gives the replies, and the
      final pending or error state, of feeding it all at once. */
  lemma {:induction false} ChunkingIndependence(st: State, chunks: seq<bytes>)
    requires StateOk(st) && chunks != []
    ensures Session(st, chunks) == Drain(Feed(st, Concat(chunks)))
    decreases |chunks|
  {
    var head, tail := chunks[0], chunks[1..];
    var first := Drain(Feed(st, head));
    if tail == [] {
      assert Concat(chunks) == head + Concat(tail) == head;
    } else {
      ChunkingIndependence(first.st, tail);
      FeedTwice(st, head, Concat(tail));
      DrainExtends(Feed(st, head), Concat(tail));
    }
  }

  /** Two cuttings of one stream cannot be told apart. */
  lemma TwoChunkings(st: State, a: seq<bytes>, b: seq<bytes>)
    requires StateOk(st) && a != [] && b != [] && Concat(a) == Concat(b)
    ensures Session(st, a) == Session(st, b)
  {
    ChunkingIndependence(st, a);
    ChunkingIndependence(st, b);
  }
}
