/** Reading the Redis encoding of a reply gives the reply back. */
module ReplyRoundTrip {
  import opened Bytes
  import opened ReplyMachine

  predicate NoCrlf(s: bytes) {
    forall k :: 0 <= k < |s| ==> !CrlfAt(s, k)
  }

  /** Replies a server can send below an array nesting that leaves room for `levels` more. */
  predicate Encodable(r: Reply, levels: nat)
    ensures Encodable(r, levels) ==> r != Missing
    decreases r
  {
    match r
    case Str(s) => |s| < TWO_63
    case Status(s) => NoCrlf(s)
    case Error(s) => NoCrlf(s)
    case Integer(i) => -TWO_63 <= i < TWO_63
    case Nil => true
    case Arr(n, es) => levels > 0 && n == |es| < TWO_31 && forall e :: e in es ==> Encodable(e, levels - 1)
    case Missing => false
  }

  function Encode(r: Reply): bytes {
    match r
    case Str(s) => [36] + Digits(|s|) + CRLF + s + CRLF
    case Status(s) => [43] + s + CRLF
    case Error(s) => [45] + s + CRLF
    case Integer(i) => [58] + Decimal(i) + CRLF
    case Nil => [36, 45, 49] + CRLF
    case Arr(n, es) => [42] + Digits(|es|) + CRLF + EncodeAll(es)
    case Missing => []
  }

  function EncodeAll(es: seq<Reply>): bytes {
    if es == [] then [] else Encode(es[0]) + EncodeAll(es[1..])
  }

  // ---------------------------------------------------------------------------------------
  // Numbers
  // ---------------------------------------------------------------------------------------

  lemma Int64Period(x: int, k: int)
    ensures Int64(x + k * TWO_64) == Int64(x)
  {
    var y := x + TWO_63;
    assert (y + k * TWO_64) % TWO_64 == y % TWO_64;
  }

  lemma Int64OfInt64(x: int) returns (k: int)
    ensures Int64(x) == x + k * TWO_64
  {
    k := -((x + TWO_63) / TWO_64);
  }

  lemma Int64Step(a: int, d: int)
    ensures Int64(Int64(Int64(a) * 10) + d) == Int64(a * 10 + d)
  {
    var k := Int64OfInt64(a);
    var j := Int64OfInt64(Int64(a) * 10);
    Int64Period(a * 10 + d, 10 * k + j);
  }

  lemma {:induction false} ScanDigits(n: nat, t: bytes)
    ensures Scan(Digits(n) + t, 0) == Scan(t, Int64(n))
  {
    var d: byte := 48 + n % 10;
    if n < 10 {
      assert ([d] + t)[1..] == t;
    } else {
      ScanDigits(n / 10, [d] + t);
      assert Digits(n) + t == Digits(n / 10) + ([d] + t);
      assert ([d] + t)[1..] == t;
      Int64Step(n / 10, n % 10);
    }
  }

  lemma LongLongOfDigits(n: nat)
    ensures LongLong(Digits(n)) == Int64(n)
  {
    DigitsAreDigits(n);
    ScanDigits(n, []);
    assert Digits(n) + [] == Digits(n);
    assert IsDigit(Digits(n)[0]);
  }

  lemma Int64InRange(i: int)
    requires -TWO_63 <= i < TWO_63
    ensures Int64(i) == i
  {
  }

  lemma LongLongOfNegative(n: nat)
    ensures LongLong([45] + Digits(n)) == Int64(-(n as int))
  {
    var s: bytes := [45] + Digits(n);
    ScanDigits(n, []);
    assert s[1..] == Digits(n) == Digits(n) + [];
    var k := Int64OfInt64(n);
    Int64Period(-(n as int), -k);
  }

  /** Any printed number reads back reduced to 64 bits; in range, as itself. */
  lemma LongLongOfDecimal(i: int)
    ensures LongLong(Decimal(i)) == Int64(i)
    ensures -TWO_63 <= i < TWO_63 ==> LongLong(Decimal(i)) == i
  {
    if i >= 0 {
      LongLongOfDigits(i);
    } else {
      LongLongOfNegative(-i);
    }
    if -TWO_63 <= i < TWO_63 {
      Int64InRange(i);
    }
  }

  lemma DecimalHasNoCr(i: int)
    ensures forall k :: 0 <= k < |Decimal(i)| ==> Decimal(i)[k] != CR
  {
    DigitsAreDigits(if i < 0 then -i else i);
  }

  // ---------------------------------------------------------------------------------------
  // Items
  // ---------------------------------------------------------------------------------------

  lemma NewlineOfLine(line: bytes, t: bytes)
    requires NoCrlf(line)
    ensures Newline(line + CRLF + t) == Some(|line|)
    ensures (line + CRLF + t)[..|line|] == line
    ensures (line + CRLF + t)[|line| + 2..] == t
  {
    var s := line + CRLF + t;
    assert forall k :: k < |line| ==> CrlfAt(s, k) == CrlfAt(line, k);
    NewlineUnique(s, |line|);
  }

  /** What `Next` makes of a value that is complete: close arrays, then go on reading. */
  function Resume(frames: seq<Frame>, r: Reply, t: bytes): (Option<Reply>, State)
    requires FramesOk(frames) && r != Missing
  {
    var (fs, root) := Attach(frames, r);
    if root.Some? then (root, Live([], None, t)) else Next(Live(fs, None, t))
  }

  lemma ReadsLeaf(frames: seq<Frame>, k: Kind, tag: byte, s: bytes, r: Reply, used: nat)
    requires FramesOk(frames) && KindOf(tag) == Some(k)
    requires used <= |s| && Body(|frames|, k, s) == Leaf(r, used)
    ensures Next(Live(frames, None, [tag] + s)) == Resume(frames, r, s[used..])
  {
    var st := Live(frames, None, [tag] + s);
    assert ([tag] + s)[1..] == s;
    assert ReadKind(st) == Live(frames, Some(k), s);
  }

  lemma ReadsLine(frames: seq<Frame>, k: Kind, tag: byte, line: bytes, r: Reply, t: bytes)
    requires FramesOk(frames) && KindOf(tag) == Some(k) && NoCrlf(line)
    requires k.KError? || k.KStatus? || k.KInteger?
    requires Body(|frames|, k, line + CRLF + t) == Leaf(r, |line| + 2)
    ensures Next(Live(frames, None, [tag] + line + CRLF + t)) == Resume(frames, r, t)
  {
    NewlineOfLine(line, t);
    ReadsLeaf(frames, k, tag, line + CRLF + t, r, |line| + 2);
    assert [tag] + line + CRLF + t == [tag] + (line + CRLF + t);
  }

  lemma BulkParts(line: bytes, text: bytes, t: bytes)
    ensures var s := line + CRLF + (text + CRLF + t);
            var i := |line| + 2;
            s[i..i + |text|] == text && s[i + |text| + 2..] == t
  {
    var i := |line| + 2;
    var s := line + CRLF + (text + CRLF + t);
    assert s[i..] == text + CRLF + t;
    assert s[i..i + |text|] == s[i..][..|text|];
    assert s[i + |text| + 2..] == s[i..][|text| + 2..];
  }

  lemma BodyOfEncodedBulk(depth: nat, text: bytes, t: bytes)
    requires |text| < TWO_63
    ensures var line := Digits(|text|);
            var s := line + CRLF + (text + CRLF + t);
            var used := |line| + 2 + |text| + 2;
            Body(depth, KBulk, s) == Leaf(Str(text), used) && s[used..] == t
  {
    hide LongLong, Digits;
    DecimalHasNoCr(|text|);
    LongLongOfDecimal(|text|);
    NewlineOfLine(Digits(|text|), text + CRLF + t);
    BulkParts(Digits(|text|), text, t);
  }

  lemma EncodedBulk(text: bytes, t: bytes)
    ensures Encode(Str(text)) + t == [36] + (Digits(|text|) + CRLF + (text + CRLF + t))
  {
    var line := [36] + Digits(|text|) + CRLF;
    Assoc(line, text, CRLF);
    Assoc(line, text + CRLF, t);
    Assoc([36], Digits(|text|), CRLF);
    Assoc([36], Digits(|text|) + CRLF, text + CRLF + t);
  }

  lemma ReadsBulk(frames: seq<Frame>, text: bytes, t: bytes)
    requires FramesOk(frames) && |text| < TWO_63
    ensures Next(Live(frames, None, Encode(Str(text)) + t)) == Resume(frames, Str(text), t)
  {
    BodyOfEncodedBulk(|frames|, text, t);
    var s := Digits(|text|) + CRLF + (text + CRLF + t);
    ReadsLeaf(frames, KBulk, 36, s, Str(text), |Digits(|text|)| + 2 + |text| + 2);
    EncodedBulk(text, t);
  }

  lemma BodyOfEncodedNil(depth: nat, t: bytes)
    ensures Body(depth, KBulk, [45, 49] + CRLF + t) == Leaf(Nil, 4)
    ensures depth < MAX_TASK ==> Body(depth, KArray, [45, 49] + CRLF + t) == Leaf(Nil, 4)
    ensures ([45, 49] + CRLF + t)[4..] == t
  {
    assert Digits(1) == [49];
    assert Decimal(-1) == [45, 49];
    LongLongOfDecimal(-1);
    NewlineOfLine([45, 49], t);
  }

  lemma EncodedNil(t: bytes)
    ensures Encode(Nil) + t == [36] + ([45, 49] + CRLF + t)
    ensures [42, 45, 49] + CRLF + t == [42] + ([45, 49] + CRLF + t)
  {
  }

  lemma ReadsNil(frames: seq<Frame>, t: bytes)
    requires FramesOk(frames)
    ensures Next(Live(frames, None, Encode(Nil) + t)) == Resume(frames, Nil, t)
    ensures |frames| < MAX_TASK ==> Next(Live(frames, None, [42, 45, 49] + CRLF + t)) == Resume(frames, Nil, t)
  {
    var s := [45, 49] + CRLF + t;
    BodyOfEncodedNil(|frames|, t);
    ReadsLeaf(frames, KBulk, 36, s, Nil, 4);
    EncodedNil(t);
    if |frames| < MAX_TASK {
      ReadsLeaf(frames, KArray, 42, s, Nil, 4);
    }
  }

  lemma BodyOfEncodedHeader(depth: nat, n: nat, t: bytes)
    requires depth < MAX_TASK && n < TWO_31
    ensures var line := Digits(n);
            var s := line + CRLF + t;
            Body(depth, KArray, s) == (if n == 0 then Leaf(Arr(0, []), |line| + 2) else Open(n, |line| + 2))
            && s[|line| + 2..] == t
  {
    hide LongLong, Digits;
    DecimalHasNoCr(n);
    LongLongOfDecimal(n);
    NewlineOfLine(Digits(n), t);
  }

  /** The header of an array: empty arrays are complete, others open a frame. */
  lemma ReadsHeader(frames: seq<Frame>, n: nat, t: bytes)
    requires FramesOk(frames) && |frames| < MAX_TASK && n < TWO_31
    ensures Next(Live(frames, None, [42] + Digits(n) + CRLF + t))
         == if n == 0 then Resume(frames, Arr(0, []), t) else Next(Live(frames + [Frame(n, [])], None, t))
  {
    var used := |Digits(n)| + 2;
    var s := Digits(n) + CRLF + t;
    BodyOfEncodedHeader(|frames|, n, t);
    assert [42] + Digits(n) + CRLF + t == [42] + s;
    if n == 0 {
      ReadsLeaf(frames, KArray, 42, s, Arr(0, []), used);
    } else {
      StepOpens(frames, s, n, used);
    }
  }

  lemma StepOpens(frames: seq<Frame>, s: bytes, n: int, used: nat)
    requires FramesOk(frames) && |frames| < MAX_TASK
    requires n > 0 && used <= |s| && Body(|frames|, KArray, s) == Open(n, used)
    ensures Step(Live(frames, None, [42] + s)) == Go(None, Live(frames + [Frame(n, [])], None, s[used..]))
  {
    assert ([42] + s)[1..] == s;
    assert ReadKind(Live(frames, None, [42] + s)) == Live(frames, Some(KArray), s);
  }

  // ---------------------------------------------------------------------------------------
  // Trees
  // ---------------------------------------------------------------------------------------

  lemma {:induction false} ReadsReply(frames: seq<Frame>, r: Reply, t: bytes)
    requires FramesOk(frames) && Encodable(r, MAX_TASK - |frames|)
    ensures Next(Live(frames, None, Encode(r) + t)) == Resume(frames, r, t)
    decreases r, 1
  {
    hide Next;
    match r
    case Str(s) => ReadsBulk(frames, s, t);
    case Status(s) =>
      NewlineOfLine(s, t);
      ReadsLine(frames, KStatus, 43, s, r, t);
    case Error(s) =>
      NewlineOfLine(s, t);
      ReadsLine(frames, KError, 45, s, r, t);
    case Integer(i) =>
      DecimalHasNoCr(i);
      LongLongOfDecimal(i);
      NewlineOfLine(Decimal(i), t);
      ReadsLine(frames, KInteger, 58, Decimal(i), r, t);
    case Nil => ReadsNil(frames, t);
    case Arr(n, es) =>
      ReadsHeader(frames, n, EncodeAll(es) + t);
      assert Encode(r) + t == [42] + Digits(n) + CRLF + (EncodeAll(es) + t);
      if n == 0 {
        assert EncodeAll(es) + t == t;
      } else {
        ReadsElements(frames, r, 0, t);
        assert es[..0] == [] && es[0..] == es;
      }
  }

  lemma EncodedElements(es: seq<Reply>, k: nat, t: bytes)
    requires k < |es|
    ensures EncodeAll(es[k..]) + t == Encode(es[k]) + (EncodeAll(es[k + 1..]) + t)
    ensures es[..k] + [es[k]] == es[..k + 1]
    ensures k + 1 == |es| ==> es[..k + 1] == es && EncodeAll(es[k + 1..]) + t == t
  {
    assert es[k..][1..] == es[k + 1..];
  }

  /** The k-th element either is the last and closes the array, or leaves it one fuller. */
  lemma ResumeInArray(frames: seq<Frame>, r: Reply, k: nat, t: bytes)
    requires FramesOk(frames) && |frames| < MAX_TASK
    requires r.Arr? && r.count == |r.element| && k < |r.element| && Missing !in r.element
    ensures FramesOk(frames + [Frame(r.count, r.element[..k])])
    ensures Resume(frames + [Frame(r.count, r.element[..k])], r.element[k], t)
         == if k + 1 == |r.element| then Resume(frames, r, t)
            else Next(Live(frames + [Frame(r.count, r.element[..k + 1])], None, t))
  {
    var open := frames + [Frame(r.count, r.element[..k])];
    assert open[..|open| - 1] == frames;
    EncodedElements(r.element, k, t);
  }

  lemma {:induction false} ReadsElements(frames: seq<Frame>, r: Reply, k: nat, t: bytes)
    requires FramesOk(frames) && Encodable(r, MAX_TASK - |frames|)
    requires r.Arr? && k < |r.element| && Missing !in r.element
    ensures Next(Live(frames + [Frame(r.count, r.element[..k])], None, EncodeAll(r.element[k..]) + t))
         == Resume(frames, r, t)
    decreases r, 0, |r.element| - k
  {
    var es := r.element;
    var rest := EncodeAll(es[k + 1..]) + t;
    EncodedElements(es, k, t);
    assert es[k] in es;
    ReadsReply(frames + [Frame(r.count, es[..k])], es[k], rest);
    ResumeInArray(frames, r, k, rest);
    if k + 1 < |es| {
      ReadsElements(frames, r, k + 1, t);
    }
  }

  /** The reader inverts the encoding and takes exactly its bytes. */
  lemma RoundTrip(r: Reply, t: bytes)
    requires Encodable(r, 8)
    ensures Next(Live([], None, Encode(r) + t)) == (Some(r), Live([], None, t))
  {
    ReadsReply([], r, t);
  }

  /** A pipeline of replies, cut anywhere, is read back as that list of replies. */
  lemma {:induction false} PipelineRoundTrip(rs: seq<Reply>)
    requires forall r :: r in rs ==> Encodable(r, 8)
    ensures Drain(Live([], None, EncodeAll(rs))) == Run(rs, START)
  {
    if rs != [] {
      RoundTrip(rs[0], EncodeAll(rs[1..]));
      PipelineRoundTrip(rs[1..]);
      assert [rs[0]] + rs[1..] == rs;
    }
  }

  lemma PipelineInChunks(rs: seq<Reply>, chunks: seq<bytes>)
    requires forall r :: r in rs ==> Encodable(r, 8)
    requires chunks != [] && Concat(chunks) == EncodeAll(rs)
    ensures Session(START, chunks) == Run(rs, START)
  {
    ChunkingIndependence(START, chunks);
    assert [] + Concat(chunks) == Concat(chunks);
    PipelineRoundTrip(rs);
  }

  lemma LineIsCutShort(s: bytes)
    requires !NoCrlf(s)
    ensures Newline(s + CRLF).Some? && Newline(s + CRLF).value < |s|
  {
    var k :| 0 <= k < |s| && CrlfAt(s, k);
    assert CrlfAt(s + CRLF, k);
  }

  /** A status line comes back exactly when it holds no CR LF pair. */
  lemma StatusRoundTripIff(s: bytes)
    ensures Next(Live([], None, Encode(Status(s)))) == (Some(Status(s)), START) <==> NoCrlf(s)
  {
    var line := s + CRLF;
    assert line + [] == line && Encode(Status(s)) + [] == Encode(Status(s));
    if NoCrlf(s) {
      RoundTrip(Status(s), []);
    } else {
      LineIsCutShort(s);
      var i := Newline(line).value;
      ReadsLeaf([], KStatus, 43, line, Status(line[..i]), i + 2);
      assert Encode(Status(s)) == [43] + line;
      assert |line[..i]| != |s|;
    }
  }

  /** An array below eight open arrays is refused as soon as its type byte is seen, whatever
      follows; so eight levels is exactly what the reader supports. */
  lemma NinthLevelRefused(frames: seq<Frame>, t: bytes)
    requires FramesOk(frames) && |frames| == 8
    ensures Next(Live(frames, None, [42] + t)) == (None, Dead(TooDeep))
  {
    var st := Live(frames, None, [42] + t);
    assert ([42] + t)[1..] == t;
    assert Step(st) == Stop(Dead(TooDeep));
  }
}
