/** The protocol in plain bytes: what the reader makes of each kind of reply, of every byte that
    starts none, and of arrays nested up to its limit and beyond. */
module ReplyExamples {
  import opened Bytes
  import opened ReplyMachine
  import opened ReplyRoundTrip

  /** The numerals and the C integers, on numbers that tell the base, the order and the widths. */
  lemma Numerals()
    ensures Decimal(-1203) == [45, 49, 50, 48, 51] && Decimal(0) == [48]
    ensures Int32(0x7fff_ffff) == 0x7fff_ffff && Int32(0x8000_0000) == -0x8000_0000
    ensures Int32(0x1_0000_0001) == 1
    ensures Int64(0x7fff_ffff_ffff_ffff) == 0x7fff_ffff_ffff_ffff
    ensures Int64(0x8000_0000_0000_0000) == -0x8000_0000_0000_0000
    ensures Int64(0x1_0000_0000_0000_0001) == 1
    ensures SizeT(-2) == 0xffff_ffff_ffff_fffe
  {
    assert Digits(1) == [49] && Digits(12) == [49, 50] && Digits(120) == [49, 50, 48];
  }

  /** A line that is not a number counts as -1, an empty one as 0; a plus sign is allowed. */
  lemma NumberLines()
    ensures LongLong([]) == 0 && LongLong([120]) == -1 && LongLong([49, 120]) == -1 && LongLong([43, 49]) == 1
    ensures LongLong([45, 49]) == -1 && LongLong([45]) == 0
  {
    assert [49, 120][1..] == [120] && [43, 49][1..] == [49] && [45, 49][1..] == [49];
    assert [49][1..] == [] && [45][1..] == [];
    assert Scan([49], 0) == Scan([], 1) == Some(1);
    assert Scan([49, 120], 0) == Scan([120], 1) == None;
  }

  /** An array header with a count of 2^31 stops the reader; one of -2 is an array without
      elements that claims to have 2^64 - 2. */
  lemma OddCounts(used: nat)
    ensures HeaderItem(0x8000_0000, used) == Bad(CountRange)
    ensures HeaderItem(-2, used) == Leaf(Arr(0xffff_ffff_ffff_fffe, []), used)
    ensures HeaderItem(-1, used) == Leaf(Nil, used) && HeaderItem(0, used) == Leaf(Arr(0, []), used)
    ensures HeaderItem(0x7fff_ffff, used) == Open(0x7fff_ffff, used)
  {
  }

  /** "+", "-" and ":" start a line that is a status, an error or a number. */
  lemma Lines(s: bytes, i: int, t: bytes)
    requires forall k :: 0 <= k && k + 1 < |s| ==> !(s[k] == 13 && s[k + 1] == 10)
    requires -0x8000_0000_0000_0000 <= i <= 0x7fff_ffff_ffff_ffff
    ensures Next(Live([], None, [43] + s + [13, 10] + t)) == (Some(Status(s)), Live([], None, t))
    ensures Next(Live([], None, [45] + s + [13, 10] + t)) == (Some(Error(s)), Live([], None, t))
    ensures Next(Live([], None, [58] + Decimal(i) + [13, 10] + t)) == (Some(Integer(i)), Live([], None, t))
  {
    hide Next;
    RoundTrip(Status(s), t);
    RoundTrip(Error(s), t);
    RoundTrip(Integer(i), t);
  }

  /** "$" and the number of bytes start a bulk string; "$-1" and "*-1" are nil. */
  lemma Bulks(s: bytes, t: bytes)
    requires |s| <= 0x7fff_ffff_ffff_ffff
    ensures Next(Live([], None, [36] + Digits(|s|) + [13, 10] + s + [13, 10] + t))
         == (Some(Str(s)), Live([], None, t))
    ensures Next(Live([], None, [36, 45, 49, 13, 10] + t)) == (Some(Nil), Live([], None, t))
    ensures Next(Live([], None, [42, 45, 49, 13, 10] + t)) == (Some(Nil), Live([], None, t))
  {
    hide Next;
    RoundTrip(Str(s), t);
    ReadsNil([], t);
    assert [36, 45, 49] + CRLF == [36, 45, 49, 13, 10] && [42, 45, 49] + CRLF == [42, 45, 49, 13, 10];
    assert Encode(Nil) == [36, 45, 49, 13, 10];
  }

  /** "*" and the number of elements start an array of them. */
  lemma Arrays(es: seq<Reply>, t: bytes)
    requires |es| <= 0x7fff_ffff && forall e :: e in es ==> Encodable(e, 7)
    ensures Next(Live([], None, [42] + Digits(|es|) + [13, 10] + EncodeAll(es) + t))
         == (Some(Arr(|es|, es)), Live([], None, t))
  {
    hide Next;
    RoundTrip(Arr(|es|, es), t);
  }

  /** Any other byte in front is a protocol error that names it, whatever follows. */
  lemma OtherBytesRefused(frames: seq<Frame>, b: byte, t: bytes)
    requires FramesOk(frames) && b != 43 && b != 45 && b != 58 && b != 36 && b != 42
    ensures Next(Live(frames, None, [b] + t)) == (None, Dead(ProtocolByte(b)))
  {
    var st := Live(frames, None, [b] + t);
    assert ReadKind(st) == Dead(ProtocolByte(b));
    assert Step(st) == Stop(Dead(ProtocolByte(b)));
  }

  /** "*1", k times: the headers of k arrays, each in the one before. */
  function Headers(k: nat): bytes {
    if k == 0 then [] else [42, 49, 13, 10] + Headers(k - 1)
  }

  /** `r` in k arrays of one element. */
  function Nested(k: nat, r: Reply): Reply {
    if k == 0 then r else Arr(1, [Nested(k - 1, r)])
  }

  lemma {:induction false} NestedEncodes(k: nat, r: Reply)
    requires Encodable(r, 0) && k <= 8
    ensures Encodable(Nested(k, r), k) && Encode(Nested(k, r)) == Headers(k) + Encode(r)
  {
    if k == 0 {
      assert [] + Encode(r) == Encode(r);
    } else {
      NestedEncodes(k - 1, r);
      var inner := Nested(k - 1, r);
      assert [inner][1..] == [] && Encode(inner) + [] == Encode(inner);
      assert EncodeAll([inner]) == Encode(inner);
      assert Digits(1) == [49] && [42] + [49] + CRLF == [42, 49, 13, 10];
      Assoc([42, 49, 13, 10], Headers(k - 1), Encode(r));
    }
  }

  lemma {:induction false} DeeperEncodes(r: Reply, levels: nat, more: nat)
    requires Encodable(r, levels) && levels <= more
    ensures Encodable(r, more)
  {
    if r.Arr? {
      forall e | e in r.element ensures Encodable(e, more - 1) {
        DeeperEncodes(e, levels - 1, more - 1);
      }
    }
  }

  /** A reply in up to eight arrays is read back. */
  lemma EightLevelsRead(k: nat, r: Reply, t: bytes)
    requires Encodable(r, 0) && k <= 8
    ensures Next(Live([], None, Headers(k) + Encode(r) + t)) == (Some(Nested(k, r)), Live([], None, t))
  {
    NestedEncodes(k, r);
    DeeperEncodes(Nested(k, r), k, 8);
    RoundTrip(Nested(k, r), t);
  }

  function OpenArrays(k: nat): (frames: seq<Frame>)
    requires k <= 8
    ensures FramesOk(frames) && |frames| == k
  {
    seq(k, i => Frame(1, []))
  }

  lemma {:induction false} HeadersOpen(j: nat, k: nat, t: bytes)
    requires j + k <= 8
    ensures Next(Live(OpenArrays(j), None, Headers(k) + t)) == Next(Live(OpenArrays(j + k), None, t))
    decreases k
  {
    hide Next;
    if k == 0 {
      assert [] + t == t;
    } else {
      var rest := Headers(k - 1) + t;
      ReadsHeader(OpenArrays(j), 1, rest);
      assert Digits(1) == [49] && [42] + [49] + CRLF == [42, 49, 13, 10];
      assert OpenArrays(j) + [Frame(1, [])] == OpenArrays(j + 1);
      Assoc([42, 49, 13, 10], Headers(k - 1), t);
      HeadersOpen(j + 1, k - 1, t);
    }
  }

  /** An array in eight arrays is not, whatever it holds: the reader refuses the whole input. */
  lemma NineLevelsRefused(t: bytes)
    ensures Next(Live([], None, Headers(8) + [42] + t)) == (None, Dead(TooDeep))
  {
    HeadersOpen(0, 8, [42] + t);
    assert OpenArrays(0) == [];
    Assoc(Headers(8), [42], t);
    NinthLevelRefused(OpenArrays(8), t);
  }
}
