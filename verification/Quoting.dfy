/** Quoting and splitting of argument lines (sds.c). */
module Quoting {
  import opened Bytes
  import opened DynamicStrings

  const QUOTE: byte := 34
  const BACKSLASH: byte := 92
  const SPACE: byte := 32

  /** `isprint` in the C locale. */
  predicate IsPrint(b: byte) {
    32 <= b < 127
  }

  /** `isspace` in the C locale. */
  predicate IsSpace(b: byte) {
    b == 32 || 9 <= b <= 13
  }

  function HexDigit(n: int): byte
    requires 0 <= n < 16
  {
    if n < 10 then 48 + n else 87 + n
  }

  function EscapeByte(b: byte): bytes {
    if b == BACKSLASH || b == QUOTE then [BACKSLASH, b]
    else if b == 10 then [BACKSLASH, 110]
    else if b == 13 then [BACKSLASH, 114]
    else if b == 9 then [BACKSLASH, 116]
    else if b == 7 then [BACKSLASH, 97]
    else if b == 8 then [BACKSLASH, 98]
    else if IsPrint(b) then [b]
    else [BACKSLASH, 120, HexDigit(b / 16), HexDigit(b % 16)]
  }

  function Escape(s: bytes): bytes {
    if s == [] then [] else EscapeByte(s[0]) + Escape(s[1..])
  }

  function Repr(s: bytes): bytes {
    [QUOTE] + Escape(s) + [QUOTE]
  }

  lemma {:induction false} EscapeAppend(s: bytes, i: nat)
    requires i < |s|
    ensures Escape(s[..i + 1]) == Escape(s[..i]) + EscapeByte(s[i])
  {
    if i == 0 {
      assert s[..1][1..] == [] && s[..0] == [];
    } else {
      EscapeAppend(s[1..], i - 1);
      assert s[..i + 1][1..] == s[1..][..i] && s[..i][1..] == s[1..][..i - 1];
    }
  }

  /** `sdscatrepr` */
  method CatRepr(s: Sds, p: bytes)
    requires s.Valid()
    modifies s, s.data
    ensures s.Valid() && s.Contents() == old(s.Contents()) + Repr(p)
    ensures s.data == old(s.data) || fresh(s.data)
  {
    hide EscapeByte;
    ghost var start := s.Contents();
    s.CatLen([QUOTE]);
    assert p[..0] == [];
    for i := 0 to |p|
      invariant s.Valid() && (s.data == old(s.data) || fresh(s.data))
      invariant s.Contents() == start + ([QUOTE] + Escape(p[..i]))
    {
      EscapeAppend(p, i);
      s.CatLen(EscapeByte(p[i]));
    }
    assert p[..|p|] == p;
    s.CatLen([QUOTE]);
  }

  function Unescape(b: byte): byte {
    match b
    case 110 => 10
    case 114 => 13
    case 116 => 9
    case 98 => 8
    case 97 => 7
    case _ => b
  }

  function SkipBlanks(s: bytes): (r: bytes)
    ensures |r| <= |s| && (r != [] ==> !IsSpace(r[0]))
  {
    if s != [] && IsSpace(s[0]) then SkipBlanks(s[1..]) else s
  }

  /** One token: what was collected and what is left of the line, or None at a bad quote. */
  function Token(s: bytes, cur: bytes, inq: bool): (r: Option<(bytes, bytes)>)
    ensures r.Some? ==> |r.value.1| <= |s|
    ensures r.Some? && s != [] ==> |r.value.1| < |s|
    decreases |s|
  {
    if inq then
      if s == [] then None
      else if s[0] == BACKSLASH && |s| > 1 then Token(s[2..], cur + [Unescape(s[1])], true)
      else if s[0] == QUOTE then (if |s| > 1 && !IsSpace(s[1]) then None else Some((cur, s[1..])))
      else Token(s[1..], cur + [s[0]], true)
    else
      if s == [] then Some((cur, []))
      else if s[0] == 32 || s[0] == 10 || s[0] == 13 || s[0] == 9 then Some((cur, s[1..]))
      else if s[0] == QUOTE then Token(s[1..], cur, true)
      else Token(s[1..], cur + [s[0]], false)
  }

  /** The arguments of a line, or None if its quotes are not balanced. */
  function Split(line: bytes): Option<seq<bytes>>
    decreases |line|
  {
    var s := SkipBlanks(line);
    if s == [] then Some([])
    else
      match Token(s, [], false)
      case None => None
      case Some((tok, rest)) =>
        match Split(rest)
        case None => None
        case Some(more) => Some([tok] + more)
  }

  function Prepend(a: seq<bytes>, b: Option<seq<bytes>>): Option<seq<bytes>> {
    if b.None? then None else Some(a + b.value)
  }

  /** The token loop of `sdssplitargs`, from `p` on. */
  method ReadToken(line: bytes, start: nat) returns (ok: bool, current: bytes, p: nat)
    requires start < |line| && 0 !in line
    ensures start <= p <= |line|
    ensures Token(line[start..], [], false) == if ok then Some((current, line[p..])) else None
  {
    var inq, done := false, false;
    current := [];
    p := start;
    while !done
      invariant start <= p <= |line|
      invariant !done ==> Token(line[p..], current, inq) == Token(line[start..], [], false)
      invariant done ==> Token(line[start..], [], false) == Some((current, line[p..]))
      decreases !done, |line| - p
    {
      ghost var s := line[p..];
      assert s != [] ==> s[0] == line[p] && s[1..] == line[p + 1..];
      assert |s| > 1 ==> s[1] == line[p + 1] && s[2..] == line[p + 2..];
      var ch := if p < |line| then line[p] else 0;
      var next := if p + 1 < |line| then line[p + 1] else 0;
      if inq {
        if ch == BACKSLASH && next != 0 {
          p := p + 1;
          current := current + [Unescape(line[p])];
        } else if ch == QUOTE {
          if next != 0 && !IsSpace(next) {
            return false, current, p;
          }
          done := true;
        } else if ch == 0 {
          return false, current, p;
        } else {
          current := current + [ch];
        }
      } else {
        match ch {
          case 32 => done := true;
          case 10 => done := true;
          case 13 => done := true;
          case 9 => done := true;
          case 0 => done := true;
          case 34 => inq := true;
          case _ => current := current + [ch];
        }
      }
      if p < |line| {
        p := p + 1;
      }
    }
    ok := true;
  }

  /** `sdssplitargs` */
  method SplitArgs(line: bytes) returns (argv: Option<seq<bytes>>)
    requires 0 !in line
    ensures argv == Split(line)
  {
    var p := 0;
    var vector := [];
    assert line[0..] == line;
    PrependNothing(Split(line));
    while true
      invariant 0 <= p <= |line|
      invariant Prepend(vector, Split(line[p..])) == Split(line)
      decreases |line| - p
    {
      ghost var from := p;
      while p < |line| && IsSpace(line[p])
        invariant from <= p <= |line|
        invariant SkipBlanks(line[p..]) == SkipBlanks(line[from..])
      {
        assert line[p..][1..] == line[p + 1..];
        p := p + 1;
      }
      assert SkipBlanks(line[p..]) == line[p..];
      if p == |line| {
        assert line[p..] == [] && vector + [] == vector;
        return Some(vector);
      }
      var ok, tok, q := ReadToken(line, p);
      if !ok {
        return None;
      }
      SplitStep(vector, line[from..], tok, line[q..]);
      vector := vector + [tok];
      p := q;
    }
  }

  lemma PrependNothing(b: Option<seq<bytes>>)
    ensures Prepend([], b) == b
  {
    if b.Some? {
      assert [] + b.value == b.value;
    }
  }

  lemma SplitStep(vector: seq<bytes>, line: bytes, tok: bytes, rest: bytes)
    requires SkipBlanks(line) != []
    requires Token(SkipBlanks(line), [], false) == Some((tok, rest))
    ensures Prepend(vector, Split(line)) == Prepend(vector + [tok], Split(rest))
    ensures |rest| < |line|
  {
    hide Token, SkipBlanks;
    var more := Split(rest);
    assert Split(line) == Prepend([tok], more);
    if more.Some? {
      Assoc(vector, [tok], more.value);
    }
  }

  // ---------------------------------------------------------------------------------------
  // Quote and split
  // ---------------------------------------------------------------------------------------

  /** The bytes that survive quoting: splitting does not decode "\xHH". */
  predicate Plain(b: byte) {
    IsPrint(b) || 7 <= b <= 10 || b == 13
  }

  /** What a byte has become after quoting and splitting. */
  function MangleByte(b: byte): bytes {
    if Plain(b) then [b] else [120, HexDigit(b / 16), HexDigit(b % 16)]
  }

  function Mangle(s: bytes): bytes {
    if s == [] then [] else MangleByte(s[0]) + Mangle(s[1..])
  }

  function JoinReprs(xs: seq<bytes>): bytes {
    if xs == [] then []
    else if |xs| == 1 then Repr(xs[0])
    else Repr(xs[0]) + [SPACE] + JoinReprs(xs[1..])
  }

  function MangleAll(xs: seq<bytes>): (r: seq<bytes>)
    ensures |r| == |xs| && forall i :: 0 <= i < |r| ==> r[i] == Mangle(xs[i])
  {
    seq(|xs|, i requires 0 <= i < |xs| => Mangle(xs[i]))
  }

  lemma TokenOfByte(b: byte, t: bytes, cur: bytes)
    requires t != []
    ensures Token(EscapeByte(b) + t, cur, true) == Token(t, cur + MangleByte(b), true)
  {
    var e := EscapeByte(b);
    var s := e + t;
    if |e| == 1 {
      assert s[1..] == t;
    } else if |e| == 2 {
      assert s[2..] == t;
    } else {
      var h, l := HexDigit(b / 16), HexDigit(b % 16);
      var cur1 := cur + [120];
      assert s[2..] == [h, l] + t;
      assert s[2..][1..] == [l] + t;
      assert s[2..][1..][1..] == t;
      assert Token(s, cur, true) == Token([h, l] + t, cur1, true);
      assert Token([h, l] + t, cur1, true) == Token([l] + t, cur1 + [h], true);
      assert Token([l] + t, cur1 + [h], true) == Token(t, cur1 + [h] + [l], true);
      assert cur + [120] + [h] + [l] == cur + [120, h, l];
    }
  }

  /** A quoted string is one token, whatever was collected before and whatever follows. */
  lemma {:induction false} TokenOfEscape(x: bytes, t: bytes, cur: bytes)
    requires t == [] || IsSpace(t[0])
    ensures Token(Escape(x) + [QUOTE] + t, cur, true) == Some((cur + Mangle(x), t))
    decreases |x|
  {
    if x == [] {
      var s := Escape(x) + [QUOTE] + t;
      assert s[0] == QUOTE && s[1..] == t;
      assert cur + [] == cur;
    } else {
      var rest := Escape(x[1..]) + [QUOTE] + t;
      assert Escape(x) + [QUOTE] + t == EscapeByte(x[0]) + rest;
      TokenOfByte(x[0], rest, cur);
      TokenOfEscape(x[1..], t, cur + MangleByte(x[0]));
      assert cur + MangleByte(x[0]) + Mangle(x[1..]) == cur + (MangleByte(x[0]) + Mangle(x[1..]));
    }
  }

  lemma SplitOfRepr(x: bytes, t: bytes)
    requires t == [] || IsSpace(t[0])
    ensures Split(Repr(x) + t) == Prepend([Mangle(x)], Split(t))
  {
    var s := Repr(x) + t;
    hide Mangle, Escape;
    assert s[1..] == Escape(x) + [QUOTE] + t;
    TokenOfEscape(x, t, []);
    assert [] + Mangle(x) == Mangle(x);
    assert Token(s, [], false) == Token(s[1..], [], true);
  }

  lemma SplitSkips(t: bytes)
    ensures Split([SPACE] + t) == Split(t)
  {
    assert ([SPACE] + t)[1..] == t;
  }

  /** Splitting a quoted line gives every argument with its non-plain bytes mangled. */
  lemma {:induction false} SplitOfJoin(xs: seq<bytes>)
    ensures Split(JoinReprs(xs)) == Some(MangleAll(xs))
  {
    if |xs| == 1 {
      SplitOfRepr(xs[0], []);
      assert Repr(xs[0]) + [] == Repr(xs[0]);
      assert [Mangle(xs[0])] + [] == MangleAll(xs);
    } else if |xs| > 1 {
      var rest := JoinReprs(xs[1..]);
      SplitOfJoin(xs[1..]);
      SplitSkips(rest);
      SplitOfRepr(xs[0], [SPACE] + rest);
      assert JoinReprs(xs) == Repr(xs[0]) + ([SPACE] + rest);
      assert [Mangle(xs[0])] + MangleAll(xs[1..]) == MangleAll(xs);
    }
  }

  lemma {:induction false} MangleKeepsPlain(s: bytes)
    ensures |Mangle(s)| >= |s|
    ensures Mangle(s) == s <==> forall i :: 0 <= i < |s| ==> Plain(s[i])
  {
    if s != [] {
      MangleKeepsPlain(s[1..]);
      if Plain(s[0]) {
        assert Mangle(s)[1..] == Mangle(s[1..]);
        assert [s[0]] + s[1..] == s;
        assert forall i :: 1 <= i < |s| ==> s[i] == s[1..][i - 1];
      } else {
        assert |Mangle(s)| > |s|;
      }
    }
  }

  /** Quoting and splitting are inverse exactly on the lists whose bytes are all plain. */
  lemma QuoteSplitInverseIff(xs: seq<bytes>)
    ensures Split(JoinReprs(xs)) == Some(xs)
       <==> forall i, j :: 0 <= i < |xs| && 0 <= j < |xs[i]| ==> Plain(xs[i][j])
  {
    SplitOfJoin(xs);
    forall i | 0 <= i < |xs|
      ensures MangleAll(xs)[i] == xs[i] <==> forall j :: 0 <= j < |xs[i]| ==> Plain(xs[i][j])
    {
      MangleKeepsPlain(xs[i]);
    }
    if forall i, j :: 0 <= i < |xs| && 0 <= j < |xs[i]| ==> Plain(xs[i][j]) {
      assert MangleAll(xs) == xs;
    }
  }
}
