/** The command formatter of hiredis: exact length first, then fill the buffer. */
module Commands {
  import opened Bytes
  import opened ReplyMachine
  import opened ReplyRoundTrip

  function Strings(argv: seq<bytes>): (r: seq<Reply>)
    ensures |r| == |argv| && forall i :: 0 <= i < |r| ==> r[i] == Str(argv[i])
  {
    seq(|argv|, i requires 0 <= i < |argv| => Str(argv[i]))
  }

  /** A command is sent as an array of bulk strings. */
  function Wire(argv: seq<bytes>): bytes {
    Encode(Arr(|argv|, Strings(argv)))
  }

  /** The number of characters `sprintf("%d", i)` writes, by repeated division. */
  method IntLen(i: int) returns (len: nat)
    requires -TWO_31 < i < TWO_31
    ensures len == |Decimal(i)|
  {
    len := 0;
    var x := i;
    if x < 0 {
      len := len + 1;
      x := -x;
    }
    ghost var sign := len;
    ghost var magnitude := x;
    while true
      invariant x >= 0 && len + |Digits(x)| == sign + |Digits(magnitude)|
      decreases x
    {
      len := len + 1;
      if x / 10 == 0 {
        break;
      }
      x := x / 10;
    }
  }

  /** "$<len>\r\n<data>\r\n" */
  method BulkLen(len: nat) returns (n: nat)
    requires len < TWO_31
    ensures forall s: bytes :: |s| == len ==> n == |Encode(Str(s))|
  {
    var d := IntLen(len);
    n := 1 + d + 2 + len + 2;
  }

  lemma {:induction false} EncodeAllAppend(a: seq<Reply>, b: seq<Reply>)
    ensures EncodeAll(a + b) == EncodeAll(a) + EncodeAll(b)
  {
    if a == [] {
      assert a + b == b;
    } else {
      hide Encode;
      EncodeAllAppend(a[1..], b);
      assert (a + b)[1..] == a[1..] + b;
      Assoc(Encode(a[0]), EncodeAll(a[1..]), EncodeAll(b));
    }
  }

  /** The first j + 1 arguments on the wire are the first j and then the j-th. */
  lemma NextArgument(argv: seq<bytes>, j: nat)
    requires j < |argv|
    ensures EncodeAll(Strings(argv[..j + 1])) == EncodeAll(Strings(argv[..j])) + Encode(Str(argv[j]))
  {
    assert Strings(argv[..j + 1]) == Strings(argv[..j]) + [Str(argv[j])];
    EncodeAllAppend(Strings(argv[..j]), [Str(argv[j])]);
    assert EncodeAll([Str(argv[j])]) == Encode(Str(argv[j]));
  }

  function Header(argc: nat): bytes {
    [42] + Digits(argc) + CRLF
  }

  lemma WireParts(argv: seq<bytes>)
    ensures Wire(argv) == Header(|argv|) + EncodeAll(Strings(argv))
  {
  }

  lemma NoArguments(argv: seq<bytes>)
    ensures EncodeAll(Strings(argv[..0])) == []
  {
  }

  lemma {:induction false} PartsFit(argv: seq<bytes>, j: nat)
    requires j <= |argv|
    ensures |EncodeAll(Strings(argv[..j]))| <= |EncodeAll(Strings(argv))|
    decreases |argv| - j
  {
    if j < |argv| {
      NextArgument(argv, j);
      PartsFit(argv, j + 1);
    } else {
      assert argv[..j] == argv;
    }
  }

  /** Copy `s` into `cmd` at `pos`. */
  method Write(cmd: array<byte>, pos: nat, s: bytes) returns (next: nat)
    requires pos + |s| <= cmd.Length
    modifies cmd
    ensures next == pos + |s|
    ensures cmd[..next] == old(cmd[..pos]) + s
  {
    forall i | 0 <= i < |s| {
      cmd[pos + i] := s[i];
    }
    next := pos + |s|;
  }

  /** Copy one argument with its header into `cmd` at `pos`. */
  method WriteArgument(cmd: array<byte>, pos: nat, arg: bytes) returns (next: nat)
    requires pos + |Encode(Str(arg))| <= cmd.Length
    modifies cmd
    ensures next == pos + |Encode(Str(arg))|
    ensures cmd[..next] == old(cmd[..pos]) + Encode(Str(arg))
  {
    var header := [36] + Digits(|arg|) + CRLF;
    assert Encode(Str(arg)) == header + arg + CRLF;
    next := Write(cmd, pos, header);
    next := Write(cmd, next, arg);
    next := Write(cmd, next, CRLF);
  }

  /** Fill a buffer of the precomputed length; that length is what is written. */
  method Build(argv: seq<bytes>, totlen: nat) returns (cmd: array<byte>)
    requires totlen == |Wire(argv)|
    ensures fresh(cmd) && cmd.Length == totlen + 1 && cmd[totlen] == 0
    ensures cmd[..totlen] == Wire(argv)
  {
    hide Wire, Encode, EncodeAll, Strings;
    cmd := new byte[totlen + 1](_ => 0);
    WireParts(argv);
    var pos := Write(cmd, 0, Header(|argv|));
    NoArguments(argv);
    for j := 0 to |argv|
      invariant 0 <= pos <= totlen
      invariant cmd[..pos] == Header(|argv|) + EncodeAll(Strings(argv[..j]))
    {
      PartsFit(argv, j + 1);
      NextArgument(argv, j);
      pos := WriteArgument(cmd, pos, argv[j]);
    }
    assert argv[..|argv|] == argv;
    assert pos == totlen;
    cmd[pos] := 0;
  }

  /** `redisFormatCommandArgv`. The lengths are C ints, so the command must be shorter than 2 GiB. */
  method FormatCommandArgv(argv: seq<bytes>) returns (cmd: array<byte>, totlen: nat)
    requires |Wire(argv)| < TWO_31
    ensures fresh(cmd) && cmd.Length == totlen + 1 && cmd[totlen] == 0
    ensures cmd[..totlen] == Wire(argv)
  {
    ShortArguments(argv);
    WireParts(argv);
    var d := IntLen(|argv|);
    totlen := 1 + d + 2;
    for j := 0 to |argv|
      invariant totlen == |Header(|argv|)| + |EncodeAll(Strings(argv[..j]))|
    {
      NextArgument(argv, j);
      var n := BulkLen(|argv[j]|);
      totlen := totlen + n;
    }
    assert argv[..|argv|] == argv;
    cmd := Build(argv, totlen);
  }

  lemma ShortArguments(argv: seq<bytes>)
    ensures |argv| <= |Wire(argv)|
    ensures forall j :: 0 <= j < |argv| ==> |argv[j]| <= |Wire(argv)|
  {
    WireParts(argv);
    forall j | 0 <= j < |argv| ensures |argv[j]| <= |Wire(argv)| {
      NextArgument(argv, j);
      PartsFit(argv, j + 1);
    }
    ManyArguments(argv, |argv|);
    assert argv[..|argv|] == argv;
  }

  lemma {:induction false} ManyArguments(argv: seq<bytes>, j: nat)
    requires j <= |argv|
    ensures j <= |EncodeAll(Strings(argv[..j]))|
  {
    if j > 0 {
      ManyArguments(argv, j - 1);
      NextArgument(argv, j - 1);
    }
  }

  /** The reader reads a command back as the array of exactly its arguments, whatever bytes
      they hold and whatever follows. */
  lemma CommandRoundTrip(argv: seq<bytes>, t: bytes)
    requires |Wire(argv)| < TWO_31
    ensures Next(Live([], None, Wire(argv) + t)) == (Some(Arr(|argv|, Strings(argv))), Live([], None, t))
  {
    ShortArguments(argv);
    RoundTrip(Arr(|argv|, Strings(argv)), t);
  }

  /** So two argument lists are never sent as the same bytes. */
  lemma WireInjective(a: seq<bytes>, b: seq<bytes>)
    requires |Wire(a)| < TWO_31 && Wire(a) == Wire(b)
    ensures a == b
  {
    CommandRoundTrip(a, []);
    CommandRoundTrip(b, []);
    assert forall i :: 0 <= i < |a| ==> Strings(a)[i] == Str(a[i]);
    assert forall i :: 0 <= i < |b| ==> Strings(b)[i] == Str(b[i]);
  }

  // ---------------------------------------------------------------------------------------
  // Formats
  // ---------------------------------------------------------------------------------------

  const PERCENT: byte := 37
  const SPACE: byte := 32

  datatype NumberKind = Int | Double | Long | LongLong

  /** A variadic argument: a C string for %s, an address and a length for %b, or a number for a
      printf directive, with the text that directive prints. */
  datatype FormatArg = CString(text: bytes) | Binary(text: bytes) | Number(kind: NumberKind, text: bytes)

  /** A printf directive: the kind of number it takes, and where its last character is. The C
      program refuses an unknown one, and reads on behind the format if the format ends before
      the conversion. */
  datatype Directive = Valid(kind: NumberKind, end: nat) | Unknown | CutOff

  const INT_CONVERSIONS: bytes := [100, 105, 111, 117, 120, 88]
  const DOUBLE_CONVERSIONS: bytes := [101, 69, 102, 70, 103, 71, 97, 65]
  const HASH: byte := 35
  const ZERO: byte := 48
  const MINUS: byte := 45
  const PLUS: byte := 43
  const DOT: byte := 46
  const SHORT: byte := 104
  const LONG: byte := 108

  function Skip(f: bytes, p: nat, b: byte): (q: nat)
    requires p <= |f|
    ensures p <= q <= |f|
  {
    if p < |f| && f[p] == b then p + 1 else p
  }

  function DigitsEnd(f: bytes, p: nat): (q: nat)
    requires p <= |f|
    ensures p <= q <= |f|
    decreases |f| - p
  {
    if p < |f| && IsDigit(f[p]) then DigitsEnd(f, p + 1) else p
  }

  /** Where the conversion of a directive stands: behind the flags, each at most once and in
      this order, the width and the precision. */
  function ConversionPos(f: bytes): (p: nat)
    requires |f| >= 1
    ensures 1 <= p <= |f|
  {
    var flags := Skip(f, Skip(f, Skip(f, Skip(f, Skip(f, 1, HASH), ZERO), MINUS), SPACE), PLUS);
    var width := DigitsEnd(f, flags);
    if width < |f| && f[width] == DOT then DigitsEnd(f, width + 1) else width
  }

  function IntAt(f: bytes, p: nat, kind: NumberKind): (d: Directive)
    ensures d.Valid? ==> d.end == p < |f|
  {
    if p < |f| && f[p] in INT_CONVERSIONS then Valid(kind, p) else Unknown
  }

  predicate ByteAt(f: bytes, p: nat, b: byte) {
    p < |f| && f[p] == b
  }

  function DirectiveOf(f: bytes): (d: Directive)
    requires |f| >= 1
    ensures d.Valid? ==> 1 <= d.end < |f|
  {
    var p := ConversionPos(f);
    if p == |f| then CutOff
    else if f[p] in INT_CONVERSIONS then Valid(Int, p)
    else if f[p] in DOUBLE_CONVERSIONS then Valid(Double, p)
    else if f[p] == SHORT then IntAt(f, if ByteAt(f, p + 1, SHORT) then p + 2 else p + 1, Int)
    else if f[p] == LONG then if ByteAt(f, p + 1, LONG) then IntAt(f, p + 2, LongLong) else IntAt(f, p + 1, Long)
    else Unknown
  }

  /** The room for a directive that is to be printed. */
  const MAX_DIRECTIVE: nat := 14

  /** What follows a directive that ends at `end`. One that is too long is not printed, and
      what follows its second character counts as text. */
  function Behind(f: bytes, end: nat): (rest: bytes)
    requires 1 <= end < |f|
    ensures |rest| < |f|
  {
    if end + 1 < MAX_DIRECTIVE then f[end + 1..] else f[2..]
  }

  function Shown(text: bytes, end: nat): bytes {
    if end + 1 < MAX_DIRECTIVE then text else []
  }

  /** The arguments are those the format takes, as far as it is read. A percent sign at the
      very end is a literal. */
  predicate Supported(format: bytes, args: seq<FormatArg>)
    decreases |format|
  {
    if format == [] then true
    else if format[0] != PERCENT || |format| == 1 then Supported(format[1..], args)
    else if format[1] == PERCENT then Supported(format[2..], args)
    else if format[1] == 115 then
      args != [] && args[0].CString? && 0 !in args[0].text && Supported(format[2..], args[1..])
    else if format[1] == 98 then args != [] && args[0].Binary? && Supported(format[2..], args[1..])
    else
      match DirectiveOf(format)
      case Unknown => true
      case CutOff => false
      case Valid(kind, end) =>
        args != [] && args[0].Number? && args[0].kind == kind && Supported(Behind(format, end), args[1..])
  }

  /** What a format is made of: separating spaces, and text that belongs to an argument. */
  datatype Token = Separator | Text(text: bytes)

  function Before(t: Token, ts: Option<seq<Token>>): Option<seq<Token>> {
    match ts
    case None => None
    case Some(s) => Some([t] + s)
  }

  /** The tokens of a format; None if it has an unknown directive. */
  function Tokens(format: bytes, args: seq<FormatArg>): Option<seq<Token>>
    requires Supported(format, args)
    decreases |format|
  {
    if format == [] then Some([])
    else if format[0] == SPACE then Before(Separator, Tokens(format[1..], args))
    else if format[0] != PERCENT || |format| == 1 then Before(Text([format[0]]), Tokens(format[1..], args))
    else if format[1] == PERCENT then Before(Text([PERCENT]), Tokens(format[2..], args))
    else if format[1] == 115 || format[1] == 98 then Before(Text(args[0].text), Tokens(format[2..], args[1..]))
    else
      match DirectiveOf(format)
      case Unknown => None
      case Valid(_, end) => Before(Text(Shown(args[0].text, end)), Tokens(Behind(format, end), args[1..]))
  }

  /** The number of text tokens before the first separator. */
  function RunLength(ts: seq<Token>): (k: nat)
    ensures k <= |ts| && (k < |ts| ==> ts[k].Separator?)
    ensures forall i :: 0 <= i < k ==> ts[i].Text?
  {
    if ts == [] || ts[0].Separator? then 0 else 1 + RunLength(ts[1..])
  }

  function Join(ts: seq<Token>): bytes {
    if ts == [] then [] else (if ts[0].Text? then ts[0].text else []) + Join(ts[1..])
  }

  /** The arguments of a command: the maximal runs of text, each joined. */
  function Words(ts: seq<Token>): seq<bytes>
    decreases |ts|
  {
    if ts == [] then []
    else if ts[0].Separator? then Words(ts[1..])
    else
      var k := RunLength(ts);
      [Join(ts[..k])] + Words(ts[k..])
  }

  /** The arguments of the command that a format gives; None if it is refused. */
  function Arguments(format: bytes, args: seq<FormatArg>): Option<seq<bytes>>
    requires Supported(format, args)
  {
    match Tokens(format, args)
    case None => None
    case Some(ts) => Some(Words(ts))
  }

  /** The words still to come when `cur` is collected and `touched` says it is an argument. */
  function WordsFrom(cur: bytes, touched: bool, ts: seq<Token>): seq<bytes>
    decreases |ts|
  {
    if ts == [] then if touched then [cur] else []
    else
      match ts[0]
      case Separator => (if touched then [cur] else []) + WordsFrom([], false, ts[1..])
      case Text(s) => WordsFrom(cur + s, true, ts[1..])
  }

  lemma {:induction false} WordsFromRun(cur: bytes, ts: seq<Token>)
    ensures WordsFrom(cur, true, ts) == [cur + Join(ts[..RunLength(ts)])] + Words(ts[RunLength(ts)..])
    ensures WordsFrom([], false, ts) == Words(ts)
    decreases |ts|
  {
    if ts == [] {
      assert cur + [] == cur;
    } else if ts[0].Separator? {
      WordsFromRun([], ts[1..]);
      assert ts[..0] == [] && ts[0..] == ts && cur + [] == cur;
    } else {
      var k := RunLength(ts);
      var tail := ts[1..];
      assert ts[..k][1..] == tail[..k - 1] && ts[k..] == tail[k - 1..];
      WordsFromRun(cur + ts[0].text, tail);
      WordsFromRun(ts[0].text, tail);
      assert [] + ts[0].text == ts[0].text;
      assert cur + (ts[0].text + Join(tail[..k - 1])) == cur + ts[0].text + Join(tail[..k - 1]);
    }
  }

  /** Go to the conversion of a printf directive. */
  method ReadFlags(f: bytes) returns (p: nat)
    requires |f| >= 1
    ensures p == ConversionPos(f)
  {
    p := 1;
    if p < |f| && f[p] == HASH {
      p := p + 1;
    }
    ghost var p1 := p;
    if p < |f| && f[p] == ZERO {
      p := p + 1;
    }
    ghost var p2 := p;
    if p < |f| && f[p] == MINUS {
      p := p + 1;
    }
    ghost var p3 := p;
    if p < |f| && f[p] == SPACE {
      p := p + 1;
    }
    ghost var p4 := p;
    if p < |f| && f[p] == PLUS {
      p := p + 1;
    }
    assert p1 == Skip(f, 1, HASH) && p2 == Skip(f, p1, ZERO) && p3 == Skip(f, p2, MINUS);
    assert p4 == Skip(f, p3, SPACE) && p == Skip(f, p4, PLUS);
    hide Skip, DigitsEnd;
    p := SkipDigits(f, p);
    if p < |f| && f[p] == DOT {
      p := SkipDigits(f, p + 1);
    }
  }

  /** Detect a printf directive. */
  method ReadDirective(f: bytes) returns (d: Directive)
    requires |f| >= 1
    ensures d == DirectiveOf(f)
  {
    hide ConversionPos;
    var p := ReadFlags(f);
    if p == |f| {
      return CutOff;
    }
    if f[p] in INT_CONVERSIONS {
      return Valid(Int, p);
    }
    if f[p] in DOUBLE_CONVERSIONS {
      return Valid(Double, p);
    }
    if f[p] == SHORT && ByteAt(f, p + 1, SHORT) {
      return IntAt(f, p + 2, Int);
    }
    if f[p] == SHORT {
      return IntAt(f, p + 1, Int);
    }
    if f[p] == LONG && ByteAt(f, p + 1, LONG) {
      return IntAt(f, p + 2, LongLong);
    }
    if f[p] == LONG {
      return IntAt(f, p + 1, Long);
    }
    d := Unknown;
  }

  method SkipDigits(f: bytes, p: nat) returns (q: nat)
    requires p <= |f|
    ensures q == DigitsEnd(f, p)
  {
    q := p;
    while q < |f| && IsDigit(f[q])
      invariant p <= q <= |f| && DigitsEnd(f, q) == DigitsEnd(f, p)
    {
      q := q + 1;
    }
  }

  /** `argv`, `cur` and `touched` are what a format has given up to where `todo` is left. */
  ghost predicate Collecting(argv: seq<bytes>, cur: bytes, touched: bool, todo: Option<seq<Token>>,
                             all: Option<seq<bytes>>)
  {
    && (todo.None? ==> all.None?)
    && (todo.Some? ==> all == Some(argv + WordsFrom(cur, touched, todo.value)))
    && (!touched ==> cur == [])
  }

  /** `redisvFormatCommand`, up to the buffer. */
  method CollectArguments(format: bytes, args: seq<FormatArg>) returns (r: Option<seq<bytes>>)
    requires 0 !in format && Supported(format, args)
    ensures r == Arguments(format, args)
  {
    hide DirectiveOf, WordsFrom, Words, Collecting, Behind;
    var argv: seq<bytes>, curarg: bytes := [], [];
    var touched := false;
    var c, next := 0, 0;
    CollectStart(format, args);
    assert format[0..] == format && args[0..] == args;
    while c < |format|
      invariant 0 <= c <= |format| && 0 <= next <= |args|
      invariant Supported(format[c..], args[next..])
      invariant Collecting(argv, curarg, touched, Tokens(format[c..], args[next..]), Arguments(format, args))
      decreases |format| - c
    {
      ghost var f, a := format[c..], args[next..];
      Suffixes(format, c);
      assert a != [] ==> a[1..] == args[next + 1..];
      if format[c] != PERCENT || c + 1 == |format| {
        if format[c] == SPACE {
          CollectSpace(argv, curarg, touched, Tokens(format[c + 1..], a), Arguments(format, args));
          if touched {
            argv := argv + [curarg];
            curarg := [];
            touched := false;
          }
        } else {
          CollectText(argv, curarg, touched, [format[c]], Tokens(format[c + 1..], a), Arguments(format, args));
          curarg := curarg + [format[c]];
          touched := true;
        }
        c := c + 1;
      } else if format[c + 1] == PERCENT {
        CollectText(argv, curarg, touched, [PERCENT], Tokens(format[c + 2..], a), Arguments(format, args));
        curarg := curarg + [PERCENT];
        touched := true;
        c := c + 2;
      } else if format[c + 1] == 115 || format[c + 1] == 98 {
        CollectText(argv, curarg, touched, a[0].text, Tokens(format[c + 2..], a[1..]), Arguments(format, args));
        if |args[next].text| > 0 {
          curarg := curarg + args[next].text;
        }
        next := next + 1;
        touched := true;
        c := c + 2;
      } else {
        var d := ReadDirective(format[c..]);
        if d.Unknown? {
          CollectRefused(argv, curarg, touched, Arguments(format, args));
          return None;
        }
        AfterDirective(format, c, d.end);
        CollectText(argv, curarg, touched, Shown(a[0].text, d.end), Tokens(Behind(f, d.end), a[1..]),
                    Arguments(format, args));
        if d.end + 1 < MAX_DIRECTIVE {
          curarg := curarg + args[next].text;
          c := c + d.end + 1;
        } else {
          c := c + 2;
        }
        next := next + 1;
        touched := true;
      }
    }
    CollectEnd(argv, curarg, touched, Arguments(format, args));
    if touched {
      argv := argv + [curarg];
    }
    r := Some(argv);
  }

  lemma Suffixes(format: bytes, c: nat)
    requires c < |format|
    ensures format[c..][1..] == format[c + 1..] && (c + 1 < |format| ==> format[c..][2..] == format[c + 2..])
  {
  }

  lemma AfterDirective(format: bytes, c: nat, end: nat)
    requires c < |format| && 1 <= end < |format| - c
    ensures Behind(format[c..], end) == if end + 1 < MAX_DIRECTIVE then format[c + end + 1..] else format[c + 2..]
  {
  }

  lemma CollectStart(format: bytes, args: seq<FormatArg>)
    requires Supported(format, args)
    ensures Collecting([], [], false, Tokens(format, args), Arguments(format, args))
  {
    if Tokens(format, args).Some? {
      WordsFromRun([], Tokens(format, args).value);
      assert [] + Words(Tokens(format, args).value) == Words(Tokens(format, args).value);
    }
  }

  lemma CollectSpace(argv: seq<bytes>, cur: bytes, touched: bool, todo: Option<seq<Token>>, all: Option<seq<bytes>>)
    requires Collecting(argv, cur, touched, Before(Separator, todo), all)
    ensures Collecting(if touched then argv + [cur] else argv, [], false, todo, all) && (!touched ==> cur == [])
  {
    if todo.Some? {
      var ts := [Separator] + todo.value;
      assert ts[1..] == todo.value;
      Assoc(argv, if touched then [cur] else [], WordsFrom([], false, todo.value));
      assert argv + [] == argv;
    }
  }

  lemma CollectText(argv: seq<bytes>, cur: bytes, touched: bool, text: bytes, todo: Option<seq<Token>>,
                    all: Option<seq<bytes>>)
    requires Collecting(argv, cur, touched, Before(Text(text), todo), all)
    ensures Collecting(argv, cur + text, true, todo, all)
    ensures text == [] ==> cur + text == cur
  {
    if todo.Some? {
      var ts := [Text(text)] + todo.value;
      assert ts[1..] == todo.value;
    }
  }

  lemma CollectRefused(argv: seq<bytes>, cur: bytes, touched: bool, all: Option<seq<bytes>>)
    requires Collecting(argv, cur, touched, None, all)
    ensures all == None
  {
  }

  lemma CollectEnd(argv: seq<bytes>, cur: bytes, touched: bool, all: Option<seq<bytes>>)
    requires Collecting(argv, cur, touched, Some([]), all)
    ensures all == Some(if touched then argv + [cur] else argv)
  {
    assert argv + [] == argv;
  }

  /** `redisvFormatCommand` gives exactly what `redisFormatCommandArgv` gives for the arguments
      got by splitting the format at its literal spaces only; -1 if the format is refused. */
  method FormatCommand(format: bytes, args: seq<FormatArg>) returns (cmd: array?<byte>, totlen: int)
    requires 0 !in format && Supported(format, args)
    requires Arguments(format, args).Some? ==> |Wire(Arguments(format, args).value)| < TWO_31
    ensures Arguments(format, args).None? <==> totlen == -1
    ensures totlen == -1 <==> cmd == null
    ensures totlen != -1 ==> 0 <= totlen && fresh(cmd) && cmd.Length == totlen + 1 && cmd[totlen] == 0
                             && cmd[..totlen] == Wire(Arguments(format, args).value)
  {
    var argv := CollectArguments(format, args);
    if argv.None? {
      return null, -1;
    }
    cmd, totlen := FormatCommandArgv(argv.value);
  }
}
