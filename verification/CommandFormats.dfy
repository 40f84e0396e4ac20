/** What a command format means, piece by piece: the arguments are its words, and a word is
    its literal bytes and interpolated values one after another. */
module CommandFormats {
  import opened Bytes
  import opened ReplyMachine
  import opened ReplyRoundTrip
  import opened Commands

  /** A printf directive: flags in this order, width, precision, size and conversion. */
  datatype Printf = Printf(hash: bool, zero: bool, minus: bool, space: bool, plus: bool, width: bytes,
                           precision: Option<bytes>, size: bytes, conversion: byte)

  function Flag(present: bool, b: byte): bytes {
    if present then [b] else []
  }

  /** From the size on. */
  function SizeText(d: Printf): bytes {
    d.size + [d.conversion]
  }

  function PrecisionText(d: Printf): bytes {
    (match d.precision case None => [] case Some(digits) => [46] + digits) + SizeText(d)
  }

  function WidthText(d: Printf): bytes {
    d.width + PrecisionText(d)
  }

  function FlagText(d: Printf): bytes {
    Flag(d.hash, 35) + (Flag(d.zero, 48) + (Flag(d.minus, 45) + (Flag(d.space, 32) + (Flag(d.plus, 43)
      + WidthText(d)))))
  }

  function DirectiveText(d: Printf): bytes {
    [37] + FlagText(d)
  }

  predicate AllDigits(s: bytes) {
    forall i :: 0 <= i < |s| ==> 48 <= s[i] <= 57
  }

  /** The kind of number that a size and a conversion take: "diouxX" with no size, "h", "hh",
      "l" or "ll", and "eEfFgGaA" without a size. */
  function KindTaken(size: bytes, conversion: byte): Option<NumberKind> {
    if conversion in [100, 105, 111, 117, 120, 88] then
      if size == [] || size == [104] || size == [104, 104] then Some(Int)
      else if size == [108] then Some(Long)
      else if size == [108, 108] then Some(LongLong)
      else None
    else if conversion in [101, 69, 102, 70, 103, 71, 97, 65] && size == [] then Some(Double)
    else None
  }

  /** A leading zero of the width is the flag, unless another flag stands between them. */
  predicate WellFormed(d: Printf) {
    && AllDigits(d.width)
    && (d.precision.Some? ==> AllDigits(d.precision.value))
    && (d.width != [] && d.width[0] == 48 ==> d.zero || d.minus || d.space || d.plus)
    && KindTaken(d.size, d.conversion).Some?
  }

  /** A piece of a word: a literal byte, "%%", "%s" with a C string, "%b" with bytes, or a
      printf directive with the text that `printf` makes of it. */
  datatype Piece =
    | Literal(b: byte)
    | Percent
    | StringPiece(text: bytes)
    | BytesPiece(text: bytes)
    | NumberPiece(directive: Printf, printed: bytes)

  predicate PieceOk(p: Piece) {
    match p
    case Literal(b) => b != 0 && b != 32 && b != 37
    case StringPiece(text) => 0 !in text
    case NumberPiece(d, _) => WellFormed(d) && (|DirectiveText(d)| >= 14 ==> !d.space)
    case _ => true
  }

  function PieceFormat(p: Piece): (f: bytes)
    ensures |f| >= 1
  {
    match p
    case Literal(b) => [b]
    case Percent => [37, 37]
    case StringPiece(_) => [37, 115]
    case BytesPiece(_) => [37, 98]
    case NumberPiece(d, _) => DirectiveText(d)
  }

  function PieceArgs(p: Piece): seq<FormatArg> {
    match p
    case StringPiece(text) => [CString(text)]
    case BytesPiece(text) => [Binary(text)]
    case NumberPiece(d, printed) =>
      (match KindTaken(d.size, d.conversion) case Some(kind) => [Number(kind, printed)] case None => [])
    case _ => []
  }

  /** What a piece adds to its word. A directive of 14 bytes or more is not printed: its number
      is dropped, and all of it but its first two bytes is text. */
  function PieceText(p: Piece): bytes {
    match p
    case Literal(b) => [b]
    case Percent => [37]
    case StringPiece(text) => text
    case BytesPiece(text) => text
    case NumberPiece(d, printed) =>
      if |DirectiveText(d)| < 14 then printed else DirectiveText(d)[2..]
  }

  function WordFormat(w: seq<Piece>): bytes {
    if w == [] then [] else PieceFormat(w[0]) + WordFormat(w[1..])
  }

  function WordArgs(w: seq<Piece>): seq<FormatArg> {
    if w == [] then [] else PieceArgs(w[0]) + WordArgs(w[1..])
  }

  function WordText(w: seq<Piece>): bytes {
    if w == [] then [] else PieceText(w[0]) + WordText(w[1..])
  }

  function Spaces(n: nat): bytes {
    if n == 0 then [] else [32] + Spaces(n - 1)
  }

  /** A word and the number of spaces in front of it. */
  datatype Spaced = Spaced(gap: nat, word: seq<Piece>)

  predicate WordOk(w: seq<Piece>) {
    w != [] && forall p :: p in w ==> PieceOk(p)
  }

  /** Words that are not empty, with spaces between them. */
  predicate FormatOk(ws: seq<Spaced>) {
    forall i :: 0 <= i < |ws| ==> WordOk(ws[i].word) && (i > 0 ==> ws[i].gap >= 1)
  }

  /** The format that writes the words and then some more spaces. */
  function FormatOf(ws: seq<Spaced>, trailing: nat): bytes {
    if ws == [] then Spaces(trailing)
    else Spaces(ws[0].gap) + (WordFormat(ws[0].word) + FormatOf(ws[1..], trailing))
  }

  function ArgsOf(ws: seq<Spaced>): seq<FormatArg> {
    if ws == [] then [] else WordArgs(ws[0].word) + ArgsOf(ws[1..])
  }

  function TextsOf(ws: seq<Spaced>): (r: seq<bytes>)
    ensures |r| == |ws| && forall i :: 0 <= i < |r| ==> r[i] == WordText(ws[i].word)
  {
    seq(|ws|, i requires 0 <= i < |ws| => WordText(ws[i].word))
  }

  // ---------------------------------------------------------------------------------------
  // Directives
  // ---------------------------------------------------------------------------------------

  /** A flag is skipped if it is there, and nothing is if the text goes on with another byte. */
  lemma SkipsFlag(f: bytes, p: nat, present: bool, b: byte, rest: bytes)
    requires p <= |f| && f[p..] == Flag(present, b) + rest
    requires !present ==> rest != [] && rest[0] != b
    ensures Skip(f, p, b) <= |f| && f[Skip(f, p, b)..] == rest
  {
    if present {
      assert f[p] == f[p..][0] == b;
      assert f[p + 1..] == f[p..][1..];
    } else {
      assert Flag(present, b) + rest == rest;
      assert f[p] == f[p..][0];
    }
  }

  lemma {:induction false} SkipsDigits(f: bytes, p: nat, digits: bytes, rest: bytes)
    requires p <= |f| && f[p..] == digits + rest && AllDigits(digits)
    requires rest != [] && !IsDigit(rest[0])
    ensures DigitsEnd(f, p) <= |f| && f[DigitsEnd(f, p)..] == rest
    decreases digits
  {
    assert f[p] == f[p..][0];
    if digits == [] {
      assert digits + rest == rest;
    } else {
      assert f[p + 1..] == f[p..][1..] == digits[1..] + rest;
      SkipsDigits(f, p + 1, digits[1..], rest);
    }
  }

  /** What a directive's text goes on with behind the precision, the width and the flags. */
  lemma FirstOfSize(d: Printf, rest: bytes)
    requires WellFormed(d)
    ensures var s := SizeText(d) + rest;
            s != [] && s[0] in [104, 108, 100, 105, 111, 117, 120, 88, 101, 69, 102, 70, 103, 71, 97, 65]
  {
  }

  lemma FirstOfPrecision(d: Printf, rest: bytes)
    requires WellFormed(d)
    ensures var s := PrecisionText(d) + rest;
            s != [] && !IsDigit(s[0]) && s[0] !in [35, 45, 32, 43, 98, 115] && (s[0] == 46 <==> d.precision.Some?)
    ensures d.precision.None? ==> PrecisionText(d) == SizeText(d)
  {
    hide SizeText, WellFormed;
    FirstOfSize(d, rest);
    if d.precision.None? {
      assert [] + SizeText(d) == SizeText(d);
    }
  }

  lemma FirstOfWidth(d: Printf, rest: bytes)
    requires WellFormed(d)
    ensures var s := WidthText(d) + rest;
            s != [] && s[0] !in [35, 45, 32, 43, 98, 115] && (s[0] == 48 ==> d.zero || d.minus || d.space || d.plus)
  {
    hide PrecisionText, KindTaken;
    FirstOfPrecision(d, rest);
    Assoc(d.width, PrecisionText(d), rest);
  }

  /** The flags are skipped. */
  lemma SkipsFlags(d: Printf, f: bytes, rest: bytes) returns (p: nat)
    requires WellFormed(d) && f == DirectiveText(d) + rest
    ensures p == Skip(f, Skip(f, Skip(f, Skip(f, Skip(f, 1, HASH), ZERO), MINUS), SPACE), PLUS)
    ensures f[p..] == WidthText(d) + rest
  {
    hide WidthText, Skip, WellFormed, PrecisionText;
    FirstOfWidth(d, rest);
    var t5 := WidthText(d) + rest;
    var t4 := Flag(d.plus, 43) + t5;
    var t3 := Flag(d.space, 32) + t4;
    var t2 := Flag(d.minus, 45) + t3;
    var t1 := Flag(d.zero, 48) + t2;
    FlagsThen(d, rest);
    SkipsFlag(f, 1, d.hash, HASH, t1);
    var p1 := Skip(f, 1, HASH);
    SkipsFlag(f, p1, d.zero, ZERO, t2);
    var p2 := Skip(f, p1, ZERO);
    SkipsFlag(f, p2, d.minus, MINUS, t3);
    var p3 := Skip(f, p2, MINUS);
    SkipsFlag(f, p3, d.space, SPACE, t4);
    var p4 := Skip(f, p3, SPACE);
    SkipsFlag(f, p4, d.plus, PLUS, t5);
    p := Skip(f, p4, PLUS);
  }

  lemma FlagsThen(d: Printf, rest: bytes)
    ensures (DirectiveText(d) + rest)[1..]
         == Flag(d.hash, 35) + (Flag(d.zero, 48) + (Flag(d.minus, 45) + (Flag(d.space, 32) + (Flag(d.plus, 43)
            + (WidthText(d) + rest)))))
  {
    hide Flag, WidthText;
    var f5 := Flag(d.plus, 43) + WidthText(d);
    var f4 := Flag(d.space, 32) + f5;
    var f3 := Flag(d.minus, 45) + f4;
    var f2 := Flag(d.zero, 48) + f3;
    assert (DirectiveText(d) + rest)[1..] == FlagText(d) + rest;
    Assoc(Flag(d.hash, 35), f2, rest);
    Assoc(Flag(d.zero, 48), f3, rest);
    Assoc(Flag(d.minus, 45), f4, rest);
    Assoc(Flag(d.space, 32), f5, rest);
    Assoc(Flag(d.plus, 43), WidthText(d), rest);
  }

  /** The width and the precision are skipped. */
  lemma SkipsWidth(d: Printf, f: bytes, p: nat, rest: bytes)
    requires WellFormed(d) && p <= |f| && f[p..] == WidthText(d) + rest
    ensures var w := DigitsEnd(f, p);
            var q := if w < |f| && f[w] == DOT then DigitsEnd(f, w + 1) else w;
            q < |f| && f[q..] == SizeText(d) + rest
  {
    hide KindTaken, DigitsEnd, SizeText;
    hide PrecisionText;
    FirstOfPrecision(d, rest);
    Assoc(d.width, PrecisionText(d), rest);
    SkipsDigits(f, p, d.width, PrecisionText(d) + rest);
    var w := DigitsEnd(f, p);
    assert f[w] == f[w..][0];
    if d.precision.Some? {
      SkipsPrecision(d, f, w, rest);
    }
  }

  lemma SkipsPrecision(d: Printf, f: bytes, w: nat, rest: bytes)
    requires WellFormed(d) && d.precision.Some? && w < |f| && f[w..] == PrecisionText(d) + rest
    ensures var q := DigitsEnd(f, w + 1); q < |f| && f[q..] == SizeText(d) + rest
  {
    hide KindTaken, DigitsEnd, SizeText;
    FirstOfSize(d, rest);
    assert f[w + 1..] == f[w..][1..] == d.precision.value + (SizeText(d) + rest);
    SkipsDigits(f, w + 1, d.precision.value, SizeText(d) + rest);
  }

  /** The size and the conversion are read. */
  lemma ReadsConversion(d: Printf, f: bytes, rest: bytes)
    requires WellFormed(d) && |f| >= 1
    requires ConversionPos(f) < |f| && f[ConversionPos(f)..] == SizeText(d) + rest
    ensures DirectiveOf(f) == Valid(KindTaken(d.size, d.conversion).value, |f| - |rest| - 1)
  {
    hide ConversionPos;
    var p := ConversionPos(f);
    var t := f[p..];
    assert |t| == |d.size| + 1 + |rest| && t[|d.size|] == d.conversion;
    assert f[p] == t[0];
    assert |d.size| >= 1 ==> f[p + 1] == t[1] && t[0] == d.size[0];
    assert |d.size| == 2 ==> f[p + 2] == t[2] && t[1] == d.size[1];
  }

  /** A directive is read to its conversion, with its kind of number. */
  lemma ReadsDirective(d: Printf, rest: bytes)
    requires WellFormed(d)
    ensures var f := DirectiveText(d) + rest;
            DirectiveOf(f) == Valid(KindTaken(d.size, d.conversion).value, |DirectiveText(d)| - 1)
  {
    hide DigitsEnd, Skip, WidthText, SizeText, DirectiveOf, FlagText, WellFormed;
    var f := DirectiveText(d) + rest;
    var p := SkipsFlags(d, f, rest);
    SkipsWidth(d, f, p, rest);
    ReadsConversion(d, f, rest);
  }

  predicate Harmless(s: bytes, space: bool) {
    forall i :: 0 <= i < |s| ==> s[i] != 0 && s[i] != 37 && (s[i] == 32 ==> space)
  }

  lemma HarmlessJoin(a: bytes, b: bytes, space: bool)
    requires Harmless(a, space) && Harmless(b, space)
    ensures Harmless(a + b, space)
  {
  }

  lemma HarmlessWidth(d: Printf)
    requires WellFormed(d)
    ensures Harmless(WidthText(d), d.space)
  {
    HarmlessJoin(d.size, [d.conversion], d.space);
    if d.precision.Some? {
      HarmlessJoin([46], d.precision.value, d.space);
      HarmlessJoin([46] + d.precision.value, SizeText(d), d.space);
    } else {
      HarmlessJoin([], SizeText(d), d.space);
    }
    HarmlessJoin(d.width, PrecisionText(d), d.space);
  }

  /** No byte of a directive behind the percent sign can be taken for anything but text. */
  lemma DirectiveBytes(d: Printf)
    requires WellFormed(d)
    ensures |DirectiveText(d)| >= 2 && DirectiveText(d)[0] == 37 && Harmless(DirectiveText(d)[1..], d.space)
  {
    hide Harmless, WidthText, WellFormed;
    var f5 := Flag(d.plus, 43) + WidthText(d);
    var f4 := Flag(d.space, 32) + f5;
    var f3 := Flag(d.minus, 45) + f4;
    var f2 := Flag(d.zero, 48) + f3;
    HarmlessWidth(d);
    HarmlessFlags(d);
    HarmlessJoin(Flag(d.plus, 43), WidthText(d), d.space);
    HarmlessJoin(Flag(d.space, 32), f5, d.space);
    HarmlessJoin(Flag(d.minus, 45), f4, d.space);
    HarmlessJoin(Flag(d.zero, 48), f3, d.space);
    HarmlessJoin(Flag(d.hash, 35), f2, d.space);
    assert DirectiveText(d)[1..] == FlagText(d);
    FirstOfWidth(d, []);
    assert WidthText(d) + [] == WidthText(d);
  }

  lemma HarmlessFlags(d: Printf)
    ensures Harmless(Flag(d.hash, 35), d.space) && Harmless(Flag(d.zero, 48), d.space)
    ensures Harmless(Flag(d.minus, 45), d.space) && Harmless(Flag(d.space, 32), d.space)
    ensures Harmless(Flag(d.plus, 43), d.space)
  {
  }

  // ---------------------------------------------------------------------------------------
  // Pieces
  // ---------------------------------------------------------------------------------------

  /** The arguments that a format gives when `cur` is collected before it. */
  function Got(cur: bytes, touched: bool, format: bytes, args: seq<FormatArg>): Option<seq<bytes>>
    requires Supported(format, args)
  {
    match Tokens(format, args)
    case None => None
    case Some(ts) => Some(WordsFrom(cur, touched, ts))
  }

  lemma TextStep(cur: bytes, touched: bool, text: bytes, f: bytes, a: seq<FormatArg>, rest: bytes,
                 args: seq<FormatArg>)
    requires Supported(f, a) && Supported(rest, args)
    requires Tokens(f, a) == Before(Text(text), Tokens(rest, args))
    ensures Got(cur, touched, f, a) == Got(cur + text, true, rest, args)
  {
    if Tokens(rest, args).Some? {
      var ts := Tokens(rest, args).value;
      assert ([Text(text)] + ts)[1..] == ts;
    }
  }

  lemma LiteralStep(cur: bytes, touched: bool, b: byte, rest: bytes, args: seq<FormatArg>)
    requires Supported(rest, args) && b != 32 && b != 37
    ensures Supported([b] + rest, args)
    ensures Got(cur, touched, [b] + rest, args) == Got(cur + [b], true, rest, args)
  {
    hide Got;
    assert ([b] + rest)[1..] == rest;
    TextStep(cur, touched, [b], [b] + rest, args, rest, args);
  }

  lemma {:induction false} LiteralsStep(cur: bytes, touched: bool, text: bytes, rest: bytes, args: seq<FormatArg>)
    requires Supported(rest, args) && forall i :: 0 <= i < |text| ==> text[i] != 32 && text[i] != 37
    ensures Supported(text + rest, args)
    ensures Got(cur, touched, text + rest, args) == Got(cur + text, touched || text != [], rest, args)
    decreases text
  {
    hide Got, Supported;
    if text == [] {
      assert text + rest == rest && cur + text == cur;
    } else {
      LiteralsStep(cur + [text[0]], true, text[1..], rest, args);
      LiteralStep(cur, touched, text[0], text[1..] + rest, args);
      assert text + rest == [text[0]] + (text[1..] + rest);
      assert cur + text == cur + [text[0]] + text[1..];
    }
  }

  lemma PercentStep(cur: bytes, touched: bool, rest: bytes, args: seq<FormatArg>)
    requires Supported(rest, args)
    ensures Supported([37, 37] + rest, args)
    ensures Got(cur, touched, [37, 37] + rest, args) == Got(cur + [37], true, rest, args)
  {
    hide Got;
    assert ([37, 37] + rest)[2..] == rest;
    TextStep(cur, touched, [37], [37, 37] + rest, args, rest, args);
  }

  lemma ValueStep(cur: bytes, touched: bool, arg: FormatArg, rest: bytes, args: seq<FormatArg>)
    requires Supported(rest, args) && !arg.Number? && (arg.CString? ==> 0 !in arg.text)
    ensures var f := [37, if arg.CString? then 115 else 98] + rest;
            Supported(f, [arg] + args) && Got(cur, touched, f, [arg] + args) == Got(cur + arg.text, true, rest, args)
  {
    hide Got;
    var f := [37, if arg.CString? then 115 else 98] + rest;
    assert f[2..] == rest && ([arg] + args)[1..] == args;
    TextStep(cur, touched, arg.text, f, [arg] + args, rest, args);
  }

  lemma NumberTokens(d: Printf, arg: FormatArg, rest: bytes, args: seq<FormatArg>)
    requires WellFormed(d) && arg.Number? && arg.kind == KindTaken(d.size, d.conversion).value
    requires var t := DirectiveText(d); |t| >= 2 && Supported(if |t| < 14 then rest else t[2..] + rest, args)
    ensures var t := DirectiveText(d);
            var behind := if |t| < 14 then rest else t[2..] + rest;
            Supported(t + rest, [arg] + args)
            && Tokens(t + rest, [arg] + args)
            == Before(Text(if |t| < 14 then arg.text else []), Tokens(behind, args))
  {
    hide DirectiveOf, KindTaken;
    var t := DirectiveText(d);
    var f := t + rest;
    ReadsDirective(d, rest);
    SecondByte(d);
    assert ([arg] + args)[1..] == args;
    assert f[|t|..] == rest && f[2..] == t[2..] + rest;
  }

  /** A directive is neither "%%" nor "%s" nor "%b". */
  lemma SecondByte(d: Printf)
    requires WellFormed(d)
    ensures var t := DirectiveText(d); |t| >= 2 && t[0] == 37 && t[1] != 37 && t[1] != 115 && t[1] != 98
  {
    hide WidthText, WellFormed;
    FirstOfWidth(d, []);
    assert WidthText(d) + [] == WidthText(d);
    FlagsThen(d, []);
    var t := DirectiveText(d);
    assert t + [] == t && t[1] == t[1..][0];
    DirectiveBytes(d);
  }

  lemma NumberStep(cur: bytes, touched: bool, p: Piece, rest: bytes, args: seq<FormatArg>)
    requires Supported(rest, args) && p.NumberPiece? && PieceOk(p)
    ensures Supported(PieceFormat(p) + rest, PieceArgs(p) + args)
    ensures Got(cur, touched, PieceFormat(p) + rest, PieceArgs(p) + args)
         == Got(cur + PieceText(p), true, rest, args)
  {
    var arg := Number(KindTaken(p.directive.size, p.directive.conversion).value, p.printed);
    hide Got, Supported, WellFormed, DirectiveText, Tokens;
    var t := DirectiveText(p.directive);
    DirectiveBytes(p.directive);
    if |t| < 14 {
      NumberTokens(p.directive, arg, rest, args);
      TextStep(cur, touched, p.printed, t + rest, [arg] + args, rest, args);
    } else {
      assert t[2..] == t[1..][1..];
      LiteralsStep(cur, true, t[2..], rest, args);
      NumberTokens(p.directive, arg, rest, args);
      TextStep(cur, touched, [], t + rest, [arg] + args, t[2..] + rest, args);
      assert cur + [] == cur;
    }
  }

  lemma PieceStep(cur: bytes, touched: bool, p: Piece, rest: bytes, args: seq<FormatArg>)
    requires Supported(rest, args) && PieceOk(p)
    ensures Supported(PieceFormat(p) + rest, PieceArgs(p) + args)
    ensures Got(cur, touched, PieceFormat(p) + rest, PieceArgs(p) + args)
         == Got(cur + PieceText(p), true, rest, args)
  {
    hide Got, Supported;
    assert [] + args == args;
    match p
    case Literal(b) => LiteralStep(cur, touched, b, rest, args);
    case Percent => PercentStep(cur, touched, rest, args);
    case StringPiece(text) => ValueStep(cur, touched, CString(text), rest, args);
    case BytesPiece(text) => ValueStep(cur, touched, Binary(text), rest, args);
    case NumberPiece(_, _) => NumberStep(cur, touched, p, rest, args);
  }

  lemma {:induction false} WordStep(cur: bytes, touched: bool, w: seq<Piece>, rest: bytes, args: seq<FormatArg>)
    requires Supported(rest, args) && forall p :: p in w ==> PieceOk(p)
    ensures Supported(WordFormat(w) + rest, WordArgs(w) + args)
    ensures Got(cur, touched, WordFormat(w) + rest, WordArgs(w) + args)
         == Got(cur + WordText(w), touched || w != [], rest, args)
    decreases w
  {
    hide Got, Supported, PieceOk, PieceFormat, PieceArgs, PieceText;
    if w == [] {
      assert [] + rest == rest && [] + args == args && cur + [] == cur;
    } else {
      WordStep(cur + PieceText(w[0]), true, w[1..], rest, args);
      PieceStep(cur, touched, w[0], WordFormat(w[1..]) + rest, WordArgs(w[1..]) + args);
      Assoc(PieceFormat(w[0]), WordFormat(w[1..]), rest);
      Assoc(PieceArgs(w[0]), WordArgs(w[1..]), args);
      Assoc(cur, PieceText(w[0]), WordText(w[1..]));
    }
  }

  /** The words that come after those in `done`. */
  function After(done: seq<bytes>, more: Option<seq<bytes>>): Option<seq<bytes>> {
    match more
    case None => None
    case Some(words) => Some(done + words)
  }

  function Ended(cur: bytes, touched: bool): seq<bytes> {
    if touched then [cur] else []
  }

  lemma SpaceStep(cur: bytes, touched: bool, rest: bytes, args: seq<FormatArg>)
    requires Supported(rest, args)
    ensures Supported([32] + rest, args)
    ensures Got(cur, touched, [32] + rest, args) == After(Ended(cur, touched), Got([], false, rest, args))
  {
    assert ([32] + rest)[1..] == rest;
    if Tokens(rest, args).Some? {
      var ts := Tokens(rest, args).value;
      assert ([Separator] + ts)[1..] == ts;
    }
  }

  /** Any number of spaces ends a word, if there is one. */
  lemma {:induction false} SpacesStep(cur: bytes, touched: bool, n: nat, rest: bytes, args: seq<FormatArg>)
    requires Supported(rest, args) && (touched ==> n > 0)
    ensures Supported(Spaces(n) + rest, args)
    ensures Got(if touched then cur else [], touched, Spaces(n) + rest, args)
         == After(Ended(cur, touched), Got([], false, rest, args))
    decreases n
  {
    hide Got, Supported;
    if n == 0 {
      assert Spaces(0) + rest == rest;
      assert forall words: seq<bytes> :: [] + words == words;
    } else {
      SpacesStep(cur, false, n - 1, rest, args);
      SpaceStep(if touched then cur else [], touched, Spaces(n - 1) + rest, args);
      Assoc([32], Spaces(n - 1), rest);
      assert forall words: seq<bytes> :: [] + words == words;
    }
  }

  /** Spaces and a word in front of what is left. */
  lemma SpacedStep(cur: bytes, touched: bool, s: Spaced, rest: bytes, args: seq<FormatArg>)
    requires Supported(rest, args) && WordOk(s.word) && (touched ==> s.gap >= 1) && (!touched ==> cur == [])
    ensures var f := Spaces(s.gap) + (WordFormat(s.word) + rest);
            Supported(f, WordArgs(s.word) + args)
            && Got(cur, touched, f, WordArgs(s.word) + args)
            == After(Ended(cur, touched), Got(WordText(s.word), true, rest, args))
  {
    hide Got, Supported, PieceOk;
    WordStep([], false, s.word, rest, args);
    assert [] + WordText(s.word) == WordText(s.word);
    SpacesStep(cur, touched, s.gap, WordFormat(s.word) + rest, WordArgs(s.word) + args);
  }

  lemma FormatParts(ws: seq<Spaced>, trailing: nat)
    ensures ws == [] ==> FormatOf(ws, trailing) == Spaces(trailing) && ArgsOf(ws) == []
    ensures ws != [] ==>
      && FormatOf(ws, trailing) == Spaces(ws[0].gap) + (WordFormat(ws[0].word) + FormatOf(ws[1..], trailing))
      && ArgsOf(ws) == WordArgs(ws[0].word) + ArgsOf(ws[1..])
  {
  }

  /** The words behind one that is collected, or behind nothing. */
  lemma {:induction false} WordsStep(cur: bytes, touched: bool, ws: seq<Spaced>, trailing: nat)
    requires FormatOk(ws) && (touched && ws != [] ==> ws[0].gap >= 1) && (!touched ==> cur == [])
    ensures Supported(FormatOf(ws, trailing), ArgsOf(ws))
    ensures Got(cur, touched, FormatOf(ws, trailing), ArgsOf(ws)) == Some(Ended(cur, touched) + TextsOf(ws))
    decreases |ws|
  {
    hide Got, Supported, WordOk, WordFormat, WordArgs, WordText, Spaces, FormatOf, ArgsOf;
    FormatParts(ws, trailing);
    if ws == [] {
      TrailingSpaces(cur, touched, trailing);
      assert Ended(cur, touched) + TextsOf(ws) == Ended(cur, touched);
    } else {
      var text := WordText(ws[0].word);
      WordsStep(text, true, ws[1..], trailing);
      SpacedStep(cur, touched, ws[0], FormatOf(ws[1..], trailing), ArgsOf(ws[1..]));
      assert TextsOf(ws) == [text] + TextsOf(ws[1..]);
    }
  }

  lemma TrailingSpaces(cur: bytes, touched: bool, n: nat)
    requires !touched ==> cur == []
    ensures Supported(Spaces(n), []) && Got(cur, touched, Spaces(n), []) == Some(Ended(cur, touched))
  {
    hide Got, Supported;
    NothingGot(cur, touched);
    NothingGot([], false);
    if n > 0 {
      SpacesStep(cur, touched, n, [], []);
      assert Spaces(n) + [] == Spaces(n);
      assert Ended(cur, touched) + [] == Ended(cur, touched);
    }
  }

  lemma NothingGot(cur: bytes, touched: bool)
    ensures Supported([], []) && Got(cur, touched, [], []) == Some(Ended(cur, touched))
  {
  }

  // ---------------------------------------------------------------------------------------
  // Results
  // ---------------------------------------------------------------------------------------

  /** A format is taken apart into exactly its words, however it is spaced: each word is its
      literal bytes and the interpolated values, one after another. Spaces in a value never
      split, and an empty value is still an argument. */
  lemma InterpolationIsExact(ws: seq<Spaced>, trailing: nat)
    requires FormatOk(ws)
    ensures Supported(FormatOf(ws, trailing), ArgsOf(ws))
    ensures Arguments(FormatOf(ws, trailing), ArgsOf(ws)) == Some(TextsOf(ws))
  {
    WordsStep([], false, ws, trailing);
    assert [] + TextsOf(ws) == TextsOf(ws);
    WordsFromRun([], Tokens(FormatOf(ws, trailing), ArgsOf(ws)).value);
  }

  /** Such a format is a C string. */
  lemma {:induction false} FormatIsCString(ws: seq<Spaced>, trailing: nat)
    requires FormatOk(ws)
    ensures 0 !in FormatOf(ws, trailing)
  {
    if ws == [] {
      SpacesAreSpaces(trailing);
    } else {
      SpacesAreSpaces(ws[0].gap);
      WordHasNoZero(ws[0].word);
      FormatIsCString(ws[1..], trailing);
    }
  }

  lemma {:induction false} SpacesAreSpaces(n: nat)
    ensures 0 !in Spaces(n)
  {
    if n > 0 {
      SpacesAreSpaces(n - 1);
    }
  }

  lemma {:induction false} WordHasNoZero(w: seq<Piece>)
    requires forall p :: p in w ==> PieceOk(p)
    ensures 0 !in WordFormat(w)
  {
    if w != [] {
      assert PieceOk(w[0]);
      if w[0].NumberPiece? {
        hide WellFormed, DirectiveText;
        DirectiveBytes(w[0].directive);
        var t := DirectiveText(w[0].directive);
        assert t == [t[0]] + t[1..];
      }
      WordHasNoZero(w[1..]);
    }
  }

  /** A percent sign with a byte behind it that starts no directive, the type of a value or
      another percent sign makes the whole format fail, wherever it stands. */
  lemma UnknownDirectiveRefused(ws: seq<Spaced>, b: byte, rest: bytes, args: seq<FormatArg>)
    requires FormatOk(ws)
    requires b !in [0, 37, 115, 98, 35, 45, 32, 43, 46, 104, 108] && !(48 <= b <= 57)
    requires b !in [100, 105, 111, 117, 120, 88, 101, 69, 102, 70, 103, 71, 97, 65]
    ensures var f := FormatOf(ws, 0) + ([37, b] + rest);
            Supported(f, ArgsOf(ws) + args) && Arguments(f, ArgsOf(ws) + args) == None
  {
    var f := [37, b] + rest;
    assert ConversionPos(f) == 1;
    assert DirectiveOf(f) == Unknown;
    RefusedBehind(ws, f, args);
  }

  lemma {:induction false} RefusedBehind(ws: seq<Spaced>, rest: bytes, args: seq<FormatArg>)
    requires FormatOk(ws) && Supported(rest, args) && Tokens(rest, args) == None
    ensures Supported(FormatOf(ws, 0) + rest, ArgsOf(ws) + args)
    ensures Tokens(FormatOf(ws, 0) + rest, ArgsOf(ws) + args) == None
  {
    hide Supported, Tokens;
    if ws == [] {
      assert [] + rest == rest && [] + args == args;
    } else {
      var w := ws[0].word;
      RefusedBehind(ws[1..], rest, args);
      SpacedStep([], false, ws[0], FormatOf(ws[1..], 0) + rest, ArgsOf(ws[1..]) + args);
      Assoc(WordFormat(w), FormatOf(ws[1..], 0), rest);
      Assoc(Spaces(ws[0].gap), WordFormat(w) + FormatOf(ws[1..], 0), rest);
      Assoc(WordArgs(w), ArgsOf(ws[1..]), args);
    }
  }

  /** A percent sign at the very end is text: "G %" has the arguments "G" and "%". */
  lemma LastPercent()
    ensures Supported([71, 32, 37], []) && Arguments([71, 32, 37], []) == Some([[71], [37]])
  {
    PercentAlone();
    assert [37] + [] == [37] && [71, 32, 37] == [71] + ([32] + [37]);
    SpaceStep([71], true, [37], []);
    assert [] + [37] == [37];
    LiteralStep([], false, 71, [32] + [37], []);
    assert [] + [71] == [71];
    assert [71] + ([32] + [37]) == [71, 32, 37];
    assert Ended([71], true) + [[37]] == [[71], [37]];
    WordsFromRun([], Tokens([71, 32, 37], []).value);
  }

  lemma PercentAlone()
    ensures Supported([37], []) && Got([], false, [37], []) == Some([[37]])
  {
    assert [37][1..] == [] && [] + [37] == [37];
    TextStep([], false, [37], [37], [], [], []);
  }

  /** "*3", "$3", "SET", "$1", "k", "$0" and an empty line, each ended by CR LF. */
  lemma WireExample()
    ensures Wire([[83, 69, 84], [107], []])
         == [42, 51, 13, 10] + ([36, 51, 13, 10, 83, 69, 84, 13, 10] + [36, 49, 13, 10, 107, 13, 10]
                                + [36, 48, 13, 10, 13, 10])
  {
    hide Encode, EncodeAll, Strings, Wire;
    var argv: seq<bytes> := [[83, 69, 84], [107], []];
    NextArgument(argv, 0);
    NextArgument(argv, 1);
    NextArgument(argv, 2);
    assert argv[..3] == argv;
    NoArguments(argv);
    WireParts(argv);
    BulkExamples();
  }

  lemma BulkExamples()
    ensures Encode(Str([83, 69, 84])) == [36, 51, 13, 10, 83, 69, 84, 13, 10]
    ensures Encode(Str([107])) == [36, 49, 13, 10, 107, 13, 10]
    ensures Encode(Str([])) == [36, 48, 13, 10, 13, 10]
    ensures Header(3) == [42, 51, 13, 10]
  {
  }
}
