/** What an argument line means: bare text and quoted text, and the quotes that make it fail. */
module ArgumentLines {
  import opened Bytes
  import opened Quoting

  /** A character between quotes: a byte as it is, or one behind a backslash. */
  datatype Quoted = AsIs(b: byte) | Escaped(b: byte)

  predicate QuotedOk(q: Quoted) {
    q.b != 0 && (q.AsIs? ==> q.b != 34 && q.b != 92)
  }

  function QuotedText(qs: seq<Quoted>): bytes {
    if qs == [] then []
    else (if qs[0].AsIs? then [qs[0].b] else [92, qs[0].b]) + QuotedText(qs[1..])
  }

  function QuotedValue(qs: seq<Quoted>): bytes {
    if qs == [] then []
    else [if qs[0].AsIs? then qs[0].b else Unescape(qs[0].b)] + QuotedValue(qs[1..])
  }

  predicate AllQuoted(qs: seq<Quoted>) {
    forall q :: q in qs ==> QuotedOk(q)
  }

  predicate Blank(s: bytes) {
    forall i :: 0 <= i < |s| ==> s[i] == 32 || 9 <= s[i] <= 13
  }

  /** Text without quotes, blanks that end it, or zeros; it may hold a vertical tab or a form
      feed, but not begin with one. */
  predicate BareOk(s: bytes) {
    && (forall i :: 0 <= i < |s| ==> s[i] !in [0, 9, 10, 13, 32, 34])
    && (s != [] ==> s[0] != 11 && s[0] != 12)
  }

  /** An argument behind some blanks: bare text, which quoted text may end. */
  datatype Argument = Argument(gap: bytes, bare: bytes, quoted: Option<seq<Quoted>>)

  predicate ArgumentOk(a: Argument) {
    && Blank(a.gap)
    && BareOk(a.bare)
    && (a.quoted.Some? ==> AllQuoted(a.quoted.value))
    && (a.quoted.None? ==> a.bare != [])
  }

  function ArgumentText(a: Argument): bytes {
    a.bare + (if a.quoted.Some? then [34] + QuotedText(a.quoted.value) + [34] else [])
  }

  function Value(a: Argument): bytes {
    a.bare + (if a.quoted.Some? then QuotedValue(a.quoted.value) else [])
  }

  function Values(args: seq<Argument>): (r: seq<bytes>)
    ensures |r| == |args| && forall i :: 0 <= i < |r| ==> r[i] == Value(args[i])
  {
    seq(|args|, i requires 0 <= i < |args| => Value(args[i]))
  }

  /** What may follow an argument: nothing or a blank, and behind bare text not just any. */
  predicate Ends(a: Argument, rest: bytes) {
    rest == [] || rest[0] in [9, 10, 13, 32] || (a.quoted.Some? && rest[0] in [11, 12])
  }

  /** Some arguments and the rest of the line. */
  function LineOf(args: seq<Argument>, rest: bytes): bytes {
    if args == [] then rest else args[0].gap + (ArgumentText(args[0]) + LineOf(args[1..], rest))
  }

  predicate LineOk(args: seq<Argument>, rest: bytes) {
    args == [] || (ArgumentOk(args[0]) && Ends(args[0], LineOf(args[1..], rest)) && LineOk(args[1..], rest))
  }

  // ---------------------------------------------------------------------------------------
  // Tokens
  // ---------------------------------------------------------------------------------------

  lemma {:induction false} SkipsBlanks(gap: bytes, rest: bytes)
    requires Blank(gap)
    ensures SkipBlanks(gap + rest) == SkipBlanks(rest)
    ensures Split(gap + rest) == Split(rest)
  {
    if gap == [] {
      assert gap + rest == rest;
    } else {
      SkipsBlanks(gap[1..], rest);
      assert (gap + rest)[1..] == gap[1..] + rest;
    }
  }

  lemma {:induction false} TakesBare(bare: bytes, rest: bytes, cur: bytes)
    requires forall i :: 0 <= i < |bare| ==> bare[i] !in [0, 9, 10, 13, 32, 34]
    ensures Token(bare + rest, cur, false) == Token(rest, cur + bare, false)
    decreases bare
  {
    if bare == [] {
      assert bare + rest == rest && cur + bare == cur;
    } else {
      TakesBare(bare[1..], rest, cur + [bare[0]]);
      assert (bare + rest)[1..] == bare[1..] + rest;
      assert cur + [bare[0]] + bare[1..] == cur + bare;
    }
  }

  lemma {:induction false} TakesQuoted(qs: seq<Quoted>, rest: bytes, cur: bytes)
    requires AllQuoted(qs)
    ensures Token(QuotedText(qs) + rest, cur, true) == Token(rest, cur + QuotedValue(qs), true)
    decreases qs
  {
    if qs == [] {
      assert [] + rest == rest && cur + [] == cur;
    } else {
      hide QuotedText, QuotedValue;
      var tail := QuotedText(qs[1..]) + rest;
      var v := if qs[0].AsIs? then qs[0].b else Unescape(qs[0].b);
      TakesQuoted(qs[1..], rest, cur + [v]);
      TakesOneQuoted(qs[0], tail, cur);
      QuotedParts(qs, rest, cur);
    }
  }

  lemma QuotedParts(qs: seq<Quoted>, rest: bytes, cur: bytes)
    requires qs != []
    ensures QuotedText(qs) + rest
         == (if qs[0].AsIs? then [qs[0].b] else [92, qs[0].b]) + (QuotedText(qs[1..]) + rest)
    ensures cur + QuotedValue(qs)
         == cur + [if qs[0].AsIs? then qs[0].b else Unescape(qs[0].b)] + QuotedValue(qs[1..])
  {
  }

  lemma TakesOneQuoted(q: Quoted, tail: bytes, cur: bytes)
    requires QuotedOk(q)
    ensures Token((if q.AsIs? then [q.b] else [92, q.b]) + tail, cur, true)
         == Token(tail, cur + [if q.AsIs? then q.b else Unescape(q.b)], true)
  {
    if q.AsIs? {
      assert ([q.b] + tail)[1..] == tail;
    } else {
      assert ([92, q.b] + tail)[2..] == tail;
    }
  }

  /** Up to the closing quote, if there is one. */
  lemma TakesArgument(bare: bytes, qs: seq<Quoted>, rest: bytes)
    requires BareOk(bare) && AllQuoted(qs)
    ensures Token(bare + ([34] + (QuotedText(qs) + rest)), [], false) == Token(rest, bare + QuotedValue(qs), true)
  {
    var q := [34] + (QuotedText(qs) + rest);
    TakesBare(bare, q, []);
    assert [] + bare == bare && q[1..] == QuotedText(qs) + rest;
    TakesQuoted(qs, rest, bare);
  }

  lemma SplitsBare(bare: bytes, rest: bytes)
    requires bare != [] && BareOk(bare) && (rest == [] || rest[0] in [9, 10, 13, 32])
    ensures Split(bare + rest) == Prepend([bare], Split(rest))
  {
    TakesBare(bare, rest, []);
    assert [] + bare == bare && SkipBlanks(bare + rest) == bare + rest;
    if rest != [] {
      SkipsBlanks([rest[0]], rest[1..]);
      assert [rest[0]] + rest[1..] == rest;
    }
  }

  lemma SplitsQuoted(bare: bytes, qs: seq<Quoted>, rest: bytes)
    requires BareOk(bare) && AllQuoted(qs) && (rest == [] || rest[0] in [9, 10, 11, 12, 13, 32])
    ensures Split(bare + ([34] + (QuotedText(qs) + ([34] + rest)))) == Prepend([bare + QuotedValue(qs)], Split(rest))
  {
    var s := bare + ([34] + (QuotedText(qs) + ([34] + rest)));
    TakesArgument(bare, qs, [34] + rest);
    assert ([34] + rest)[1..] == rest;
    assert SkipBlanks(s) == s;
  }

  lemma SplitsArgument(a: Argument, rest: bytes)
    requires ArgumentOk(a) && Ends(a, rest)
    ensures Split(a.gap + (ArgumentText(a) + rest)) == Prepend([Value(a)], Split(rest))
  {
    hide BareOk, AllQuoted, Blank, Split;
    SkipsBlanks(a.gap, ArgumentText(a) + rest);
    if a.quoted.Some? {
      SplitsQuoted(a.bare, a.quoted.value, rest);
      var q := QuotedText(a.quoted.value);
      Assoc(a.bare, [34] + q + [34], rest);
      assert [34] + q + [34] + rest == [34] + (q + ([34] + rest));
    } else {
      SplitsBare(a.bare, rest);
      assert a.bare + [] == a.bare;
    }
  }

  // ---------------------------------------------------------------------------------------
  // Lines
  // ---------------------------------------------------------------------------------------

  /** The arguments in front are taken as they stand, whatever becomes of the rest. */
  lemma {:induction false} SplitsArguments(args: seq<Argument>, rest: bytes)
    requires LineOk(args, rest)
    ensures Split(LineOf(args, rest)) == Prepend(Values(args), Split(rest))
  {
    hide Split, ArgumentOk, Ends, ArgumentText, Value;
    if args == [] {
      PrependNothing(Split(rest));
    } else {
      SplitsArguments(args[1..], rest);
      SplitsArgument(args[0], LineOf(args[1..], rest));
      assert Values(args) == [Value(args[0])] + Values(args[1..]);
      if Split(rest).Some? {
        Assoc([Value(args[0])], Values(args[1..]), Split(rest).value);
      }
    }
  }

  /** A line of arguments, with any blanks behind them, is split into their values. */
  lemma SplitOfLine(args: seq<Argument>, blanks: bytes)
    requires LineOk(args, blanks) && Blank(blanks)
    ensures Split(LineOf(args, blanks)) == Some(Values(args))
  {
    SplitsArguments(args, blanks);
    SkipsBlanks(blanks, []);
    assert blanks + [] == blanks && Values(args) + [] == Values(args);
  }

  /** A line with a quote that is not closed fails. */
  lemma UnclosedQuoteRefused(args: seq<Argument>, gap: bytes, bare: bytes, qs: seq<Quoted>)
    requires Blank(gap) && BareOk(bare) && AllQuoted(qs)
    requires LineOk(args, gap + (bare + ([34] + QuotedText(qs))))
    ensures Split(LineOf(args, gap + (bare + ([34] + QuotedText(qs))))) == None
  {
    var s := bare + ([34] + QuotedText(qs));
    SplitsArguments(args, gap + s);
    SkipsBlanks(gap, s);
    TakesArgument(bare, qs, []);
    assert QuotedText(qs) + [] == QuotedText(qs);
    assert SkipBlanks(s) == s;
  }

  /** So does one in which a closing quote is followed by anything but a blank. */
  lemma TextBehindQuoteRefused(args: seq<Argument>, gap: bytes, bare: bytes, qs: seq<Quoted>, b: byte, rest: bytes)
    requires Blank(gap) && BareOk(bare) && AllQuoted(qs) && b !in [9, 10, 11, 12, 13, 32]
    requires LineOk(args, gap + (bare + ([34] + (QuotedText(qs) + ([34, b] + rest)))))
    ensures Split(LineOf(args, gap + (bare + ([34] + (QuotedText(qs) + ([34, b] + rest)))))) == None
  {
    var s := bare + ([34] + (QuotedText(qs) + ([34, b] + rest)));
    SplitsArguments(args, gap + s);
    SkipsBlanks(gap, s);
    TakesArgument(bare, qs, [34, b] + rest);
    assert SkipBlanks(s) == s;
  }

  /** The escapes: n, r, t, b and a stand for control bytes, any other byte for itself. */
  lemma EscapesRead()
    ensures QuotedValue([Escaped(110), Escaped(114), Escaped(116), Escaped(98), Escaped(97)]) == [10, 13, 9, 8, 7]
    ensures forall b: byte :: b !in [110, 114, 116, 98, 97] ==> QuotedValue([Escaped(b)]) == [b]
  {
    forall b: byte | b !in [110, 114, 116, 98, 97] ensures QuotedValue([Escaped(b)]) == [b] {
      assert [Escaped(b)][1..] == [];
    }
    var e := [Escaped(110), Escaped(114), Escaped(116), Escaped(98), Escaped(97)];
    assert e[1..][1..][1..][1..][1..] == [];
  }

  /** The escapes written: \a \b \t \n \r \" \\ and lower-case hexadecimal for what is not
      printable; the rest stands as it is. */
  lemma EscapesWritten()
    ensures Escape([7]) == [92, 97] && Escape([8]) == [92, 98] && Escape([9]) == [92, 116]
    ensures Escape([10]) == [92, 110] && Escape([13]) == [92, 114]
    ensures Escape([34]) == [92, 34] && Escape([92]) == [92, 92]
    ensures Escape([31]) == [92, 120, 49, 102] && Escape([127]) == [92, 120, 55, 102]
    ensures Escape([0xca]) == [92, 120, 99, 97] && Escape([0]) == [92, 120, 48, 48]
    ensures forall b: byte :: 32 <= b <= 126 && b != 34 && b != 92 ==> Escape([b]) == [b]
    ensures Repr([]) == [34, 34]
  {
    forall b: byte ensures Escape([b]) == EscapeByte(b) {
      assert [b][1..] == [] && EscapeByte(b) + [] == EscapeByte(b);
    }
  }
}
