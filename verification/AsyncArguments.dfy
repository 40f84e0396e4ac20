/** How async.c finds the arguments of a command in its formatted bytes (`nextArgument`). */
module AsyncArguments {
  import opened Bytes
  import opened ReplyMachine
  import opened ReplyRoundTrip
  import Commands

  /** `strchr(s, c)`: what is from the first `c` on; a zero byte ends the search. */
  function From(s: bytes, c: byte): (r: Option<bytes>)
    ensures r.Some? ==> r.value != [] && r.value[0] == c
  {
    if s == [] || s[0] == 0 then None
    else if s[0] == c then Some(s)
    else From(s[1..], c)
  }

  /** `strtol` on a numeral without sign. */
  function Leading(s: bytes, acc: nat): nat
    decreases |s|
  {
    if s == [] || !IsDigit(s[0]) then acc else Leading(s[1..], 10 * acc + (s[0] - 48))
  }

  /** The next argument and what follows it; None when no dollar sign is left, or when the
      text is cut off, where the C code reads out of bounds. */
  function NextArgument(s: bytes): Option<(bytes, bytes)> {
    var p := if s != [] && s[0] == 36 then Some(s) else From(s, 36);
    if p.None? then None
    else
      var len := SizeT(Int32(Leading(p.value[1..], 0)));
      var q := From(p.value, CR);
      if q.None? || 2 + len + 2 > |q.value| then None
      else Some((q.value[2..2 + len], q.value[2 + len + 2..]))
  }

  function AllArguments(s: bytes): seq<bytes>
    decreases |s|
  {
    match NextArgument(s)
    case None => []
    case Some((arg, rest)) => if |rest| < |s| then [arg] + AllArguments(rest) else []
  }

  lemma {:induction false} LeadingDigits(n: nat, t: bytes)
    requires t != [] && !IsDigit(t[0])
    ensures Leading(Digits(n) + t, 0) == n
  {
    LeadingStep(n, t);
    assert Leading(t, n) == n;
  }

  lemma {:induction false} LeadingStep(n: nat, t: bytes)
    ensures Leading(Digits(n) + t, 0) == Leading(t, n)
  {
    if n < 10 {
      assert ([48 + n] + t)[1..] == t;
    } else {
      var d: bytes := [48 + n % 10];
      LeadingStep(n / 10, d + t);
      Assoc(Digits(n / 10), d, t);
      assert (d + t)[1..] == t;
    }
  }

  /** The search skips everything that is neither `c` nor zero. */
  lemma {:induction false} FromSkips(a: bytes, s: bytes, c: byte)
    requires forall k :: 0 <= k < |a| ==> a[k] != c && a[k] != 0
    ensures From(a + s, c) == From(s, c)
  {
    if a == [] {
      assert a + s == s;
    } else {
      assert (a + s)[1..] == a[1..] + s;
      FromSkips(a[1..], s, c);
    }
  }

  lemma OnWire(arg: bytes, t: bytes)
    ensures Encode(Str(arg)) + t == [36] + Digits(|arg|) + (CRLF + (arg + CRLF + t))
    ensures ([36] + Digits(|arg|) + (CRLF + (arg + CRLF + t)))[1..] == Digits(|arg|) + (CRLF + (arg + CRLF + t))
  {
    hide Digits;
    var d := Digits(|arg|);
    Assoc([36] + d, CRLF, arg);
    Assoc([36] + d, CRLF + arg, CRLF);
    Assoc(CRLF, arg, CRLF);
    Assoc([36] + d, CRLF + arg + CRLF, t);
    Assoc(CRLF, arg + CRLF, t);
    Assoc([36], d, CRLF + (arg + CRLF + t));
  }

  /** An argument on the wire is found, whatever bytes it has. */
  lemma NextOfArgument(arg: bytes, t: bytes)
    requires |arg| < TWO_31
    ensures NextArgument(Encode(Str(arg)) + t) == Some((arg, t))
  {
    hide Digits, Leading, Encode;
    var d, q := Digits(|arg|), CRLF + (arg + CRLF + t);
    OnWire(arg, t);
    DigitsAreDigits(|arg|);
    LeadingDigits(|arg|, q);
    FromSkips([36] + d, q, CR);
    assert From(q, CR) == Some(q);
    AroundArgument(arg, t);
  }

  lemma AroundArgument(arg: bytes, t: bytes)
    ensures var q := CRLF + (arg + CRLF + t);
            |q| == 2 + |arg| + 2 + |t| && q[2..2 + |arg|] == arg && q[2 + |arg| + 2..] == t
  {
    var q := CRLF + (arg + CRLF + t);
    Assoc(arg, CRLF, t);
    Assoc(CRLF, arg, CRLF + t);
    assert q == (CRLF + arg) + (CRLF + t);
    assert q[2 + |arg|..] == CRLF + t;
    assert q[2 + |arg| + 2..] == q[2 + |arg|..][2..];
  }

  lemma {:induction false} AllOfStrings(argv: seq<bytes>)
    requires forall a :: a in argv ==> |a| < TWO_31
    ensures AllArguments(EncodeAll(Commands.Strings(argv))) == argv
  {
    var strings := Commands.Strings(argv);
    if argv != [] {
      assert strings[0] == Str(argv[0]) && strings[1..] == Commands.Strings(argv[1..]);
      NextOfArgument(argv[0], EncodeAll(strings[1..]));
      AllOfStrings(argv[1..]);
      assert EncodeAll(strings) == Encode(Str(argv[0])) + EncodeAll(strings[1..]);
    }
  }

  /** The first argument is found behind the header. */
  lemma HeaderSkipped(n: nat, s: bytes)
    requires s == [] || s[0] == 36
    ensures NextArgument(Commands.Header(n) + s) == NextArgument(s)
  {
    var h := Commands.Header(n);
    DigitsAreDigits(n);
    assert forall k :: 0 <= k < |h| ==> h[k] != 36 && h[k] != 0;
    FromSkips(h, s, 36);
  }

  /** Walking over a formatted command gives its arguments, binary ones included. */
  lemma ArgumentsOfCommand(argv: seq<bytes>)
    requires forall a :: a in argv ==> |a| < TWO_31
    ensures AllArguments(Commands.Wire(argv)) == argv
  {
    var body := EncodeAll(Commands.Strings(argv));
    AllOfStrings(argv);
    Commands.WireParts(argv);
    if argv != [] {
      var strings := Commands.Strings(argv);
      assert strings[0] == Str(argv[0]);
      assert Encode(Str(argv[0]))[0] == 36;
      assert body[0] == 36;
    }
    HeaderSkipped(|argv|, body);
  }
}
