/** Bytes, decimal numerals and fixed-width C integers, shared by every other module. */
module Bytes {

  type byte = b: int | 0 <= b < 256
  type bytes = seq<byte>

  datatype Option<+T> = None | Some(value: T)

  const CR: byte := 13
  const LF: byte := 10
  const CRLF: bytes := [13, 10]

  const TWO_31: int := 0x8000_0000
  const TWO_32: int := 0x1_0000_0000
  const TWO_63: int := 0x8000_0000_0000_0000
  const TWO_64: int := 0x1_0000_0000_0000_0000

  /** Conversion to a 32-bit `int`. */
  function Int32(x: int): int {
    (x + TWO_31) % TWO_32 - TWO_31
  }

  /** Conversion to a 64-bit `long` or `long long`. */
  function Int64(x: int): int {
    (x + TWO_63) % TWO_64 - TWO_63
  }

  /** Conversion of a 32-bit `int` to `size_t`. */
  function SizeT(x: int): int {
    x % TWO_64
  }

  /** What "%d" or "%zu" prints for a non-negative number. */
  function Digits(n: nat): (d: bytes)
    ensures |d| >= 1
  {
    if n < 10 then [48 + n] else Digits(n / 10) + [48 + n % 10]
  }

  /** What "%d" or "%lld" prints. */
  function Decimal(i: int): bytes {
    if i < 0 then [45] + Digits(-i) else Digits(i)
  }

  predicate IsDigit(b: byte) {
    48 <= b < 58
  }

  lemma {:induction false} DigitsAreDigits(n: nat)
    ensures forall k :: 0 <= k < |Digits(n)| ==> IsDigit(Digits(n)[k])
  {
    if n >= 10 {
      DigitsAreDigits(n / 10);
    }
  }

  function Concat(chunks: seq<bytes>): bytes {
    if chunks == [] then [] else chunks[0] + Concat(chunks[1..])
  }

  lemma {:induction false} ConcatSnoc(chunks: seq<bytes>, last: bytes)
    ensures Concat(chunks + [last]) == Concat(chunks) + last
  {
    if chunks == [] {
      assert Concat([last]) == last + Concat([]);
    } else {
      assert (chunks + [last])[1..] == chunks[1..] + [last];
      ConcatSnoc(chunks[1..], last);
      Assoc(chunks[0], Concat(chunks[1..]), last);
    }
  }

  lemma ConcatPrefix(chunks: seq<bytes>, k: nat)
    requires k < |chunks|
    ensures Concat(chunks[..k + 1]) == Concat(chunks[..k]) + chunks[k]
  {
    assert chunks[..k + 1] == chunks[..k] + [chunks[k]];
    ConcatSnoc(chunks[..k], chunks[k]);
  }

  lemma Assoc<T>(a: seq<T>, b: seq<T>, c: seq<T>)
    ensures a + b + c == a + (b + c)
  {
  }

  /** The bytes of a C string: those before the first zero. */
  function CString(s: bytes): (r: bytes)
    ensures 0 !in s ==> r == s
  {
    if s == [] || s[0] == 0 then [] else [s[0]] + CString(s[1..])
  }
}
