/** The random-access file under the archive code, and the little-endian numbers in it. */
module ZipNumbers {
  import opened Bytes
  import Bits

  /** What a read of at most `n` bytes at `p` returns. */
  function Slice(data: bytes, p: nat, n: nat): bytes {
    if p >= |data| then [] else if p + n <= |data| then data[p..p + n] else data[p..]
  }

  /** The file after `b` is written at `p`. */
  function Overwrite(data: bytes, p: nat, b: bytes): bytes
    requires p <= |data|
  {
    data[..p] + b + if p + |b| < |data| then data[p + |b|..] else []
  }

  /** A file was written forward from `pos0` to `pos`: it got longer only as far as `pos`. */
  predicate Grown(len0: nat, pos0: nat, len: nat, pos: nat) {
    pos0 <= pos && len == if len0 < pos then pos else len0
  }

  /** A device with a position. Writing beyond the end extends it. */
  class File {
    var data: bytes
    var pos: nat

    constructor (contents: bytes)
      ensures data == contents && pos == 0
    {
      data := contents;
      pos := 0;
    }

    method Read(n: nat) returns (b: bytes)
      modifies `pos
      ensures b == Slice(data, old(pos), n) && pos == old(pos) + |b|
    {
      b := Slice(data, pos, n);
      pos := pos + |b|;
    }

    method Write(b: bytes)
      requires pos <= |data|
      modifies this
      ensures data == Overwrite(old(data), old(pos), b) && pos == old(pos) + |b| <= |data|
      ensures data[..pos] == old(data[..pos]) + b
      ensures data[pos..] == if pos < |old(data)| then old(data)[pos..] else []
      ensures Grown(old(|data|), old(pos), |data|, pos)
    {
      data := Overwrite(data, pos, b);
      pos := pos + |b|;
    }

    method Seek(p: nat)
      modifies `pos
      ensures pos == p
    {
      pos := p;
    }

    method SeekEnd()
      modifies `pos
      ensures pos == |data|
    {
      pos := |data|;
    }
  }

  function Pow256(n: nat): (p: nat)
    ensures p >= 1
  {
    if n == 0 then 1 else 256 * Pow256(n - 1)
  }

  lemma Pow256Values()
    ensures Pow256(2) == 0x1_0000 && Pow256(4) == TWO_32
  {
    assert Pow256(1) == 256;
    assert Pow256(3) == 0x100_0000;
  }

  /** The `n` low bytes of `x`, lowest first. */
  function Le(x: nat, n: nat): (s: bytes)
    ensures |s| == n
  {
    if n == 0 then [] else [x % 256] + Le(x / 256, n - 1)
  }

  function Number(s: bytes): nat {
    if s == [] then 0 else s[0] + 256 * Number(s[1..])
  }

  /** What `ziplocal_putValue` stores: a number that does not fit becomes all ones. */
  function Put(x: nat, n: nat): (s: bytes)
    ensures |s| == n
  {
    if x < Pow256(n) then Le(x, n) else seq(n, i => 255)
  }

  lemma {:induction false} NumberOfLe(x: nat, n: nat)
    ensures Number(Le(x, n)) == x % Pow256(n)
    ensures x < Pow256(n) ==> Number(Le(x, n)) == x
  {
    if n > 0 {
      NumberOfLe(x / 256, n - 1);
      assert Le(x, n)[1..] == Le(x / 256, n - 1);
      ModSplit(x, Pow256(n - 1));
    }
  }

  lemma ModSplit(x: nat, p: nat)
    requires p >= 1
    ensures x % (256 * p) == 256 * ((x / 256) % p) + x % 256
    ensures x < 256 * p ==> x % (256 * p) == x
  {
    var q, r := (x / 256) / p, (x / 256) % p;
    assert x / 256 == q * p + r;
    assert q * (256 * p) == 256 * (q * p);
    Bits.DivUnique(x, 256 * p, q, 256 * r + x % 256);
    if x < 256 * p {
      Bits.DivUnique(x, 256 * p, 0, x);
    }
  }

  lemma {:induction false} AllOnes(n: nat)
    ensures Number(seq(n, i => 255 as byte)) == Pow256(n) - 1
  {
    if n > 0 {
      AllOnes(n - 1);
      assert seq(n, i => 255 as byte)[1..] == seq(n - 1, i => 255 as byte);
    }
  }

  /** A stored number reads back exactly when it fits. */
  lemma PutReadsBackIff(x: nat, n: nat)
    ensures Number(Put(x, n)) == x <==> x < Pow256(n)
  {
    if x < Pow256(n) {
      NumberOfLe(x, n);
    } else {
      AllOnes(n);
      assert Put(x, n) == seq(n, i => 255 as byte);
    }
  }

  /** The number in the `n` bytes at `p`. */
  function At(data: bytes, p: nat, n: nat): nat
    requires p + n <= |data|
  {
    Number(data[p..p + n])
  }

  // ---------------------------------------------------------------------------------------
  // Storing
  // ---------------------------------------------------------------------------------------

  /** The digit loop shared by the two putValue functions. */
  method Digits256(x: nat, n: nat) returns (buf: bytes)
    ensures buf == Put(x, n)
  {
    buf := [];
    var v: nat := x;
    for i := 0 to n
      invariant |buf| == i
      invariant buf + Le(v, n - i) == Le(x, n)
      invariant v < Pow256(n - i) <==> x < Pow256(n)
    {
      assert buf + ([v % 256] + Le(v / 256, n - i - 1)) == buf + [v % 256] + Le(v / 256, n - i - 1);
      buf := buf + [v % 256];
      v := v / 256;
    }
    assert buf == Le(x, n);
    if v != 0 {
      buf := seq(n, i => 255);
    }
  }

  method PutValue(f: File, x: nat, n: nat)
    requires f.pos <= |f.data|
    modifies f
    ensures f.data == Overwrite(old(f.data), old(f.pos), Put(x, n)) && f.pos == old(f.pos) + n <= |f.data|
    ensures f.data[..f.pos] == old(f.data[..f.pos]) + Put(x, n)
    ensures Grown(old(|f.data|), old(f.pos), |f.data|, f.pos)
  {
    var buf := Digits256(x, n);
    f.Write(buf);
  }

  method PutValueInMemory(dest: array<byte>, off: nat, x: nat, n: nat)
    requires off + n <= dest.Length
    modifies dest
    ensures dest[..] == old(dest[..off]) + Put(x, n) + old(dest[off + n..])
  {
    var buf := Digits256(x, n);
    forall i | 0 <= i < n {
      dest[off + i] := buf[i];
    }
  }

  // ---------------------------------------------------------------------------------------
  // Fetching
  // ---------------------------------------------------------------------------------------

  /** `unzlocal_getByte`: a byte, or none at the end of the file. */
  method GetByte(f: File) returns (ok: bool, c: byte)
    modifies f`pos
    ensures ok == (old(f.pos) < |f.data|)
    ensures ok ==> c == f.data[old(f.pos)] && f.pos == old(f.pos) + 1
    ensures !ok ==> f.pos == old(f.pos)
  {
    var b := f.Read(1);
    if |b| == 1 {
      return true, b[0];
    }
    return false, 0;
  }

  /** Two bytes as a number; 0 when the file ends first. */
  method GetShort(f: File) returns (ok: bool, x: nat)
    modifies f`pos
    ensures ok == (old(f.pos) + 2 <= |f.data|)
    ensures ok ==> x == At(f.data, old(f.pos), 2) && f.pos == old(f.pos) + 2
    ensures !ok ==> x == 0 && f.pos + 2 > |f.data|
  {
    ghost var p := f.pos;
    var i: byte;
    ok, i := GetByte(f);
    x := i;
    if ok {
      ok, i := GetByte(f);
    }
    x := x + i * 256;
    if ok {
      NumberOfTwo(f.data, p);
    } else {
      x := 0;
    }
  }

  /** Four bytes as a number; 0 when the file ends first. */
  method GetLong(f: File) returns (ok: bool, x: nat)
    modifies f`pos
    ensures ok == (old(f.pos) + 4 <= |f.data|)
    ensures ok ==> x == At(f.data, old(f.pos), 4) && f.pos == old(f.pos) + 4
    ensures !ok ==> x == 0 && f.pos + 4 > |f.data|
  {
    ghost var p := f.pos;
    var i: byte;
    ok, i := GetByte(f);
    x := i;
    if ok {
      ok, i := GetByte(f);
    }
    x := x + i * 0x100;
    if ok {
      ok, i := GetByte(f);
    }
    x := x + i * 0x1_0000;
    if ok {
      ok, i := GetByte(f);
    }
    x := x + i * 0x100_0000;
    if ok {
      hide Number, At;
      NumberOfFour(f.data, p);
    } else {
      x := 0;
    }
  }

  lemma NumberOfTwo(data: bytes, p: nat)
    requires p + 2 <= |data|
    ensures At(data, p, 2) == data[p] as int + 256 * data[p + 1] as int
  {
    var s := data[p..p + 2];
    assert s[1..][1..] == [];
    assert Number(s[1..]) == s[1] + 256 * Number(s[1..][1..]);
  }

  lemma NumberSplit(s: bytes)
    requires |s| == 4
    ensures Number(s) == Number(s[0..2]) + 0x1_0000 * Number(s[2..4])
  {
    assert s[1..][1..] == s[2..4];
    assert s[0..2][1..] == [s[1]] && [s[1]][1..] == [];
    assert Number(s[1..]) == s[1] + 256 * Number(s[2..4]);
    assert Number(s[0..2]) == s[0] + 256 * Number([s[1]]);
    assert Number([s[1]]) == s[1];
  }

  /** Four bytes as two numbers of two. */
  lemma NumberOfFour(data: bytes, p: nat)
    requires p + 4 <= |data|
    ensures At(data, p, 4) == data[p] as int + 256 * data[p + 1] as int
                              + 0x1_0000 * (data[p + 2] as int + 256 * data[p + 3] as int)
  {
    hide Number;
    NumberSplit(data[p..p + 4]);
    assert data[p..p + 4][0..2] == data[p..p + 2] && data[p..p + 4][2..4] == data[p + 2..p + 4];
    NumberOfTwo(data, p);
    NumberOfTwo(data, p + 2);
  }

  // ---------------------------------------------------------------------------------------
  // Records of numbers
  // ---------------------------------------------------------------------------------------

  /** A number and the width it is stored in. */
  type Field = (nat, nat)

  function Fields(fs: seq<Field>): bytes {
    if fs == [] then [] else Fields(fs[..|fs| - 1]) + Put(fs[|fs| - 1].0, fs[|fs| - 1].1)
  }

  function Offset(fs: seq<Field>, k: nat): nat
    requires k <= |fs|
  {
    if k == 0 then 0 else Offset(fs, k - 1) + fs[k - 1].1
  }

  lemma {:induction false} FieldsPrefix(fs: seq<Field>, k: nat)
    requires k < |fs|
    ensures Fields(fs[..k + 1]) == Fields(fs[..k]) + Put(fs[k].0, fs[k].1)
  {
    hide Put;
    assert fs[..k + 1][..k] == fs[..k];
  }

  lemma NoFields(fs: seq<Field>)
    ensures Fields(fs[..0]) == []
  {
    assert fs[..0] == [];
  }

  lemma {:induction false} FieldsLength(fs: seq<Field>, k: nat)
    requires k <= |fs|
    ensures |Fields(fs[..k])| == Offset(fs, k)
  {
    hide Put, Fields;
    if k == 0 {
      NoFields(fs);
    } else {
      FieldsLength(fs, k - 1);
      FieldsPrefix(fs, k - 1);
    }
  }

  lemma FieldsSnoc(fs: seq<Field>, f: Field)
    ensures Fields(fs + [f]) == Fields(fs) + Put(f.0, f.1)
  {
    hide Put;
    assert (fs + [f])[..|fs|] == fs;
  }

  lemma {:induction false} FieldsAppend(a: seq<Field>, b: seq<Field>)
    ensures Fields(a + b) == Fields(a) + Fields(b)
    decreases |b|
  {
    if b == [] {
      assert a + b == a;
    } else {
      hide Put, Fields;
      var front, last := b[..|b| - 1], b[|b| - 1];
      assert b == front + [last];
      FieldsAppend(a, front);
      FieldsSnoc(front, last);
      FieldsSnoc(a + front, last);
      Assoc(a, front, [last]);
      Assoc(Fields(a), Fields(front), Put(last.0, last.1));
    }
  }

  lemma FieldSplit(fs: seq<Field>, k: nat)
    requires k < |fs|
    ensures Fields(fs) == Fields(fs[..k]) + Put(fs[k].0, fs[k].1) + Fields(fs[k + 1..])
    ensures |Fields(fs[..k])| == Offset(fs, k)
  {
    hide Put, Fields, Offset;
    assert fs == fs[..k + 1] + fs[k + 1..];
    FieldsAppend(fs[..k + 1], fs[k + 1..]);
    FieldsPrefix(fs, k);
    FieldsLength(fs, k);
  }

  /** A field that fits is found at its offset, whatever comes before and after the record. */
  lemma FieldAt(fs: seq<Field>, k: nat, before: bytes, after: bytes)
    requires k < |fs| && fs[k].0 < Pow256(fs[k].1)
    ensures |before| + Offset(fs, k) + fs[k].1 <= |before + Fields(fs) + after|
    ensures At(before + Fields(fs) + after, |before| + Offset(fs, k), fs[k].1) == fs[k].0
  {
    hide Fields, Offset, Put, Number;
    FieldSplit(fs, k);
    SliceOfParts(before, Fields(fs[..k]), Put(fs[k].0, fs[k].1), Fields(fs[k + 1..]), after);
    PutReadsBackIff(fs[k].0, fs[k].1);
  }

  lemma SliceOfParts(a: bytes, b: bytes, c: bytes, d: bytes, e: bytes)
    ensures var s := a + (b + c + d) + e;
            var p := |a| + |b|;
            p + |c| <= |s| && s[p..p + |c|] == c
  {
    var s := a + (b + c + d) + e;
    var p := |a| + |b|;
    forall i | 0 <= i < |c| ensures s[p + i] == c[i] {
      assert (b + c + d)[|b| + i] == c[i];
      assert (a + (b + c + d))[p + i] == (b + c + d)[|b| + i];
    }
  }

  /** Changing one number of a record changes its bytes and no others. */
  lemma FieldPatch(fs: seq<Field>, k: nat, x: nat, before: bytes, after: bytes)
    requires k < |fs|
    ensures var n := fs[k].1;
            var p := |before| + Offset(fs, k);
            && p + n <= |before + Fields(fs) + after|
            && Overwrite(before + Fields(fs) + after, p, Put(x, n)) == before + Fields(fs[k := (x, n)]) + after
    ensures Offset(fs[k := (x, fs[k].1)], k) == Offset(fs, k)
  {
    hide Fields, Put;
    var n := fs[k].1;
    var fs' := fs[k := (x, n)];
    FieldSplit(fs, k);
    FieldSplit(fs', k);
    assert fs'[..k] == fs[..k] && fs'[k + 1..] == fs[k + 1..];
    PatchMiddle(before, Fields(fs[..k]), Put(fs[k].0, n), Put(x, n), Fields(fs[k + 1..]), after);
  }

  lemma PatchMiddle(a: bytes, b: bytes, c: bytes, c': bytes, d: bytes, e: bytes)
    requires |c| == |c'|
    ensures |a| + |b| + |c| <= |a + (b + c + d) + e|
    ensures Overwrite(a + (b + c + d) + e, |a| + |b|, c') == a + (b + c' + d) + e
  {
    var s, t := a + (b + c + d) + e, a + (b + c' + d) + e;
    var p := |a| + |b|;
    assert s == (a + b) + c + (d + e) && t == (a + b) + c' + (d + e);
    assert s[..p] == a + b && s[p + |c|..] == d + e;
  }

  /** Write the k-th number of a record to a file whose first k numbers are written. */
  method PutFileField(f: File, ghost fs: seq<Field>, ghost k: nat, x: nat, n: nat, ghost before: bytes)
    requires k < |fs| && fs[k] == (x, n)
    requires f.pos <= |f.data| && f.data[..f.pos] == before + Fields(fs[..k])
    modifies f
    ensures f.pos <= |f.data| && f.data[..f.pos] == before + Fields(fs[..k + 1])
    ensures Grown(old(|f.data|), old(f.pos), |f.data|, f.pos)
  {
    PutValue(f, x, n);
    FieldsPrefix(fs, k);
    Assoc(before, Fields(fs[..k]), Put(x, n));
  }

  /** Store the k-th number of a record in a buffer whose first k numbers are stored. */
  method PutField(dest: array<byte>, ghost fs: seq<Field>, ghost k: nat, off: nat, x: nat, n: nat)
    requires k < |fs| && fs[k] == (x, n) && off == Offset(fs, k) && off + n <= dest.Length
    requires dest[..off] == Fields(fs[..k])
    modifies dest
    ensures dest[..off + n] == Fields(fs[..k + 1])
    ensures off + n == Offset(fs, k + 1)
  {
    PutValueInMemory(dest, off, x, n);
    FieldsPrefix(fs, k);
    assert dest[..off + n] == dest[..][..off + n];
  }
}
