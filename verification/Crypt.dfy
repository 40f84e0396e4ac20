/** Traditional PKWARE encryption (crypt.h) and the zlib checksum. The CRC table is a parameter. */
module Crypt {
  import opened Bytes
  import opened Bits

  /** The CRC-32 table: 256 words of 32 bits. */
  type Table = t: seq<nat> | |t| == 256 && forall i :: 0 <= i < 256 ==> t[i] < TWO_32
    witness seq(256, i => 0)

  function XorByte(a: byte, b: byte): (r: byte)
    ensures r == Xor(a, b)
  {
    Pow2Values();
    XorBound(a, b, 8);
    Xor(a, b)
  }

  /** One table step of the CRC. */
  function CrcStep(tab: Table, c: nat, b: byte): nat {
    Xor(tab[Xor(c, b) % 256], c / 256)
  }

  lemma CrcStepBound(tab: Table, c: nat, b: byte)
    requires c < TWO_32
    ensures CrcStep(tab, c, b) < TWO_32
  {
    Pow2Values();
    XorBound(tab[Xor(c, b) % 256], c / 256, 32);
  }

  const ONES: nat := 0xffff_ffff

  function CrcFold(tab: Table, c: nat, s: bytes): nat
    decreases |s|
  {
    if s == [] then c else CrcFold(tab, CrcStep(tab, c, s[0]), s[1..])
  }

  /** `crc32` of zlib. */
  function Crc32(tab: Table, crc: nat, s: bytes): nat {
    Xor(CrcFold(tab, Xor(crc, ONES), s), ONES)
  }

  lemma {:induction false} CrcFoldAppend(tab: Table, c: nat, a: bytes, b: bytes)
    ensures CrcFold(tab, c, a + b) == CrcFold(tab, CrcFold(tab, c, a), b)
    decreases |a|
  {
    if a == [] {
      assert a + b == b;
    } else {
      assert (a + b)[1..] == a[1..] + b;
      CrcFoldAppend(tab, CrcStep(tab, c, a[0]), a[1..], b);
    }
  }

  /** The checksum can be taken piece by piece. */
  lemma CrcAppend(tab: Table, c: nat, a: bytes, b: bytes)
    ensures Crc32(tab, Crc32(tab, c, a), b) == Crc32(tab, c, a + b)
  {
    CrcFoldAppend(tab, Xor(c, ONES), a, b);
    XorInvolution(CrcFold(tab, Xor(c, ONES), a), ONES);
  }

  lemma {:induction false} CrcFoldBound(tab: Table, c: nat, s: bytes)
    requires c < TWO_32
    ensures CrcFold(tab, c, s) < TWO_32
    decreases |s|
  {
    if s != [] {
      CrcStepBound(tab, c, s[0]);
      CrcFoldBound(tab, CrcStep(tab, c, s[0]), s[1..]);
    }
  }

  lemma CrcBound(tab: Table, c: nat, s: bytes)
    requires c < TWO_32
    ensures Crc32(tab, c, s) < TWO_32
  {
    Pow2Values();
    XorBound(c, ONES, 32);
    CrcFoldBound(tab, Xor(c, ONES), s);
    XorBound(CrcFold(tab, Xor(c, ONES), s), ONES, 32);
  }

  lemma CrcOfNothing(tab: Table, c: nat)
    ensures Crc32(tab, c, []) == c
  {
    XorInvolution(c, ONES);
  }

  // ---------------------------------------------------------------------------------------
  // The key stream
  // ---------------------------------------------------------------------------------------

  /** The three keys; `unsigned long` has 64 bits. */
  datatype Keys = Keys(k0: nat, k1: nat, k2: nat)

  function DecryptByte(k: Keys): byte {
    var temp := Or(k.k2 % 0x1_0000, 2);
    ((temp * Xor(temp, 1)) % TWO_32 / 256) % 256
  }

  /** The next keys after the plain byte `c`. */
  function Update(tab: Table, k: Keys, c: byte): Keys {
    var k0 := CrcStep(tab, k.k0, c);
    var k1 := ((k.k1 + k0 % 256) % TWO_64 * 134775813 + 1) % TWO_64;
    Keys(k0, k1, CrcStep(tab, k.k2, (k1 / 0x100_0000) % 256))
  }

  const SEED: Keys := Keys(305419896, 591751049, 878082192)

  /** The keys after some plain text. */
  function After(tab: Table, k: Keys, plain: bytes): Keys
    decreases |plain|
  {
    if plain == [] then k else After(tab, Update(tab, k, plain[0]), plain[1..])
  }

  function InitKeys(tab: Table, password: bytes): Keys {
    After(tab, SEED, password)
  }

  function Encrypt(tab: Table, k: Keys, plain: bytes): (c: bytes)
    ensures |c| == |plain|
    decreases |plain|
  {
    if plain == [] then []
    else [XorByte(DecryptByte(k), plain[0])] + Encrypt(tab, Update(tab, k, plain[0]), plain[1..])
  }

  function Decrypt(tab: Table, k: Keys, c: bytes): (plain: bytes)
    ensures |plain| == |c|
    decreases |c|
  {
    if c == [] then []
    else
      var b := XorByte(c[0], DecryptByte(k));
      [b] + Decrypt(tab, Update(tab, k, b), c[1..])
  }

  lemma {:induction false} AfterAppend(tab: Table, k: Keys, a: bytes, b: bytes)
    ensures After(tab, k, a + b) == After(tab, After(tab, k, a), b)
    decreases |a|
  {
    if a == [] {
      assert a + b == b;
    } else {
      assert (a + b)[1..] == a[1..] + b;
      AfterAppend(tab, Update(tab, k, a[0]), a[1..], b);
    }
  }

  /** However the plain text is cut into flushes, the cipher text is the same. */
  lemma {:induction false} EncryptAppend(tab: Table, k: Keys, a: bytes, b: bytes)
    ensures Encrypt(tab, k, a + b) == Encrypt(tab, k, a) + Encrypt(tab, After(tab, k, a), b)
    decreases |a|
  {
    hide Update, DecryptByte;
    if a == [] {
      assert a + b == b;
    } else {
      assert (a + b)[1..] == a[1..] + b;
      EncryptAppend(tab, Update(tab, k, a[0]), a[1..], b);
    }
  }

  /** However the cipher text is cut into fetches, the plain text is the same. */
  lemma {:induction false} DecryptAppend(tab: Table, k: Keys, a: bytes, b: bytes)
    ensures Decrypt(tab, k, a + b) == Decrypt(tab, k, a) + Decrypt(tab, After(tab, k, Decrypt(tab, k, a)), b)
    decreases |a|
  {
    hide Update, DecryptByte;
    if a == [] {
      assert a + b == b;
    } else {
      assert (a + b)[1..] == a[1..] + b;
      var p := XorByte(a[0], DecryptByte(k));
      DecryptAppend(tab, Update(tab, k, p), a[1..], b);
      assert Decrypt(tab, k, a)[1..] == Decrypt(tab, Update(tab, k, p), a[1..]);
    }
  }

  lemma {:induction false} DecryptEncrypt(tab: Table, k: Keys, plain: bytes)
    ensures Decrypt(tab, k, Encrypt(tab, k, plain)) == plain
    decreases |plain|
  {
    hide Update, DecryptByte;
    if plain != [] {
      var t := DecryptByte(k);
      var c := Encrypt(tab, k, plain);
      XorSym(t, plain[0]);
      XorInvolution(plain[0], t);
      assert c[1..] == Encrypt(tab, Update(tab, k, plain[0]), plain[1..]);
      DecryptEncrypt(tab, Update(tab, k, plain[0]), plain[1..]);
    }
  }

  lemma {:induction false} XorNothing(a: nat)
    ensures Xor(a, 0) == a
    decreases a
  {
    if a != 0 {
      XorNothing(a / 2);
    }
  }

  /** Only zero leaves a byte as it is. */
  lemma XorSameIff(a: nat, b: nat)
    ensures Xor(a, b) == a <==> b == 0
  {
    hide Xor;
    XorNothing(a);
    XorSym(a, b);
    XorInvolution(b, a);
    XorNothing(0);
    XorSym(0, a);
    XorInvolution(0, a);
  }

  lemma {:induction false} XorSym(a: nat, b: nat)
    ensures Xor(a, b) == Xor(b, a)
    decreases a + b
  {
    if a != 0 || b != 0 {
      XorSym(a / 2, b / 2);
    }
  }

  const HEAD_LEN: nat := 12

  /** The plain text of the encryption header: the random bytes, encrypted once, and two
      bytes of `crc`. */
  function HeadPlain(tab: Table, password: bytes, random: bytes, crc: nat): (h: bytes)
    ensures |h| == |random| + 2
  {
    Encrypt(tab, InitKeys(tab, password), random) + [(crc / 0x1_0000) % 256, (crc / 0x100_0000) % 256]
  }

  function Head(tab: Table, password: bytes, random: bytes, crc: nat): (h: bytes)
    ensures |h| == |random| + 2
  {
    Encrypt(tab, InitKeys(tab, password), HeadPlain(tab, password, random, crc))
  }

  /** The keys the writer has after the header. */
  function KeysAfterHead(tab: Table, password: bytes, random: bytes, crc: nat): Keys {
    After(tab, InitKeys(tab, password), HeadPlain(tab, password, random, crc))
  }

  /** A reader that knows the password has the writer's keys after the header, and recovers
      every later byte, with whatever follows. */
  lemma ReaderInverts(tab: Table, password: bytes, random: bytes, crc: nat, plain: bytes, tail: bytes)
    ensures var head := Head(tab, password, random, crc);
            var k := After(tab, InitKeys(tab, password), Decrypt(tab, InitKeys(tab, password), head));
            && k == KeysAfterHead(tab, password, random, crc)
            && Decrypt(tab, k, Encrypt(tab, k, plain) + tail)[..|plain|] == plain
  {
    var k0 := InitKeys(tab, password);
    DecryptEncrypt(tab, k0, HeadPlain(tab, password, random, crc));
    var k := KeysAfterHead(tab, password, random, crc);
    DecryptEncrypt(tab, k, plain);
    DecryptAppend(tab, k, Encrypt(tab, k, plain), tail);
  }

  // ---------------------------------------------------------------------------------------
  // The functions of crypt.h, on a key array
  // ---------------------------------------------------------------------------------------

  function KeysOf(a: array<nat>): Keys
    requires a.Length == 3
    reads a
  {
    Keys(a[0], a[1], a[2])
  }

  method UpdateKeys(pkeys: array<nat>, tab: Table, c: byte)
    requires pkeys.Length == 3
    modifies pkeys
    ensures KeysOf(pkeys) == Update(tab, old(KeysOf(pkeys)), c)
  {
    pkeys[0] := CrcStep(tab, pkeys[0], c);
    pkeys[1] := (pkeys[1] + pkeys[0] % 256) % TWO_64;
    pkeys[1] := (pkeys[1] * 134775813 + 1) % TWO_64;
    var keyshift := pkeys[1] / 0x100_0000;
    pkeys[2] := CrcStep(tab, pkeys[2], keyshift % 256);
  }

  method SetKeys(passwd: bytes, pkeys: array<nat>, tab: Table)
    requires pkeys.Length == 3
    modifies pkeys
    ensures KeysOf(pkeys) == InitKeys(tab, passwd)
  {
    hide Update;
    pkeys[0], pkeys[1], pkeys[2] := SEED.k0, SEED.k1, SEED.k2;
    assert passwd[..0] == [];
    for i := 0 to |passwd|
      invariant KeysOf(pkeys) == After(tab, SEED, passwd[..i])
    {
      assert passwd[..i + 1] == passwd[..i] + [passwd[i]];
      AfterAppend(tab, SEED, passwd[..i], [passwd[i]]);
      AfterOne(tab, KeysOf(pkeys), passwd[i]);
      UpdateKeys(pkeys, tab, passwd[i]);
    }
    assert passwd[..|passwd|] == passwd;
  }

  lemma AfterOne(tab: Table, k: Keys, c: byte)
    ensures After(tab, k, [c]) == Update(tab, k, c)
  {
    assert [c][1..] == [];
    assert After(tab, Update(tab, k, c), [c][1..]) == Update(tab, k, c);
  }

  method Zencode(pkeys: array<nat>, tab: Table, c: byte) returns (r: byte)
    requires pkeys.Length == 3
    modifies pkeys
    ensures r == XorByte(DecryptByte(old(KeysOf(pkeys))), c)
    ensures KeysOf(pkeys) == Update(tab, old(KeysOf(pkeys)), c)
  {
    var t := DecryptByte(KeysOf(pkeys));
    UpdateKeys(pkeys, tab, c);
    r := XorByte(t, c);
  }

  method Zdecode(pkeys: array<nat>, tab: Table, c: byte) returns (r: byte)
    requires pkeys.Length == 3
    modifies pkeys
    ensures r == XorByte(c, DecryptByte(old(KeysOf(pkeys))))
    ensures KeysOf(pkeys) == Update(tab, old(KeysOf(pkeys)), r)
  {
    r := XorByte(c, DecryptByte(KeysOf(pkeys)));
    UpdateKeys(pkeys, tab, r);
  }

  lemma EncryptMore(tab: Table, k: Keys, s: bytes, i: nat)
    requires i < |s|
    ensures Encrypt(tab, k, s[..i + 1]) == Encrypt(tab, k, s[..i]) + [XorByte(DecryptByte(After(tab, k, s[..i])), s[i])]
    ensures After(tab, k, s[..i + 1]) == Update(tab, After(tab, k, s[..i]), s[i])
  {
    hide Update, DecryptByte;
    assert s[..i + 1] == s[..i] + [s[i]];
    EncryptAppend(tab, k, s[..i], [s[i]]);
    AfterAppend(tab, k, s[..i], [s[i]]);
    AfterOne(tab, After(tab, k, s[..i]), s[i]);
    EncryptOne(tab, After(tab, k, s[..i]), s[i]);
  }

  lemma EncryptOne(tab: Table, k: Keys, c: byte)
    ensures Encrypt(tab, k, [c]) == [XorByte(DecryptByte(k), c)]
    ensures Decrypt(tab, k, [c]) == [XorByte(c, DecryptByte(k))]
  {
    hide Update, DecryptByte;
    assert [c][1..] == [];
  }

  lemma DecryptMore(tab: Table, k: Keys, s: bytes, i: nat)
    requires i < |s|
    ensures var keys := After(tab, k, Decrypt(tab, k, s[..i]));
            var b := XorByte(s[i], DecryptByte(keys));
            && Decrypt(tab, k, s[..i + 1]) == Decrypt(tab, k, s[..i]) + [b]
            && After(tab, k, Decrypt(tab, k, s[..i + 1])) == Update(tab, keys, b)
  {
    hide Update, DecryptByte;
    var keys := After(tab, k, Decrypt(tab, k, s[..i]));
    var b := XorByte(s[i], DecryptByte(keys));
    assert s[..i + 1] == s[..i] + [s[i]];
    DecryptAppend(tab, k, s[..i], [s[i]]);
    EncryptOne(tab, keys, s[i]);
    AfterAppend(tab, k, Decrypt(tab, k, s[..i]), [b]);
    AfterOne(tab, keys, b);
  }

  /** Encrypt the first `n` bytes of a buffer in place, as `zipFlushWriteBuffer` does. */
  method EncodeBuffer(buf: array<byte>, n: nat, pkeys: array<nat>, tab: Table)
    requires n <= buf.Length && pkeys.Length == 3
    modifies buf, pkeys
    ensures buf[..n] == Encrypt(tab, old(KeysOf(pkeys)), old(buf[..n]))
    ensures KeysOf(pkeys) == After(tab, old(KeysOf(pkeys)), old(buf[..n]))
    ensures buf[n..] == old(buf[n..])
  {
    hide Update, DecryptByte, Encrypt, After;
    ghost var k, s := KeysOf(pkeys), buf[..n];
    EncryptNothing(tab, k, s);
    for i := 0 to n
      invariant buf[..i] == Encrypt(tab, k, s[..i])
      invariant KeysOf(pkeys) == After(tab, k, s[..i])
      invariant buf[i..n] == s[i..] && buf[n..] == old(buf[n..])
    {
      EncryptMore(tab, k, s, i);
      assert buf[i] == s[i];
      buf[i] := Zencode(pkeys, tab, buf[i]);
      assert buf[i + 1..n] == s[i + 1..];
    }
    assert s[..n] == s;
  }

  lemma EncryptNothing(tab: Table, k: Keys, s: bytes)
    ensures Encrypt(tab, k, s[..0]) == [] && Decrypt(tab, k, s[..0]) == [] && After(tab, k, []) == k
    ensures After(tab, k, s[..0]) == k
  {
    assert s[..0] == [];
  }

  /** Decrypt the first `n` bytes of a buffer in place, as `unzReadCurrentFile` does. */
  method DecodeBuffer(buf: array<byte>, n: nat, pkeys: array<nat>, tab: Table)
    requires n <= buf.Length && pkeys.Length == 3
    modifies buf, pkeys
    ensures buf[..n] == Decrypt(tab, old(KeysOf(pkeys)), old(buf[..n]))
    ensures KeysOf(pkeys) == After(tab, old(KeysOf(pkeys)), buf[..n])
  {
    hide Update, DecryptByte, Decrypt, After;
    ghost var k, s := KeysOf(pkeys), buf[..n];
    EncryptNothing(tab, k, s);
    for i := 0 to n
      invariant buf[..i] == Decrypt(tab, k, s[..i])
      invariant KeysOf(pkeys) == After(tab, k, Decrypt(tab, k, s[..i]))
      invariant buf[i..n] == s[i..]
    {
      DecryptMore(tab, k, s, i);
      assert buf[i] == s[i];
      buf[i] := Zdecode(pkeys, tab, buf[i]);
      assert buf[i + 1..n] == s[i + 1..];
    }
    assert s[..n] == s;
  }

  /** `crypthead`: the random bytes are those `rand()` gave. */
  method CryptHead(passwd: bytes, random: bytes, pkeys: array<nat>, tab: Table, crc: nat) returns (buf: array<byte>)
    requires |random| == HEAD_LEN - 2 && pkeys.Length == 3
    modifies pkeys
    ensures fresh(buf) && buf[..] == Head(tab, passwd, random, crc)
    ensures KeysOf(pkeys) == KeysAfterHead(tab, passwd, random, crc)
  {
    hide Encrypt, After;
    var header := new byte[HEAD_LEN](i requires 0 <= i < HEAD_LEN => if i < |random| then random[i] else 0);
    assert header[..HEAD_LEN - 2] == random;
    SetKeys(passwd, pkeys, tab);
    EncodeBuffer(header, HEAD_LEN - 2, pkeys, tab);
    header[HEAD_LEN - 2] := (crc / 0x1_0000) % 256;
    header[HEAD_LEN - 1] := (crc / 0x100_0000) % 256;
    assert header[..HEAD_LEN] == HeadPlain(tab, passwd, random, crc);
    SetKeys(passwd, pkeys, tab);
    EncodeBuffer(header, HEAD_LEN, pkeys, tab);
    assert header[..] == header[..HEAD_LEN];
    buf := header;
  }
}
