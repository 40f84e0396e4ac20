/** What fixes the checksum and the key stream beyond their being inverted: the bits of the
    operators, the checksum of one byte, and the first keys and bytes. */
module CryptExamples {
  import opened Bytes
  import opened Bits
  import opened Crypt

  function Bit(a: nat, i: nat): (b: nat)
    ensures b < 2
  {
    if i == 0 then a % 2 else Bit(a / 2, i - 1)
  }

  /** Every bit of the results is that of the truth tables. */
  lemma {:induction false} OperatorBits(a: nat, b: nat, i: nat)
    ensures Bit(Xor(a, b), i) == 1 <==> Bit(a, i) != Bit(b, i)
    ensures Bit(Or(a, b), i) == 1 <==> Bit(a, i) == 1 || Bit(b, i) == 1
    ensures Bit(And(a, b), i) == 1 <==> Bit(a, i) == 1 && Bit(b, i) == 1
  {
    hide Xor, Or, And;
    XorUnfold(a, b);
    OrUnfold(a, b);
    AndUnfold(a, b);
    if i > 0 {
      OperatorBits(a / 2, b / 2, i - 1);
    }
  }

  lemma OrUnfold(a: nat, b: nat)
    ensures Or(a, b) / 2 == Or(a / 2, b / 2)
    ensures Or(a, b) % 2 == 1 <==> a % 2 == 1 || b % 2 == 1
  {
  }

  lemma AndUnfold(a: nat, b: nat)
    ensures And(a, b) / 2 == And(a / 2, b / 2)
    ensures And(a, b) % 2 == 1 <==> a % 2 == 1 && b % 2 == 1
  {
    if a == 0 {
      AndZero(a, b);
      AndZero(a / 2, b / 2);
    }
  }

  lemma XorOdd(a: nat, m: nat)
    ensures Xor(a, 2 * m + 1) == 2 * Xor(a / 2, m) + (1 - a % 2)
  {
    hide Xor;
    XorUnfold(a, 2 * m + 1);
  }

  /** Exclusive or with ones turns the bits under them. */
  lemma {:induction false} XorOnes(a: nat, n: nat)
    ensures Xor(a, Pow2(n) - 1) == a - a % Pow2(n) + (Pow2(n) - 1 - a % Pow2(n))
    decreases n
  {
    hide Xor;
    if n == 0 {
      XorNothing(a);
    } else {
      var p := Pow2(n - 1);
      XorOnes(a / 2, n - 1);
      Halve(a, p);
      XorOdd(a, p - 1);
    }
  }

  /** The checksum of one byte is the word of the table for its complement, with the first
      eight bits complemented: for "a" and 0x17b7be43 it is 0xe8b7be43. */
  lemma CrcOfOne(tab: Table, b: byte)
    ensures var t := tab[255 - b];
            Crc32(tab, 0, [b]) == (255 - t / 0x100_0000) * 0x100_0000 + t % 0x100_0000
  {
    hide Xor, CrcStep;
    var t := tab[255 - b];
    Pow2Values();
    XorOnes(0, 32);
    CrcFirstStep(tab, b);
    var c := t - t % 0x100_0000 + (0xff_ffff - t % 0x100_0000);
    XorOnes(c, 32);
    assert [b][1..] == [];
    assert CrcFold(tab, 0xffff_ffff, [b]) == CrcFold(tab, c, []);
  }

  lemma CrcFirstStep(tab: Table, b: byte)
    ensures var t := tab[255 - b];
            CrcStep(tab, 0xffff_ffff, b) == t - t % 0x100_0000 + (0xff_ffff - t % 0x100_0000)
  {
    hide Xor;
    Pow2Values();
    assert Pow2(24) == 0x100_0000 by { assert Pow2(20) == 0x10_0000; }
    XorOnes(b, 32);
    XorSym(b, 0xffff_ffff);
    XorOnes(tab[255 - b], 24);
    assert (0xffff_ffff - b) % 256 == 255 - b && (0xffff_ffff - b) / 256 == 0xff_ffff;
  }

  /** The keys without a password, and the first byte of their key stream. */
  lemma FirstKeys(tab: Table)
    ensures InitKeys(tab, []) == Keys(0x1234_5678, 0x2345_6789, 0x3456_7890)
    ensures DecryptByte(InitKeys(tab, [])) == 0xab
    ensures Encrypt(tab, InitKeys(tab, []), [0]) == [0xab]
  {
    hide Xor, DecryptByte, Encrypt;
    assert InitKeys(tab, []) == Keys(0x1234_5678, 0x2345_6789, 0x3456_7890);
    FirstByte(InitKeys(tab, []));
    XorNothing(0xab);
    EncryptOne(tab, InitKeys(tab, []), 0);
  }

  lemma FirstByte(k: Keys)
    requires k.k2 == 0x3456_7890
    ensures DecryptByte(k) == 0xab
  {
    hide Xor, Or;
    OrUnfold(0x7890, 2);
    OrUnfold(0x3c48, 1);
    OrNothing(0x1e24);
    assert Or(0x7890, 2) == 0x7892;
    XorUnfold(0x7892, 1);
    XorNothing(0x3c49);
    assert Xor(0x7892, 1) == 0x7893;
  }

  /** Every byte of the password updates the keys, the first one first. */
  lemma PasswordKeys(tab: Table, password: bytes, c: byte)
    ensures InitKeys(tab, password + [c]) == Update(tab, InitKeys(tab, password), c)
  {
    hide Update;
    AfterAppend(tab, SEED, password, [c]);
    AfterOne(tab, InitKeys(tab, password), c);
  }

  /** What a byte does to keys of zeros, and to a second key that wraps around at 64 bits. */
  lemma KeysFromZero(tab: Table, c: byte)
    ensures var t := tab[c];
            var k1 := t % 256 * 134775813 + 1;
            Update(tab, Keys(0, 0, 0), c) == Keys(t, k1, tab[k1 / 0x100_0000 % 256])
    ensures tab[c] % 256 == 1 ==> Update(tab, Keys(0, 0xffff_ffff_ffff_ffff, 0), c) == Keys(tab[c], 1, tab[0])
  {
    hide Xor, CrcStep;
    ZeroStep(tab, c);
    ZeroStep(tab, (tab[c] % 256 * 134775813 + 1) / 0x100_0000 % 256);
    ZeroStep(tab, 0);
  }

  lemma ZeroStep(tab: Table, c: byte)
    ensures CrcStep(tab, 0, c) == tab[c]
  {
    hide Xor;
    XorNothing(c);
    XorSym(0, c);
    XorNothing(tab[c]);
  }

  /** What the encryption header holds for who knows the password: ten bytes that are the
      random ones encrypted once, and the third and fourth byte of the checksum. */
  lemma HeadHolds(tab: Table, password: bytes, random: bytes, crc: nat) returns (h: bytes)
    requires |random| == 10
    ensures |h| == 12 && h[10] == crc / 0x1_0000 % 256 && h[11] == crc / 0x100_0000 % 256
    ensures Decrypt(tab, InitKeys(tab, password), h[..10]) == random
    ensures h == Decrypt(tab, InitKeys(tab, password), Head(tab, password, random, crc))
  {
    hide Encrypt, Decrypt, InitKeys;
    var k := InitKeys(tab, password);
    DecryptEncrypt(tab, k, HeadPlain(tab, password, random, crc));
    DecryptEncrypt(tab, k, random);
    h := HeadPlain(tab, password, random, crc);
    assert h[..10] == Encrypt(tab, k, random);
  }
}
