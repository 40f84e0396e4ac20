/** Archives on which the reader does not do what one would expect: on one handle a plain entry
    behind an encrypted one is decrypted with the keys left over, and a search that fails in
    an archive with too high a count leaves the current file unusable. */
module ZipExamples {
  import opened Bits
  import opened Bytes
  import opened ZipNumbers
  import opened ZipSearch
  import opened Crypt
  import opened ZipLayout
  import opened ZipParse
  import opened ZipWriter
  import opened ZipEntryReader
  import opened Unzip
  import opened ZipRoundTrip

  /** A table with which the keys soon stop depending on anything. */
  function FlatTable(): (t: Table)
    ensures forall i :: 0 <= i < 256 ==> t[i] == 255
  {
    seq(256, i => 255)
  }

  function PlainEntry(name: bytes, content: bytes, password: Option<bytes>): Entry {
    Entry(name, [], [], [], 0, 0, 0, 0, password, seq(HEAD_LEN - 2, i => 0), false, content)
  }

  /** An empty encrypted entry, then a plain one of one zero byte. */
  function GarbledEntries(): seq<Entry> {
    [PlainEntry([97], [], Some([112])), PlainEntry([98], [0], None)]
  }

  /** Four steps shift out whatever the third key was, and then it stays. */
  lemma FlatSettles(x: nat)
    requires x < TWO_32
    ensures Xor(255, Xor(255, Xor(255, Xor(255, x / 256) / 256) / 256) / 256) == 255
  {
    hide Xor;
    Pow2Values();
    XorBound(255, x / 256, 24);
    var x1 := Xor(255, x / 256);
    XorBound(255, x1 / 256, 16);
    var x2 := Xor(255, x1 / 256);
    XorBound(255, x2 / 256, 8);
    XorNothing(255);
  }

  lemma FlatStep(k: Keys, b: byte)
    ensures Update(FlatTable(), k, b).k2 == Xor(255, k.k2 / 256)
  {
    hide Xor;
  }

  lemma {:induction false} FlatStays(k: Keys, s: bytes)
    requires k.k2 == 255
    ensures After(FlatTable(), k, s).k2 == 255
    decreases |s|
  {
    hide Update, Xor;
    if s != [] {
      FlatStep(k, s[0]);
      XorNothing(255);
      FlatStays(Update(FlatTable(), k, s[0]), s[1..]);
    }
  }

  lemma FlatAfter(k: Keys, s: bytes)
    requires |s| >= 4 && k.k2 < TWO_32
    ensures After(FlatTable(), k, s).k2 == 255
  {
    hide Update, Xor;
    var tab := FlatTable();
    FlatSettles(k.k2);
    var k1 := Update(tab, k, s[0]);
    var k2 := Update(tab, k1, s[1]);
    var k3 := Update(tab, k2, s[2]);
    var k4 := Update(tab, k3, s[3]);
    FlatStep(k, s[0]);
    FlatStep(k1, s[1]);
    FlatStep(k2, s[2]);
    FlatStep(k3, s[3]);
    assert After(tab, k, s) == After(tab, k1, s[1..]);
    assert After(tab, k1, s[1..]) == After(tab, k2, s[1..][1..]);
    assert s[1..][1..] == s[2..] && s[2..][1..] == s[3..] && s[3..][1..] == s[4..];
    FlatStays(k4, s[4..]);
  }

  lemma {:induction false} ThirdKeyBound(tab: Table, k: Keys, s: bytes)
    requires k.k2 < TWO_32
    ensures After(tab, k, s).k2 < TWO_32
    decreases |s|
  {
    hide CrcStep;
    if s != [] {
      var k1 := ((k.k1 + CrcStep(tab, k.k0, s[0]) % 256) % TWO_64 * 134775813 + 1) % TWO_64;
      CrcStepBound(tab, k.k2, (k1 / 0x100_0000) % 256);
      ThirdKeyBound(tab, Update(tab, k, s[0]), s[1..]);
    }
  }

  lemma OrStep(a: nat, b: nat)
    requires a > 0
    ensures Or(a, b) == 2 * Or(a / 2, b / 2) + if a % 2 + b % 2 > 0 then 1 else 0
  {
  }

  lemma FlatByte()
    ensures Or(255, 2) == 255 && Xor(255, 1) == 254
  {
    hide Or, Xor;
    OrNothing(63);
    OrStep(127, 1);
    OrStep(255, 2);
    XorNothing(127);
    XorUnfold(255, 1);
  }

  lemma FlatDecrypts(k: Keys)
    requires k.k2 == 255
    ensures Decrypt(FlatTable(), k, [0]) == [253]
  {
    hide Decrypt, Update, Or, Xor;
    FlatByte();
    assert DecryptByte(k) == 253;
    XorNothing(253);
    XorSym(253, 0);
    EncryptOne(FlatTable(), k, 0);
  }

  lemma PlainLengths(tab: Table, e: Entry, offset: nat)
    requires !HasDescriptor(e)
    ensures |LocalRecord(tab, e)| == LOCAL_SIZE + |e.name| + |e.localExtra| + HeadSize(e) + |e.content|
    ensures |CentralHeader(e, SizesOf(tab, e), offset)| == CENTRAL_SIZE + |e.name| + |e.globalExtra| + |e.comment|
  {
    hide LocalHeader, CentralHeader, SizesOf, HeadBytes, Sealed;
    HeaderLengths(e, SizesOf(tab, e), offset);
  }

  /** How long the archive of the two entries is, and that it can be found. */
  lemma GarbledReadable()
    ensures Readable(FlatTable(), [], GarbledEntries(), [])
  {
    hide Records, Central, EndRecord, LocalRecord, CentralHeader, SizesOf, NoLaterSignature, FlatTable;
    var tab, es := FlatTable(), GarbledEntries();
    EmptyArchive(tab);
    assert es[..0] == [] && es[..2] == es;
    SplitRecords(tab, es, 0);
    SplitRecords(tab, es, 1);
    PlainLengths(tab, es[0], 0);
    PlainLengths(tab, es[1], |Records(tab, es[..1])|);
    assert |Records(tab, es)| == 75 && |Central(tab, es)| == 94;
    SmallEnd(Records(tab, es) + Central(tab, es), 2, 94, 75);
    assert [] + Archive(tab, es, []) == Archive(tab, es, []);
  }

  /** No byte of a small end record but the first is that of the signature. */
  lemma SmallEnd(before: bytes, n: nat, size: nat, offset: nat)
    requires n < 80 && size < 256 && size != 80 && offset < 80
    ensures NoLaterSignature(before + EndRecord(n, size, offset, []), |before|)
  {
    hide At, EndRecord, Records;
    var data, p := before + EndRecord(n, size, offset, []), |before|;
    EndNumbers(data, before, n, size, offset, []);
    SigIsMagic(data, p);
    NumberOfTwo(data, p + 4);
    NumberOfTwo(data, p + 6);
    NumberOfTwo(data, p + 8);
    NumberOfTwo(data, p + 10);
    NumberOfFour(data, p + 12);
    NumberOfFour(data, p + 16);
    NumberOfTwo(data, p + 20);
  }

  lemma GarbledKeys(data: bytes, reqs: seq<Request>)
    requires |reqs| == 2
    ensures var h := KeysAt(FlatTable(), data, [], GarbledEntries(), reqs, 1);
            h.Some? && h.value.k2 == 255
  {
    hide After, SourceOf, Encrypt, Records;
    var tab, es := FlatTable(), GarbledEntries();
    var e := es[0];
    ThirdKeyBound(tab, SEED, e.password.value);
    FlatAfter(InitKeys(tab, e.password.value), HeadPlain(tab, e.password.value, e.random, CrcForCrypting(e)));
    NothingFetched(tab, ContentKeys(tab, e), SourceOf(tab, data, [], es, 0, None));
    assert AskedFor(e, reqs[0]) == 0;
    assert KeysAt(tab, data, [], es, reqs, 0).None?;
    assert KeysAt(tab, data, [], es, reqs, 1) == KeysLeft(tab, data, [], es, 0, None, reqs[0]);
  }

  lemma NothingFetched(tab: Table, k: Keys, source: bytes)
    ensures FetchedFor(0, HEAD_LEN) == 0 && After(tab, k, source[..0]) == k
  {
    assert source[..0] == [];
  }

  /** Reading the two entries on one handle gives 253 for the zero byte. */
  method GarbledExample(f: File) returns (got: seq<Got>)
    requires f.data == [] && f.pos == 0
    modifies f
    ensures f.data == Archive(FlatTable(), GarbledEntries(), [])
    ensures |got| == 2 && GarbledEntries()[1].content == [0] && got[1].data == [253]
  {
    hide Archive, ArchiveFits, Records, Central, Decrypt, KeysAt, Expected, NoLaterSignature, CString, SourceOf;
    var tab, es := FlatTable(), GarbledEntries();
    var jobs := [Job(es[0], []), Job(es[1].(content := []), [[0]])];
    var reqs := [Request(es[0].password, [1]), Request(None, [1])];
    GarbledJobs(jobs);
    GarbledReadable();
    got := WriteThenRead(f, tab, jobs, [], reqs);
    GarbledKeys(f.data, reqs);
    ghost var h := KeysAt(tab, f.data, [], es, reqs, 1);
    assert [] + Archive(tab, es, []) == Archive(tab, es, []);
    ReadsContent(f.data, tab, [], es, [], 1, h);
    FlatDecrypts(h.value);
    assert AskedFor(es[1], reqs[1]) == 1;
    assert SourceOf(tab, f.data, [], es, 1, h)[..1] == [253];
  }

  lemma GarbledJobs(jobs: seq<Job>)
    requires jobs == [Job(GarbledEntries()[0], []), Job(GarbledEntries()[1].(content := []), [[0]])]
    ensures JobsOk(jobs) && AllMade(jobs) == GarbledEntries() && CString([]) == []
  {
    var pieces: seq<bytes> := [[0]];
    assert pieces[1..] == [] && Concat(pieces) == [0];
    assert Made(jobs[0]) == GarbledEntries()[0];
    assert Made(jobs[1]) == GarbledEntries()[1];
  }

  // ---------------------------------------------------------------------------------------
  // Too high a count
  // ---------------------------------------------------------------------------------------

  /** An archive whose end record claims `n` entries. */
  function Miscounted(tab: Table, es: seq<Entry>, n: nat): bytes {
    Records(tab, es) + Central(tab, es) + EndRecord(n, |Central(tab, es)|, |Records(tab, es)|, [])
  }

  ghost predicate MiscountFits(tab: Table, es: seq<Entry>, n: nat) {
    && AllFit(es) && es != [] && |Records(tab, es)| < TWO_32 && |Central(tab, es)| < TWO_32 && n < 0x1_0000
    && NoLaterSignature(Miscounted(tab, es, n), EndPos(tab, es))
  }

  /** What opening such an archive finds. */
  lemma MiscountedOpens(tab: Table, es: seq<Entry>, n: nat, pos: nat)
    requires MiscountFits(tab, es, n) && IsLastSig(Miscounted(tab, es, n), pos)
    ensures pos == EndPos(tab, es)
    ensures ParseEnd(Miscounted(tab, es, n), pos)
         == Some(EndInfo(pos, n, |Central(tab, es)|, |Records(tab, es)|, 0))
    ensures !HeaderAt(Miscounted(tab, es, n), pos)
  {
    hide Records, Central, EndRecord, IsLastSig, NoLaterSignature;
    var data, before := Miscounted(tab, es, n), Records(tab, es) + Central(tab, es);
    EndNumbers(data, before, n, |Central(tab, es)|, |Records(tab, es)|, []);
    SigIsMagic(data, |before|);
    LastIsEnd(data, |before|, pos);
    PrefixLengths(tab, es, |es| - 1);
    EndParses(before, n, |Central(tab, es)|, |Records(tab, es)|, []);
    EndIsNoHeader(data, before, n, |Central(tab, es)|, |Records(tab, es)|, []);
  }

  lemma LastIsEnd(data: bytes, p: nat, pos: nat)
    requires |data| == p + END_SIZE && SigAt(data, p) && NoLaterSignature(data, p) && IsLastSig(data, pos)
    ensures pos == p
  {
    assert IsLastSig(data, p);
    LastSigUnique(data, pos, p);
  }

  /** With too high a count the walk breaks behind the last header. */
  lemma MiscountedBreaks(tab: Table, es: seq<Entry>, n: nat, e: EndInfo)
    requires MiscountFits(tab, es, n) && |es| < n
    requires e == EndInfo(EndPos(tab, es), n, |Central(tab, es)|, |Records(tab, es)|, 0)
    requires !HeaderAt(Miscounted(tab, es, n), EndPos(tab, es))
    ensures WalkBreaks(Miscounted(tab, es, n), e, 0)
  {
    hide Records, Central, EndRecord, HeaderAt, LengthAt, NameCut, NameIs, CentralPos, NoLaterSignature;
    var data, k := Miscounted(tab, es, n), |es| - 1;
    var last := EndRecord(n, |Central(tab, es)|, |Records(tab, es)|, []);
    assert data == [] + (Records(tab, es) + Central(tab, es) + last);
    WalkOnDirectory(data, tab, [], es, last, e, k);
    HeaderOfEntry(data, tab, [], es, last, k);
    NameIsKnown(data, tab, [], es, last, k, Wanted([], false));
    EndOfDirectory(tab, es);
    assert BreaksBehind(data, e, 0, k);
  }

  lemma EndOfDirectory(tab: Table, es: seq<Entry>)
    ensures CentralPos(tab, es, |es|) == EndPos(tab, es)
  {
    assert es[..|es|] == es;
  }

  /** A search for a name that is not there leaves the current file unusable, though it was
      usable before, and the position is that of before. */
  method LoseCurrent(f: File, tab: Table, name: Wanted, ghost es: seq<Entry>, ghost n: nat)
    returns (u: UnzFile?, ghost was: bool, ok: bool)
    requires MiscountFits(tab, es, n) && |es| < n && f.data == Miscounted(tab, es, n)
    requires |CString(name.name)| < MAX_FILENAME && forall e <- es :: !Matches(KnownName(e), name)
    modifies f`pos
    ensures u != null && was && !ok && !u.currentFileOk
    ensures u.numFile == 0 && u.posInCentralDir == u.end.offset
  {
    hide Records, Central, EndRecord, IsLastSig, ParseEnd, ParseCentral, CentralPos, NoLaterSignature, NameIs;
    hide EntryReader.Valid, UnzFile.Valid, WalkBreaks, WalkPos, KnownName, NameCut, Matches, CString;
    ghost var pos;
    u, pos := OpenArchive(f, tab);
    MiscountedOpens(tab, es, n, pos);
    MiscountedBreaks(tab, es, n, u.end);
    ghost var last := EndRecord(n, |Central(tab, es)|, |Records(tab, es)|, []);
    assert f.data == [] + (Records(tab, es) + Central(tab, es) + last);
    FirstHeader(f.data, tab, es, last);
    was := u.currentFileOk;
    ok := u.LocateFile(name);
    if ok {
      WalkOnDirectory(f.data, tab, [], es, last, u.end, u.numFile);
      NameIsKnown(f.data, tab, [], es, last, u.numFile, name);
    }
  }

  lemma FirstHeader(data: bytes, tab: Table, es: seq<Entry>, last: bytes)
    requires AllFit(es) && es != [] && |Records(tab, es)| < TWO_32
    requires data == [] + (Records(tab, es) + Central(tab, es) + last)
    ensures HeaderAt(data, |Records(tab, es)|)
  {
    hide Records, Central, HeaderAt, LengthAt;
    EmptyArchive(tab);
    assert es[..0] == [];
    HeaderOfEntry(data, tab, [], es, last, 0);
  }

  /** Such an archive: one entry, and a count of two. */
  lemma MiscountedExample()
    ensures MiscountFits(FlatTable(), GarbledEntries()[1..], 2)
  {
    hide Records, Central, EndRecord, LocalRecord, CentralHeader, SizesOf, NoLaterSignature, FlatTable;
    var tab, es := FlatTable(), GarbledEntries()[1..];
    EmptyArchive(tab);
    assert es[..0] == [] && es[..1] == es;
    SplitRecords(tab, es, 0);
    PlainLengths(tab, es[0], 0);
    SmallEnd(Records(tab, es) + Central(tab, es), 2, 47, 32);
  }
}
