/** The archive format as zip.c writes it: PKWARE APPNOTE.TXT sections 4.3.7 (local header),
    4.3.9 (data descriptor), 4.3.12 (central directory), 4.3.16 (end record) and 6.1. */
module ZipLayout {
  import opened Bytes
  import opened ZipNumbers
  import opened Crypt

  /** The random bytes drawn for an encryption header. */
  type Random = r: bytes | |r| == HEAD_LEN - 2 witness seq(HEAD_LEN - 2, i => 0)

  /** A stored (method 0) entry: what the caller of zipOpenNewFileInZip3 passes, the random
      bytes drawn for its encryption header, and the bytes written into it. `descriptor` is
      the ZIP_WRITE_DATA_DESCRIPTOR flag of the archive at that time. */
  datatype Entry = Entry(
    name: bytes, localExtra: bytes, globalExtra: bytes, comment: bytes,
    level: nat, date: nat, internalFa: nat, externalFa: nat,
    password: Option<bytes>, random: Random, descriptor: bool, content: bytes)

  /** The entry fits the widths of the format. */
  predicate Fits(e: Entry) {
    && |e.name| < 0x1_0000 && |e.localExtra| < 0x1_0000
    && |e.globalExtra| < 0x1_0000 && |e.comment| < 0x1_0000
    && e.date < TWO_32 && e.internalFa < 0x1_0000 && e.externalFa < TWO_32
    && |e.content| + HEAD_LEN < TWO_32
  }

  const VERSION_MADE_BY: nat := 0x031e
  const LOCAL_MAGIC: nat := 0x04034b50
  const DESCRIPTOR_MAGIC: nat := 0x08074b50
  const CENTRAL_MAGIC: nat := 0x02014b50
  const END_MAGIC: nat := 0x06054b50

  const LOCAL_SIZE: nat := 30
  const CENTRAL_SIZE: nat := 46
  const END_SIZE: nat := 22

  function VersionNeeded(e: Entry): nat {
    if e.level == 0 || !e.descriptor then 10 else 20
  }

  predicate HasDescriptor(e: Entry) {
    VersionNeeded(e) >= 20 && e.descriptor
  }

  /** The general purpose flags; their bits are disjoint. */
  function Flag(e: Entry): (f: nat)
    ensures f < 16
    ensures (f / 8) % 2 == 1 <==> HasDescriptor(e)
    ensures f % 2 == 1 <==> e.password.Some?
  {
    (if e.level == 8 || e.level == 9 then 2 else if e.level == 2 then 4 else if e.level == 1 then 6 else 0)
    + (if e.password.Some? then 1 else 0)
    + (if HasDescriptor(e) then 8 else 0)
  }

  /** Numbers that are known only when the entry is closed. */
  datatype Sizes = Sizes(crc: nat, compressed: nat, uncompressed: nat)

  const UNKNOWN: Sizes := Sizes(0, 0, 0)

  function HeadSize(e: Entry): nat {
    if e.password.Some? then HEAD_LEN else 0
  }

  function SizesOf(tab: Table, e: Entry): Sizes {
    Sizes(Crc32(tab, 0, e.content), |e.content| + HeadSize(e), |e.content|)
  }

  function LocalFields(e: Entry, z: Sizes): seq<Field> {
    [(LOCAL_MAGIC, 4), (VersionNeeded(e), 2), (Flag(e), 2), (0, 2), (e.date, 4),
     (z.crc, 4), (z.compressed, 4), (z.uncompressed, 4), (|e.name|, 2), (|e.localExtra|, 2)]
  }

  function LocalHeader(e: Entry, z: Sizes): bytes {
    Fields(LocalFields(e, z)) + e.name + e.localExtra
  }

  function CentralFields(e: Entry, z: Sizes, offset: nat): seq<Field> {
    [(CENTRAL_MAGIC, 4), (VERSION_MADE_BY, 2), (VersionNeeded(e), 2), (Flag(e), 2), (0, 2), (e.date, 4),
     (z.crc, 4), (z.compressed, 4), (z.uncompressed, 4),
     (|e.name|, 2), (|e.globalExtra|, 2), (|e.comment|, 2),
     (0, 2), (e.internalFa, 2), (e.externalFa, 4), (offset, 4)]
  }

  function CentralHeader(e: Entry, z: Sizes, offset: nat): bytes {
    Fields(CentralFields(e, z, offset)) + e.name + e.globalExtra + e.comment
  }

  function DescriptorFields(z: Sizes): seq<Field> {
    [(DESCRIPTOR_MAGIC, 4), (z.crc, 4), (z.compressed, 4), (z.uncompressed, 4)]
  }

  function Descriptor(e: Entry, z: Sizes): bytes {
    if HasDescriptor(e) then Fields(DescriptorFields(z)) else []
  }

  function EndFields(entries: nat, size: nat, offset: nat, commentLength: nat): seq<Field> {
    [(END_MAGIC, 4), (0, 2), (0, 2), (entries, 2), (entries, 2), (size, 4), (offset, 4), (commentLength, 2)]
  }

  function EndRecord(entries: nat, size: nat, offset: nat, comment: bytes): bytes {
    Fields(EndFields(entries, size, offset, |comment|)) + comment
  }

  /** The checksum argument of `crypthead`: the date in the upper half. */
  function CrcForCrypting(e: Entry): nat {
    e.date * 0x1_0000
  }

  function HeadBytes(tab: Table, e: Entry): (h: bytes)
    ensures |h| == HeadSize(e)
  {
    match e.password
    case None => []
    case Some(pw) => Head(tab, pw, e.random, CrcForCrypting(e))
  }

  /** The keys the entry's content is encrypted with, after the header. */
  function ContentKeys(tab: Table, e: Entry): Keys
    requires e.password.Some?
  {
    KeysAfterHead(tab, e.password.value, e.random, CrcForCrypting(e))
  }

  /** Content bytes as they are stored behind the encryption header. */
  function Sealed(tab: Table, e: Entry, s: bytes): (r: bytes)
    ensures |r| == |s|
  {
    if e.password.Some? then Encrypt(tab, ContentKeys(tab, e), s) else s
  }

  function LocalRecord(tab: Table, e: Entry): bytes
  {
    LocalHeader(e, SizesOf(tab, e)) + HeadBytes(tab, e) + Sealed(tab, e, e.content) + Descriptor(e, SizesOf(tab, e))
  }

  predicate AllFit(es: seq<Entry>) {
    forall e :: e in es ==> Fits(e)
  }

  function Records(tab: Table, es: seq<Entry>): bytes
  {
    if es == [] then []
    else
      var n := |es| - 1;
      Records(tab, es[..n]) + LocalRecord(tab, es[n])
  }

  /** The central headers of entries whose records start at `base`: the i-th header points to
      where the i-th record starts. */
  function CentralFrom(tab: Table, es: seq<Entry>, base: nat): bytes {
    if es == [] then []
    else
      var n := |es| - 1;
      CentralFrom(tab, es[..n], base)
      + CentralHeader(es[n], SizesOf(tab, es[n]), base + |Records(tab, es[..n])|)
  }

  /** The central directory. */
  function Central(tab: Table, es: seq<Entry>): bytes {
    CentralFrom(tab, es, 0)
  }

  function Archive(tab: Table, es: seq<Entry>, comment: bytes): bytes
  {
    Records(tab, es) + Central(tab, es)
    + EndRecord(|es|, |Central(tab, es)|, |Records(tab, es)|, comment)
  }

  /** What an archive held when it was opened to be extended: the bytes before it, those in
      front of its directory, the directory, and the number of entries its end record gave. */
  datatype Base = Base(start: bytes, body: bytes, dir: bytes, count: nat)

  const NEW_ARCHIVE: Base := Base([], [], [], 0)

  /** The directory of an archive extended by some entries. */
  function ExtendedDir(tab: Table, b: Base, es: seq<Entry>): bytes {
    b.dir + CentralFrom(tab, es, |b.body|)
  }

  /** The archive extended by some entries, with the bytes before it. */
  function Extended(tab: Table, b: Base, es: seq<Entry>, comment: bytes): bytes {
    b.start + b.body + Records(tab, es) + ExtendedDir(tab, b, es)
    + EndRecord(b.count + |es|, |ExtendedDir(tab, b, es)|, |b.body| + |Records(tab, es)|, comment)
  }

  /** The archive fits the widths of the end record, and has fewer than 65535 entries. */
  predicate ArchiveFits(tab: Table, es: seq<Entry>, comment: bytes) {
    && AllFit(es)
    && |es| < 0xffff
    && |Records(tab, es)| < TWO_32 && |Central(tab, es)| < TWO_32
    && |comment| < 0x1_0000
  }

  // ---------------------------------------------------------------------------------------
  // Lengths
  // ---------------------------------------------------------------------------------------

  lemma {:induction false} OffsetStep(fs: seq<Field>, k: nat)
    requires k < |fs|
    ensures Offset(fs, k + 1) == Offset(fs, k) + fs[k].1
  {
  }

  lemma OffsetZero(fs: seq<Field>)
    ensures Offset(fs, 0) == 0
  {
  }

  lemma LocalOffsets(e: Entry, z: Sizes)
    ensures var fs := LocalFields(e, z);
            && Offset(fs, 0) == 0 && Offset(fs, 1) == 4 && Offset(fs, 2) == 6 && Offset(fs, 3) == 8
            && Offset(fs, 4) == 10 && Offset(fs, 5) == 14 && Offset(fs, 6) == 18 && Offset(fs, 7) == 22
            && Offset(fs, 8) == 26 && Offset(fs, 9) == 28 && Offset(fs, 10) == 30
    ensures |Fields(LocalFields(e, z))| == LOCAL_SIZE
  {
    hide Fields, Offset;
    var fs := LocalFields(e, z);
    OffsetZero(fs);
    OffsetStep(fs, 0); OffsetStep(fs, 1); OffsetStep(fs, 2); OffsetStep(fs, 3); OffsetStep(fs, 4);
    OffsetStep(fs, 5); OffsetStep(fs, 6); OffsetStep(fs, 7); OffsetStep(fs, 8); OffsetStep(fs, 9);
    FieldsLength(fs, 10);
    assert fs[..10] == fs;
  }

  lemma CentralOffsets(e: Entry, z: Sizes, offset: nat)
    ensures var fs := CentralFields(e, z, offset);
            && Offset(fs, 0) == 0 && Offset(fs, 1) == 4 && Offset(fs, 2) == 6 && Offset(fs, 3) == 8
            && Offset(fs, 4) == 10 && Offset(fs, 5) == 12 && Offset(fs, 6) == 16 && Offset(fs, 7) == 20
            && Offset(fs, 8) == 24 && Offset(fs, 9) == 28 && Offset(fs, 10) == 30 && Offset(fs, 11) == 32
            && Offset(fs, 12) == 34 && Offset(fs, 13) == 36 && Offset(fs, 14) == 38 && Offset(fs, 15) == 42
            && Offset(fs, 16) == 46
    ensures |Fields(CentralFields(e, z, offset))| == CENTRAL_SIZE
  {
    hide Fields, Offset;
    var fs := CentralFields(e, z, offset);
    OffsetZero(fs);
    OffsetStep(fs, 0); OffsetStep(fs, 1); OffsetStep(fs, 2); OffsetStep(fs, 3); OffsetStep(fs, 4);
    OffsetStep(fs, 5); OffsetStep(fs, 6); OffsetStep(fs, 7); OffsetStep(fs, 8); OffsetStep(fs, 9);
    OffsetStep(fs, 10); OffsetStep(fs, 11); OffsetStep(fs, 12); OffsetStep(fs, 13); OffsetStep(fs, 14);
    OffsetStep(fs, 15);
    FieldsLength(fs, 16);
    assert fs[..16] == fs;
  }

  lemma EndOffsets(entries: nat, size: nat, offset: nat, commentLength: nat)
    ensures var fs := EndFields(entries, size, offset, commentLength);
            && Offset(fs, 0) == 0 && Offset(fs, 1) == 4 && Offset(fs, 2) == 6 && Offset(fs, 3) == 8
            && Offset(fs, 4) == 10 && Offset(fs, 5) == 12 && Offset(fs, 6) == 16 && Offset(fs, 7) == 20
            && Offset(fs, 8) == 22
    ensures |Fields(EndFields(entries, size, offset, commentLength))| == END_SIZE
  {
    hide Fields, Offset;
    var fs := EndFields(entries, size, offset, commentLength);
    OffsetZero(fs);
    OffsetStep(fs, 0); OffsetStep(fs, 1); OffsetStep(fs, 2); OffsetStep(fs, 3);
    OffsetStep(fs, 4); OffsetStep(fs, 5); OffsetStep(fs, 6); OffsetStep(fs, 7);
    FieldsLength(fs, 8);
    assert fs[..8] == fs;
  }

  lemma HeaderLengths(e: Entry, z: Sizes, offset: nat)
    ensures |LocalHeader(e, z)| == LOCAL_SIZE + |e.name| + |e.localExtra|
    ensures |CentralHeader(e, z, offset)| == CENTRAL_SIZE + |e.name| + |e.globalExtra| + |e.comment|
  {
    hide Fields, Offset;
    LocalOffsets(e, z);
    CentralOffsets(e, z, offset);
  }

  // ---------------------------------------------------------------------------------------
  // Prefixes
  // ---------------------------------------------------------------------------------------

  lemma SplitRecords(tab: Table, es: seq<Entry>, i: nat)
    requires i < |es|
    ensures Records(tab, es[..i + 1]) == Records(tab, es[..i]) + LocalRecord(tab, es[i])
    ensures Central(tab, es[..i + 1])
         == Central(tab, es[..i]) + CentralHeader(es[i], SizesOf(tab, es[i]), |Records(tab, es[..i])|)
  {
    hide LocalRecord, CentralHeader;
    assert es[..i + 1][..i] == es[..i];
  }

  /** What comes after the first i records, and after the first i central headers. */
  lemma {:induction false} PrefixesOf(tab: Table, es: seq<Entry>, i: nat) returns (records: bytes, central: bytes)
    requires i <= |es|
    ensures Records(tab, es) == Records(tab, es[..i]) + records
    ensures Central(tab, es) == Central(tab, es[..i]) + central
    decreases |es| - i
  {
    hide LocalRecord, CentralHeader, Records, Central;
    if i == |es| {
      assert es[..i] == es;
      records, central := [], [];
    } else {
      var r, c := PrefixesOf(tab, es, i + 1);
      SplitRecords(tab, es, i);
      records := LocalRecord(tab, es[i]) + r;
      central := CentralHeader(es[i], SizesOf(tab, es[i]), |Records(tab, es[..i])|) + c;
      Assoc(Records(tab, es[..i]), LocalRecord(tab, es[i]), r);
      Assoc(Central(tab, es[..i]), CentralHeader(es[i], SizesOf(tab, es[i]), |Records(tab, es[..i])|), c);
    }
  }

  lemma {:induction false} AppendEntries(tab: Table, a: seq<Entry>, b: seq<Entry>)
    ensures Records(tab, a + b) == Records(tab, a) + Records(tab, b)
    ensures Central(tab, a + b) == Central(tab, a) + CentralFrom(tab, b, |Records(tab, a)|)
    decreases |b|
  {
    hide LocalRecord, CentralHeader, SizesOf;
    if b == [] {
      assert a + b == a;
    } else {
      var front, last := b[..|b| - 1], b[|b| - 1];
      var all := a + b;
      assert all[..|all| - 1] == a + front && all[|all| - 1] == last;
      AppendEntries(tab, a, front);
      Assoc(Records(tab, a), Records(tab, front), LocalRecord(tab, last));
      Assoc(Central(tab, a), CentralFrom(tab, front, |Records(tab, a)|),
            CentralHeader(last, SizesOf(tab, last), |Records(tab, a)| + |Records(tab, front)|));
    }
  }

  /** Extending an archive gives the archive of all entries. */
  lemma ExtendedIsArchive(tab: Table, prefix: bytes, es: seq<Entry>, more: seq<Entry>, comment: bytes)
    ensures Extended(tab, Base(prefix, Records(tab, es), Central(tab, es), |es|), more, comment)
         == prefix + Archive(tab, es + more, comment)
  {
    hide Records, CentralFrom, EndRecord;
    AppendEntries(tab, es, more);
    var r, m, d := Records(tab, es), Records(tab, more), Central(tab, es + more);
    var end := EndRecord(|es| + |more|, |d|, |r| + |m|, comment);
    Assoc(prefix, r, m);
    Assoc(prefix, r + m, d);
    Assoc(prefix, r + m + d, end);
  }

  // ---------------------------------------------------------------------------------------
  // Dates
  // ---------------------------------------------------------------------------------------

  datatype Tm = Tm(sec: nat, min: nat, hour: nat, mday: nat, mon: nat, year: nat)

  predicate ValidTm(t: Tm) {
    t.sec < 60 && t.min < 60 && t.hour < 24 && 1 <= t.mday <= 31 && t.mon < 12
  }

  /** `ziplocal_TmzDateToDosDate` */
  function ToDos(t: Tm): nat
    requires ValidTm(t)
  {
    var year := if t.year > 1980 then t.year - 1980 else if t.year > 80 then t.year - 80 else t.year;
    (t.mday + 32 * (t.mon + 1) + 512 * year) * 0x1_0000 + (t.sec / 2 + 32 * t.min + 2048 * t.hour)
  }

  /** `unzlocal_DosDateToTmuDate`; the month wraps when it is stored as 0. */
  function FromDos(d: nat): Tm {
    var date := d / 0x1_0000;
    Tm(2 * (d % 32), (d / 32) % 64, (d / 2048) % 32, date % 32,
       ((date / 32) % 16 - 1) % TWO_32, (date / 512) % 128 + 1980)
  }

  /** The date an entry gets: the DOS date if it is given, else the broken-down one. */
  function EntryDate(dosDate: nat, t: Tm): nat
    requires ValidTm(t)
  {
    if dosDate != 0 then dosDate else ToDos(t)
  }

  lemma DosParts(t: Tm, year: nat, d: nat)
    requires ValidTm(t) && year < 128
    requires d == (t.mday + 32 * (t.mon + 1) + 512 * year) * 0x1_0000 + (t.sec / 2 + 32 * t.min + 2048 * t.hour)
    ensures d < TWO_32
    ensures FromDos(d) == Tm(2 * (t.sec / 2), t.min, t.hour, t.mday, t.mon, year + 1980)
  {
    var low := t.sec / 2 + 32 * t.min + 2048 * t.hour;
    var date := t.mday + 32 * (t.mon + 1) + 512 * year;
    TimeParts(t, date, d);
    DateParts(t, year, date);
  }

  lemma TimeParts(t: Tm, date: nat, d: nat)
    requires ValidTm(t) && d == date * 0x1_0000 + (t.sec / 2 + 32 * t.min + 2048 * t.hour)
    ensures d / 0x1_0000 == date
    ensures d % 32 == t.sec / 2 && (d / 32) % 64 == t.min && (d / 2048) % 32 == t.hour
  {
    var half := t.sec / 2;
    assert d == 32 * (2048 * date + 64 * t.hour + t.min) + half;
    assert d / 32 == 64 * (32 * date + t.hour) + t.min;
    assert d / 2048 == 32 * date + t.hour;
  }

  lemma DateParts(t: Tm, year: nat, date: nat)
    requires ValidTm(t) && year < 128 && date == t.mday + 32 * (t.mon + 1) + 512 * year
    ensures date % 32 == t.mday && (date / 32) % 16 == t.mon + 1 && (date / 512) % 128 == year
    ensures date < 0x1_0000
  {
    assert date / 32 == 16 * year + t.mon + 1;
    assert date / 512 == year;
  }

  /** A valid date survives being stored and read back exactly in 1981..2107 with an even
      second: 1980 itself is taken for a two-digit year. */
  lemma DateRoundTripIff(t: Tm)
    requires ValidTm(t)
    ensures FromDos(Number(Put(EntryDate(0, t), 4))) == t <==> 1981 <= t.year <= 2107 && t.sec % 2 == 0
  {
    hide Number, Put, FromDos;
    Pow256Values();
    var year := if t.year > 1980 then t.year - 1980 else if t.year > 80 then t.year - 80 else t.year;
    PutReadsBackIff(ToDos(t), 4);
    if year < 128 {
      DosParts(t, year, ToDos(t));
    } else {
      assert ToDos(t) >= TWO_32;
      OverflowedDate(ToDos(t));
    }
  }

  lemma OverflowedDate(d: nat)
    requires d >= TWO_32
    ensures FromDos(Number(Put(d, 4))).sec == 62
  {
    Pow256Values();
    AllOnes(4);
    assert Put(d, 4) == seq(4, i => 255 as byte);
  }
}
