/** What unzip.c finds in the bytes of an archive, as functions of the bytes; and that on an
    archive zip.c wrote it finds what was written. */
module ZipParse {
  import opened Bytes
  import opened ZipNumbers
  import opened ZipSearch
  import opened Crypt
  import opened ZipLayout

  /** The end record at `pos`. */
  datatype EndInfo = EndInfo(pos: nat, entries: nat, size: nat, offset: nat, commentLength: nat)

  /** The end record, unless it is cut off, spans disks, or lies inside the directory. A record
      at position 0 counts as not found. */
  function ParseEnd(data: bytes, pos: nat): (r: Option<EndInfo>)
    ensures r.Some? ==> r.value.offset + r.value.size <= pos == r.value.pos && pos + END_SIZE <= |data|
  {
    if pos == 0 || pos + END_SIZE > |data| then None
    else
      var disk, diskWithCd := At(data, pos + 4, 2), At(data, pos + 6, 2);
      var entries, entriesCd := At(data, pos + 8, 2), At(data, pos + 10, 2);
      var size, offset := At(data, pos + 12, 4), At(data, pos + 16, 4);
      if entriesCd != entries || diskWithCd != 0 || disk != 0 then None
      else if pos < offset + size then None
      else Some(EndInfo(pos, entries, size, offset, At(data, pos + 20, 2)))
  }

  /** The part of `unzOpen2` (and of `zipOpen2` when appending) that finds and reads the end
      record. Any failed read or check makes the whole fail. */
  method ReadEnd(f: File) returns (r: Option<EndInfo>, ghost pos: nat)
    modifies f`pos
    ensures IsLastSig(f.data, pos) && r == ParseEnd(f.data, pos)
    ensures r.Some? ==> f.pos == pos + END_SIZE
  {
    hide At;
    var centralPos := SearchCentralDir(f);
    pos := centralPos;
    f.Seek(centralPos);
    var ok0, magic := GetLong(f);
    var ok1, numberDisk := GetShort(f);
    var ok2, numberDiskWithCd := GetShort(f);
    var ok3, numberEntry := GetShort(f);
    var ok4, numberEntryCd := GetShort(f);
    var ok5, sizeCentralDir := GetLong(f);
    var ok6, offsetCentralDir := GetLong(f);
    var ok7, sizeComment := GetShort(f);
    var err := centralPos == 0 || !ok0 || !ok1 || !ok2 || !ok3 || !ok4 || !ok5 || !ok6 || !ok7;
    if numberEntryCd != numberEntry || numberDiskWithCd != 0 || numberDisk != 0 {
      err := true;
    }
    if centralPos < offsetCentralDir + sizeCentralDir && !err {
      err := true;
    }
    if err {
      return None, pos;
    }
    r := Some(EndInfo(centralPos, numberEntry, sizeCentralDir, offsetCentralDir, sizeComment));
  }

  /** The bytes before the archive. */
  function BytesBefore(e: EndInfo): nat
    requires e.offset + e.size <= e.pos
  {
    e.pos - (e.offset + e.size)
  }

  /** `unz_file_info` and the offset of the local header. */
  datatype FileInfo = FileInfo(
    version: nat, versionNeeded: nat, flag: nat, compression: nat, dosDate: nat,
    crc: nat, compressedSize: nat, uncompressedSize: nat,
    nameSize: nat, extraSize: nat, commentSize: nat,
    disk: nat, internalFa: nat, externalFa: nat, offset: nat)

  /** The central header at `p`. */
  function ParseCentral(data: bytes, p: nat): Option<FileInfo> {
    if p + CENTRAL_SIZE > |data| || At(data, p, 4) != CENTRAL_MAGIC then None
    else Some(FileInfo(
      At(data, p + 4, 2), At(data, p + 6, 2), At(data, p + 8, 2), At(data, p + 10, 2), At(data, p + 12, 4),
      At(data, p + 16, 4), At(data, p + 20, 4), At(data, p + 24, 4),
      At(data, p + 28, 2), At(data, p + 30, 2), At(data, p + 32, 2),
      At(data, p + 34, 2), At(data, p + 36, 2), At(data, p + 38, 4), At(data, p + 42, 4)))
  }

  lemma AtMoved(a: bytes, x: nat, b: bytes, y: nat, size: nat, j: nat, n: nat)
    requires x + size <= |a| && y + size <= |b| && a[x..x + size] == b[y..y + size] && j + n <= size
    ensures At(a, x + j, n) == At(b, y + j, n)
  {
    hide Number;
    var u, v := a[x + j..x + j + n], b[y + j..y + j + n];
    forall i | 0 <= i < n ensures u[i] == v[i] {
      assert a[x..x + size][j + i] == b[y..y + size][j + i];
    }
    assert u == v;
  }

  /** A central header parses the same wherever it stands. */
  lemma HeaderMoved(a: bytes, x: nat, b: bytes, y: nat)
    requires x + CENTRAL_SIZE <= |a| && y + CENTRAL_SIZE <= |b|
    requires a[x..x + CENTRAL_SIZE] == b[y..y + CENTRAL_SIZE]
    ensures ParseCentral(a, x) == ParseCentral(b, y)
  {
    hide At;
    AtMoved(a, x, b, y, CENTRAL_SIZE, 0, 4);
    AtMoved(a, x, b, y, CENTRAL_SIZE, 4, 2);
    AtMoved(a, x, b, y, CENTRAL_SIZE, 6, 2);
    AtMoved(a, x, b, y, CENTRAL_SIZE, 8, 2);
    AtMoved(a, x, b, y, CENTRAL_SIZE, 10, 2);
    AtMoved(a, x, b, y, CENTRAL_SIZE, 12, 4);
    AtMoved(a, x, b, y, CENTRAL_SIZE, 16, 4);
    AtMoved(a, x, b, y, CENTRAL_SIZE, 20, 4);
    AtMoved(a, x, b, y, CENTRAL_SIZE, 24, 4);
    AtMoved(a, x, b, y, CENTRAL_SIZE, 28, 2);
    AtMoved(a, x, b, y, CENTRAL_SIZE, 30, 2);
    AtMoved(a, x, b, y, CENTRAL_SIZE, 32, 2);
    AtMoved(a, x, b, y, CENTRAL_SIZE, 34, 2);
    AtMoved(a, x, b, y, CENTRAL_SIZE, 36, 2);
    AtMoved(a, x, b, y, CENTRAL_SIZE, 38, 4);
    AtMoved(a, x, b, y, CENTRAL_SIZE, 42, 4);
  }

  /** The size of a central header with its texts. */
  function CentralLength(i: FileInfo): nat {
    CENTRAL_SIZE + i.nameSize + i.extraSize + i.commentSize
  }

  /** `unzlocal_CheckCurrentFileCoherencyHeader`: the size of the name and extra field in the
      local header at `p`, if it agrees with the central header. The checksum and the sizes
      need not agree when a data descriptor follows. */
  function ParseLocal(data: bytes, p: nat, i: FileInfo): Option<nat> {
    if p + LOCAL_SIZE > |data| || At(data, p, 4) != LOCAL_MAGIC then None
    else
      var flags := At(data, p + 6, 2);
      if At(data, p + 8, 2) != i.compression then None
      else if i.compression != 0 && i.compression != 8 then None
      else if (flags / 8) % 2 == 0
           && (At(data, p + 14, 4) != i.crc || At(data, p + 18, 4) != i.compressedSize
               || At(data, p + 22, 4) != i.uncompressedSize) then None
      else if At(data, p + 26, 2) != i.nameSize then None
      else Some(At(data, p + 26, 2) + At(data, p + 28, 2))
  }

  // ---------------------------------------------------------------------------------------
  // Records that zip.c wrote
  // ---------------------------------------------------------------------------------------

  /** What the central header of a written entry says. */
  function InfoOf(tab: Table, e: Entry, offset: nat): FileInfo {
    var z := SizesOf(tab, e);
    FileInfo(VERSION_MADE_BY, VersionNeeded(e), Flag(e), 0, e.date,
             z.crc, z.compressed, z.uncompressed,
             |e.name|, |e.globalExtra|, |e.comment|, 0, e.internalFa, e.externalFa, offset)
  }

  /** The k-th number of a record is where its offset says. */
  lemma NumberAt(data: bytes, before: bytes, fs: seq<Field>, after: bytes, k: nat, off: nat, n: nat)
    requires data == before + Fields(fs) + after
    requires k < |fs| && off == Offset(fs, k) && n == fs[k].1 && fs[k].0 < Pow256(n)
    ensures |before| + off + n <= |data| && At(data, |before| + off, n) == fs[k].0
  {
    hide Fields, Offset, Number, Pow256, Put, Le;
    FieldAt(fs, k, before, after);
  }

  lemma SizesFit(tab: Table, e: Entry)
    requires Fits(e)
    ensures var z := SizesOf(tab, e);
            z.crc < TWO_32 && z.compressed < TWO_32 && z.uncompressed < TWO_32
  {
    CrcBound(tab, 0, e.content);
  }

  lemma CentralNumbersFront(data: bytes, before: bytes, after: bytes, e: Entry, z: Sizes, offset: nat)
    requires Fits(e)
    requires data == before + Fields(CentralFields(e, z, offset)) + after
    ensures var p := |before|;
            && p + CENTRAL_SIZE <= |data|
            && At(data, p, 4) == CENTRAL_MAGIC && At(data, p + 4, 2) == VERSION_MADE_BY
            && At(data, p + 6, 2) == VersionNeeded(e) && At(data, p + 8, 2) == Flag(e) && At(data, p + 10, 2) == 0
  {
    var fs := CentralFields(e, z, offset);
    CentralOffsets(e, z, offset);
    hide Fields, Offset, At;
    Pow256Values();
    NumberAt(data, before, fs, after, 0, 0, 4);
    NumberAt(data, before, fs, after, 1, 4, 2);
    NumberAt(data, before, fs, after, 2, 6, 2);
    NumberAt(data, before, fs, after, 3, 8, 2);
    NumberAt(data, before, fs, after, 4, 10, 2);
  }

  lemma CentralNumbersMiddle(data: bytes, before: bytes, after: bytes, e: Entry, z: Sizes, offset: nat)
    requires Fits(e) && z.crc < TWO_32 && z.compressed < TWO_32 && z.uncompressed < TWO_32
    requires data == before + Fields(CentralFields(e, z, offset)) + after
    ensures var p := |before|;
            && p + CENTRAL_SIZE <= |data|
            && At(data, p + 12, 4) == e.date && At(data, p + 16, 4) == z.crc
            && At(data, p + 20, 4) == z.compressed && At(data, p + 24, 4) == z.uncompressed
  {
    var fs := CentralFields(e, z, offset);
    CentralOffsets(e, z, offset);
    hide Fields, Offset, At;
    Pow256Values();
    NumberAt(data, before, fs, after, 5, 12, 4);
    NumberAt(data, before, fs, after, 6, 16, 4);
    NumberAt(data, before, fs, after, 7, 20, 4);
    NumberAt(data, before, fs, after, 8, 24, 4);
  }

  lemma CentralNumbersBack(data: bytes, before: bytes, after: bytes, e: Entry, z: Sizes, offset: nat)
    requires Fits(e) && offset < TWO_32
    requires data == before + Fields(CentralFields(e, z, offset)) + after
    ensures var p := |before|;
            && p + CENTRAL_SIZE <= |data|
            && At(data, p + 28, 2) == |e.name| && At(data, p + 30, 2) == |e.globalExtra|
            && At(data, p + 32, 2) == |e.comment| && At(data, p + 34, 2) == 0
            && At(data, p + 36, 2) == e.internalFa && At(data, p + 38, 4) == e.externalFa
            && At(data, p + 42, 4) == offset
  {
    var fs := CentralFields(e, z, offset);
    CentralOffsets(e, z, offset);
    hide Fields, Offset, At;
    Pow256Values();
    NumberAt(data, before, fs, after, 9, 28, 2);
    NumberAt(data, before, fs, after, 10, 30, 2);
    NumberAt(data, before, fs, after, 11, 32, 2);
    NumberAt(data, before, fs, after, 12, 34, 2);
    NumberAt(data, before, fs, after, 13, 36, 2);
    NumberAt(data, before, fs, after, 14, 38, 4);
    NumberAt(data, before, fs, after, 15, 42, 4);
  }

  lemma CentralTexts(data: bytes, before: bytes, after: bytes, e: Entry, z: Sizes, offset: nat)
    requires data == before + CentralHeader(e, z, offset) + after
    ensures data == before + Fields(CentralFields(e, z, offset)) + (e.name + e.globalExtra + e.comment + after)
    ensures var q := |before| + CENTRAL_SIZE;
            && q + |e.name| + |e.globalExtra| + |e.comment| <= |data|
            && data[q..q + |e.name|] == e.name
            && data[q + |e.name|..q + |e.name| + |e.globalExtra|] == e.globalExtra
            && data[q + |e.name| + |e.globalExtra|..q + |e.name| + |e.globalExtra| + |e.comment|] == e.comment
  {
    hide Fields, Offset;
    CentralOffsets(e, z, offset);
    ThreeTexts(before, Fields(CentralFields(e, z, offset)), e.name, e.globalExtra, e.comment, after);
  }

  /** A written central header parses as what was written, wherever it stands. */
  lemma CentralParses(data: bytes, tab: Table, e: Entry, offset: nat, before: bytes, after: bytes)
    requires Fits(e) && offset < TWO_32
    requires data == before + CentralHeader(e, SizesOf(tab, e), offset) + after
    ensures ParseCentral(data, |before|) == Some(InfoOf(tab, e, offset))
  {
    var z := SizesOf(tab, e);
    var tail := e.name + e.globalExtra + e.comment + after;
    SizesFit(tab, e);
    hide Fields, Offset, At, SizesOf, CentralHeader, CentralFields;
    CentralTexts(data, before, after, e, z, offset);
    CentralNumbersFront(data, before, tail, e, z, offset);
    CentralNumbersMiddle(data, before, tail, e, z, offset);
    CentralNumbersBack(data, before, tail, e, z, offset);
  }

  /** A record followed by three texts. */
  lemma ThreeTexts(before: bytes, r: bytes, a: bytes, b: bytes, c: bytes, after: bytes)
    ensures var data := before + (r + a + b + c) + after;
            var q := |before| + |r|;
            && data == before + r + (a + b + c + after)
            && q + |a| + |b| + |c| <= |data|
            && data[q..q + |a|] == a && data[q + |a|..q + |a| + |b|] == b
            && data[q + |a| + |b|..q + |a| + |b| + |c|] == c
  {
    var data := before + (r + a + b + c) + after;
    var q := |before| + |r|;
    assert data == before + r + (a + b + c + after) by {
      Assoc(before, r + a + b + c, after);
      Assoc(r, a, b);
      Assoc(r, a + b, c);
      Assoc(r, a + b + c, after);
      Assoc(before, r, a + b + c + after);
    }
    var tail := a + b + c + after;
    assert data[q..] == tail;
    assert tail[..|a|] == a && tail[|a|..|a| + |b|] == b && tail[|a| + |b|..|a| + |b| + |c|] == c;
    assert data[q..q + |a|] == data[q..][..|a|];
    assert data[q + |a|..q + |a| + |b|] == data[q..][|a|..|a| + |b|];
    assert data[q + |a| + |b|..q + |a| + |b| + |c|] == data[q..][|a| + |b|..|a| + |b| + |c|];
  }

  lemma LocalNumbers(data: bytes, before: bytes, after: bytes, e: Entry, z: Sizes)
    requires Fits(e) && z.crc < TWO_32 && z.compressed < TWO_32 && z.uncompressed < TWO_32
    requires data == before + Fields(LocalFields(e, z)) + after
    ensures var p := |before|;
            && p + LOCAL_SIZE <= |data|
            && At(data, p, 4) == LOCAL_MAGIC && At(data, p + 6, 2) == Flag(e) && At(data, p + 8, 2) == 0
            && At(data, p + 14, 4) == z.crc && At(data, p + 18, 4) == z.compressed
            && At(data, p + 22, 4) == z.uncompressed
            && At(data, p + 26, 2) == |e.name| && At(data, p + 28, 2) == |e.localExtra|
  {
    var fs := LocalFields(e, z);
    LocalOffsets(e, z);
    hide Fields, Offset, At;
    Pow256Values();
    NumberAt(data, before, fs, after, 0, 0, 4);
    NumberAt(data, before, fs, after, 2, 6, 2);
    NumberAt(data, before, fs, after, 3, 8, 2);
    NumberAt(data, before, fs, after, 5, 14, 4);
    NumberAt(data, before, fs, after, 6, 18, 4);
    NumberAt(data, before, fs, after, 7, 22, 4);
    NumberAt(data, before, fs, after, 8, 26, 2);
    NumberAt(data, before, fs, after, 9, 28, 2);
  }

  /** The bytes of an entry that follow its local header. */
  function Stored(tab: Table, e: Entry): (s: bytes)
    ensures |s| == HeadSize(e) + |e.content|
  {
    HeadBytes(tab, e) + Sealed(tab, e, e.content)
  }

  /** A written local header agrees with the central header, and the stored bytes follow. */
  lemma LocalParses(data: bytes, tab: Table, e: Entry, offset: nat, before: bytes, after: bytes)
    requires Fits(e)
    requires data == before + LocalRecord(tab, e) + after
    ensures var q := |before| + LOCAL_SIZE + |e.name| + |e.localExtra|;
            && ParseLocal(data, |before|, InfoOf(tab, e, offset)) == Some(|e.name| + |e.localExtra|)
            && q + |Stored(tab, e)| + |Descriptor(e, SizesOf(tab, e))| + |after| == |data|
            && data[q..q + |Stored(tab, e)|] == Stored(tab, e)
  {
    hide Fields, Offset, At, SizesOf, Stored, Descriptor, LocalRecord, LocalFields, Flag;
    var z := SizesOf(tab, e);
    SizesFit(tab, e);
    SizesAre(tab, e);
    LocalSplit(data, tab, e, before, after);
    LocalNumbers(data, before, e.name + e.localExtra + Stored(tab, e) + (Descriptor(e, z) + after), e, z);
  }

  lemma SizesAre(tab: Table, e: Entry)
    ensures var i, z := InfoOf(tab, e, 0), SizesOf(tab, e);
            && i.crc == z.crc && i.compressedSize == z.compressed && i.uncompressedSize == z.uncompressed
            && i.nameSize == |e.name| && i.compression == 0
  {
  }

  /** The parts of a local record. */
  lemma LocalSplit(data: bytes, tab: Table, e: Entry, before: bytes, after: bytes)
    requires data == before + LocalRecord(tab, e) + after
    ensures var z, q := SizesOf(tab, e), |before| + LOCAL_SIZE + |e.name| + |e.localExtra|;
            && data == before + Fields(LocalFields(e, z))
                       + (e.name + e.localExtra + Stored(tab, e) + (Descriptor(e, z) + after))
            && q + |Stored(tab, e)| + |Descriptor(e, z)| + |after| == |data|
            && data[q..q + |Stored(tab, e)|] == Stored(tab, e)
  {
    hide Fields, Offset, SizesOf, HeadBytes, Sealed, Descriptor, LocalFields;
    var z := SizesOf(tab, e);
    var numbers, d, s := Fields(LocalFields(e, z)), Descriptor(e, z), Stored(tab, e);
    LocalOffsets(e, z);
    assert LocalRecord(tab, e) + after == numbers + e.name + e.localExtra + s + (d + after) by {
      Assoc(numbers + e.name + e.localExtra, HeadBytes(tab, e), Sealed(tab, e, e.content));
      Assoc(numbers + e.name + e.localExtra + s, d, after);
    }
    Assoc(before, LocalRecord(tab, e), after);
    Assoc(before, numbers + e.name + e.localExtra + s, d + after);
    ThreeTexts(before, numbers, e.name, e.localExtra, s, d + after);
  }

  lemma EndNumbers(data: bytes, before: bytes, n: nat, size: nat, offset: nat, comment: bytes)
    requires n < 0x1_0000 && size < TWO_32 && offset < TWO_32 && |comment| < 0x1_0000
    requires data == before + EndRecord(n, size, offset, comment)
    ensures var p := |before|;
            && p + END_SIZE + |comment| == |data| && data[p + END_SIZE..] == comment
            && At(data, p, 4) == END_MAGIC && At(data, p + 4, 2) == 0 && At(data, p + 6, 2) == 0
            && At(data, p + 8, 2) == n && At(data, p + 10, 2) == n
            && At(data, p + 12, 4) == size && At(data, p + 16, 4) == offset && At(data, p + 20, 2) == |comment|
  {
    var fs := EndFields(n, size, offset, |comment|);
    EndOffsets(n, size, offset, |comment|);
    hide Fields, Offset, At;
    Pow256Values();
    Assoc(before, Fields(fs), comment);
    NumberAt(data, before, fs, comment, 0, 0, 4);
    NumberAt(data, before, fs, comment, 1, 4, 2);
    NumberAt(data, before, fs, comment, 2, 6, 2);
    NumberAt(data, before, fs, comment, 3, 8, 2);
    NumberAt(data, before, fs, comment, 4, 10, 2);
    NumberAt(data, before, fs, comment, 5, 12, 4);
    NumberAt(data, before, fs, comment, 6, 16, 4);
    NumberAt(data, before, fs, comment, 7, 20, 2);
  }

  /** A written end record parses as what was written, unless it is at the very start. */
  lemma EndParses(before: bytes, n: nat, size: nat, offset: nat, comment: bytes)
    requires n < 0x1_0000 && size < TWO_32 && offset < TWO_32 && |comment| < 0x1_0000
    requires offset + size <= |before|
    ensures ParseEnd(before + EndRecord(n, size, offset, comment), |before|)
         == if before == [] then None else Some(EndInfo(|before|, n, size, offset, |comment|))
  {
    hide At, EndRecord;
    EndNumbers(before + EndRecord(n, size, offset, comment), before, n, size, offset, comment);
  }

  /** Four bytes are the signature exactly when they are its number. */
  lemma SigIsMagic(data: bytes, p: nat)
    requires p + 4 <= |data|
    ensures At(data, p, 4) == END_MAGIC ==> SigAt(data, p)
  {
    NumberOfFour(data, p);
  }

  // ---------------------------------------------------------------------------------------
  // Walking an archive
  // ---------------------------------------------------------------------------------------

  /** Where the end record of an archive stands, from the start of the archive. */
  function EndPos(tab: Table, es: seq<Entry>): nat {
    |Records(tab, es)| + |Central(tab, es)|
  }

  /** Where the i-th central header stands, from the start of the archive. */
  function CentralPos(tab: Table, es: seq<Entry>, i: nat): nat
    requires i <= |es|
  {
    |Records(tab, es)| + |Central(tab, es[..i])|
  }

  /** Nothing behind the start of the end record looks like another one. */
  ghost predicate NoLaterSignature(data: bytes, p: nat) {
    forall q :: q > p ==> !SigAt(data, q)
  }

  /** The search finds the end record exactly when it is not at the start of the file, its
      comment leaves it within the last 0xffff bytes, and nothing behind it looks like another
      one. If nothing does, but it is out of reach, nothing is found. */
  lemma SearchFindsEnd(tab: Table, prefix: bytes, es: seq<Entry>, comment: bytes, found: nat)
    requires ArchiveFits(tab, es, comment)
    requires IsLastSig(prefix + Archive(tab, es, comment), found)
    ensures var data, p := prefix + Archive(tab, es, comment), |prefix| + EndPos(tab, es);
            && (p > 0 ==> (found == p <==> NoLaterSignature(data, p) && 22 + |comment| <= 0xffff))
            && (NoLaterSignature(data, p) ==> found == if 22 + |comment| <= 0xffff then p else 0)
  {
    hide Records, Central, EndRecord;
    var data := prefix + Archive(tab, es, comment);
    var body := Records(tab, es) + Central(tab, es);
    var p := |prefix| + EndPos(tab, es);
    Assoc(prefix, body, EndRecord(|es|, |Central(tab, es)|, |Records(tab, es)|, comment));
    EndNumbers(data, prefix + body, |es|, |Central(tab, es)|, |Records(tab, es)|, comment);
    SigIsMagic(data, p);
    assert |data| == p + END_SIZE + |comment|;
    if NoLaterSignature(data, p) {
      if END_SIZE + |comment| <= MAX_BACK {
        assert IsLastSig(data, p);
        LastSigUnique(data, found, p);
      } else {
        assert found != 0 ==> SigAt(data, found) && found > p;
      }
    }
  }

  /** Opening a written archive: it succeeds exactly when the file has bytes before the end
      record, and finds where everything is. */
  lemma ArchiveOpens(tab: Table, prefix: bytes, es: seq<Entry>, comment: bytes)
    requires ArchiveFits(tab, es, comment)
    ensures var data := prefix + Archive(tab, es, comment);
            var p := |prefix| + EndPos(tab, es);
            && ParseEnd(data, p) == (if p == 0 then None
                else Some(EndInfo(p, |es|, |Central(tab, es)|, |Records(tab, es)|, |comment|)))
            && p + END_SIZE + |comment| == |data| && data[p + END_SIZE..] == comment
  {
    hide Records, Central, EndRecord;
    var body := Records(tab, es) + Central(tab, es);
    Assoc(prefix, body, EndRecord(|es|, |Central(tab, es)|, |Records(tab, es)|, comment));
    EndParses(prefix + body, |es|, |Central(tab, es)|, |Records(tab, es)|, comment);
    EndNumbers(prefix + Archive(tab, es, comment), prefix + body,
               |es|, |Central(tab, es)|, |Records(tab, es)|, comment);
  }

  /** What is in an archive around its i-th record and around its i-th central header; `last`
      is what follows the directory. */
  lemma AroundEntry(data: bytes, tab: Table, prefix: bytes, es: seq<Entry>, last: bytes, i: nat)
    returns (r: bytes, c: bytes)
    requires i < |es| && data == prefix + (Records(tab, es) + Central(tab, es) + last)
    ensures var offset := |Records(tab, es[..i])|;
            && data == (prefix + Records(tab, es[..i])) + LocalRecord(tab, es[i]) + r
            && |r| >= |Central(tab, es)| + |last|
            && data == (prefix + Records(tab, es) + Central(tab, es[..i]))
                       + CentralHeader(es[i], SizesOf(tab, es[i]), offset) + c
  {
    hide Records, Central, LocalRecord, CentralHeader, Fields;
    var records, central := PrefixesOf(tab, es, i + 1);
    SplitRecords(tab, es, i);
    r := records + Central(tab, es) + last;
    c := central + last;
    var ri, li := Records(tab, es[..i]), LocalRecord(tab, es[i]);
    var ci, hi := Central(tab, es[..i]), CentralHeader(es[i], SizesOf(tab, es[i]), |Records(tab, es[..i])|);
    Regroup(prefix, ri, li, records, Central(tab, es), last);
    RegroupCentral(prefix, Records(tab, es), ci, hi, central, last);
  }

  lemma Regroup(p: bytes, a: bytes, b: bytes, c: bytes, d: bytes, e: bytes)
    ensures p + (((a + b) + c) + d + e) == (p + a) + b + (c + d + e)
  {
    Assoc(a + b, c, d);
    Assoc(a + b, c + d, e);
    Assoc(p, a + b, c + d + e);
    Assoc(p, a, b);
  }

  lemma RegroupCentral(p: bytes, r: bytes, a: bytes, b: bytes, c: bytes, e: bytes)
    ensures p + (r + ((a + b) + c) + e) == (p + r + a) + b + (c + e)
  {
    Assoc(r, (a + b) + c, e);
    Assoc(a + b, c, e);
    Assoc(p, r, (a + b) + c + e);
    Assoc(p + r, a + b, c + e);
    Assoc(p + r, a, b);
  }

  lemma {:induction false} PrefixLengths(tab: Table, es: seq<Entry>, i: nat)
    requires i < |es|
    ensures |Records(tab, es[..i])| <= |Records(tab, es)|
    ensures CentralPos(tab, es, i + 1)
         == CentralPos(tab, es, i) + CENTRAL_SIZE + |es[i].name| + |es[i].globalExtra| + |es[i].comment|
    ensures CentralPos(tab, es, i + 1) <= EndPos(tab, es)
  {
    hide Records, Central, LocalRecord, CentralHeader;
    var r, c := PrefixesOf(tab, es, i + 1);
    SplitRecords(tab, es, i);
    HeaderLengths(es[i], SizesOf(tab, es[i]), |Records(tab, es[..i])|);
  }

  /** Every central header is found where the walk looks for it, with its texts, whatever
      follows the directory. */
  lemma CentralFound(data: bytes, tab: Table, prefix: bytes, es: seq<Entry>, last: bytes, i: nat)
    requires AllFit(es) && |Records(tab, es)| < TWO_32 && i < |es|
    requires data == prefix + (Records(tab, es) + Central(tab, es) + last)
    ensures var e := es[i];
            var p := |prefix| + CentralPos(tab, es, i);
            var q := p + CENTRAL_SIZE;
            && ParseCentral(data, p) == Some(InfoOf(tab, e, |Records(tab, es[..i])|))
            && q + |e.name| + |e.globalExtra| + |e.comment| <= |data|
            && data[q..q + |e.name|] == e.name
            && data[q + |e.name|..q + |e.name| + |e.globalExtra|] == e.globalExtra
            && data[q + |e.name| + |e.globalExtra|..q + |e.name| + |e.globalExtra| + |e.comment|] == e.comment
  {
    hide Records, Central, LocalRecord, CentralHeader, ParseCentral, InfoOf, Fields, SizesOf;
    var offset := |Records(tab, es[..i])|;
    var r, c := AroundEntry(data, tab, prefix, es, last, i);
    PrefixLengths(tab, es, i);
    assert es[i] in es;
    CentralTexts(data, prefix + Records(tab, es) + Central(tab, es[..i]), c, es[i], SizesOf(tab, es[i]), offset);
    CentralParses(data, tab, es[i], offset, prefix + Records(tab, es) + Central(tab, es[..i]), c);
  }

  lemma EntryCentral(data: bytes, tab: Table, prefix: bytes, es: seq<Entry>, comment: bytes, i: nat)
    requires ArchiveFits(tab, es, comment) && i < |es|
    requires data == prefix + Archive(tab, es, comment)
    ensures var e := es[i];
            var p := |prefix| + CentralPos(tab, es, i);
            var q := p + CENTRAL_SIZE;
            && ParseCentral(data, p) == Some(InfoOf(tab, e, |Records(tab, es[..i])|))
            && q + |e.name| + |e.globalExtra| + |e.comment| <= |data|
            && data[q..q + |e.name|] == e.name
            && data[q + |e.name|..q + |e.name| + |e.globalExtra|] == e.globalExtra
            && data[q + |e.name| + |e.globalExtra|..q + |e.name| + |e.globalExtra| + |e.comment|] == e.comment
  {
    hide Records, Central, ParseCentral, InfoOf, EndRecord;
    CentralFound(data, tab, prefix, es, EndRecord(|es|, |Central(tab, es)|, |Records(tab, es)|, comment), i);
  }

  /** Every local header is found at the recorded offset and agrees with the central one; the
      stored bytes follow, with at least 12 bytes behind them. */
  lemma EntryLocal(data: bytes, tab: Table, prefix: bytes, es: seq<Entry>, comment: bytes, i: nat)
    requires ArchiveFits(tab, es, comment) && i < |es|
    requires data == prefix + Archive(tab, es, comment)
    ensures var e, offset := es[i], |Records(tab, es[..i])|;
            var s := |prefix| + offset + LOCAL_SIZE + |e.name| + |e.localExtra|;
            && ParseLocal(data, |prefix| + offset, InfoOf(tab, e, offset)) == Some(|e.name| + |e.localExtra|)
            && s + |Stored(tab, e)| + HEAD_LEN <= |data|
            && data[s..s + |Stored(tab, e)|] == Stored(tab, e)
  {
    hide Records, Central, LocalRecord, CentralHeader, ParseLocal, InfoOf, Stored, SizesOf, Descriptor, Fields;
    var offset := |Records(tab, es[..i])|;
    var last := EndRecord(|es|, |Central(tab, es)|, |Records(tab, es)|, comment);
    EndOffsets(|es|, |Central(tab, es)|, |Records(tab, es)|, |comment|);
    var r, c := AroundEntry(data, tab, prefix, es, last, i);
    assert es[i] in es;
    LocalParses(data, tab, es[i], offset, prefix + Records(tab, es[..i]), r);
  }
}
