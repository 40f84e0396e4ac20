/** A written archive number by number: what stands at which offset, with the signatures and
    versions of PKWARE APPNOTE.TXT sections 4.3 and 4.4, and what the parser makes of it. */
module ZipStandard {
  import opened Bytes
  import opened ZipNumbers
  import opened Crypt
  import opened CryptExamples
  import opened ZipLayout
  import opened ZipParse

  /** The compressed size of a stored entry counts the 12 bytes of an encryption header. */
  function StoredSize(e: Entry): nat {
    |e.content| + if e.password.Some? then 12 else 0
  }

  predicate Described(e: Entry) {
    e.descriptor && e.level != 0
  }

  /** Version 1.0, or 2.0 with a data descriptor. */
  function Version(e: Entry): nat {
    if Described(e) then 20 else 10
  }

  /** Bit 0 says that an entry is encrypted, bits 1 and 2 are the level, and bit 3 says that a
      data descriptor follows. */
  ghost predicate FlagBits(flag: nat, e: Entry) {
    && (flag % 2 == 1 <==> e.password.Some?)
    && flag / 2 % 4 == (if e.level == 8 || e.level == 9 then 1
                        else if e.level == 2 then 2 else if e.level == 1 then 3 else 0)
    && (flag / 8 == if Described(e) then 1 else 0)
  }

  lemma FlagIs(e: Entry)
    ensures FlagBits(Flag(e), e) && VersionNeeded(e) == Version(e) && (HasDescriptor(e) <==> Described(e))
  {
  }

  lemma SizesStandard(tab: Table, e: Entry)
    ensures SizesOf(tab, e) == Sizes(Crc32(tab, 0, e.content), StoredSize(e), |e.content|)
  {
  }

  // ---------------------------------------------------------------------------------------
  // Local records
  // ---------------------------------------------------------------------------------------

  /** The numbers of a local header at `p`. */
  ghost predicate LocalStands(data: bytes, p: nat, tab: Table, e: Entry) {
    && p + 30 <= |data|
    && At(data, p, 4) == 0x0403_4b50 && At(data, p + 4, 2) == Version(e) && FlagBits(At(data, p + 6, 2), e)
    && At(data, p + 8, 2) == 0 && At(data, p + 10, 4) == e.date && At(data, p + 14, 4) == Crc32(tab, 0, e.content)
    && At(data, p + 18, 4) == StoredSize(e) && At(data, p + 22, 4) == |e.content|
    && At(data, p + 26, 2) == |e.name| && At(data, p + 28, 2) == |e.localExtra|
  }

  lemma LocalStandard(data: bytes, tab: Table, e: Entry, before: bytes, after: bytes)
    requires Fits(e) && data == before + LocalRecord(tab, e) + after
    ensures LocalStands(data, |before|, tab, e)
  {
    hide Fields, Offset, At, SizesOf, Stored, Descriptor, LocalRecord, Flag, Crc32, FlagBits, VersionNeeded;
    var z := SizesOf(tab, e);
    SizesFit(tab, e);
    SizesStandard(tab, e);
    FlagIs(e);
    LocalSplit(data, tab, e, before, after);
    var rest := e.name + e.localExtra + Stored(tab, e) + (Descriptor(e, z) + after);
    LocalNumbers(data, before, rest, e, z);
    LocalOffsets(e, z);
    Pow256Values();
    NumberAt(data, before, LocalFields(e, z), rest, 1, 4, 2);
    NumberAt(data, before, LocalFields(e, z), rest, 4, 10, 4);
  }

  /** The data descriptor at `d`. */
  ghost predicate DescriptorStands(data: bytes, d: nat, crc: nat, compressed: nat, uncompressed: nat) {
    && d + 16 <= |data|
    && At(data, d, 4) == 0x0807_4b50 && At(data, d + 4, 4) == crc
    && At(data, d + 8, 4) == compressed && At(data, d + 12, 4) == uncompressed
  }

  lemma DescriptorStandard(data: bytes, tab: Table, e: Entry, before: bytes, after: bytes)
    requires Fits(e) && data == before + Descriptor(e, SizesOf(tab, e)) + after
    ensures Described(e) ==> DescriptorStands(data, |before|, Crc32(tab, 0, e.content), StoredSize(e), |e.content|)
    ensures |before| + (if Described(e) then 16 else 0) + |after| == |data|
  {
    hide Fields, Offset, At, SizesOf, Crc32, VersionNeeded;
    var z := SizesOf(tab, e);
    SizesFit(tab, e);
    SizesStandard(tab, e);
    FlagIs(e);
    if Described(e) {
      var fs := DescriptorFields(z);
      DescriptorOffsets(z);
      Pow256Values();
      NumberAt(data, before, fs, after, 0, 0, 4);
      NumberAt(data, before, fs, after, 1, 4, 4);
      NumberAt(data, before, fs, after, 2, 8, 4);
      NumberAt(data, before, fs, after, 3, 12, 4);
    }
  }

  lemma DescriptorOffsets(z: Sizes)
    ensures var fs := DescriptorFields(z);
            Offset(fs, 0) == 0 && Offset(fs, 1) == 4 && Offset(fs, 2) == 8 && Offset(fs, 3) == 12
    ensures |Fields(DescriptorFields(z))| == 16
  {
    hide Fields, Offset;
    var fs := DescriptorFields(z);
    OffsetZero(fs);
    OffsetStep(fs, 0);
    OffsetStep(fs, 1);
    OffsetStep(fs, 2);
    OffsetStep(fs, 3);
    FieldsLength(fs, 4);
    assert fs[..4] == fs;
  }

  // ---------------------------------------------------------------------------------------
  // The directory
  // ---------------------------------------------------------------------------------------

  /** The numbers of a central header at `p` that points to `offset`. */
  ghost predicate CentralStands(data: bytes, p: nat, tab: Table, e: Entry, offset: nat) {
    && p + 46 <= |data|
    && At(data, p, 4) == 0x0201_4b50 && At(data, p + 4, 2) == 0x031e && At(data, p + 6, 2) == Version(e)
    && FlagBits(At(data, p + 8, 2), e) && At(data, p + 10, 2) == 0 && At(data, p + 12, 4) == e.date
    && At(data, p + 16, 4) == Crc32(tab, 0, e.content)
    && At(data, p + 20, 4) == StoredSize(e) && At(data, p + 24, 4) == |e.content|
    && At(data, p + 28, 2) == |e.name| && At(data, p + 30, 2) == |e.globalExtra|
    && At(data, p + 32, 2) == |e.comment| && At(data, p + 34, 2) == 0
    && At(data, p + 36, 2) == e.internalFa && At(data, p + 38, 4) == e.externalFa && At(data, p + 42, 4) == offset
  }

  /** What the parser is to give for it, by the names of the numbers. */
  ghost predicate InfoStands(i: FileInfo, tab: Table, e: Entry, offset: nat) {
    && i.version == 0x031e && i.versionNeeded == Version(e) && FlagBits(i.flag, e) && i.compression == 0
    && i.dosDate == e.date && i.crc == Crc32(tab, 0, e.content)
    && i.compressedSize == StoredSize(e) && i.uncompressedSize == |e.content|
    && i.nameSize == |e.name| && i.extraSize == |e.globalExtra| && i.commentSize == |e.comment|
    && i.disk == 0 && i.internalFa == e.internalFa && i.externalFa == e.externalFa && i.offset == offset
  }

  lemma CentralStandard(data: bytes, tab: Table, e: Entry, offset: nat, before: bytes, after: bytes)
    requires Fits(e) && offset < TWO_32
    requires data == before + CentralHeader(e, SizesOf(tab, e), offset) + after
    ensures CentralStands(data, |before|, tab, e, offset)
    ensures var i := ParseCentral(data, |before|); i.Some? && InfoStands(i.value, tab, e, offset)
  {
    var z := SizesOf(tab, e);
    var tail := e.name + e.globalExtra + e.comment + after;
    SizesFit(tab, e);
    SizesStandard(tab, e);
    FlagIs(e);
    hide Fields, Offset, At, SizesOf, CentralHeader, CentralFields, ParseCentral, Crc32, FlagBits, VersionNeeded, Flag;
    CentralTexts(data, before, after, e, z, offset);
    CentralNumbersFront(data, before, tail, e, z, offset);
    CentralNumbersMiddle(data, before, tail, e, z, offset);
    CentralNumbersBack(data, before, tail, e, z, offset);
    CentralParses(data, tab, e, offset, before, after);
  }

  // ---------------------------------------------------------------------------------------
  // Archives
  // ---------------------------------------------------------------------------------------

  /** What stands behind the stored bytes of the entry whose local header is at `p`: if bit 3
      of the flags there is set, a data descriptor with the numbers that the central header
      gives, and then the next part of the archive; if it is clear, that part at once. */
  ghost predicate RecordEnds(data: bytes, p: nat, i: FileInfo, localExtra: nat, next: nat) {
    var d := p + 30 + i.nameSize + localExtra + i.compressedSize;
    && p + 8 <= |data|
    && if At(data, p + 6, 2) / 8 % 2 == 1
       then next == d + 16 && DescriptorStands(data, d, i.crc, i.compressedSize, i.uncompressedSize)
       else next == d
  }

  /** The i-th entry of an archive: its central header points to its local header, both have
      the numbers of the entry, and behind the stored bytes stands a data descriptor if the
      local header says so, and then the next record or the directory. */
  lemma EntryStands(data: bytes, tab: Table, prefix: bytes, es: seq<Entry>, comment: bytes, i: nat)
    returns (info: FileInfo)
    requires ArchiveFits(tab, es, comment) && i < |es| && data == prefix + Archive(tab, es, comment)
    ensures ParseCentral(data, |prefix| + CentralPos(tab, es, i)) == Some(info)
    ensures CentralStands(data, |prefix| + CentralPos(tab, es, i), tab, es[i], |Records(tab, es[..i])|)
    ensures InfoStands(info, tab, es[i], |Records(tab, es[..i])|)
    ensures LocalStands(data, |prefix| + info.offset, tab, es[i])
    ensures RecordEnds(data, |prefix| + info.offset, info, |es[i].localExtra|, |prefix| + |Records(tab, es[..i + 1])|)
  {
    hide Records, Central, LocalRecord, CentralHeader, ParseCentral, SizesOf, Fields, EndRecord, At, Crc32, Fits,
         CentralStands, DescriptorStands;
    var offset := |Records(tab, es[..i])|;
    var last := EndRecord(|es|, |Central(tab, es)|, |Records(tab, es)|, comment);
    var r, c := AroundEntry(data, tab, prefix, es, last, i);
    assert es[i] in es;
    PrefixLengths(tab, es, i);
    SplitRecords(tab, es, i);
    CentralStandard(data, tab, es[i], offset, prefix + Records(tab, es) + Central(tab, es[..i]), c);
    LocalStandard(data, tab, es[i], prefix + Records(tab, es[..i]), r);
    BehindStored(data, tab, es[i], prefix + Records(tab, es[..i]), r);
    info := ParseCentral(data, |prefix| + CentralPos(tab, es, i)).value;
  }

  /** The data descriptor behind the stored bytes of a local record. */
  lemma BehindStored(data: bytes, tab: Table, e: Entry, before: bytes, after: bytes)
    requires Fits(e) && data == before + LocalRecord(tab, e) + after
    ensures var d := |before| + 30 + |e.name| + |e.localExtra| + StoredSize(e);
            && |before| + |LocalRecord(tab, e)| == d + (if Described(e) then 16 else 0)
            && (Described(e) ==> DescriptorStands(data, d, Crc32(tab, 0, e.content), StoredSize(e), |e.content|))
  {
    hide LocalRecord, Descriptor, SizesOf, Fields, DescriptorStands, Crc32;
    var z := SizesOf(tab, e);
    LocalSplit(data, tab, e, before, after);
    LocalOffsets(e, z);
    var front := before + Fields(LocalFields(e, z)) + (e.name + e.localExtra + Stored(tab, e));
    assert data == front + Descriptor(e, z) + after;
    DescriptorStandard(data, tab, e, front, after);
  }

  /** The first record follows what is before the archive, the directory follows the last, and
      the end record follows the directory and says how many entries there are and where. */
  lemma EndStands(data: bytes, tab: Table, prefix: bytes, es: seq<Entry>, comment: bytes)
    requires ArchiveFits(tab, es, comment) && data == prefix + Archive(tab, es, comment)
    ensures var p := |data| - |comment| - 22;
            && p >= 0 && p + 22 <= |data| && data[p + 22..] == comment
            && At(data, p, 4) == 0x0605_4b50 && At(data, p + 4, 2) == 0 && At(data, p + 6, 2) == 0
            && At(data, p + 8, 2) == |es| && At(data, p + 10, 2) == |es|
            && |prefix| + At(data, p + 16, 4) + At(data, p + 12, 4) == p
            && |prefix| + At(data, p + 16, 4) == |prefix| + |Records(tab, es)| == |prefix| + CentralPos(tab, es, 0)
            && At(data, p + 20, 2) == |comment|
    ensures |Records(tab, es[..0])| == 0 && Records(tab, es[..|es|]) == Records(tab, es)
  {
    hide Records, Central, EndRecord, At;
    var body := Records(tab, es) + Central(tab, es);
    Assoc(prefix, body, EndRecord(|es|, |Central(tab, es)|, |Records(tab, es)|, comment));
    EndNumbers(data, prefix + body, |es|, |Central(tab, es)|, |Records(tab, es)|, comment);
    NoRecords(tab, es);
    assert es[..|es|] == es;
  }

  lemma NoRecords(tab: Table, es: seq<Entry>)
    ensures Records(tab, es[..0]) == [] && Central(tab, es[..0]) == []
  {
    assert es[..0] == [];
  }

  /** Numbers are stored lowest byte first: the signatures are "PK" and two more bytes. */
  lemma NumberBytes(data: bytes, p: nat)
    requires p + 4 <= |data|
    ensures At(data, p, 2) == data[p] as int + 256 * data[p + 1] as int
    ensures At(data, p, 4) == data[p] as int + 256 * data[p + 1] as int + 0x1_0000 * data[p + 2] as int
                              + 0x100_0000 * data[p + 3] as int
    ensures At(data, p, 4) == 0x0403_4b50 <==> data[p..p + 4] == [80, 75, 3, 4]
  {
    NumberOfTwo(data, p);
    NumberOfFour(data, p);
  }

  /** The encryption header in front of the content holds, for who knows the password, the low
      half of the date in its last two bytes. */
  lemma EncryptionHead(tab: Table, e: Entry) returns (h: bytes)
    requires e.password.Some?
    ensures |Stored(tab, e)| == 12 + |e.content|
    ensures h == Decrypt(tab, InitKeys(tab, e.password.value), Stored(tab, e)[..12])
    ensures |h| == 12 && h[10] == e.date % 256 && h[11] == e.date / 256 % 256
  {
    hide Encrypt, Decrypt, InitKeys, Sealed;
    h := HeadHolds(tab, e.password.value, e.random, CrcForCrypting(e));
    assert Stored(tab, e)[..12] == HeadBytes(tab, e);
    assert CrcForCrypting(e) / 0x1_0000 == e.date;
    assert CrcForCrypting(e) / 0x100_0000 == e.date / 256;
  }

  // ---------------------------------------------------------------------------------------
  // What the reader refuses
  // ---------------------------------------------------------------------------------------

  /** An end record counts exactly when it is complete, speaks of one disk only, and is not
      inside the directory it describes. */
  lemma EndAccepted(data: bytes, p: nat)
    ensures ParseEnd(data, p).Some?
       <==> p > 0 && p + 22 <= |data| && At(data, p + 4, 2) == 0 && At(data, p + 6, 2) == 0
            && At(data, p + 8, 2) == At(data, p + 10, 2) && At(data, p + 12, 4) + At(data, p + 16, 4) <= p
    ensures var e := ParseEnd(data, p);
            e.Some? ==> e.value.entries == At(data, p + 10, 2) && e.value.commentLength == At(data, p + 20, 2)
                        && e.value.size == At(data, p + 12, 4) && e.value.offset == At(data, p + 16, 4)
  {
    hide At;
  }

  /** A central header counts exactly when it is complete and has its signature. */
  lemma CentralAccepted(data: bytes, p: nat)
    ensures ParseCentral(data, p).Some? <==> p + 46 <= |data| && At(data, p, 4) == 0x0201_4b50
  {
    hide At;
  }

  /** A local header is accepted exactly when it agrees with the central one in all that is
      compared: its signature, the method, which must be stored or deflated, the length of the
      name and, unless a data descriptor follows, the checksum and both sizes. */
  lemma LocalAccepted(data: bytes, p: nat, i: FileInfo)
    ensures ParseLocal(data, p, i).Some?
       <==> p + 30 <= |data| && At(data, p, 4) == 0x0403_4b50
            && At(data, p + 8, 2) == i.compression && (i.compression == 0 || i.compression == 8)
            && (At(data, p + 6, 2) / 8 % 2 == 1
                || (At(data, p + 14, 4) == i.crc && At(data, p + 18, 4) == i.compressedSize
                    && At(data, p + 22, 4) == i.uncompressedSize))
            && At(data, p + 26, 2) == i.nameSize
  {
    hide At;
  }

  /** 26 November 2009, 13:45:30, stored and read; a DOS date that is given is stored as it is,
      and 0 reads as a month before the first. */
  lemma DateExample(t: Tm)
    requires ValidTm(t)
    ensures FromDos(0) == Tm(0, 0, 0, 0, 0xffff_ffff, 1980)
    ensures forall d: nat :: d > 0 ==> EntryDate(d, t) == d
    ensures ToDos(Tm(30, 45, 13, 26, 10, 2009)) == ToDos(Tm(30, 45, 13, 26, 10, 109)) == 0x3b7a6daf
    ensures FromDos(0x3b7a6daf) == Tm(30, 45, 13, 26, 10, 2009)
  {
  }
}
