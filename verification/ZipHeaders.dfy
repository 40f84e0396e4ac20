/** Building and patching the headers of an entry, byte by byte as zip.c does. */
module ZipHeaders {
  import opened Bytes
  import opened ZipNumbers
  import opened ZipLayout

  /** The numbers of a central header up to the sizes. */
  method PutCentralFront(h: array<byte>, e: Entry, ghost offset: nat)
    requires h.Length >= CENTRAL_SIZE
    modifies h
    ensures h[..28] == Fields(CentralFields(e, UNKNOWN, offset)[..9])
  {
    hide Fields, Offset, Put, VersionNeeded, Flag;
    ghost var fs := CentralFields(e, UNKNOWN, offset);
    CentralOffsets(e, UNKNOWN, offset);
    EmptyRecord(fs);
    PutField(h, fs, 0, 0, CENTRAL_MAGIC, 4);
    PutField(h, fs, 1, 4, VERSION_MADE_BY, 2);
    PutField(h, fs, 2, 6, VersionNeeded(e), 2);
    PutField(h, fs, 3, 8, Flag(e), 2);
    PutField(h, fs, 4, 10, 0, 2);
    PutCentralMiddle(h, e, offset);
  }

  /** The date, and zeros for the checksum and the sizes. */
  method PutCentralMiddle(h: array<byte>, e: Entry, ghost offset: nat)
    requires h.Length >= CENTRAL_SIZE
    requires h[..12] == Fields(CentralFields(e, UNKNOWN, offset)[..5])
    modifies h
    ensures h[..28] == Fields(CentralFields(e, UNKNOWN, offset)[..9])
  {
    hide Fields, Offset, Put, VersionNeeded, Flag;
    ghost var fs := CentralFields(e, UNKNOWN, offset);
    CentralOffsets(e, UNKNOWN, offset);
    PutField(h, fs, 5, 12, e.date, 4);
    PutField(h, fs, 6, 16, 0, 4);
    PutField(h, fs, 7, 20, 0, 4);
    PutField(h, fs, 8, 24, 0, 4);
  }

  /** The remaining numbers of a central header. */
  method PutCentralBack(h: array<byte>, e: Entry, offset: nat)
    requires h.Length >= CENTRAL_SIZE
    requires h[..28] == Fields(CentralFields(e, UNKNOWN, offset)[..9])
    modifies h
    ensures h[..CENTRAL_SIZE] == Fields(CentralFields(e, UNKNOWN, offset))
  {
    hide Fields, Offset, Put, VersionNeeded, Flag;
    ghost var fs := CentralFields(e, UNKNOWN, offset);
    CentralOffsets(e, UNKNOWN, offset);
    PutField(h, fs, 9, 28, |e.name|, 2);
    PutField(h, fs, 10, 30, |e.globalExtra|, 2);
    PutField(h, fs, 11, 32, |e.comment|, 2);
    PutField(h, fs, 12, 34, 0, 2);
    PutField(h, fs, 13, 36, e.internalFa, 2);
    PutField(h, fs, 14, 38, e.externalFa, 4);
    PutField(h, fs, 15, 42, offset, 4);
    assert fs[..16] == fs;
  }

  /** The central header of an entry that is being written, in a buffer of its own. */
  method BuildCentralHeader(e: Entry, offset: nat) returns (h: array<byte>)
    ensures fresh(h) && h[..] == CentralHeader(e, UNKNOWN, offset)
  {
    hide Fields;
    h := new byte[CENTRAL_SIZE + |e.name| + |e.globalExtra| + |e.comment|];
    PutCentralFront(h, e, offset);
    PutCentralBack(h, e, offset);
    Copy(h, CENTRAL_SIZE, e.name);
    Copy(h, CENTRAL_SIZE + |e.name|, e.globalExtra);
    Copy(h, CENTRAL_SIZE + |e.name| + |e.globalExtra|, e.comment);
    assert h[..] == h[..h.Length];
  }

  lemma EmptyRecord(fs: seq<Field>)
    ensures Fields(fs[..0]) == []
  {
  }

  /** Copy `s` to `off`; what comes before stays. */
  method Copy(h: array<byte>, off: nat, s: bytes)
    requires off + |s| <= h.Length
    modifies h
    ensures h[..off + |s|] == old(h[..off]) + s
  {
    for i := 0 to |s|
      invariant h[..off + i] == old(h[..off]) + s[..i]
    {
      h[off + i] := s[i];
      assert h[..off + i + 1] == h[..off + i] + [s[i]];
    }
  }

  /** Fill in one number of a central header. */
  method PatchCentral(h: array<byte>, ghost fs: seq<Field>, ghost k: nat, off: nat, x: nat, ghost tail: bytes)
    requires k < |fs| && fs[k].1 == 4 && off == Offset(fs, k)
    requires off + 4 <= h.Length && h[..] == Fields(fs) + tail
    modifies h
    ensures h[..] == Fields(fs[k := (x, 4)]) + tail
  {
    hide Fields, Offset, Put;
    FieldPatch(fs, k, x, [], tail);
    assert [] + Fields(fs) == Fields(fs);
    assert [] + Fields(fs[k := (x, 4)]) == Fields(fs[k := (x, 4)]);
    PutValueInMemory(h, off, x, 4);
  }

  /** The three numbers known at the end, at their fixed places in the central header. */
  method PatchCentralHeader(h: array<byte>, ghost e: Entry, z: Sizes, ghost offset: nat)
    requires h[..] == CentralHeader(e, UNKNOWN, offset)
    modifies h
    ensures h[..] == CentralHeader(e, z, offset)
  {
    hide Fields, Offset;
    ghost var fs0 := CentralFields(e, UNKNOWN, offset);
    ghost var fs1 := fs0[6 := (z.crc, 4)];
    ghost var fs2 := fs1[7 := (z.compressed, 4)];
    ghost var tail := e.name + e.globalExtra + e.comment;
    CentralOffsets(e, UNKNOWN, offset);
    CentralTail(e, UNKNOWN, offset);
    SameOffset(fs0, fs1, 7);
    SameOffset(fs0, fs2, 8);
    PatchCentral(h, fs0, 6, 16, z.crc, tail);
    PatchCentral(h, fs1, 7, 20, z.compressed, tail);
    PatchCentral(h, fs2, 8, 24, z.uncompressed, tail);
    CentralTail(e, z, offset);
    assert fs2[8 := (z.uncompressed, 4)] == CentralFields(e, z, offset);
  }

  lemma CentralTail(e: Entry, z: Sizes, offset: nat)
    ensures CentralHeader(e, z, offset) == Fields(CentralFields(e, z, offset)) + (e.name + e.globalExtra + e.comment)
    ensures |CentralHeader(e, z, offset)| >= CENTRAL_SIZE
  {
    hide Fields;
    HeaderLengths(e, z, offset);
    var f := Fields(CentralFields(e, z, offset));
    Assoc(f, e.name, e.globalExtra);
    Assoc(f, e.name + e.globalExtra, e.comment);
  }

  lemma {:induction false} SameOffset(a: seq<Field>, b: seq<Field>, k: nat)
    requires |a| == |b| && k <= |a| && forall i :: 0 <= i < |a| ==> a[i].1 == b[i].1
    ensures Offset(a, k) == Offset(b, k)
  {
    if k > 0 {
      SameOffset(a, b, k - 1);
    }
  }

  /** The numbers of the local header up to the date. */
  method WriteLocalFront(f: File, e: Entry, ghost base: bytes)
    requires f.pos <= |f.data| && f.data[..f.pos] == base
    modifies f
    ensures f.pos <= |f.data| && f.data[..f.pos] == base + Fields(LocalFields(e, UNKNOWN)[..5])
    ensures Grown(old(|f.data|), old(f.pos), |f.data|, f.pos)
  {
    hide Fields, Offset, Put, Overwrite, VersionNeeded, Flag;
    ghost var fs := LocalFields(e, UNKNOWN);
    EmptyRecord(fs);
    assert base + [] == base;
    PutFileField(f, fs, 0, LOCAL_MAGIC, 4, base);
    PutFileField(f, fs, 1, VersionNeeded(e), 2, base);
    PutFileField(f, fs, 2, Flag(e), 2, base);
    PutFileField(f, fs, 3, 0, 2, base);
    PutFileField(f, fs, 4, e.date, 4, base);
  }

  /** The remaining numbers of the local header; checksum and sizes are still unknown. */
  method WriteLocalBack(f: File, e: Entry, ghost base: bytes)
    requires f.pos <= |f.data| && f.data[..f.pos] == base + Fields(LocalFields(e, UNKNOWN)[..5])
    modifies f
    ensures f.pos <= |f.data| && f.data[..f.pos] == base + Fields(LocalFields(e, UNKNOWN))
    ensures Grown(old(|f.data|), old(f.pos), |f.data|, f.pos)
  {
    hide Fields, Offset, Put, Overwrite, VersionNeeded, Flag;
    ghost var fs := LocalFields(e, UNKNOWN);
    PutFileField(f, fs, 5, 0, 4, base);
    PutFileField(f, fs, 6, 0, 4, base);
    PutFileField(f, fs, 7, 0, 4, base);
    PutFileField(f, fs, 8, |e.name|, 2, base);
    PutFileField(f, fs, 9, |e.localExtra|, 2, base);
    assert fs[..10] == fs;
  }

  /** Write the local header. */
  method WriteLocalHeader(f: File, e: Entry, ghost base: bytes)
    requires f.pos <= |f.data| && f.data[..f.pos] == base
    modifies f
    ensures f.pos <= |f.data| && f.data[..f.pos] == base + LocalHeader(e, UNKNOWN)
    ensures Grown(old(|f.data|), old(f.pos), |f.data|, f.pos)
  {
    hide Fields, LocalFields;
    ghost var numbers := Fields(LocalFields(e, UNKNOWN));
    WriteLocalFront(f, e, base);
    WriteLocalBack(f, e, base);
    WriteText(f, e.name, base + numbers);
    WriteText(f, e.localExtra, base + numbers + e.name);
    Assoc(base, numbers, e.name);
    Assoc(base, numbers + e.name, e.localExtra);
  }

  /** Write a text unless it is empty. */
  method WriteText(f: File, s: bytes, ghost before: bytes)
    requires f.pos <= |f.data| && f.data[..f.pos] == before
    modifies f
    ensures f.pos <= |f.data| && f.data[..f.pos] == before + s && f.pos == old(f.pos) + |s|
    ensures Grown(old(|f.data|), old(f.pos), |f.data|, f.pos)
  {
    if |s| > 0 {
      f.Write(s);
    } else {
      assert before + s == before;
    }
  }

  /** Go back to a local header and fill in the three numbers. */
  method PatchLocalHeader(f: File, ghost e: Entry, z: Sizes, headerPos: nat, ghost base: bytes, ghost body: bytes)
    requires |base| == headerPos && f.data == base + LocalHeader(e, UNKNOWN) + body
    modifies f
    ensures f.data == base + LocalHeader(e, z) + body && f.pos == headerPos + 26
  {
    hide Fields, Offset, Put, Overwrite;
    ghost var fs0 := LocalFields(e, UNKNOWN);
    ghost var fs1 := fs0[5 := (z.crc, 4)];
    ghost var fs2 := fs1[6 := (z.compressed, 4)];
    ghost var fs3 := fs2[7 := (z.uncompressed, 4)];
    ghost var tail := e.name + e.localExtra + body;
    LocalOffsets(e, UNKNOWN);
    SameOffset(fs0, fs1, 6);
    SameOffset(fs0, fs2, 7);
    LocalTail(e, UNKNOWN, base, body);
    f.Seek(headerPos + 14);
    FieldPatch(fs0, 5, z.crc, base, tail);
    PutValue(f, z.crc, 4);
    FieldPatch(fs1, 6, z.compressed, base, tail);
    PutValue(f, z.compressed, 4);
    FieldPatch(fs2, 7, z.uncompressed, base, tail);
    PutValue(f, z.uncompressed, 4);
    assert fs3 == LocalFields(e, z);
    LocalTail(e, z, base, body);
  }

  lemma LocalTail(e: Entry, z: Sizes, base: bytes, body: bytes)
    ensures base + LocalHeader(e, z) + body == base + Fields(LocalFields(e, z)) + (e.name + e.localExtra + body)
    ensures |base + LocalHeader(e, z) + body| >= |base| + LOCAL_SIZE
  {
    hide Fields;
    HeaderLengths(e, z, 0);
    var f := Fields(LocalFields(e, z));
    Assoc(base, f, e.name);
    Assoc(base, f + e.name, e.localExtra);
    Assoc(base + f, e.name, e.localExtra);
    Assoc(base + f, e.name + e.localExtra, body);
  }

  /** Write the data descriptor if the flags ask for one. */
  method WriteDescriptor(f: File, flag: nat, ghost e: Entry, z: Sizes, ghost before: bytes)
    requires f.pos <= |f.data| && f.data[..f.pos] == before
    requires flag == Flag(e)
    modifies f
    ensures f.pos <= |f.data| && f.data[..f.pos] == before + Descriptor(e, z)
    ensures Grown(old(|f.data|), old(f.pos), |f.data|, f.pos)
  {
    hide Fields, Put, Overwrite;
    ghost var fs := DescriptorFields(z);
    EmptyRecord(fs);
    assert before + [] == before;
    if (flag / 8) % 2 != 0 {
      PutFileField(f, fs, 0, DESCRIPTOR_MAGIC, 4, before);
      PutFileField(f, fs, 1, z.crc, 4, before);
      PutFileField(f, fs, 2, z.compressed, 4, before);
      PutFileField(f, fs, 3, z.uncompressed, 4, before);
      assert fs[..4] == fs;
    }
  }

  /** The end record up to the numbers of entries. */
  method WriteEndFront(f: File, entries: nat, ghost fs: seq<Field>, ghost before: bytes)
    requires f.pos <= |f.data| && f.data[..f.pos] == before
    requires |fs| == 8 && fs[..5] == [(END_MAGIC, 4), (0, 2), (0, 2), (entries, 2), (entries, 2)]
    modifies f
    ensures f.pos <= |f.data| && f.data[..f.pos] == before + Fields(fs[..5])
    ensures Grown(old(|f.data|), old(f.pos), |f.data|, f.pos)
  {
    hide Fields, Put, Overwrite;
    EmptyRecord(fs);
    assert before + [] == before;
    assert fs[0] == fs[..5][0] && fs[1] == fs[..5][1] && fs[2] == fs[..5][2];
    assert fs[3] == fs[..5][3] && fs[4] == fs[..5][4];
    PutFileField(f, fs, 0, END_MAGIC, 4, before);
    PutFileField(f, fs, 1, 0, 2, before);
    PutFileField(f, fs, 2, 0, 2, before);
    PutFileField(f, fs, 3, entries, 2, before);
    PutFileField(f, fs, 4, entries, 2, before);
  }

  /** Write the end record with its comment. */
  method WriteEndRecord(f: File, entries: nat, size: nat, offset: nat, comment: bytes, ghost before: bytes)
    requires f.pos <= |f.data| && f.data[..f.pos] == before
    modifies f
    ensures f.pos <= |f.data| && f.data[..f.pos] == before + EndRecord(entries, size, offset, comment)
    ensures Grown(old(|f.data|), old(f.pos), |f.data|, f.pos)
  {
    hide Fields, Put, Overwrite;
    ghost var fs := EndFields(entries, size, offset, |comment|);
    WriteEndFront(f, entries, fs, before);
    PutFileField(f, fs, 5, size, 4, before);
    PutFileField(f, fs, 6, offset, 4, before);
    PutFileField(f, fs, 7, |comment|, 2, before);
    assert fs[..8] == fs;
    WriteText(f, comment, before + Fields(fs));
    Assoc(before, Fields(fs), comment);
  }
}
