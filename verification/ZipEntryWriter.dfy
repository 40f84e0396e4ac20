/** The entry being written: `curfile_info` of zip.c, for stored entries. */
module ZipEntryWriter {
  import opened Bytes
  import opened ZipNumbers
  import opened Crypt
  import opened ZipLayout
  import opened ZipHeaders

  const BUF_SIZE: nat := 16384

  /** What is on file of an entry whose first bytes `s` of content are flushed. */
  function Partial(tab: Table, e: Entry, z: Sizes, s: bytes): bytes {
    LocalHeader(e, z) + HeadBytes(tab, e) + Sealed(tab, e, s)
  }

  lemma SealedAppend(tab: Table, e: Entry, a: bytes, b: bytes)
    ensures Sealed(tab, e, a + b)
         == Sealed(tab, e, a) + if e.password.Some? then Encrypt(tab, After(tab, ContentKeys(tab, e), a), b) else b
  {
    if e.password.Some? {
      EncryptAppend(tab, ContentKeys(tab, e), a, b);
    }
  }

  /** Headers do not depend on the content, except through the sizes. */
  lemma ContentIrrelevant(tab: Table, e: Entry, s: bytes, z: Sizes, offset: nat)
    ensures var d := e.(content := s);
            && LocalHeader(d, z) == LocalHeader(e, z) && CentralHeader(d, z, offset) == CentralHeader(e, z, offset)
            && HeadBytes(tab, d) == HeadBytes(tab, e) && Sealed(tab, d, s) == Sealed(tab, e, s)
            && Descriptor(d, z) == Descriptor(e, z) && HeadSize(d) == HeadSize(e)
  {
    var d := e.(content := s);
    assert VersionNeeded(d) == VersionNeeded(e) && Flag(d) == Flag(e);
    assert LocalFields(d, z) == LocalFields(e, z);
    assert CentralFields(d, z, offset) == CentralFields(e, z, offset);
  }

  lemma SplitBody(data: bytes, p: nat, base: bytes, header: bytes, stored: bytes)
    requires p <= |data| && data[..p] == base + (header + stored)
    ensures data == base + header + (stored + data[p..])
  {
    assert data == data[..p] + data[p..];
    Assoc(base, header, stored);
    Assoc(base + header, stored, data[p..]);
  }

  lemma JoinBody(data: bytes, p: nat, base: bytes, header: bytes, stored: bytes, tail: bytes)
    requires data == base + header + (stored + tail) && p == |base| + |header| + |stored|
    ensures p <= |data| && data[..p] == base + (header + stored)
  {
    Assoc(base + header, stored, tail);
    Assoc(base, header, stored);
    assert data == (base + (header + stored)) + tail;
  }

  class CurFile {
    const file: File
    const tab: Table
    const buffered: array<byte>
    const keys: array<nat>
    var centralHeader: array<byte>
    var posInBuffered: nat
    var availOut: nat
    var posLocalHeader: nat
    var flag: nat
    var crc: nat
    var encrypt: bool
    var cryptHeaderSize: nat
    var totalIn: nat
    var totalOut: nat

    /** The file before the entry, the offset recorded for it, what the entry was opened
        with, and the content it has so far. */
    ghost var base: bytes
    ghost var offset: nat
    ghost var head: Entry
    ghost var plain: bytes

    ghost predicate Shape()
      reads `centralHeader
    {
      buffered.Length == 16384 && keys.Length == 3 && centralHeader != buffered
    }

    /** The objects that make up the entry, apart from the file. */
    ghost function Parts(): set<object>
      reads `centralHeader
    {
      {this, buffered, keys, centralHeader}
    }

    ghost function Flushed(): bytes
      requires posInBuffered <= |plain|
      reads `plain, `posInBuffered
    {
      plain[..|plain| - posInBuffered]
    }

    /** The file holds the flushed part, the buffer the rest, and the keys are those after
        the flushed part. */
    ghost predicate StreamOk()
      reads `posInBuffered, `plain, `base, `head, `encrypt, `totalIn, `totalOut, file, buffered, keys
    {
      && file.pos <= |file.data|
      && keys.Length == 3
      && posInBuffered <= |plain| && posInBuffered <= buffered.Length
      && file.data[..file.pos] == base + Partial(tab, head, UNKNOWN, Flushed())
      && buffered[..posInBuffered] == plain[|plain| - posInBuffered..]
      && encrypt == head.password.Some?
      && (encrypt ==> KeysOf(keys) == After(tab, ContentKeys(tab, head), Flushed()))
      && totalIn == totalOut == |plain|
    }

    ghost predicate HeaderOk()
      reads `posLocalHeader, `base, `offset, `centralHeader, `head, `flag, `cryptHeaderSize, centralHeader
    {
      && posLocalHeader == |base|
      && centralHeader[..] == CentralHeader(head, UNKNOWN, offset)
      && flag == Flag(head)
      && cryptHeaderSize == HeadSize(head)
    }

    /** The entry is open. */
    ghost predicate Open()
      reads this, file, buffered, keys, centralHeader
    {
      && Shape() && StreamOk() && HeaderOk()
      && availOut == BUF_SIZE - posInBuffered
      && crc == Crc32(tab, 0, plain)
    }

    /** The entry as it will be recorded. */
    ghost function Finished(): Entry
      reads `head, `plain
    {
      head.(content := plain)
    }

    constructor (f: File, t: Table)
      ensures Shape() && file == f && tab == t && fresh(Parts())
    {
      file, tab := f, t;
      buffered := new byte[BUF_SIZE];
      keys := new nat[3];
      centralHeader := new byte[0];
    }

    // -------------------------------------------------------------------------------------
    // Opening
    // -------------------------------------------------------------------------------------

    /** Write the encryption header of an entry with a password. */
    method WriteHead(e: Entry, ghost before: bytes)
      requires keys.Length == 3 && file.pos <= |file.data| && file.data[..file.pos] == before
      modifies file, keys, `cryptHeaderSize
      ensures file.pos <= |file.data| && file.data[..file.pos] == before + HeadBytes(tab, e)
      ensures e.password.Some? ==> KeysOf(keys) == ContentKeys(tab, e)
      ensures cryptHeaderSize == HeadSize(e)
      ensures Grown(old(|file.data|), old(file.pos), |file.data|, file.pos)
    {
      hide Head, KeysAfterHead, Overwrite;
      assert before + [] == before;
      cryptHeaderSize := 0;
      if e.password.Some? {
        var bufHead := CryptHead(e.password.value, e.random, keys, tab, CrcForCrypting(e));
        cryptHeaderSize := HEAD_LEN;
        file.Write(bufHead[..]);
      }
    }

    /** The invariant of the copy loop holds when nothing was copied yet. */
    lemma StreamStarts()
      requires posInBuffered == 0 && plain == [] && totalIn == totalOut == 0
      requires file.pos <= |file.data| && keys.Length == 3
      requires file.data[..file.pos] == base + LocalHeader(head, UNKNOWN) + HeadBytes(tab, head)
      requires encrypt == head.password.Some? && (encrypt ==> KeysOf(keys) == ContentKeys(tab, head))
      ensures StreamOk() && Crc32(tab, 0, []) == 0
    {
      hide LocalHeader, HeadBytes, ContentKeys;
      CrcOfNothing(tab, 0);
      assert Sealed(tab, head, []) == [];
      var h := LocalHeader(head, UNKNOWN) + HeadBytes(tab, head);
      assert h + [] == h;
      Assoc(base, LocalHeader(head, UNKNOWN), HeadBytes(tab, head));
      assert Flushed() == [];
    }

    method ResetCounters()
      modifies `crc, `posInBuffered, `availOut, `totalIn, `totalOut
      ensures posInBuffered == totalIn == totalOut == crc == 0 && availOut == BUF_SIZE
    {
      crc := 0;
      posInBuffered, availOut := 0, BUF_SIZE;
      totalIn, totalOut := 0, 0;
    }

    /** Set the fields of the entry and build its central header in memory. */
    method SetUp(e: Entry, relative: nat)
      requires Shape()
      modifies `offset, `head, `flag, `posLocalHeader, `encrypt, `centralHeader
      ensures Shape() && fresh(centralHeader) && offset == relative && head == e
      ensures posLocalHeader == file.pos && flag == Flag(e) && encrypt == e.password.Some?
      ensures centralHeader[..] == CentralHeader(e, UNKNOWN, relative)
    {
      hide CentralHeader, Flag;
      offset, head := relative, e;
      flag := Flag(e);
      posLocalHeader := file.pos;
      encrypt := e.password.Some?;
      centralHeader := BuildCentralHeader(e, relative);
    }

    /** The part of `zipOpenNewFileInZip3` that sets up the entry: the central header in
        memory, the local header and the encryption header on file. */
    method Begin(e: Entry, relative: nat)
      requires Shape() && e.content == [] && file.pos <= |file.data|
      modifies this, file, keys
      ensures Open() && fresh(centralHeader)
      ensures head == e && plain == [] && base == old(file.data[..file.pos]) && offset == relative
      ensures Grown(old(|file.data|), old(file.pos), |file.data|, file.pos)
    {
      hide LocalHeader, CentralHeader, HeadBytes, Flag, Crc32, CurFile.StreamOk;
      base, plain := file.data[..file.pos], [];
      ResetCounters();
      SetUp(e, relative);
      WriteLocalHeader(file, e, base);
      WriteHead(e, base + LocalHeader(e, UNKNOWN));
      StreamStarts();
    }

    // -------------------------------------------------------------------------------------
    // Writing
    // -------------------------------------------------------------------------------------

    /** `zipFlushWriteBuffer`: encrypt what is buffered if need be, and write it. */
    method Flush()
      requires StreamOk() && buffered.Length == BUF_SIZE
      modifies file, buffered, keys, `posInBuffered
      ensures StreamOk() && posInBuffered == 0
      ensures Grown(old(|file.data|), old(file.pos), |file.data|, file.pos)
    {
      hide Encrypt, After, LocalHeader, HeadBytes, Overwrite;
      ghost var done, rest := Flushed(), buffered[..posInBuffered];
      assert done + rest == plain;
      SealedAppend(tab, head, done, rest);
      if encrypt {
        EncodeBuffer(buffered, posInBuffered, keys, tab);
        AfterAppend(tab, ContentKeys(tab, head), done, rest);
      }
      ghost var sealed := buffered[..posInBuffered];
      ghost var front := LocalHeader(head, UNKNOWN) + HeadBytes(tab, head);
      file.Write(buffered[..posInBuffered]);
      posInBuffered := 0;
      assert Flushed() == plain;
      Assoc(front, Sealed(tab, head, done), sealed);
      Assoc(base, Partial(tab, head, UNKNOWN, done), sealed);
    }

    lemma WithinFile()
      requires StreamOk()
      ensures file.pos <= |file.data|
    {
    }

    /** Flush a full buffer. */
    method MakeRoom()
      requires Shape() && StreamOk() && availOut == BUF_SIZE - posInBuffered
      modifies file, buffered, keys, `posInBuffered, `availOut
      ensures StreamOk() && availOut == BUF_SIZE - posInBuffered > 0
      ensures Grown(old(|file.data|), old(file.pos), |file.data|, file.pos)
    {
      hide CurFile.StreamOk;
      WithinFile();
      if availOut == 0 {
        Flush();
        availOut := BUF_SIZE;
      }
    }

    lemma BufferGrows(plain: bytes, kept: bytes, more: bytes)
      requires |kept| <= |plain| && kept == plain[|plain| - |kept|..]
      ensures (plain + more)[|plain| - |kept|..] == kept + more
      ensures (plain + more)[..|plain| - |kept|] == plain[..|plain| - |kept|]
    {
    }

    /** Copy `s` behind what is buffered. */
    method CopyIn(s: bytes)
      requires Shape() && StreamOk() && |s| <= availOut == BUF_SIZE - posInBuffered
      modifies buffered, `posInBuffered, `availOut, `totalIn, `totalOut, `plain
      ensures StreamOk() && availOut == BUF_SIZE - posInBuffered && plain == old(plain) + s
    {
      hide Partial, After;
      ghost var kept := buffered[..posInBuffered];
      forall i | 0 <= i < |s| {
        buffered[posInBuffered + i] := s[i];
      }
      assert buffered[..posInBuffered + |s|] == kept + s;
      BufferGrows(plain, kept, s);
      availOut := availOut - |s|;
      totalIn := totalIn + |s|;
      totalOut := totalOut + |s|;
      posInBuffered := posInBuffered + |s|;
      plain := plain + s;
    }

    /** `zipWriteInFileInZip`: checksum first, then copy, flushing whenever the buffer is full. */
    method Write(buf: bytes)
      requires Open()
      modifies file, buffered, keys, `posInBuffered, `availOut, `totalIn, `totalOut, `plain, `crc
      ensures Open() && plain == old(plain) + buf
      ensures Grown(old(|file.data|), old(file.pos), |file.data|, file.pos)
    {
      hide CurFile.StreamOk, CurFile.HeaderOk, Crc32;
      CrcAppend(tab, 0, plain, buf);
      WithinFile();
      crc := Crc32(tab, crc, buf);
      var from := 0;
      assert plain + buf[..0] == plain;
      while from < |buf|
        invariant 0 <= from <= |buf|
        invariant Shape() && StreamOk() && HeaderOk() && availOut == BUF_SIZE - posInBuffered
        invariant plain == old(plain) + buf[..from] && crc == Crc32(tab, 0, old(plain) + buf)
        invariant Grown(old(|file.data|), old(file.pos), |file.data|, file.pos)
      {
        MakeRoom();
        var copyThis := if |buf| - from < availOut then |buf| - from else availOut;
        CopyIn(buf[from..from + copyThis]);
        Assoc(old(plain), buf[..from], buf[from..from + copyThis]);
        assert buf[..from] + buf[from..from + copyThis] == buf[..from + copyThis];
        from := from + copyThis;
      }
      assert buf[..from] == buf;
    }

    // -------------------------------------------------------------------------------------
    // Closing
    // -------------------------------------------------------------------------------------

    /** Flush what is left; everything of the content is then on file. */
    method FlushRest()
      requires Open()
      modifies file, buffered, keys, `posInBuffered
      ensures Shape() && HeaderOk() && file.pos <= |file.data|
      ensures file.data[..file.pos] == base + Partial(tab, head, UNKNOWN, plain)
      ensures Sizes(crc, totalOut + cryptHeaderSize, totalIn) == SizesOf(tab, Finished())
      ensures Grown(old(|file.data|), old(file.pos), |file.data|, file.pos)
    {
      hide Partial, Crc32;
      assert HeadSize(Finished()) == HeadSize(head);
      if posInBuffered > 0 {
        Flush();
      }
      assert Flushed() == plain;
    }

    /** The numbers of the finished entry go into both its headers. */
    method PatchHeaders(z: Sizes)
      requires Shape() && HeaderOk() && file.pos <= |file.data|
      requires file.data[..file.pos] == base + Partial(tab, head, UNKNOWN, plain)
      modifies file, centralHeader
      ensures file.pos == old(file.pos) <= |file.data| == old(|file.data|)
      ensures file.data[..file.pos] == base + Partial(tab, head, z, plain)
      ensures centralHeader[..] == CentralHeader(head, z, offset)
    {
      hide LocalHeader, CentralHeader, HeadBytes, Sealed;
      ghost var stored := HeadBytes(tab, head) + Sealed(tab, head, plain);
      PatchCentralHeader(centralHeader, head, z, offset);
      var curPos := file.pos;
      ghost var tail := file.data[curPos..];
      Assoc(LocalHeader(head, UNKNOWN), HeadBytes(tab, head), Sealed(tab, head, plain));
      SplitBody(file.data, curPos, base, LocalHeader(head, UNKNOWN), stored);
      PatchLocalHeader(file, head, z, posLocalHeader, base, stored + tail);
      file.Seek(curPos);
      HeaderLengths(head, UNKNOWN, 0);
      HeaderLengths(head, z, 0);
      Assoc(LocalHeader(head, z), HeadBytes(tab, head), Sealed(tab, head, plain));
      JoinBody(file.data, curPos, base, LocalHeader(head, z), stored, tail);
    }

    /** The part of `zipCloseFileInZipRaw` that completes the entry on file and its central
        header in memory. */
    method Finish()
      requires Open()
      modifies file, buffered, keys, centralHeader, `posInBuffered
      ensures Shape() && file.pos <= |file.data|
      ensures file.data[..file.pos] == base + LocalRecord(tab, Finished())
      ensures centralHeader[..] == CentralHeader(Finished(), SizesOf(tab, Finished()), offset)
      ensures Grown(old(|file.data|), old(file.pos), |file.data|, file.pos)
    {
      hide CurFile.StreamOk, LocalHeader, CentralHeader, HeadBytes, Sealed, SizesOf, Descriptor, Flag;
      FlushRest();
      var z := Sizes(crc, totalOut + cryptHeaderSize, totalIn);
      PatchHeaders(z);
      WriteDescriptor(file, flag, head, z, base + Partial(tab, head, z, plain));
      ContentIrrelevant(tab, head, plain, z, offset);
      Assoc(base, Partial(tab, head, z, plain), Descriptor(head, z));
    }
  }
}
