/** The archive reader (unzip.c). */
module Unzip {
  import opened Bytes
  import opened ZipNumbers
  import opened ZipSearch
  import opened Crypt
  import opened ZipLayout
  import opened ZipParse
  import opened ZipEntryReader

  /** A text of `size` bytes at `p`, cut to a buffer that may be missing or short. */
  function TextAt(data: bytes, p: nat, size: nat, buffer: Option<nat>): bytes {
    if buffer.None? then [] else Slice(data, p, Min(size, buffer.value))
  }

  /** Read the numbers of a central header at the position of the file. */
  method ReadCentralNumbers(f: File) returns (r: Option<FileInfo>)
    modifies f`pos
    ensures r == ParseCentral(f.data, old(f.pos))
    ensures r.Some? ==> f.pos == old(f.pos) + CENTRAL_SIZE
  {
    hide At;
    var ok0, magic := GetLong(f);
    var err := !ok0 || magic != CENTRAL_MAGIC;
    var ok1, version := GetShort(f);
    var ok2, versionNeeded := GetShort(f);
    var ok3, flag := GetShort(f);
    var ok4, compression := GetShort(f);
    var ok5, dosDate := GetLong(f);
    var ok6, crc := GetLong(f);
    var ok7, compressedSize := GetLong(f);
    var ok8, uncompressedSize := GetLong(f);
    var ok9, nameSize := GetShort(f);
    var ok10, extraSize := GetShort(f);
    var ok11, commentSize := GetShort(f);
    var ok12, disk := GetShort(f);
    var ok13, internalFa := GetShort(f);
    var ok14, externalFa := GetLong(f);
    var ok15, offset := GetLong(f);
    if err || !ok1 || !ok2 || !ok3 || !ok4 || !ok5 || !ok6 || !ok7 || !ok8
       || !ok9 || !ok10 || !ok11 || !ok12 || !ok13 || !ok14 || !ok15 {
      return None;
    }
    r := Some(FileInfo(version, versionNeeded, flag, compression, dosDate, crc, compressedSize, uncompressedSize,
                       nameSize, extraSize, commentSize, disk, internalFa, externalFa, offset));
  }

  /** A text is there in full, as far as the buffer goes. */
  predicate TextOk(data: bytes, p: nat, size: nat, buffer: Option<nat>) {
    buffer.None? || |TextAt(data, p, size, buffer)| == Min(size, buffer.value)
  }

  /** Read one of the three texts behind a central header: skip `seek` bytes first, then fill
      the buffer if there is one. `rest` is what is then still to be skipped. */
  method ReadText(f: File, size: nat, buffer: Option<nat>, seek: nat) returns (ok: bool, text: bytes, rest: nat)
    modifies f`pos
    ensures ok == TextOk(f.data, old(f.pos) + seek, size, buffer)
    ensures ok ==> text == TextAt(f.data, old(f.pos) + seek, size, buffer)
    ensures ok ==> f.pos + rest == old(f.pos) + seek + size
  {
    text := [];
    if buffer.None? {
      return true, text, seek + size;
    }
    var sizeRead := Min(size, buffer.value);
    f.Seek(f.pos + seek);
    if size > 0 && buffer.value > 0 {
      text := f.Read(sizeRead);
      if |text| != sizeRead {
        return false, text, 0;
      }
    }
    return true, text, size - sizeRead;
  }

  /** The bytes of an archive entry from its local header to its data. */
  function DataStart(i: FileInfo, sizeVar: nat): nat {
    i.offset + LOCAL_SIZE + sizeVar
  }

  /** What the local header at `p` must say up to the compression method. */
  method CheckLocalFront(f: File, p: nat, i: FileInfo) returns (ok: bool, flags: nat)
    modifies f`pos
    ensures ok ==> p + 10 <= |f.data| && flags == At(f.data, p + 6, 2) && f.pos == p + 10
    ensures ok == (p + 10 <= |f.data| && At(f.data, p, 4) == LOCAL_MAGIC
                   && At(f.data, p + 8, 2) == i.compression && (i.compression == 0 || i.compression == 8))
  {
    hide At;
    f.Seek(p);
    var ok0, magic := GetLong(f);
    var ok1, version := GetShort(f);
    var ok2, uFlags := GetShort(f);
    var ok3, compression := GetShort(f);
    flags := uFlags;
    ok := ok0 && magic == LOCAL_MAGIC && ok1 && ok2 && ok3 && compression == i.compression;
    if i.compression != 0 && i.compression != 8 {
      ok := false;
    }
  }

  /** The date, which may differ, the checksum and the sizes, which may differ when a data
      descriptor follows. */
  method CheckLocalSizes(f: File, i: FileInfo, flags: nat) returns (ok: bool)
    modifies f`pos
    ensures ok ==> f.pos == old(f.pos) + 16
    ensures var p := old(f.pos);
            ok == (p + 16 <= |f.data|
                   && ((flags / 8) % 2 != 0
                       || (At(f.data, p + 4, 4) == i.crc && At(f.data, p + 8, 4) == i.compressedSize
                           && At(f.data, p + 12, 4) == i.uncompressedSize)))
  {
    hide At;
    var ok4, date := GetLong(f);
    var ok5, crc := GetLong(f);
    var ok6, compressed := GetLong(f);
    var ok7, uncompressed := GetLong(f);
    var described := (flags / 8) % 2 != 0;
    ok := ok4 && ok5 && ok6 && ok7
      && (crc == i.crc || described)
      && (compressed == i.compressedSize || described)
      && (uncompressed == i.uncompressedSize || described);
  }

  /** `unzlocal_CheckCurrentFileCoherencyHeader`. The source goes on reading after a
      mismatch, without effect on the result. */
  method CheckLocalHeader(f: File, p: nat, i: FileInfo) returns (r: Option<nat>)
    modifies f`pos
    ensures r == ParseLocal(f.data, p, i)
  {
    hide At;
    var ok, flags := CheckLocalFront(f, p, i);
    if !ok {
      return None;
    }
    ok := CheckLocalSizes(f, i, flags);
    if !ok {
      return None;
    }
    var ok8, nameSize := GetShort(f);
    var ok9, extraSize := GetShort(f);
    if !ok8 || !ok9 || nameSize != i.nameSize {
      return None;
    }
    r := Some(nameSize + extraSize);
  }

  /** The keys of a reader that decrypted an encryption header. */
  function KeysBehindHead(tab: Table, password: bytes, head: bytes): Keys {
    After(tab, InitKeys(tab, password), Decrypt(tab, InitKeys(tab, password), head))
  }

  // ---------------------------------------------------------------------------------------
  // The walk over the central directory
  // ---------------------------------------------------------------------------------------

  predicate HeaderAt(data: bytes, p: nat) {
    ParseCentral(data, p).Some?
  }

  /** How far the header at `p` is from the next one. */
  function LengthAt(data: bytes, p: nat): nat {
    match ParseCentral(data, p)
    case None => 0
    case Some(i) => CentralLength(i)
  }

  /** Where the k-th header stands in the directory, if the walk gets there. */
  function WalkPos(data: bytes, e: EndInfo, before: nat, k: nat): Option<nat> {
    if k == 0 then if HeaderAt(data, e.offset + before) then Some(e.offset) else None
    else WalkStep(data, e, before, k, WalkPos(data, e, before, k - 1))
  }

  function WalkStep(data: bytes, e: EndInfo, before: nat, k: nat, last: Option<nat>): Option<nat> {
    match last
    case None => None
    case Some(p) =>
      var next := p + LengthAt(data, p + before);
      if e.entries != 0xffff && k == e.entries then None
      else if HeaderAt(data, next + before) then Some(next) else None
  }

  /** The walk ends at the number of entries in the end record, save that 65535 stands for any
      number; otherwise it goes on as long as headers follow. */
  lemma CountEndsWalk(data: bytes, e: EndInfo, before: nat, k: nat, p: nat)
    requires k > 0 && WalkPos(data, e, before, k - 1) == Some(p)
    ensures WalkPos(data, e, before, k).Some?
       <==> (k != e.entries || e.entries == 65535) && HeaderAt(data, p + LengthAt(data, p + before) + before)
  {
    hide HeaderAt, LengthAt;
  }

  const MAX_FILENAME: nat := 256

  /** The name looked for, and whether upper and lower case are the same. */
  datatype Wanted = Wanted(name: bytes, caseless: bool)

  function UpperByte(b: byte): byte {
    if 97 <= b <= 122 then b - 32 else b
  }

  function Fold(s: bytes, caseless: bool): (r: bytes)
    ensures |r| == |s| && (!caseless ==> r == s)
    ensures caseless ==> forall i :: 0 <= i < |s| ==> r[i] == UpperByte(s[i])
  {
    if caseless then seq(|s|, i requires 0 <= i < |s| => UpperByte(s[i])) else s
  }

  /** A C string is the name looked for. */
  predicate Matches(s: bytes, w: Wanted) {
    Fold(s, w.caseless) == Fold(CString(w.name), w.caseless)
  }

  /** Without regard to case, letters may differ in case and nothing else may differ. */
  lemma MatchesMeans(s: bytes, w: Wanted)
    requires 0 !in w.name
    ensures Matches(s, w)
       <==> |s| == |w.name| && forall i :: 0 <= i < |s| ==>
              || s[i] == w.name[i]
              || (w.caseless && 97 <= s[i] <= 122 && w.name[i] == s[i] - 32)
              || (w.caseless && 65 <= s[i] <= 90 && w.name[i] == s[i] + 32)
  {
    var a, b := Fold(s, w.caseless), Fold(w.name, w.caseless);
    assert a == b <==> |a| == |b| && forall i :: 0 <= i < |a| ==> a[i] == b[i];
  }

  lemma FoldStep(a: bytes, b: bytes, caseless: bool)
    requires a != [] && b != []
    ensures Fold(a, caseless) == Fold(b, caseless)
       <==> Fold([a[0]], caseless) == Fold([b[0]], caseless) && Fold(a[1..], caseless) == Fold(b[1..], caseless)
  {
    var fa, fb := Fold(a, caseless), Fold(b, caseless);
    assert fa == Fold([a[0]], caseless) + Fold(a[1..], caseless);
    assert fb == Fold([b[0]], caseless) + Fold(b[1..], caseless);
    assert fa == fb ==> fa[..1] == fb[..1] && fa[1..] == fb[1..];
  }

  /** `unzStringFileNameCompare`, as far as whether it gives 0. A string ends at its first zero
      byte, or where `f1` or `f2` does. */
  method CompareNames(f1: bytes, f2: bytes, caseless: bool) returns (same: bool)
    ensures same <==> Fold(CString(f1), caseless) == Fold(CString(f2), caseless)
  {
    hide Fold, CString;
    var i := 0;
    assert f1[0..] == f1 && f2[0..] == f2;
    while true
      invariant 0 <= i <= |f1| && i <= |f2|
      invariant Fold(CString(f1), caseless) == Fold(CString(f2), caseless)
           <==> Fold(CString(f1[i..]), caseless) == Fold(CString(f2[i..]), caseless)
      decreases |f1| - i
    {
      var c1 := if i < |f1| then f1[i] else 0;
      var c2 := if i < |f2| then f2[i] else 0;
      if c1 == 0 || c2 == 0 {
        NamesEnd(f1[i..], f2[i..], caseless);
        return c1 == c2;
      }
      NamesGoOn(f1[i..], f2[i..], caseless);
      assert f1[i..][1..] == f1[i + 1..] && f2[i..][1..] == f2[i + 1..];
      if (if caseless then UpperByte(c1) != UpperByte(c2) else c1 != c2) {
        return false;
      }
      i := i + 1;
    }
  }

  /** One of the names ends here. */
  lemma NamesEnd(a: bytes, b: bytes, caseless: bool)
    requires a == [] || a[0] == 0 || b == [] || b[0] == 0
    ensures Fold(CString(a), caseless) == Fold(CString(b), caseless)
       <==> (a == [] || a[0] == 0) && (b == [] || b[0] == 0)
  {
    hide Fold;
    assert CString(a) == [] <==> a == [] || a[0] == 0;
    assert CString(b) == [] <==> b == [] || b[0] == 0;
    assert |Fold(CString(a), caseless)| == |CString(a)| && |Fold(CString(b), caseless)| == |CString(b)|;
  }

  /** Neither does. */
  lemma NamesGoOn(a: bytes, b: bytes, caseless: bool)
    requires a != [] && a[0] != 0 && b != [] && b[0] != 0
    ensures Fold(CString(a), caseless) == Fold(CString(b), caseless)
       <==> (if caseless then UpperByte(a[0]) == UpperByte(b[0]) else a[0] == b[0])
            && Fold(CString(a[1..]), caseless) == Fold(CString(b[1..]), caseless)
  {
    NextByte(a);
    NextByte(b);
    FoldStep(CString(a), CString(b), caseless);
    hide CString;
    assert Fold([a[0]], caseless) == [if caseless then UpperByte(a[0]) else a[0]];
    assert Fold([b[0]], caseless) == [if caseless then UpperByte(b[0]) else b[0]];
  }

  lemma NextByte(s: bytes)
    requires s != [] && s[0] != 0
    ensures CString(s) != [] && CString(s)[0] == s[0] && CString(s)[1..] == CString(s[1..])
  {
  }

  /** The header at `p` is followed by a file name that is the one looked for; only the first
      256 bytes count. */
  predicate NameIs(data: bytes, p: nat, name: Wanted) {
    var i := ParseCentral(data, p);
    && i.Some?
    && TextOk(data, p + CENTRAL_SIZE, i.value.nameSize, Some(MAX_FILENAME))
    && Matches(CString(TextAt(data, p + CENTRAL_SIZE, i.value.nameSize, Some(MAX_FILENAME))), name)
  }

  /** Once the walk ends it stays ended. */
  lemma {:induction false} WalkEnds(data: bytes, e: EndInfo, before: nat, k: nat, j: nat)
    requires WalkPos(data, e, before, k).None? && k <= j
    ensures WalkPos(data, e, before, j).None?
  {
    hide HeaderAt, LengthAt;
    if k < j {
      WalkEnds(data, e, before, k, j - 1);
    }
  }

  /** A header whose name is cut off by the end of the file is the last one. */
  lemma CutNameEndsWalk(data: bytes, e: EndInfo, before: nat, k: nat, p: nat, i: FileInfo)
    requires WalkPos(data, e, before, k) == Some(p) && ParseCentral(data, p + before) == Some(i)
    requires NameCut(data, p + before)
    ensures WalkPos(data, e, before, k + 1).None?
  {
    hide At;
    assert p + before + CENTRAL_SIZE + i.nameSize > |data|;
    assert WalkPos(data, e, before, k + 1) == WalkStep(data, e, before, k + 1, Some(p));
    assert !HeaderAt(data, p + CentralLength(i) + before);
  }

  /** The walk has no end of its own behind the k-th header: it is not the last by the count,
      its name is not cut off, and what follows it is no header. */
  predicate BreaksBehind(data: bytes, e: EndInfo, before: nat, k: nat) {
    var p := WalkPos(data, e, before, k);
    && p.Some?
    && (e.entries == 0xffff || k + 1 != e.entries)
    && !HeaderAt(data, p.value + LengthAt(data, p.value + before) + before)
    && !NameCut(data, p.value + before)
  }

  /** The file name behind the header at `p` is cut off by the end of the file. */
  predicate NameCut(data: bytes, p: nat) {
    var i := ParseCentral(data, p);
    i.Some? && !TextOk(data, p + CENTRAL_SIZE, i.value.nameSize, Some(MAX_FILENAME))
  }

  /** The walk ends where a header should be and is none. */
  ghost predicate WalkBreaks(data: bytes, e: EndInfo, before: nat) {
    !HeaderAt(data, e.offset + before) || exists k: nat :: BreaksBehind(data, e, before, k)
  }

  /** Whether the walk breaks shows behind its last header. */
  lemma BreaksAtLast(data: bytes, e: EndInfo, before: nat, k: nat)
    requires WalkPos(data, e, before, k).Some? && WalkPos(data, e, before, k + 1).None?
    ensures WalkBreaks(data, e, before) <==> BreaksBehind(data, e, before, k)
  {
    hide HeaderAt, LengthAt, NameCut;
    if WalkPos(data, e, before, 0).None? {
      WalkEnds(data, e, before, 0, k);
    }
    forall j: nat | BreaksBehind(data, e, before, j) ensures j == k {
      assert WalkPos(data, e, before, j + 1)
          == WalkStep(data, e, before, j + 1, WalkPos(data, e, before, j));
      if j < k {
        WalkEnds(data, e, before, j + 1, k);
      } else if j > k {
        WalkEnds(data, e, before, k + 1, j);
      }
    }
  }

  class UnzFile {
    const file: File
    const tab: Table
    const keys: array<nat>
    const end: EndInfo
    const bytesBefore: nat
    var numFile: nat
    var posInCentralDir: nat
    var currentFileOk: bool
    var info: FileInfo
    var reader: EntryReader?
    var encrypted: bool

    ghost predicate ReaderOk()
      reads `reader, file`data, reader, keys, if reader == null then {} else {reader.readBuffer}
    {
      && keys.Length == 3
      && (reader != null ==> reader.file == file && reader.keys == keys && reader.tab == tab && reader.Valid())
    }

    /** A usable current file is the central header at the current position. */
    ghost predicate Valid()
      reads this, file`data, reader, keys, if reader == null then {} else {reader.readBuffer}
    {
      && ReaderOk()
      && (currentFileOk ==> ParseCentral(file.data, posInCentralDir + bytesBefore) == Some(info))
    }

    constructor (f: File, t: Table, e: EndInfo)
      requires e.offset + e.size <= e.pos
      ensures Valid() && file == f && tab == t && end == e && bytesBefore == BytesBefore(e)
      ensures reader == null && !encrypted && !currentFileOk && fresh(keys)
    {
      hide ParseCentral;
      file, tab, end, bytesBefore := f, t, e, BytesBefore(e);
      keys := new nat[3];
      numFile, posInCentralDir, currentFileOk := 0, 0, false;
      info := FileInfo(0, 0, 0, 0, 0, 0, 0, 0, 0, 0, 0, 0, 0, 0, 0);
      reader, encrypted := null, false;
    }

    /** Read the central header at the current position; on failure the information of the
        previous one stays, but is marked unusable. */
    method LoadCurrent() returns (ok: bool)
      requires ReaderOk()
      modifies file`pos, `info, `currentFileOk
      ensures Valid() && ok == currentFileOk
      ensures ok == ParseCentral(file.data, posInCentralDir + bytesBefore).Some?
    {
      hide ParseCentral, EntryReader.Valid;
      file.Seek(posInCentralDir + bytesBefore);
      var r := ReadCentralNumbers(file);
      if r.Some? {
        info := r.value;
      }
      currentFileOk := r.Some?;
      ok := currentFileOk;
    }

    /** `unzGoToFirstFile` */
    method GoToFirstFile() returns (ok: bool)
      requires Valid()
      modifies file`pos, `info, `currentFileOk, `posInCentralDir, `numFile
      ensures Valid() && ok == currentFileOk && numFile == 0 && posInCentralDir == end.offset
      ensures ok == ParseCentral(file.data, end.offset + bytesBefore).Some?
    {
      hide ParseCentral, EntryReader.Valid;
      posInCentralDir := end.offset;
      numFile := 0;
      ok := LoadCurrent();
    }

    /** The last file was reached, or the current one is unusable. */
    predicate AtEnd()
      reads `currentFileOk, `numFile
    {
      !currentFileOk || (end.entries != 0xffff && numFile + 1 == end.entries)
    }

    /** `unzGoToNextFile`; at the end of the list nothing changes. */
    method GoToNextFile() returns (ok: bool)
      requires Valid()
      modifies file`pos, `info, `currentFileOk, `posInCentralDir, `numFile
      ensures Valid()
      ensures old(AtEnd()) ==> !ok && numFile == old(numFile) && posInCentralDir == old(posInCentralDir)
                               && info == old(info) && currentFileOk == old(currentFileOk)
      ensures !old(AtEnd()) ==>
        && ok == currentFileOk && numFile == old(numFile) + 1
        && posInCentralDir == old(posInCentralDir + CentralLength(info))
        && ok == ParseCentral(file.data, posInCentralDir + bytesBefore).Some?
    {
      hide ParseCentral, EntryReader.Valid;
      if !currentFileOk {
        return false;
      }
      if end.entries != 0xffff {
        if numFile + 1 == end.entries {
          return false;
        }
      }
      posInCentralDir := posInCentralDir + CentralLength(info);
      numFile := numFile + 1;
      ok := LoadCurrent();
    }

    /** `unzGetCurrentFileInfo`: the numbers and up to three texts of the current file. */
    method GetCurrentFileInfo(nameBuf: Option<nat>, extraBuf: Option<nat>, commentBuf: Option<nat>)
      returns (ok: bool, i: FileInfo, name: bytes, extra: bytes, comment: bytes)
      requires Valid()
      modifies file`pos
      ensures Valid()
      ensures ok ==> ParseCentral(file.data, posInCentralDir + bytesBefore) == Some(i)
      ensures ok == (ParseCentral(file.data, posInCentralDir + bytesBefore).Some?
               && var j := ParseCentral(file.data, posInCentralDir + bytesBefore).value;
                  var q := posInCentralDir + bytesBefore + CENTRAL_SIZE;
                  && TextOk(file.data, q, j.nameSize, nameBuf)
                  && TextOk(file.data, q + j.nameSize, j.extraSize, extraBuf)
                  && TextOk(file.data, q + j.nameSize + j.extraSize, j.commentSize, commentBuf))
      ensures ok ==> var q := posInCentralDir + bytesBefore + CENTRAL_SIZE;
                     && name == TextAt(file.data, q, i.nameSize, nameBuf)
                     && extra == TextAt(file.data, q + i.nameSize, i.extraSize, extraBuf)
                     && comment == TextAt(file.data, q + i.nameSize + i.extraSize, i.commentSize, commentBuf)
    {
      hide ParseCentral, EntryReader.Valid, TextAt, TextOk;
      name, extra, comment, i := [], [], [], info;
      file.Seek(posInCentralDir + bytesBefore);
      var r := ReadCentralNumbers(file);
      if r.None? {
        return false, i, name, extra, comment;
      }
      i := r.value;
      var seek := 0;
      ok, name, seek := ReadText(file, i.nameSize, nameBuf, 0);
      if ok {
        ok, extra, seek := ReadText(file, i.extraSize, extraBuf, seek);
      }
      if ok {
        ok, comment, seek := ReadText(file, i.commentSize, commentBuf, seek);
      }
    }

    /** `unzOpenCurrentFile3`, not raw. The mark that what is read is encrypted is set with a
        password and never cleared. */
    method OpenCurrentFile(password: Option<bytes>) returns (ok: bool)
      requires Valid()
      modifies file`pos, keys, `reader, `encrypted
      ensures Valid()
      ensures !currentFileOk ==> !ok && reader == old(reader) && encrypted == old(encrypted)
      ensures currentFileOk ==>
        var local := ParseLocal(file.data, info.offset + bytesBefore, info);
        && (local.None? ==> !ok && reader == null)
        && (local.Some? ==> Opened(password, local.value, old(encrypted), old(KeysOf(keys)), ok))
      ensures currentFileOk && reader != null ==> fresh(reader) && fresh(reader.readBuffer)
    {
      hide ParseCentral, ParseLocal, EntryReader.Valid, Decrypt, After;
      if !currentFileOk {
        return false;
      }
      reader := null;
      var local := CheckLocalHeader(file, info.offset + bytesBefore, info);
      if local.None? {
        return false;
      }
      var pos := DataStart(info, local.value);
      ok := true;
      if password.Some? {
        ok := ReadHead(password.value, pos + bytesBefore);
        if ok {
          pos := pos + HEAD_LEN;
          encrypted := true;
        }
      }
      reader := new EntryReader(file, tab, keys, encrypted, info.compression != 0, pos, bytesBefore,
                                info.crc, info.compressedSize, info.uncompressedSize);
    }

    /** Decrypt the encryption header, for the sake of the keys. */
    method ReadHead(password: bytes, p: nat) returns (ok: bool)
      requires keys.Length == 3
      modifies file`pos, keys
      ensures ok == (p + HEAD_LEN <= |file.data|)
      ensures ok ==> KeysOf(keys) == KeysBehindHead(tab, password, file.data[p..p + HEAD_LEN])
    {
      hide Decrypt, After;
      SetKeys(password, keys, tab);
      file.Seek(p);
      var b := file.Read(HEAD_LEN);
      if |b| < HEAD_LEN {
        return false;
      }
      var source := new byte[HEAD_LEN](i requires 0 <= i < HEAD_LEN => b[i]);
      assert source[..HEAD_LEN] == b;
      DecodeBuffer(source, HEAD_LEN, keys, tab);
      ok := true;
    }

    /** How the current entry is read after it was opened at its data. */
    ghost predicate Opened(password: Option<bytes>, sizeVar: nat, wasEncrypted: bool, wasKeys: Keys, ok: bool)
      reads this, file`data, reader
    {
      var p := bytesBefore + DataStart(info, sizeVar);
      && ok == (password.Some? ==> p + HEAD_LEN <= |file.data|)
      && reader != null && reader.file == file && reader.tab == tab && reader.keys == keys
      && reader.totalOut == 0 && reader.Chunked() && reader.deflated == (info.compression != 0)
      && reader.crcWait == info.crc && reader.compressedSize == info.compressedSize
      && reader.uncompressedSize == info.uncompressedSize
      && reader.encrypted == encrypted == (wasEncrypted || (password.Some? && ok))
      && reader.dataPos == (if password.Some? && ok then p + HEAD_LEN else p)
      && (password.None? ==> reader.startKeys == wasKeys)
      && (password.Some? && ok ==>
            reader.startKeys == KeysBehindHead(tab, password.value, file.data[p..p + HEAD_LEN]))
    }

    /** `unzCloseCurrentFile`; None when no entry is open. */
    method CloseCurrentFile() returns (crcOk: Option<bool>)
      requires Valid()
      modifies `reader
      ensures Valid() && reader == null
      ensures crcOk == if old(reader) == null then None else
        Some(old(reader).totalOut == old(reader).uncompressedSize
             ==> Crc32(tab, 0, old(reader).Source()[..old(reader).totalOut]) == old(reader).crcWait)
    {
      hide ParseCentral, Crc32;
      if reader == null {
        return None;
      }
      reader.StartsSomewhere();
      var b := reader.Close();
      reader := null;
      crcOk := Some(b);
    }

    /** The current file is the one the walk reaches at `numFile`. */
    ghost predicate OnWalk()
      reads file`data, `posInCentralDir, `numFile
    {
      WalkPos(file.data, end, bytesBefore, numFile) == Some(posInCentralDir)
    }

    /** No header before the k-th has the name. */
    ghost predicate NotBefore(name: Wanted, k: nat)
      reads file`data
    {
      forall j: nat :: j < k && WalkPos(file.data, end, bytesBefore, j).Some?
        ==> !NameIs(file.data, WalkPos(file.data, end, bytesBefore, j).value + bytesBefore, name)
    }

    lemma WalkOver(name: Wanted, k: nat)
      requires WalkPos(file.data, end, bytesBefore, k).None? && NotBefore(name, k)
      ensures forall j: nat :: NotBefore(name, j)
    {
      hide WalkPos;
      forall i: nat | WalkPos(file.data, end, bytesBefore, i).Some?
        ensures i < k
      {
        if k <= i {
          WalkEnds(file.data, end, bytesBefore, k, i);
        }
      }
    }

    /** Whether the current file has the name; on a failed read the walk is over. */
    method CurrentNameIs(name: Wanted) returns (ok: bool, same: bool)
      requires Valid() && currentFileOk && OnWalk()
      modifies file`pos
      ensures Valid()
      ensures ok ==> same == NameIs(file.data, posInCentralDir + bytesBefore, name)
      ensures ok <==> !NameCut(file.data, posInCentralDir + bytesBefore)
      ensures !ok ==> WalkPos(file.data, end, bytesBefore, numFile + 1).None?
                      && !NameIs(file.data, posInCentralDir + bytesBefore, name)
    {
      hide ParseCentral, EntryReader.Valid, TextAt, TextOk, WalkPos, Fold;
      var err, i, buf, _, _ := GetCurrentFileInfo(Some(MAX_FILENAME), None, None);
      TextOkNone(file.data);
      ok := err;
      same := CompareNames(buf, name.name, name.caseless);
      if !ok {
        CutNameEndsWalk(file.data, end, bytesBefore, numFile, posInCentralDir, info);
      }
    }

    lemma TextOkNone(data: bytes)
      ensures forall p: nat, n: nat {:trigger TextOk(data, p, n, None)} :: TextOk(data, p, n, None)
    {
    }

    lemma HeaderInside()
      requires Valid() && currentFileOk
      ensures posInCentralDir + bytesBefore < |file.data|
    {
    }

    /** Go on to the next file of the walk. At its end the current file stays usable unless
        the walk breaks there. */
    method NextOnWalk(ghost name: Wanted) returns (ok: bool)
      requires Valid() && currentFileOk && OnWalk() && NotBefore(name, numFile + 1)
      requires !NameCut(file.data, posInCentralDir + bytesBefore)
      modifies file`pos, `info, `currentFileOk, `posInCentralDir, `numFile
      ensures Valid() && (ok ==> currentFileOk && old(posInCentralDir) < posInCentralDir)
      ensures ok ==> OnWalk() && NotBefore(name, numFile) && numFile == old(numFile) + 1
      ensures !ok ==> forall k: nat :: NotBefore(name, k)
      ensures !ok ==> (currentFileOk <==> !WalkBreaks(file.data, end, bytesBefore))
    {
      hide ParseCentral, EntryReader.Valid, NameIs, NameCut, WalkBreaks, UnzFile.NotBefore;
      ghost var k, p := numFile + 1, posInCentralDir;
      assert WalkPos(file.data, end, bytesBefore, k) == WalkStep(file.data, end, bytesBefore, k, Some(p));
      ok := GoToNextFile();
      if !ok {
        WalkOver(name, k);
        BreaksAtLast(file.data, end, bytesBefore, k - 1);
      }
    }

    method SearchName(name: Wanted) returns (ok: bool)
      requires Valid()
      modifies file`pos, `info, `currentFileOk, `posInCentralDir, `numFile
      ensures Valid()
      ensures ok ==> currentFileOk && OnWalk() && NotBefore(name, numFile)
                     && NameIs(file.data, posInCentralDir + bytesBefore, name)
      ensures !ok ==> forall k: nat :: NotBefore(name, k)
      ensures !ok ==> (currentFileOk <==> !WalkBreaks(file.data, end, bytesBefore))
    {
      hide ParseCentral, EntryReader.Valid, NameIs, NameCut;
      ok := GoToFirstFile();
      if !ok {
        WalkOver(name, 0);
      }
      while ok
        invariant Valid()
        invariant ok ==> currentFileOk && OnWalk() && NotBefore(name, numFile)
        invariant !ok ==> forall k: nat :: NotBefore(name, k)
        invariant !ok ==> (currentFileOk <==> !WalkBreaks(file.data, end, bytesBefore))
        decreases ok, if ok then |file.data| - posInCentralDir else 0
      {
        HeaderInside();
        var same;
        ok, same := CurrentNameIs(name);
        if !ok {
          WalkOver(name, numFile + 1);
          BreaksAtLast(file.data, end, bytesBefore, numFile);
          return false;
        }
        if same {
          return true;
        }
        ok := NextOnWalk(name);
        if ok {
          HeaderInside();
        }
      }
    }

    /** `unzLocateFile`: the first entry with that name becomes current. If there is none the
        position is restored, but not whether it is usable: it is afterwards
        exactly if the walk over the directory does not break. */
    method LocateFile(name: Wanted) returns (ok: bool)
      requires Valid()
      modifies file`pos, `info, `currentFileOk, `posInCentralDir, `numFile
      ensures Valid()
      ensures ok ==> currentFileOk && OnWalk() && NotBefore(name, numFile)
                     && NameIs(file.data, posInCentralDir + bytesBefore, name)
      ensures !ok ==> numFile == old(numFile) && posInCentralDir == old(posInCentralDir) && info == old(info)
      ensures !ok && old(currentFileOk) && |CString(name.name)| < MAX_FILENAME ==> forall k: nat :: NotBefore(name, k)
      ensures ok ==> old(currentFileOk) && |CString(name.name)| < MAX_FILENAME
      ensures !ok ==>
        currentFileOk == (old(currentFileOk)
                          && (|CString(name.name)| < MAX_FILENAME ==> !WalkBreaks(file.data, end, bytesBefore)))
    {
      hide ParseCentral, EntryReader.Valid, TextAt, TextOk, NameIs, WalkPos, WalkBreaks;
      if |CString(name.name)| >= MAX_FILENAME || !currentFileOk {
        return false;
      }
      var numFileSaved, posSaved, infoSaved := numFile, posInCentralDir, info;
      ok := SearchName(name);
      if !ok {
        numFile, posInCentralDir, info := numFileSaved, posSaved, infoSaved;
      }
    }
  }

  /** `unzOpen2`: null, or a handle on the first file of the archive. */
  method OpenArchive(f: File, tab: Table) returns (u: UnzFile?, ghost pos: nat)
    modifies f`pos
    ensures IsLastSig(f.data, pos)
    ensures u == null <==> ParseEnd(f.data, pos).None?
    ensures u != null ==>
      && fresh(u) && fresh(u.keys) && u.Valid() && u.file == f && u.tab == tab
      && u.end == ParseEnd(f.data, pos).value && u.bytesBefore == BytesBefore(u.end)
      && u.reader == null && !u.encrypted && u.numFile == 0 && u.posInCentralDir == u.end.offset
      && u.currentFileOk == ParseCentral(f.data, u.end.offset + u.bytesBefore).Some?
  {
    hide ParseCentral, ParseEnd, IsLastSig;
    var r;
    r, pos := ReadEnd(f);
    if r.None? {
      return null, pos;
    }
    u := new UnzFile(f, tab, r.value);
    var _ := u.GoToFirstFile();
  }
}
