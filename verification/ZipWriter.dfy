/** The archive writer (zip.c) for stored entries. */
module ZipWriter {
  import opened Bytes
  import opened ZipNumbers
  import opened Crypt
  import opened ZipLayout
  import opened ZipHeaders
  import opened ZipEntryWriter
  import opened DataBlocks
  import opened ZipSearch
  import opened ZipParse

  lemma EmptyArchive(tab: Table)
    ensures Records(tab, []) == [] && Central(tab, []) == []
  {
  }

  lemma AddEntry(tab: Table, es: seq<Entry>, e: Entry, base: nat)
    ensures Records(tab, es + [e]) == Records(tab, es) + LocalRecord(tab, e)
    ensures CentralFrom(tab, es + [e], base)
         == CentralFrom(tab, es, base) + CentralHeader(e, SizesOf(tab, e), base + |Records(tab, es)|)
  {
    hide LocalRecord, CentralHeader, SizesOf;
    assert (es + [e])[..|es|] == es;
  }

  lemma NoEntries(tab: Table, base: nat)
    ensures Records(tab, []) == [] && CentralFrom(tab, [], base) == []
  {
  }

  lemma Overwritten(data: bytes, p: nat, b: bytes)
    requires p <= |data|
    ensures Grown(|data|, p, |Overwrite(data, p, b)|, p + |b|)
    ensures Overwrite(data, p, b)[..p + |b|] == data[..p] + b
  {
  }

  class Writer {
    const file: File
    const tab: Table
    const centralDir: BlockList
    const ci: CurFile
    var inOpenedFile: bool
    var addPosition: nat
    var numberEntry: nat
    var globalComment: Option<bytes>
    var descriptor: bool

    /** What the archive held when it was opened, and the entries finished since. */
    ghost const base: Base
    ghost var entries: seq<Entry>
    ghost var Repr: set<object>

    ghost predicate ReprOk()
      reads `Repr, centralDir`Repr, ci`centralHeader
    {
      && ci.file == file && ci.tab == tab && ci.Shape()
      && {this, file, centralDir} + ci.Parts() + centralDir.Repr <= Repr
      && {this, file} + ci.Parts() !! centralDir.Repr
      && this !in ci.Parts()
    }

    /** What is finished: the directory so far, and where the archive starts. */
    ghost predicate DoneOk()
      reads `entries, `numberEntry, `addPosition, centralDir, centralDir.Repr
    {
      && centralDir.Valid()
      && centralDir.Contents() == ExtendedDir(tab, base, entries)
      && numberEntry == base.count + |entries|
      && addPosition == |base.start|
    }

    ghost function Before(): bytes
      reads `entries
    {
      base.start + base.body + Records(tab, entries)
    }

    ghost predicate Valid()
      reads this, Repr, centralDir, ci
    {
      && ReprOk() && DoneOk()
      && (inOpenedFile ==> ci.Open() && ci.base == Before() && ci.offset == |base.body| + |Records(tab, entries)|)
      && (!inOpenedFile ==> file.pos <= |file.data| && file.data[..file.pos] == Before())
    }

    /** The entries there will be once the open one is closed. */
    ghost function AllEntries(): seq<Entry>
      reads `inOpenedFile, `entries, ci
    {
      entries + if inOpenedFile then [ci.Finished()] else []
    }

    lemma Placed()
      requires Valid()
      ensures this in Repr && file in Repr && file.pos <= |file.data|
    {
    }

    /** `zipOpen2` with APPEND_STATUS_CREATE, on a device opened for writing from scratch. */
    constructor Create(f: File, t: Table)
      requires f.data == [] && f.pos == 0
      ensures Valid() && fresh(Repr - {f}) && file == f && tab == t
      ensures base == NEW_ARCHIVE && AllEntries() == [] && globalComment == None && descriptor
    {
      hide Records, CentralFrom, Concat, Distinct, BlockList.Valid, CurFile.Open;
      NoEntries(t, 0);
      file, tab := f, t;
      var blocks := new BlockList();
      centralDir := blocks;
      var c := new CurFile(f, t);
      ci := c;
      inOpenedFile := false;
      addPosition, numberEntry := 0, 0;
      globalComment := None;
      descriptor := true;
      base, entries := NEW_ARCHIVE, [];
      new;
      Repr := {this, file, centralDir} + ci.Parts() + centralDir.Repr;
    }

    /** The state `zipOpen2` leaves with APPEND_STATUS_ADDINZIP, when `f` stands where the
        directory begins and `blocks` holds that directory. */
    constructor Resume(f: File, t: Table, blocks: BlockList, before: nat, n: nat, comment: Option<bytes>,
                       ghost b: Base)
      requires blocks.Valid() && f !in blocks.Repr && blocks.Contents() == b.dir
      requires before == |b.start| && n == b.count
      requires f.pos <= |f.data| && f.data[..f.pos] == b.start + b.body
      ensures Valid() && fresh(Repr - {f} - blocks.Repr) && file == f && tab == t
      ensures base == b && !inOpenedFile && AllEntries() == []
      ensures globalComment == comment && descriptor
    {
      hide Records, CentralFrom, Concat, Distinct, BlockList.Valid, CurFile.Open;
      NoEntries(t, |b.body|);
      file, tab, centralDir := f, t, blocks;
      var c := new CurFile(f, t);
      ci := c;
      inOpenedFile := false;
      addPosition, numberEntry := before, n;
      globalComment := comment;
      descriptor := true;
      base, entries := b, [];
      new;
      Repr := {this, file, centralDir} + ci.Parts() + centralDir.Repr;
      assert b.dir + [] == b.dir && b.start + b.body + [] == b.start + b.body;
    }

    /** `zipSetFlags` and `zipClearFlags` with ZIP_WRITE_DATA_DESCRIPTOR. */
    method SetDescriptor(on: bool)
      requires Valid()
      modifies `descriptor
      ensures Valid() && descriptor == on
    {
      hide CurFile.Open, Records, Writer.DoneOk;
      descriptor := on;
    }

    /** `zipOpenNewFileInZip3`; an entry still open is closed first. */
    method OpenNewFile(e: Entry)
      requires Valid() && e.content == [] && e.descriptor == descriptor
      modifies Repr
      ensures Valid() && fresh(Repr - old(Repr)) && inOpenedFile
      ensures Grown(old(|file.data|), old(file.pos), |file.data|, file.pos)
      ensures AllEntries() == old(AllEntries()) + [e]
      ensures descriptor == old(descriptor) && globalComment == old(globalComment)
    {
      hide CurFile.Open, Writer.DoneOk, Records;
      if inOpenedFile {
        var _ := CloseFile();
      }
      StartFile(e);
    }

    method StartFile(e: Entry)
      requires Valid() && !inOpenedFile && e.content == []
      modifies Repr
      ensures Valid() && fresh(Repr - old(Repr)) && inOpenedFile
      ensures Grown(old(|file.data|), old(file.pos), |file.data|, file.pos)
      ensures AllEntries() == old(entries) + [e]
      ensures descriptor == old(descriptor) && globalComment == old(globalComment)
    {
      hide CurFile.Open, Records, CentralFrom, BlockList.Valid;
      ci.Begin(e, file.pos - addPosition);
      Repr := Repr + ci.Parts();
      inOpenedFile := true;
      assert ci.Finished() == e;
    }

    /** `zipWriteInFileInZip`: any number of bytes at a time. */
    method Write(buf: bytes) returns (ok: bool)
      requires Valid()
      modifies Repr
      ensures Valid() && Repr == old(Repr) && ok == inOpenedFile == old(inOpenedFile)
      ensures Grown(old(|file.data|), old(file.pos), |file.data|, file.pos)
      ensures ok ==> var e := old(ci.Finished());
                     AllEntries() == old(entries) + [e.(content := e.content + buf)]
      ensures !ok ==> AllEntries() == old(AllEntries())
      ensures descriptor == old(descriptor) && globalComment == old(globalComment)
      ensures entries == old(entries)
    {
      hide CurFile.Open, Records, Writer.DoneOk;
      if !inOpenedFile {
        return false;
      }
      ci.Write(buf);
      ok := true;
    }

    /** `zipCloseFileInZip` */
    method CloseFile() returns (ok: bool)
      requires Valid()
      modifies Repr
      ensures Valid() && fresh(Repr - old(Repr)) && !inOpenedFile && ok == old(inOpenedFile)
      ensures Grown(old(|file.data|), old(file.pos), |file.data|, file.pos)
      ensures entries == AllEntries() == old(AllEntries())
      ensures descriptor == old(descriptor) && globalComment == old(globalComment)
    {
      hide CurFile.Open, Records, CentralFrom, BlockList.Valid, LocalRecord, CentralHeader, SizesOf;
      if !inOpenedFile {
        return false;
      }
      ci.Finish();
      Register();
      ok := true;
    }

    /** Collect the central header. */
    method CollectHeader()
      requires ReprOk() && centralDir.Valid()
      modifies `Repr, centralDir.Repr
      ensures ReprOk() && centralDir.Valid() && fresh(Repr - old(Repr))
      ensures centralDir.Contents() == old(centralDir.Contents()) + ci.centralHeader[..]
    {
      hide Concat, Distinct;
      centralDir.Add(ci.centralHeader[..]);
      Repr := Repr + centralDir.Repr;
    }

    /** Enter the finished entry in the directory. */
    method Register()
      requires ReprOk() && DoneOk() && file.pos <= |file.data|
      requires file.data[..file.pos] == Before() + LocalRecord(tab, ci.Finished())
      requires ci.centralHeader[..]
            == CentralHeader(ci.Finished(), SizesOf(tab, ci.Finished()), |base.body| + |Records(tab, entries)|)
      modifies `Repr, `entries, `numberEntry, `inOpenedFile, centralDir.Repr
      ensures Valid() && fresh(Repr - old(Repr)) && !inOpenedFile
      ensures entries == old(entries) + [ci.Finished()]
    {
      hide CurFile.Open, Records, CentralFrom, LocalRecord, CentralHeader, SizesOf, BlockList.Valid, Concat;
      ghost var e := ci.Finished();
      AddEntry(tab, entries, e, |base.body|);
      CollectHeader();
      Assoc(base.start + base.body, Records(tab, entries), LocalRecord(tab, e));
      Assoc(base.dir, CentralFrom(tab, entries, |base.body|), ci.centralHeader[..]);
      entries := entries + [e];
      numberEntry := numberEntry + 1;
      inOpenedFile := false;
    }

    /** `zipClose`: the central directory and the end record. Without a comment the one found
        when the archive was opened is kept. */
    method Close(comment: Option<bytes>)
      requires Valid()
      modifies Repr
      ensures var c := if comment.Some? then comment.value
                       else if old(globalComment).Some? then old(globalComment).value else [];
              && file.pos <= |file.data| && Grown(old(|file.data|), old(file.pos), |file.data|, file.pos)
              && file.data[..file.pos] == Extended(tab, base, old(AllEntries()), CString(c))
    {
      hide CurFile.Open, Records, CentralFrom, EndRecord, Overwrite, Extended;
      if inOpenedFile {
        var _ := CloseFile();
      } else {
        assert entries + [] == entries;
      }
      var c := if comment.Some? then comment.value
               else if globalComment.Some? then globalComment.value else [];
      WriteEnd(CString(c));
    }

    method WriteEnd(text: bytes)
      requires Valid() && !inOpenedFile
      modifies file
      ensures file.pos <= |file.data| && Grown(old(|file.data|), old(file.pos), |file.data|, file.pos)
      ensures file.data[..file.pos] == Extended(tab, base, entries, text)
    {
      hide CurFile.Open, Records, ExtendedDir, EndRecord, Overwrite;
      ghost var central := ExtendedDir(tab, base, entries);
      var centraldirPos := file.pos;
      var size := centralDir.WriteAll(file);
      Overwritten(old(file.data), centraldirPos, central);
      WriteEndRecord(file, numberEntry, size, centraldirPos - addPosition, text, Before() + central);
    }
  }

  lemma NextPiece(data: bytes, p: nat, dir: bytes, done: nat, n: nat)
    requires p + |dir| <= |data| && dir == data[p..p + |dir|] && done + n <= |dir|
    ensures |Slice(data, p + done, n)| == n && dir[..done] + Slice(data, p + done, n) == dir[..done + n]
  {
    if n > 0 {
      var s := data[p + done..p + done + n];
      forall i | 0 <= i < n ensures s[i] == dir[done + i] {
        assert dir[done + i] == data[p + (done + i)];
      }
      assert dir[done..done + n] == s;
    }
    assert dir[..done] + dir[done..done + n] == dir[..done + n];
  }

  /** Collect the central directory of `size` bytes at `p` in blocks, piece by piece. */
  method LoadDirectory(f: File, p: nat, size: nat) returns (blocks: BlockList)
    requires p + size <= |f.data|
    modifies f`pos
    ensures blocks.Valid() && fresh(blocks.Repr) && blocks.Contents() == f.data[p..p + size]
  {
    hide Concat, Distinct, BlockList.Valid, Slice;
    blocks := new BlockList();
    var rest := size;
    ghost var dir := f.data[p..p + size];
    f.Seek(p);
    while rest > 0
      invariant 0 <= rest <= size && f.pos == p + size - rest
      invariant blocks.Valid() && fresh(blocks.Repr)
      invariant blocks.Contents() == dir[..size - rest]
    {
      var readThis := BLOCK_SIZE;
      if readThis > rest {
        readThis := rest;
      }
      NextPiece(f.data, p, dir, size - rest, readThis);
      var buf := f.Read(readThis);
      blocks.Add(buf);
      rest := rest - readThis;
    }
    assert dir[..size] == dir;
  }

  /** The comment behind the end record; none if it is empty. */
  method ReadComment(f: File, n: nat) returns (c: Option<bytes>)
    modifies f`pos
    ensures c == if n > 0 then Some(Slice(f.data, old(f.pos), n)) else None
  {
    c := None;
    if n > 0 {
      var text := f.Read(n);
      c := Some(text);
    }
  }

  /** What `ReadEnd` finds in an archive. */
  lemma EndOfArchive(data: bytes, t: Table, prefix: bytes, es: seq<Entry>, comment: bytes, pos: nat)
    requires data == prefix + Archive(t, es, comment) && ArchiveFits(t, es, comment)
    requires NoLaterSignature(data, |prefix| + EndPos(t, es)) && IsLastSig(data, pos)
    ensures var r := ParseEnd(data, pos);
            && (r.None? <==> |prefix| + EndPos(t, es) == 0 || 22 + |comment| > 0xffff)
            && (r.Some? ==>
                && pos == |prefix| + EndPos(t, es)
                && r.value == EndInfo(pos, |es|, |Central(t, es)|, |Records(t, es)|, |comment|)
                && BytesBefore(r.value) == |prefix|
                && Slice(data, pos + END_SIZE, |comment|) == comment)
  {
    hide Records, Central, Archive, IsLastSig;
    SearchFindsEnd(t, prefix, es, comment, pos);
    ArchiveOpens(t, prefix, es, comment);
  }

  /** What an archive holds whose end record was found. */
  function BaseOf(data: bytes, e: EndInfo): Base
    requires e.offset + e.size <= e.pos <= |data|
  {
    var before := BytesBefore(e);
    Base(data[..before], data[before..before + e.offset], data[before + e.offset..e.pos], e.entries)
  }

  /** The comment found with the end record; a missing one is as an empty one. */
  function CommentOf(data: bytes, e: EndInfo): Option<bytes> {
    if e.commentLength > 0 then Some(Slice(data, e.pos + END_SIZE, e.commentLength)) else None
  }

  /** `zipOpen2` with APPEND_STATUS_ADDINZIP, for any file: null when no end record is found at
      the last signature. The file is not changed; the old directory will be overwritten. */
  method OpenForAppend(f: File, t: Table) returns (w: Writer?, ghost pos: nat)
    modifies f`pos
    ensures IsLastSig(f.data, pos) && (w == null <==> ParseEnd(f.data, pos).None?)
    ensures w != null ==>
      var e := ParseEnd(f.data, pos).value;
      && w.Valid() && fresh(w.Repr - {f}) && w.file == f && w.tab == t
      && w.base == BaseOf(f.data, e) && w.AllEntries() == [] && !w.inOpenedFile && w.descriptor
      && w.globalComment == CommentOf(f.data, e) && f.pos == BytesBefore(e) + e.offset
  {
    hide ParseEnd, IsLastSig, BlockList.Valid, Concat, Distinct, Slice, CurFile.Open, Writer.Valid;
    var r;
    r, pos := ReadEnd(f);
    if r.None? {
      return null, pos;
    }
    var e := r.value;
    var globalComment := ReadComment(f, e.commentLength);
    var blocks := LoadDirectory(f, e.offset + BytesBefore(e), e.size);
    f.Seek(e.offset + BytesBefore(e));
    ghost var b := BaseOf(f.data, e);
    assert f.data[..f.pos] == b.start + b.body;
    w := new Writer.Resume(f, t, blocks, BytesBefore(e), e.entries, globalComment, b);
  }

  /** What is found in an archive that zip.c wrote. */
  lemma BaseOfArchive(data: bytes, t: Table, prefix: bytes, es: seq<Entry>, comment: bytes, e: EndInfo)
    requires data == prefix + Archive(t, es, comment)
    requires e == EndInfo(|prefix| + EndPos(t, es), |es|, |Central(t, es)|, |Records(t, es)|, |comment|)
    ensures e.pos <= |data|
    ensures BaseOf(data, e) == Base(prefix, Records(t, es), Central(t, es), |es|)
  {
    hide Records, Central, Archive;
    DirectoryAt(data, t, prefix, es, comment);
    var p := |prefix| + |Records(t, es)|;
    assert data[..|prefix|] == data[..p][..|prefix|] && data[|prefix|..p] == data[..p][|prefix|..];
  }

  lemma DirectoryAt(data: bytes, t: Table, prefix: bytes, es: seq<Entry>, comment: bytes)
    requires data == prefix + Archive(t, es, comment)
    ensures var p, q := |prefix| + |Records(t, es)|, |prefix| + EndPos(t, es);
            && p <= q <= |data| && data[..p] == prefix + Records(t, es) && data[p..q] == Central(t, es)
  {
    hide Records, Central, EndRecord;
    var last := EndRecord(|es|, |Central(t, es)|, |Records(t, es)|, comment);
    Assoc(Records(t, es), Central(t, es), last);
    Assoc(prefix, Records(t, es), Central(t, es) + last);
    assert data == (prefix + Records(t, es)) + (Central(t, es) + last);
  }
}
