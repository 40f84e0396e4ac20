/** An archive written with zip.c and read with unzip.c: what is read is what was written. */
module ZipRoundTrip {
  import opened Bytes
  import opened ZipNumbers
  import opened ZipSearch
  import opened Crypt
  import opened ZipLayout
  import opened ZipParse
  import opened ZipWriter
  import opened ZipEntryReader
  import opened Unzip

  // ---------------------------------------------------------------------------------------
  // Writing
  // ---------------------------------------------------------------------------------------

  /** An entry to write: what it is found with, and the pieces its content is written in. */
  datatype Job = Job(head: Entry, pieces: seq<bytes>)

  predicate JobsOk(jobs: seq<Job>) {
    forall j <- jobs :: j.head.content == []
  }

  function Made(j: Job): Entry {
    j.head.(content := Concat(j.pieces))
  }

  function AllMade(jobs: seq<Job>): (es: seq<Entry>)
    ensures |es| == |jobs| && forall i :: 0 <= i < |jobs| ==> es[i] == Made(jobs[i])
  {
    seq(|jobs|, i requires 0 <= i < |jobs| => Made(jobs[i]))
  }

  lemma LastIs<T>(a: seq<T>, x: T, b: seq<T>, y: T)
    requires a + [x] == b + [y]
    ensures a == b && x == y
  {
    assert (a + [x])[|a|] == x && |a| == |b|;
    assert (a + [x])[..|a|] == a && (b + [y])[..|b|] == b;
  }

  method WriteJob(w: Writer, j: Job)
    requires w.Valid() && j.head.content == []
    modifies w.Repr
    ensures w.Valid() && fresh(w.Repr - old(w.Repr))
    ensures w.AllEntries() == old(w.AllEntries()) + [Made(j)]
    ensures w.globalComment == old(w.globalComment)
    ensures Grown(old(|w.file.data|), old(w.file.pos), |w.file.data|, w.file.pos)
  {
    hide Writer.Valid;
    w.Placed();
    w.SetDescriptor(j.head.descriptor);
    w.OpenNewFile(j.head);
    assert j.pieces[..0] == [];
    for i := 0 to |j.pieces|
      invariant w.Valid() && w.inOpenedFile && fresh(w.Repr - old(w.Repr))
      invariant w.AllEntries() == old(w.AllEntries()) + [j.head.(content := Concat(j.pieces[..i]))]
      invariant w.globalComment == old(w.globalComment)
      invariant Grown(old(|w.file.data|), old(w.file.pos), |w.file.data|, w.file.pos)
    {
      ConcatPrefix(j.pieces, i);
      LastIs(w.entries, w.ci.Finished(), old(w.AllEntries()), j.head.(content := Concat(j.pieces[..i])));
      var _ := w.Write(j.pieces[i]);
    }
    assert j.pieces[..|j.pieces|] == j.pieces;
  }

  method WriteJobs(w: Writer, jobs: seq<Job>)
    requires w.Valid() && JobsOk(jobs)
    modifies w.Repr
    ensures w.Valid() && fresh(w.Repr - old(w.Repr))
    ensures w.AllEntries() == old(w.AllEntries()) + AllMade(jobs)
    ensures w.globalComment == old(w.globalComment)
    ensures Grown(old(|w.file.data|), old(w.file.pos), |w.file.data|, w.file.pos)
  {
    hide Writer.Valid, Made;
    w.Placed();
    assert AllMade(jobs)[..|jobs|] == AllMade(jobs);
    for i := 0 to |jobs|
      invariant w.Valid() && fresh(w.Repr - old(w.Repr))
      invariant w.AllEntries() == old(w.AllEntries()) + AllMade(jobs)[..i]
      invariant w.globalComment == old(w.globalComment)
      invariant Grown(old(|w.file.data|), old(w.file.pos), |w.file.data|, w.file.pos)
    {
      assert jobs[i] in jobs;
      WriteJob(w, jobs[i]);
      assert AllMade(jobs)[..i + 1] == AllMade(jobs)[..i] + [Made(jobs[i])];
    }
  }

  /** A new archive holds exactly what was written, however it was cut into pieces. */
  method WriteArchive(f: File, tab: Table, jobs: seq<Job>, comment: bytes)
    requires f.data == [] && f.pos == 0 && JobsOk(jobs)
    modifies f
    ensures f.data == Archive(tab, AllMade(jobs), CString(comment))
  {
    hide Writer.Valid, Archive, CString;
    var w := new Writer.Create(f, tab);
    WriteJobs(w, jobs);
    w.Close(Some(comment));
    ExtendedNew(tab, AllMade(jobs), CString(comment));
    assert [] + AllMade(jobs) == AllMade(jobs);
    assert f.data[..f.pos] == f.data;
  }

  lemma ExtendedNew(tab: Table, es: seq<Entry>, comment: bytes)
    ensures Extended(tab, NEW_ARCHIVE, es, comment) == Archive(tab, es, comment)
  {
    hide Records, Central, Archive, Extended;
    EmptyArchive(tab);
    ExtendedIsArchive(tab, [], [], es, comment);
    assert [] + es == es && [] + Archive(tab, es, comment) == Archive(tab, es, comment);
  }

  // ---------------------------------------------------------------------------------------
  // Appending
  // ---------------------------------------------------------------------------------------

  /** Reopening any file and adding entries. If an end record is found at the last signature,
      what was in front of the directory stays, the new entries follow it, then the directory
      with the new headers behind the old ones. Old bytes may remain behind that. */
  method Append(f: File, tab: Table, jobs: seq<Job>, newComment: Option<bytes>) returns (found: bool, ghost pos: nat)
    requires JobsOk(jobs)
    modifies f
    ensures IsLastSig(old(f.data), pos) && (found <==> ParseEnd(old(f.data), pos).Some?)
    ensures !found ==> f.data == old(f.data)
    ensures found ==>
      var e := ParseEnd(old(f.data), pos).value;
      var kept := if newComment.Some? then newComment
                  else if CommentOf(old(f.data), e).Some? then CommentOf(old(f.data), e) else Some([]);
      var a := Extended(tab, BaseOf(old(f.data), e), AllMade(jobs), CString(kept.value));
      && |f.data| == (if |a| < |old(f.data)| then |old(f.data)| else |a|) && f.data[..|a|] == a
  {
    hide Writer.Valid, Extended, CString, ParseEnd, IsLastSig, Made, CommentOf, BaseOf;
    var w;
    w, pos := OpenForAppend(f, tab);
    if w == null {
      return false, pos;
    }
    found := true;
    WriteJobs(w, jobs);
    w.Close(newComment);
    assert [] + AllMade(jobs) == AllMade(jobs);
  }

  /** Appending to any archive keeps the bytes in front of its directory, and moves the
      directory as a whole: every header in it says what it said. */
  lemma ForeignKept(tab: Table, data: bytes, e: EndInfo, es: seq<Entry>, comment: bytes, k: nat)
    requires e.offset + e.size <= e.pos <= |data|
    ensures var now, p, q := Extended(tab, BaseOf(data, e), es, comment), e.pos - e.size,
                             e.pos - e.size + |Records(tab, es)|;
            && data[..p] <= now
            && q + e.size <= |now| && now[q..q + e.size] == data[p..e.pos]
            && (k + CENTRAL_SIZE <= e.size ==> ParseCentral(now, q + k) == ParseCentral(data, p + k))
  {
    hide Records, CentralFrom, EndRecord, ParseCentral;
    var b := BaseOf(data, e);
    var p, grown, c := e.pos - e.size, Records(tab, es), CentralFrom(tab, es, |b.body|);
    var end := EndRecord(b.count + |es|, |ExtendedDir(tab, b, es)|, |b.body| + |grown|, comment);
    assert data[..p] == b.start + b.body;
    BehindDirectory(b.start + b.body, grown, b.dir, c, end);
    if k + CENTRAL_SIZE <= e.size {
      HeaderKept(Extended(tab, b, es, comment), p + |grown|, data, p, b.dir, k);
    }
  }

  /** A header that stands in the same directory twice. */
  lemma HeaderKept(now: bytes, q: nat, data: bytes, p: nat, dir: bytes, k: nat)
    requires q + |dir| <= |now| && now[q..q + |dir|] == dir && p + |dir| <= |data| && data[p..p + |dir|] == dir
    requires k + CENTRAL_SIZE <= |dir|
    ensures ParseCentral(now, q + k) == ParseCentral(data, p + k)
  {
    hide ParseCentral;
    SliceIn(now, q, dir, k);
    SliceIn(data, p, dir, k);
    HeaderMoved(now, q + k, data, p + k);
  }

  lemma BehindDirectory(front: bytes, grown: bytes, dir: bytes, c: bytes, end: bytes)
    ensures var now, q := front + grown + (dir + c) + end, |front| + |grown|;
            front <= now && q + |dir| <= |now| && now[q..q + |dir|] == dir
  {
    var now, q := front + grown + (dir + c) + end, |front| + |grown|;
    Assoc(front + grown, dir + c, end);
    Assoc(dir, c, end);
    assert now == (front + grown) + (dir + (c + end));
    assert now[q..] == dir + (c + end);
    assert now[q..q + |dir|] == now[q..][..|dir|];
    Assoc(front, grown, dir + (c + end));
  }

  lemma SliceIn(data: bytes, p: nat, dir: bytes, k: nat)
    requires p + |dir| <= |data| && data[p..p + |dir|] == dir && k + CENTRAL_SIZE <= |dir|
    ensures data[p + k..p + k + CENTRAL_SIZE] == dir[k..k + CENTRAL_SIZE]
  {
    var u, v := data[p + k..p + k + CENTRAL_SIZE], dir[k..k + CENTRAL_SIZE];
    forall i | 0 <= i < CENTRAL_SIZE ensures u[i] == v[i] {
      assert data[p..p + |dir|][k + i] == dir[k + i];
    }
  }

  /** With the same comment an archive with more entries is not shorter. */
  lemma ArchiveGrows(tab: Table, es: seq<Entry>, more: seq<Entry>, comment: bytes)
    ensures |Archive(tab, es + more, comment)| >= |Archive(tab, es, comment)|
  {
    hide Records, Central, Fields;
    var all := es + more;
    assert all[..|es|] == es;
    var r, c := PrefixesOf(tab, all, |es|);
    EndOffsets(|es|, |Central(tab, es)|, |Records(tab, es)|, |comment|);
    EndOffsets(|all|, |Central(tab, all)|, |Records(tab, all)|, |comment|);
  }

  /** For an archive that zip.c wrote this gives the archive of the old entries and the new
      ones, behind the same bytes. Old bytes remain behind it exactly when it got shorter,
      which takes a shorter comment. */
  method AppendArchive(f: File, tab: Table, ghost prefix: bytes, ghost es: seq<Entry>, ghost comment: bytes,
                       jobs: seq<Job>, newComment: Option<bytes>) returns (found: bool)
    requires f.data == prefix + Archive(tab, es, comment) && ArchiveFits(tab, es, comment)
    requires NoLaterSignature(f.data, |prefix| + EndPos(tab, es))
    requires JobsOk(jobs)
    modifies f
    ensures found <==> |prefix| + EndPos(tab, es) != 0 && 22 + |comment| <= 0xffff
    ensures !found ==> f.data == old(f.data)
    ensures found ==>
      var c := CString(if newComment.Some? then newComment.value else comment);
      var a := prefix + Archive(tab, es + AllMade(jobs), c);
      && |f.data| >= |a| && f.data[..|a|] == a
      && (f.data == a <==> |a| >= old(|f.data|))
      && (c == comment ==> f.data == a)
  {
    hide Writer.Valid, Archive, CString, Records, Central, ArchiveFits, NoLaterSignature, Made, Extended, BaseOf;
    hide ParseEnd, IsLastSig, Slice;
    ghost var pos;
    found, pos := Append(f, tab, jobs, newComment);
    EndOfArchive(old(f.data), tab, prefix, es, comment, pos);
    if found {
      ghost var e := ParseEnd(old(f.data), pos).value;
      BaseOfArchive(old(f.data), tab, prefix, es, comment, e);
      ghost var c := CString(if newComment.Some? then newComment.value else comment);
      ExtendedIsArchive(tab, prefix, es, AllMade(jobs), c);
      ArchiveGrows(tab, es, AllMade(jobs), comment);
      assert f.data[..|f.data|] == f.data;
    }
  }

  // ---------------------------------------------------------------------------------------
  // Reading
  // ---------------------------------------------------------------------------------------

  function Sum(sizes: seq<nat>): nat {
    if sizes == [] then 0 else Sum(sizes[..|sizes| - 1]) + sizes[|sizes| - 1]
  }

  /** Where the data of the i-th entry starts. */
  function DataPos(tab: Table, prefix: bytes, es: seq<Entry>, i: nat): nat
    requires i < |es|
  {
    |prefix| + |Records(tab, es[..i])| + LOCAL_SIZE + |es[i].name| + |es[i].localExtra|
  }

  lemma SlicesAgree(data: bytes, s: nat, stored: bytes, h: nat, n: nat)
    requires s + |stored| + n <= |data| && data[s..s + |stored|] == stored && h <= |stored|
    ensures |Slice(data, s + h, |stored| - h + n)| == |stored| - h + n
    ensures stored[h..] <= Slice(data, s + h, |stored| - h + n)
  {
    if |stored| - h + n > 0 {
      var a := data[s + h..s + h + (|stored| - h + n)];
      assert data[s..s + |stored|][h..] == data[s + h..s + |stored|];
      assert a[..|stored| - h] == stored[h..];
    }
  }

  /** What an encrypted entry decrypts to, with the keys behind its header. The data fetched
      runs 12 bytes past it. */
  lemma DecryptsToContent(tab: Table, e: Entry, s: nat, data: bytes)
    requires e.password.Some?
    requires s + |Stored(tab, e)| + HEAD_LEN <= |data| && data[s..s + |Stored(tab, e)|] == Stored(tab, e)
    ensures s + HEAD_LEN <= |data|
    ensures var raw := Slice(data, s + HEAD_LEN, |e.content| + HEAD_LEN);
            var keys := KeysBehindHead(tab, e.password.value, data[s..s + HEAD_LEN]);
            && |raw| == |e.content| + HEAD_LEN
            && e.content <= Decrypt(tab, keys, raw)
  {
    hide Head, KeysAfterHead, After, Decrypt, Encrypt, InitKeys, Slice;
    var pw := e.password.value;
    var head, sealed := HeadBytes(tab, e), Sealed(tab, e, e.content);
    SlicesAgree(data, s, Stored(tab, e), HEAD_LEN, HEAD_LEN);
    assert Stored(tab, e)[HEAD_LEN..] == sealed && Stored(tab, e)[..HEAD_LEN] == head;
    assert data[s..s + HEAD_LEN] == data[s..s + |Stored(tab, e)|][..HEAD_LEN];
    var raw := Slice(data, s + HEAD_LEN, |e.content| + HEAD_LEN);
    var tail := raw[|sealed|..];
    assert raw == sealed + tail;
    ReaderInverts(tab, pw, e.random, CrcForCrypting(e), e.content, tail);
  }

  /** What a plain entry reads as. */
  lemma PlainIsContent(tab: Table, e: Entry, s: nat, data: bytes)
    requires e.password.None?
    requires s + |Stored(tab, e)| + HEAD_LEN <= |data| && data[s..s + |Stored(tab, e)|] == Stored(tab, e)
    ensures Slice(data, s, |e.content|) == e.content
  {
    assert Stored(tab, e) == e.content;
    SlicesAgree(data, s, e.content, 0, 0);
  }

  /** The keys on a handle, once what it reads counts as encrypted. */
  type Handle = Option<Keys>

  /** What the i-th entry is decrypted with: its password, or else the keys left on the handle,
      if an encrypted entry was read before. */
  function OpenedWith(tab: Table, e: Entry, h: Handle): Handle {
    if e.password.Some? then Some(ContentKeys(tab, e)) else h
  }

  /** How many bytes are fetched for an entry. For an encrypted one this is 12 too many. */
  function FetchSize(e: Entry): nat {
    |e.content| + HeadSize(e)
  }

  /** The bytes that the i-th entry is read as. */
  function SourceOf(tab: Table, data: bytes, prefix: bytes, es: seq<Entry>, i: nat, h: Handle): bytes
    requires i < |es|
  {
    var e := es[i];
    var raw := Slice(data, DataPos(tab, prefix, es, i) + HeadSize(e), FetchSize(e));
    match OpenedWith(tab, e, h)
    case None => raw
    case Some(k) => Decrypt(tab, k, raw)
  }

  /** The reader of the i-th entry is ready to deliver those bytes. */
  ghost predicate Ready(r: EntryReader, tab: Table, e: Entry, h: Handle, source: bytes)
    reads r, r.file`data, r.readBuffer, r.keys
  {
    && r.Valid() && r.totalOut == 0 && r.Chunked() && r.Complete() && r.tab == tab && !r.deflated
    && r.uncompressedSize == |e.content| <= |source| && r.compressedSize == FetchSize(e)
    && r.encrypted == h.Some? && (h.Some? ==> r.startKeys == h.value)
    && r.Source() == source && r.crcWait == Crc32(tab, 0, e.content)
  }

  /** Read one piece for each size asked for. */
  method ReadPieces(r: EntryReader, sizes: seq<nat>, ghost tab: Table, ghost e: Entry, ghost h: Handle,
                    ghost source: bytes) returns (ok: bool, got: bytes)
    requires Ready(r, tab, e, h, source)
    modifies r, r.file`pos, r.readBuffer, r.keys
    ensures ok && r.Valid() && r.Chunked()
    ensures r.totalOut == |got| == Min(Sum(sizes), |e.content|) && got == source[..|got|]
  {
    hide EntryReader.Valid, EntryReader.Source, EntryReader.Chunked, Crc32;
    got := [];
    ok := true;
    assert sizes[..|sizes|] == sizes;
    for i := 0 to |sizes|
      invariant ok && r.Valid() && r.Chunked() && r.Complete() && r.Source() == source
      invariant |got| == r.totalOut == Min(Sum(sizes[..i]), |e.content|)
      invariant got == source[..|got|]
    {
      ghost var n := |got|;
      var piece;
      ok, piece := r.Read(sizes[i]);
      assert sizes[..i + 1][..i] == sizes[..i];
      assert piece == source[n..n + |piece|];
      assert source[..n] + source[n..n + |piece|] == source[..n + |piece|];
      got := got + piece;
    }
  }

  /** What the client asks of an entry: the password, and how much to read at a time. */
  datatype Request = Request(password: Option<bytes>, sizes: seq<nat>)

  /** What the client gets. `crcOk` is the result of closing the entry. */
  datatype Got = Got(info: FileInfo, name: bytes, extra: bytes, comment: bytes, data: bytes, crcOk: Option<bool>)

  /** What an entry should give: the content as far as it was asked for, and no checksum error. */
  function Expected(tab: Table, es: seq<Entry>, i: nat, q: Request): Got
    requires i < |es|
  {
    var e := es[i];
    Got(InfoOf(tab, e, |Records(tab, es[..i])|), e.name, e.globalExtra, e.comment,
        e.content[..Min(Sum(q.sizes), |e.content|)], Some(true))
  }

  /** How much of the content is delivered. */
  function AskedFor(e: Entry, q: Request): (n: nat)
    ensures n <= |e.content|
  {
    Min(Sum(q.sizes), |e.content|)
  }

  /** What the i-th entry gives on a handle with the keys `h`: the bytes it is read as, and
      whether the checksum was right, which is looked at once all was read. */
  function Given(tab: Table, data: bytes, prefix: bytes, es: seq<Entry>, i: nat, h: Handle, q: Request): Got
    requires i < |es|
  {
    var e, source := es[i], SourceOf(tab, data, prefix, es, i, h);
    var read := if AskedFor(e, q) <= |source| then source[..AskedFor(e, q)] else source;
    Got(InfoOf(tab, e, |Records(tab, es[..i])|), e.name, e.globalExtra, e.comment, read,
        Some(AskedFor(e, q) == |e.content| ==> Crc32(tab, 0, read) == Crc32(tab, 0, e.content)))
  }

  /** The keys on the handle after that: those behind what was fetched. */
  function KeysLeft(tab: Table, data: bytes, prefix: bytes, es: seq<Entry>, i: nat, h: Handle, q: Request): Handle
    requires i < |es|
  {
    match OpenedWith(tab, es[i], h)
    case None => None
    case Some(k) =>
      var source, n := SourceOf(tab, data, prefix, es, i, h), FetchedFor(AskedFor(es[i], q), FetchSize(es[i]));
      Some(After(tab, k, if n <= |source| then source[..n] else source))
  }

  /** The keys on a handle on which the first i entries were read. */
  function KeysAt(tab: Table, data: bytes, prefix: bytes, es: seq<Entry>, reqs: seq<Request>, i: nat): Handle
    requires i <= |es| == |reqs|
  {
    if i == 0 then None
    else KeysLeft(tab, data, prefix, es, i - 1, KeysAt(tab, data, prefix, es, reqs, i - 1), reqs[i - 1])
  }

  lemma KeysAtSteps(tab: Table, data: bytes, prefix: bytes, es: seq<Entry>, reqs: seq<Request>)
    requires |es| == |reqs|
    ensures KeysAt(tab, data, prefix, es, reqs, 0) == None
    ensures forall i :: 0 <= i < |es| ==>
      KeysAt(tab, data, prefix, es, reqs, i + 1)
      == KeysLeft(tab, data, prefix, es, i, KeysAt(tab, data, prefix, es, reqs, i), reqs[i])
  {
    hide KeysLeft;
  }

  /** The handle has the keys `h`. */
  ghost predicate HasKeys(u: UnzFile, h: Handle)
    reads u`encrypted, u.keys
  {
    u.keys.Length == 3 && u.encrypted == h.Some? && (h.Some? ==> KeysOf(u.keys) == h.value)
  }

  /** Handle `u` is on the archive of `es` behind `prefix`. */
  ghost predicate OnArchive(u: UnzFile, tab: Table, prefix: bytes, es: seq<Entry>, comment: bytes)
    reads u.file`data
  {
    && ArchiveFits(tab, es, comment) && u.file.data == prefix + Archive(tab, es, comment)
    && u.tab == tab && u.bytesBefore == |prefix|
    && u.end.entries == |es| && u.end.offset == |Records(tab, es)|
  }

  /** Its current file is the i-th entry. */
  ghost predicate AtEntry(u: UnzFile, tab: Table, es: seq<Entry>, i: nat)
    reads u`posInCentralDir, u`currentFileOk, u`numFile
  {
    i < |es| && u.currentFileOk && u.numFile == i && u.posInCentralDir == CentralPos(tab, es, i)
  }

  lemma InfoIs(u: UnzFile, tab: Table, prefix: bytes, es: seq<Entry>, comment: bytes, i: nat)
    requires u.Valid() && OnArchive(u, tab, prefix, es, comment) && AtEntry(u, tab, es, i)
    ensures u.info == InfoOf(tab, es[i], |Records(tab, es[..i])|)
  {
    hide Records, Central, ParseCentral, Archive, InfoOf, EntryReader.Valid, ArchiveFits;
    EntryCentral(u.file.data, tab, prefix, es, comment, i);
  }

  const BIG: nat := 0xffff

  lemma WholeText(data: bytes, p: nat, text: bytes)
    requires p + |text| <= |data| && data[p..p + |text|] == text && |text| <= BIG
    ensures TextOk(data, p, |text|, Some(BIG)) && TextAt(data, p, |text|, Some(BIG)) == text
  {
  }

  /** Every number and text of the entry's central header is found. */
  method ReadInfo(u: UnzFile, ghost tab: Table, ghost prefix: bytes, ghost es: seq<Entry>, ghost comment: bytes,
                  ghost i: nat)
    returns (info: FileInfo, name: bytes, extra: bytes, text: bytes)
    requires u.Valid() && OnArchive(u, tab, prefix, es, comment) && AtEntry(u, tab, es, i)
    modifies u.file`pos
    ensures u.Valid()
    ensures info == InfoOf(tab, es[i], |Records(tab, es[..i])|)
    ensures name == es[i].name && extra == es[i].globalExtra && text == es[i].comment
  {
    hide Records, Central, ParseCentral, Archive, EntryReader.Valid, SizesOf, TextOk, TextAt;
    ghost var e := es[i];
    assert e in es;
    ghost var q := u.posInCentralDir + u.bytesBefore + CENTRAL_SIZE;
    EntryCentral(u.file.data, tab, prefix, es, comment, i);
    WholeText(u.file.data, q, e.name);
    WholeText(u.file.data, q + |e.name|, e.globalExtra);
    WholeText(u.file.data, q + |e.name| + |e.globalExtra|, e.comment);
    var ok;
    ok, info, name, extra, text := u.GetCurrentFileInfo(Some(BIG), Some(BIG), Some(BIG));
  }

  /** The keys that decrypting the encryption header gives are those the content was
      encrypted with. */
  lemma KeysBehindHeadIs(tab: Table, e: Entry, s: nat, data: bytes)
    requires e.password.Some?
    requires s + |Stored(tab, e)| <= |data| && data[s..s + |Stored(tab, e)|] == Stored(tab, e)
    ensures s + HEAD_LEN <= |data|
    ensures KeysBehindHead(tab, e.password.value, data[s..s + HEAD_LEN]) == ContentKeys(tab, e)
  {
    hide Head, KeysAfterHead, After, Decrypt, Encrypt, InitKeys;
    var head := HeadBytes(tab, e);
    assert Stored(tab, e)[..HEAD_LEN] == head;
    assert data[s..s + HEAD_LEN] == data[s..s + |Stored(tab, e)|][..HEAD_LEN];
    ReaderInverts(tab, e.password.value, e.random, CrcForCrypting(e), [], []);
  }

  /** All that is fetched for an entry is in the file. */
  lemma FetchInFile(data: bytes, tab: Table, prefix: bytes, es: seq<Entry>, comment: bytes, i: nat, h: Handle)
    requires ArchiveFits(tab, es, comment) && i < |es| && data == prefix + Archive(tab, es, comment)
    ensures DataPos(tab, prefix, es, i) + HeadSize(es[i]) + FetchSize(es[i]) <= |data|
    ensures |SourceOf(tab, data, prefix, es, i, h)| == FetchSize(es[i])
  {
    hide Records, Central, ParseLocal, Archive, Stored, Decrypt, LocalRecord, ContentKeys;
    EntryLocal(data, tab, prefix, es, comment, i);
  }

  /** An entry opened with its password is ready to be read. */
  lemma OpenedIsReady(u: UnzFile, tab: Table, prefix: bytes, es: seq<Entry>, comment: bytes, i: nat,
                      h: Handle, wasEncrypted: bool, wasKeys: Keys)
    requires u.Valid() && OnArchive(u, tab, prefix, es, comment) && AtEntry(u, tab, es, i)
    requires wasEncrypted == h.Some? && (h.Some? ==> wasKeys == h.value)
    requires u.reader != null && u.reader.Valid()
    requires u.Opened(es[i].password, |es[i].name| + |es[i].localExtra|, wasEncrypted, wasKeys, true)
    ensures Ready(u.reader, tab, es[i], OpenedWith(tab, es[i], h),
                  SourceOf(tab, u.file.data, prefix, es, i, h))
    ensures u.encrypted == OpenedWith(tab, es[i], h).Some?
  {
    hide Records, Central, ParseCentral, ParseLocal, Archive, EntryReader.Valid, Stored, Decrypt, Crc32, Slice;
    hide LocalRecord, ArchiveFits, UnzFile.Valid, KeysBehindHead, ContentKeys, EntryReader.Chunked;
    var e, data := es[i], u.file.data;
    var s := DataPos(tab, prefix, es, i);
    InfoIs(u, tab, prefix, es, comment, i);
    EntryLocal(data, tab, prefix, es, comment, i);
    FetchInFile(data, tab, prefix, es, comment, i, h);
    if e.password.Some? {
      KeysBehindHeadIs(tab, e, s, data);
    }
  }

  method OpenEntry(u: UnzFile, password: Option<bytes>, ghost tab: Table, ghost prefix: bytes, ghost es: seq<Entry>,
                   ghost comment: bytes, ghost i: nat, ghost h: Handle)
    requires u.Valid() && OnArchive(u, tab, prefix, es, comment) && AtEntry(u, tab, es, i)
    requires password == es[i].password && HasKeys(u, h)
    modifies u.file`pos, u.keys, u`reader, u`encrypted
    ensures u.Valid() && u.encrypted == OpenedWith(tab, es[i], h).Some?
    ensures u.reader != null && fresh(u.reader) && fresh(u.reader.readBuffer)
    ensures Ready(u.reader, tab, es[i], OpenedWith(tab, es[i], h),
                  SourceOf(tab, u.file.data, prefix, es, i, h))
  {
    hide Records, Central, ParseCentral, ParseLocal, Archive, EntryReader.Valid, ArchiveFits, KeysBehindHead;
    hide CentralPos, Stored, EntryReader.Chunked, SourceOf, OpenedWith, Ready, SizesOf, Flag, LocalRecord, Slice;
    ghost var wasEncrypted, wasKeys := u.encrypted, KeysOf(u.keys);
    InfoIs(u, tab, prefix, es, comment, i);
    EntryLocal(u.file.data, tab, prefix, es, comment, i);
    HeadInFile(tab, prefix, es, i, u.file.data);
    var ok := u.OpenCurrentFile(password);
    OpenedIsReady(u, tab, prefix, es, comment, i, h, wasEncrypted, wasKeys);
  }

  lemma HeadInFile(tab: Table, prefix: bytes, es: seq<Entry>, i: nat, data: bytes)
    requires i < |es| && DataPos(tab, prefix, es, i) + |Stored(tab, es[i])| + HEAD_LEN <= |data|
    ensures DataPos(tab, prefix, es, i) + HEAD_LEN <= |data|
  {
  }

  method ReadEntry(u: UnzFile, q: Request, ghost tab: Table, ghost prefix: bytes, ghost es: seq<Entry>,
                   ghost comment: bytes, ghost i: nat, ghost h: Handle) returns (got: Got)
    requires u.Valid() && OnArchive(u, tab, prefix, es, comment) && AtEntry(u, tab, es, i)
    requires q.password == es[i].password && HasKeys(u, h)
    modifies u.file`pos, u.keys, u`reader, u`encrypted
    ensures u.Valid() && HasKeys(u, KeysLeft(tab, u.file.data, prefix, es, i, h, q))
    ensures got == Given(tab, u.file.data, prefix, es, i, h, q)
  {
    hide Records, Central, ParseCentral, Archive, EntryReader.Valid, EntryReader.Source, ArchiveFits, Crc32, InfoOf;
    hide SourceOf, ContentKeys, EntryReader.Chunked, After;
    var info, name, extra, text := ReadInfo(u, tab, prefix, es, comment, i);
    OpenEntry(u, q.password, tab, prefix, es, comment, i, h);
    ghost var o, source := OpenedWith(tab, es[i], h), SourceOf(tab, u.file.data, prefix, es, i, h);
    var ok, data := ReadPieces(u.reader, q.sizes, tab, es[i], o, source);
    KeysBehind(u.reader, o, source);
    var crcOk := u.CloseCurrentFile();
    got := Got(info, name, extra, text, data, crcOk);
  }

  /** The keys of a reader that has fetched what it needed. */
  lemma KeysBehind(r: EntryReader, o: Handle, source: bytes)
    requires r.Valid() && r.Chunked() && r.Source() == source
    requires r.encrypted == o.Some? && (o.Some? ==> r.startKeys == o.value)
    ensures o.Some? ==>
      var n := FetchedFor(r.totalOut, r.compressedSize);
      n <= |source| && KeysOf(r.keys) == After(r.tab, o.value, source[..n])
  {
    hide After, Decrypt, Crc32, FetchedFor;
  }

  // ---------------------------------------------------------------------------------------
  // The walk
  // ---------------------------------------------------------------------------------------

  /** An end record is no central header. */
  lemma EndIsNoHeader(data: bytes, before: bytes, n: nat, size: nat, offset: nat, comment: bytes)
    requires n < 0x1_0000 && size < TWO_32 && offset < TWO_32 && |comment| < 0x1_0000
    requires data == before + EndRecord(n, size, offset, comment)
    ensures !HeaderAt(data, |before|)
  {
    hide EndRecord, At;
    EndNumbers(data, before, n, size, offset, comment);
  }

  /** From the i-th central header it is as far to the next as its length says. */
  lemma HeaderOfEntry(data: bytes, tab: Table, prefix: bytes, es: seq<Entry>, last: bytes, i: nat)
    requires AllFit(es) && |Records(tab, es)| < TWO_32 && i < |es|
    requires data == prefix + (Records(tab, es) + Central(tab, es) + last)
    ensures HeaderAt(data, CentralPos(tab, es, i) + |prefix|)
    ensures CentralPos(tab, es, i) + LengthAt(data, CentralPos(tab, es, i) + |prefix|) == CentralPos(tab, es, i + 1)
  {
    hide Records, Central, ParseCentral, CentralHeader, SizesOf;
    CentralFound(data, tab, prefix, es, last, i);
    PrefixLengths(tab, es, i);
  }

  /** The walk over a directory visits the central headers of the entries in order, and no
      other place, if no header follows and the count is not too small. */
  lemma {:induction false} WalkOnDirectory(data: bytes, tab: Table, prefix: bytes, es: seq<Entry>, last: bytes,
                                           e: EndInfo, k: nat)
    requires AllFit(es) && |Records(tab, es)| < TWO_32
    requires data == prefix + (Records(tab, es) + Central(tab, es) + last)
    requires e.entries >= |es| && e.offset == |Records(tab, es)| && !HeaderAt(data, |prefix| + EndPos(tab, es))
    ensures WalkPos(data, e, |prefix|, k) == if k < |es| then Some(CentralPos(tab, es, k)) else None
  {
    hide Records, Central, HeaderAt, LengthAt;
    EmptyArchive(tab);
    assert es[..0] == [] && es[..|es|] == es;
    if k < |es| {
      HeaderOfEntry(data, tab, prefix, es, last, k);
    }
    if k > 0 {
      WalkOnDirectory(data, tab, prefix, es, last, e, k - 1);
      if k <= |es| {
        HeaderOfEntry(data, tab, prefix, es, last, k - 1);
      }
    }
  }

  /** The walk over an archive visits the central headers of its entries in order. */
  lemma WalkOnArchive(data: bytes, tab: Table, prefix: bytes, es: seq<Entry>, comment: bytes, e: EndInfo, k: nat)
    requires ArchiveFits(tab, es, comment) && data == prefix + Archive(tab, es, comment)
    requires e.entries == |es| && e.offset == |Records(tab, es)|
    ensures WalkPos(data, e, |prefix|, k) == if k < |es| then Some(CentralPos(tab, es, k)) else None
  {
    hide Records, Central, EndRecord, HeaderAt;
    var last := EndRecord(|es|, |Central(tab, es)|, |Records(tab, es)|, comment);
    Assoc(prefix, Records(tab, es) + Central(tab, es), last);
    EndIsNoHeader(data, prefix + (Records(tab, es) + Central(tab, es)),
                  |es|, |Central(tab, es)|, |Records(tab, es)|, comment);
    WalkOnDirectory(data, tab, prefix, es, last, e, k);
  }

  /** Opening an archive. */
  method Open(f: File, tab: Table, ghost prefix: bytes, ghost es: seq<Entry>, ghost comment: bytes)
    returns (u: UnzFile?)
    requires f.data == prefix + Archive(tab, es, comment) && ArchiveFits(tab, es, comment)
    requires NoLaterSignature(f.data, |prefix| + EndPos(tab, es))
    modifies f`pos
    ensures u != null <==> |prefix| + EndPos(tab, es) != 0 && 22 + |comment| <= 0xffff
    ensures u != null ==> u.Valid() && fresh(u) && fresh(u.keys) && u.file == f && HasKeys(u, None)
                          && OnArchive(u, tab, prefix, es, comment)
  {
    hide Records, Central, Archive, ParseCentral, ParseEnd, EntryReader.Valid, ArchiveFits, NoLaterSignature;
    hide IsLastSig, Slice;
    ghost var pos;
    u, pos := OpenArchive(f, tab);
    EndOfArchive(f.data, tab, prefix, es, comment, pos);
  }

  /** The first and every later step of the walk. */
  method First(u: UnzFile, ghost tab: Table, ghost prefix: bytes, ghost es: seq<Entry>, ghost comment: bytes)
    returns (ok: bool)
    requires u.Valid() && OnArchive(u, tab, prefix, es, comment)
    modifies u.file`pos, u`info, u`currentFileOk, u`posInCentralDir, u`numFile
    ensures u.Valid() && ok == (es != []) && (ok ==> AtEntry(u, tab, es, 0))
  {
    hide Records, Central, Archive, ParseCentral, EntryReader.Valid, ArchiveFits, UnzFile.Valid;
    EmptyArchive(tab);
    assert es[..0] == [];
    WalkOnArchive(u.file.data, tab, prefix, es, comment, u.end, 0);
    ok := u.GoToFirstFile();
  }

  method Next(u: UnzFile, ghost tab: Table, ghost prefix: bytes, ghost es: seq<Entry>, ghost comment: bytes,
              ghost i: nat) returns (ok: bool)
    requires u.Valid() && OnArchive(u, tab, prefix, es, comment) && AtEntry(u, tab, es, i)
    modifies u.file`pos, u`info, u`currentFileOk, u`posInCentralDir, u`numFile
    ensures u.Valid() && ok == (i + 1 < |es|) && (ok ==> AtEntry(u, tab, es, i + 1))
  {
    hide Records, Central, Archive, ParseCentral, EntryReader.Valid, UnzFile.Valid, SizesOf;
    InfoIs(u, tab, prefix, es, comment, i);
    PrefixLengths(tab, es, i);
    if i + 1 < |es| {
      EntryCentral(u.file.data, tab, prefix, es, comment, i + 1);
    }
    ok := u.GoToNextFile();
  }

  predicate PasswordsFit(es: seq<Entry>, reqs: seq<Request>) {
    |reqs| == |es| && forall i :: 0 <= i < |es| ==> reqs[i].password == es[i].password
  }

  /** Opening an archive and walking it gives its entries, in order, however each is read. It
      opens exactly if something precedes the end record and the comment leaves that record
      within reach of the search. */
  method ReadArchive(f: File, tab: Table, reqs: seq<Request>, ghost prefix: bytes, ghost es: seq<Entry>,
                     ghost comment: bytes) returns (found: bool, got: seq<Got>)
    requires f.data == prefix + Archive(tab, es, comment) && ArchiveFits(tab, es, comment)
    requires NoLaterSignature(f.data, |prefix| + EndPos(tab, es))
    requires PasswordsFit(es, reqs)
    modifies f`pos
    ensures found <==> |prefix| + EndPos(tab, es) != 0 && 22 + |comment| <= 0xffff
    ensures found ==> |got| == |es|
    ensures found ==> forall i :: 0 <= i < |es| ==>
      got[i] == Given(tab, f.data, prefix, es, i, KeysAt(tab, f.data, prefix, es, reqs, i), reqs[i])
  {
    hide Records, Central, Archive, EntryReader.Valid, ArchiveFits, NoLaterSignature, UnzFile.Valid, Given, KeysLeft;
    hide KeysAt, HasKeys, OnArchive, AtEntry;
    got := [];
    KeysAtSteps(tab, f.data, prefix, es, reqs);
    var u := Open(f, tab, prefix, es, comment);
    if u == null {
      return false, got;
    }
    found := true;
    var ok := First(u, tab, prefix, es, comment);
    while ok
      invariant u.Valid() && u.file == f && OnArchive(u, tab, prefix, es, comment) && fresh(u) && fresh(u.keys)
      invariant |got| <= |es| && ok == (|got| < |es|) && (ok ==> AtEntry(u, tab, es, |got|))
      invariant HasKeys(u, KeysAt(tab, f.data, prefix, es, reqs, |got|))
      invariant forall i :: 0 <= i < |got| ==>
        got[i] == Given(tab, f.data, prefix, es, i, KeysAt(tab, f.data, prefix, es, reqs, i), reqs[i])
      decreases |es| - |got|
    {
      ghost var i := |got|;
      var one := ReadEntry(u, reqs[|got|], tab, prefix, es, comment, i, KeysAt(tab, f.data, prefix, es, reqs, i));
      got := got + [one];
      ok := Next(u, tab, prefix, es, comment, i);
    }
  }

  // ---------------------------------------------------------------------------------------
  // What is read
  // ---------------------------------------------------------------------------------------

  /** The entry is encrypted, or none before it is. */
  predicate Clean(es: seq<Entry>, i: nat)
    requires i < |es|
  {
    es[i].password.Some? || forall j :: 0 <= j < i ==> es[j].password.None?
  }

  lemma {:induction false} NoKeysYet(tab: Table, data: bytes, prefix: bytes, es: seq<Entry>, reqs: seq<Request>, i: nat)
    requires i <= |es| == |reqs| && forall j :: 0 <= j < i ==> es[j].password.None?
    ensures KeysAt(tab, data, prefix, es, reqs, i).None?
  {
    hide SourceOf, After, ContentKeys, FetchedFor, AskedFor;
    if i > 0 {
      NoKeysYet(tab, data, prefix, es, reqs, i - 1);
    }
  }

  /** On a handle without keys, or with its own password, an entry reads as its content. */
  lemma ReadsContent(data: bytes, tab: Table, prefix: bytes, es: seq<Entry>, comment: bytes, i: nat, h: Handle)
    requires ArchiveFits(tab, es, comment) && i < |es| && data == prefix + Archive(tab, es, comment)
    ensures es[i].password.Some? || h.None? ==> es[i].content <= SourceOf(tab, data, prefix, es, i, h)
    ensures es[i].password.None? && h.Some? ==>
      SourceOf(tab, data, prefix, es, i, h) == Decrypt(tab, h.value, es[i].content)
  {
    hide Records, Central, ParseLocal, Archive, Stored, Decrypt, LocalRecord, Slice, ArchiveFits, ContentKeys;
    hide InfoOf, KeysBehindHead;
    var e, s := es[i], DataPos(tab, prefix, es, i);
    EntryLocal(data, tab, prefix, es, comment, i);
    if e.password.Some? {
      KeysBehindHeadIs(tab, e, s, data);
      DecryptsToContent(tab, e, s, data);
    } else {
      PlainIsContent(tab, e, s, data);
    }
  }

  lemma ShortPrefix(a: bytes, b: bytes, n: nat)
    requires a <= b && n <= |a|
    ensures b[..n] == a[..n] && (n == |a| ==> b[..n] == a)
  {
  }

  /** Decrypting gives the same bytes exactly if the key stream is zero all along. */
  lemma {:induction false} DecryptChangesNothingIff(tab: Table, k: Keys, c: bytes, n: nat)
    requires n <= |c|
    ensures Decrypt(tab, k, c)[..n] == c[..n]
       <==> forall j :: 0 <= j < n ==> DecryptByte(After(tab, k, c[..j])) == 0
    decreases n
  {
    hide Update, DecryptByte;
    if n > 0 {
      var plain, t := Decrypt(tab, k, c), n - 1;
      DecryptChangesNothingIff(tab, k, c, t);
      LastByteSame(tab, k, c, t);
    }
  }

  lemma LastByteSame(tab: Table, k: Keys, c: bytes, t: nat)
    requires t < |c|
    ensures Decrypt(tab, k, c)[..t] == c[..t] ==>
      (Decrypt(tab, k, c)[t] == c[t] <==> DecryptByte(After(tab, k, c[..t])) == 0)
    ensures Decrypt(tab, k, c)[..t + 1] == c[..t + 1]
       <==> Decrypt(tab, k, c)[..t] == c[..t] && Decrypt(tab, k, c)[t] == c[t]
  {
    hide Update, DecryptByte, Decrypt, After;
    var plain := Decrypt(tab, k, c);
    assert plain[..t + 1] == plain[..t] + [plain[t]] && c[..t + 1] == c[..t] + [c[t]];
    assert c[..t + 1] + c[t + 1..] == c;
    DecryptAppend(tab, k, c[..t + 1], c[t + 1..]);
    DecryptMore(tab, k, c, t);
    assert c[..t] + c[t..] == c;
    DecryptAppend(tab, k, c[..t], c[t..]);
    if plain[..t] == c[..t] {
      var b := DecryptByte(After(tab, k, c[..t]));
      assert Decrypt(tab, k, c[..t]) == plain[..t];
      assert plain[t] == XorByte(c[t], b);
      XorSameIff(c[t], b);
    }
  }

  /** An entry gives what it should exactly if it has its own password, or the handle has no
      keys, or the key stream is zero where the content was decrypted for nothing. */
  lemma GivesContentIff(data: bytes, tab: Table, prefix: bytes, es: seq<Entry>, comment: bytes, i: nat,
                        h: Handle, q: Request)
    requires ArchiveFits(tab, es, comment) && i < |es| && data == prefix + Archive(tab, es, comment)
    ensures Given(tab, data, prefix, es, i, h, q) == Expected(tab, es, i, q)
       <==> || es[i].password.Some? || h.None?
            || forall j :: 0 <= j < AskedFor(es[i], q) ==> DecryptByte(After(tab, h.value, es[i].content[..j])) == 0
  {
    hide Records, Central, Archive, ArchiveFits, SourceOf, InfoOf, Crc32, Decrypt, After, DecryptByte;
    var content, source := es[i].content, SourceOf(tab, data, prefix, es, i, h);
    ReadsContent(data, tab, prefix, es, comment, i, h);
    if es[i].password.Some? || h.None? {
      ShortPrefix(content, source, AskedFor(es[i], q));
    } else {
      DecryptChangesNothingIff(tab, h.value, content, AskedFor(es[i], q));
      if source[..AskedFor(es[i], q)] == content[..AskedFor(es[i], q)] {
        WholeIs(content, AskedFor(es[i], q));
      }
    }
  }

  lemma WholeIs(a: bytes, n: nat)
    requires n <= |a|
    ensures n == |a| ==> a[..n] == a
  {
  }

  /** What unzLocateFile compares. */
  function KnownName(e: Entry): bytes {
    CString(e.name[..Min(|e.name|, 256)])
  }

  lemma NameIsKnown(data: bytes, tab: Table, prefix: bytes, es: seq<Entry>, last: bytes, i: nat, name: Wanted)
    requires AllFit(es) && |Records(tab, es)| < TWO_32 && i < |es|
    requires data == prefix + (Records(tab, es) + Central(tab, es) + last)
    ensures NameIs(data, |prefix| + CentralPos(tab, es, i), name) <==> Matches(KnownName(es[i]), name)
    ensures !NameCut(data, |prefix| + CentralPos(tab, es, i))
  {
    hide Records, Central, ParseCentral, CString, SizesOf, Matches;
    CentralFound(data, tab, prefix, es, last, i);
    var e, q := es[i], |prefix| + CentralPos(tab, es, i) + CENTRAL_SIZE;
    var n := Min(|e.name|, MAX_FILENAME);
    assert data[q..q + |e.name|][..n] == data[q..q + n];
    if n > 0 {
      assert Slice(data, q, n) == data[q..q + n];
    }
  }

  /** The walk over an archive ends by the count, unless there is nothing to walk over. */
  lemma ArchiveDoesNotBreak(data: bytes, tab: Table, prefix: bytes, es: seq<Entry>, comment: bytes, e: EndInfo)
    requires ArchiveFits(tab, es, comment) && data == prefix + Archive(tab, es, comment)
    requires e.entries == |es| && e.offset == |Records(tab, es)|
    ensures WalkBreaks(data, e, |prefix|) <==> es == []
  {
    hide Records, Central, Archive, HeaderAt, LengthAt, NameCut, CentralPos;
    WalkOnArchive(data, tab, prefix, es, comment, e, 0);
    if es != [] {
      WalkOnArchive(data, tab, prefix, es, comment, e, |es| - 1);
      WalkOnArchive(data, tab, prefix, es, comment, e, |es|);
      BreaksAtLast(data, e, |prefix|, |es| - 1);
    }
  }

  lemma IsDirectory(data: bytes, tab: Table, prefix: bytes, es: seq<Entry>, comment: bytes)
    requires ArchiveFits(tab, es, comment) && data == prefix + Archive(tab, es, comment)
    ensures AllFit(es) && |Records(tab, es)| < TWO_32
    ensures data == prefix + (Records(tab, es) + Central(tab, es)
                              + EndRecord(|es|, |Central(tab, es)|, |Records(tab, es)|, comment))
  {
    hide Records, Central, EndRecord;
  }

  /** On an archive the first entry with the name is found, exactly if there is one. */
  method Locate(u: UnzFile, name: Wanted, ghost tab: Table, ghost prefix: bytes, ghost es: seq<Entry>,
                ghost comment: bytes) returns (ok: bool)
    requires u.Valid() && OnArchive(u, tab, prefix, es, comment) && u.currentFileOk
    requires |CString(name.name)| < 256
    modifies u.file`pos, u`info, u`currentFileOk, u`posInCentralDir, u`numFile
    ensures u.Valid()
    ensures ok <==> exists i :: 0 <= i < |es| && Matches(KnownName(es[i]), name)
    ensures ok ==> AtEntry(u, tab, es, u.numFile) && Matches(KnownName(es[u.numFile]), name)
                   && forall i :: 0 <= i < u.numFile ==> !Matches(KnownName(es[i]), name)
    ensures !ok ==> u.numFile == old(u.numFile) && u.posInCentralDir == old(u.posInCentralDir)
    ensures !ok ==> u.currentFileOk == (es != [])
  {
    hide Records, Central, Archive, ParseCentral, EntryReader.Valid, ArchiveFits, UnzFile.Valid, CentralPos;
    hide NameIs, WalkPos, KnownName, WalkBreaks, Matches, CString;
    ghost var last := EndRecord(|es|, |Central(tab, es)|, |Records(tab, es)|, comment);
    IsDirectory(u.file.data, tab, prefix, es, comment);
    ArchiveDoesNotBreak(u.file.data, tab, prefix, es, comment, u.end);
    forall i: nat ensures WalkPos(u.file.data, u.end, |prefix|, i)
                       == if i < |es| then Some(CentralPos(tab, es, i)) else None
    {
      WalkOnArchive(u.file.data, tab, prefix, es, comment, u.end, i);
    }
    forall i: nat | i < |es|
      ensures NameIs(u.file.data, |prefix| + CentralPos(tab, es, i), name) <==> Matches(KnownName(es[i]), name)
    {
      NameIsKnown(u.file.data, tab, prefix, es, last, i, name);
    }
    ok := u.LocateFile(name);
    if !ok {
      assert u.NotBefore(name, |es|);
    }
  }

  // ---------------------------------------------------------------------------------------
  // The whole way
  // ---------------------------------------------------------------------------------------

  /** An archive that zip.c can write and unzip.c can find. */
  ghost predicate Readable(tab: Table, prefix: bytes, es: seq<Entry>, comment: bytes) {
    && ArchiveFits(tab, es, comment)
    && NoLaterSignature(prefix + Archive(tab, es, comment), |prefix| + EndPos(tab, es))
    && |prefix| + EndPos(tab, es) != 0 && 22 + |comment| <= 0xffff
  }

  /** A clean entry gives what it should, however it is read. */
  lemma CleanGivesContent(data: bytes, tab: Table, prefix: bytes, es: seq<Entry>, comment: bytes, i: nat,
                          reqs: seq<Request>)
    requires ArchiveFits(tab, es, comment) && i < |es| == |reqs| && data == prefix + Archive(tab, es, comment)
    ensures Clean(es, i) ==>
      Given(tab, data, prefix, es, i, KeysAt(tab, data, prefix, es, reqs, i), reqs[i]) == Expected(tab, es, i, reqs[i])
  {
    hide Records, Central, Archive, ArchiveFits, Given, Expected, KeysLeft;
    if Clean(es, i) && es[i].password.None? {
      NoKeysYet(tab, data, prefix, es, reqs, i);
    }
    GivesContentIff(data, tab, prefix, es, comment, i, KeysAt(tab, data, prefix, es, reqs, i), reqs[i]);
  }

  /** Writing entries in any pieces and reading the archive in any pieces. */
  method WriteThenRead(f: File, tab: Table, jobs: seq<Job>, comment: bytes, reqs: seq<Request>)
    returns (got: seq<Got>)
    requires f.data == [] && f.pos == 0 && JobsOk(jobs)
    requires Readable(tab, [], AllMade(jobs), CString(comment)) && PasswordsFit(AllMade(jobs), reqs)
    modifies f
    ensures f.data == Archive(tab, AllMade(jobs), CString(comment)) && |got| == |jobs|
    ensures forall i :: 0 <= i < |jobs| ==>
      got[i] == Given(tab, f.data, [], AllMade(jobs), i, KeysAt(tab, f.data, [], AllMade(jobs), reqs, i), reqs[i])
    ensures forall i :: 0 <= i < |jobs| && Clean(AllMade(jobs), i) ==>
      got[i] == Expected(tab, AllMade(jobs), i, reqs[i])
  {
    hide Archive, CString, Records, Central, ArchiveFits, NoLaterSignature, Made, Expected, Given, KeysAt, Clean;
    ghost var es, c := AllMade(jobs), CString(comment);
    assert [] + Archive(tab, es, c) == Archive(tab, es, c);
    WriteArchive(f, tab, jobs, comment);
    var found;
    found, got := ReadArchive(f, tab, reqs, [], es, c);
    forall i | 0 <= i < |jobs| && Clean(es, i) ensures got[i] == Expected(tab, es, i, reqs[i]) {
      CleanGivesContent(f.data, tab, [], es, c, i, reqs);
    }
  }

  /** Appending keeps what was there: reading gives the old entries, then the new ones. */
  method AppendThenRead(f: File, tab: Table, ghost prefix: bytes, ghost es: seq<Entry>, ghost comment: bytes,
                        jobs: seq<Job>, reqs: seq<Request>) returns (got: seq<Got>)
    requires Readable(tab, prefix, es, comment) && f.data == prefix + Archive(tab, es, comment)
    requires JobsOk(jobs) && CString(comment) == comment
    requires Readable(tab, prefix, es + AllMade(jobs), comment) && PasswordsFit(es + AllMade(jobs), reqs)
    modifies f
    ensures f.data == prefix + Archive(tab, es + AllMade(jobs), comment) && |got| == |es| + |jobs|
    ensures var all := es + AllMade(jobs);
            forall i :: 0 <= i < |got| ==>
              got[i] == Given(tab, f.data, prefix, all, i, KeysAt(tab, f.data, prefix, all, reqs, i), reqs[i])
    ensures forall i :: 0 <= i < |got| && Clean(es + AllMade(jobs), i) ==>
      got[i] == Expected(tab, es + AllMade(jobs), i, reqs[i])
  {
    hide Archive, CString, Records, Central, ArchiveFits, NoLaterSignature, Made, Expected, Given, KeysAt, Clean;
    ghost var all := es + AllMade(jobs);
    var found := AppendArchive(f, tab, prefix, es, comment, jobs, None);
    found, got := ReadArchive(f, tab, reqs, prefix, all, comment);
    forall i | 0 <= i < |got| && Clean(all, i) ensures got[i] == Expected(tab, all, i, reqs[i]) {
      CleanGivesContent(f.data, tab, prefix, all, comment, i, reqs);
    }
  }

  /** An old entry gives the same as before, but for the offset, which is also the same. */
  lemma OldEntriesKept(tab: Table, es: seq<Entry>, more: seq<Entry>, i: nat, q: Request)
    requires i < |es|
    ensures Expected(tab, es + more, i, q) == Expected(tab, es, i, q)
  {
    assert (es + more)[..i] == es[..i];
  }
}
