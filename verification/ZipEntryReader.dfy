/** Reading the entry that is open: `file_in_zip_read_info_s` and `unzReadCurrentFile`. Only a
    stored entry can be read here; inflating belongs to zlib. */
module ZipEntryReader {
  import opened Bytes
  import opened ZipNumbers
  import opened Crypt

  const UNZ_BUFSIZE: nat := 16384

  function Min(a: nat, b: nat): nat {
    if a < b then a else b
  }

  /** How much of `size` bytes was fetched once `n` were delivered: whole buffers. */
  function FetchedFor(n: nat, size: nat): nat {
    Min(size, (n + UNZ_BUFSIZE - 1) / UNZ_BUFSIZE * UNZ_BUFSIZE)
  }

  /** Delivering `d` bytes, which are there, or are the first of the next buffer. */
  lemma FetchedMore(n: nat, d: nat, size: nat)
    requires n <= FetchedFor(n, size) && d > 0
    ensures n + d <= FetchedFor(n, size) ==> FetchedFor(n + d, size) == FetchedFor(n, size)
    ensures n == FetchedFor(n, size) && d <= Min(UNZ_BUFSIZE, size - n) ==>
      FetchedFor(n + d, size) == n + Min(UNZ_BUFSIZE, size - n)
  {
    var k := (n + UNZ_BUFSIZE - 1) / UNZ_BUFSIZE;
    if n + d <= k * UNZ_BUFSIZE {
      assert (n + d + UNZ_BUFSIZE - 1) / UNZ_BUFSIZE == k;
    }
    if n == k * UNZ_BUFSIZE && d <= UNZ_BUFSIZE {
      assert (n + d + UNZ_BUFSIZE - 1) / UNZ_BUFSIZE == k + 1;
    }
  }

  /** That is all, or as many buffers of 16384 bytes as it takes. */
  lemma FetchedWhole(n: nat, size: nat)
    requires n <= size
    ensures var f := FetchedFor(n, size); n <= f <= size && f < n + 16384 && (f == size || f % 16384 == 0)
  {
  }

  /** Decrypting a slice needs the keys after what comes before it. */
  lemma DecryptSlice(tab: Table, k: Keys, raw: bytes, f: nat, n: nat)
    requires f + n <= |raw|
    ensures var plain := Decrypt(tab, k, raw);
            var keys := After(tab, k, plain[..f]);
            && Decrypt(tab, keys, raw[f..f + n]) == plain[f..f + n]
            && After(tab, keys, plain[f..f + n]) == After(tab, k, plain[..f + n])
  {
    hide Decrypt, After;
    var plain := Decrypt(tab, k, raw);
    assert raw == raw[..f + n] + raw[f + n..];
    assert raw[..f + n] == raw[..f] + raw[f..f + n];
    DecryptAppend(tab, k, raw[..f + n], raw[f + n..]);
    DecryptAppend(tab, k, raw[..f], raw[f..f + n]);
    assert plain[..f + n] == Decrypt(tab, k, raw[..f + n]);
    assert plain[..f] == plain[..f + n][..f] == Decrypt(tab, k, raw[..f]);
    assert plain[f..f + n] == plain[..f + n][f..];
    AfterAppend(tab, k, plain[..f], plain[f..f + n]);
    assert plain[..f] + plain[f..f + n] == plain[..f + n];
  }

  lemma SliceOfSlice(data: bytes, p: nat, m: nat, f: nat, n: nat)
    requires f + n <= m && |Slice(data, p + f, n)| == n && f <= |Slice(data, p, m)|
    ensures f + n <= |Slice(data, p, m)| && Slice(data, p, m)[f..f + n] == Slice(data, p + f, n)
  {
    if n > 0 {
      assert p + f + n <= |data|;
      assert data[p..][f..f + n] == data[p + f..p + f + n];
    }
  }

  class EntryReader {
    const file: File
    const tab: Table
    const keys: array<nat>
    const encrypted: bool
    const deflated: bool
    const readBuffer: array<byte>
    const bytesBefore: nat
    const crcWait: nat
    var nextIn: nat
    var availIn: nat
    var posInZipfile: nat
    var crc: nat
    var restCompressed: nat
    var restUncompressed: nat
    var totalOut: nat

    /** Where the data starts in the file, its recorded sizes, and the keys at its start. */
    ghost const dataPos: nat
    ghost const compressedSize: nat
    ghost const uncompressedSize: nat
    ghost const startKeys: Keys

    /** The bytes the entry's data decodes to. */
    ghost function Source(): bytes
      reads file`data
    {
      var raw := Slice(file.data, dataPos, compressedSize);
      if encrypted then Decrypt(tab, startKeys, raw) else raw
    }

    /** The file holds all of the data. */
    ghost predicate Complete()
      reads file`data
    {
      dataPos + compressedSize <= |file.data|
    }

    /** How many bytes were fetched from the file. */
    ghost function Fetched(): nat
      reads `totalOut, `availIn
    {
      totalOut + availIn
    }

    /** `b` is what was delivered since `from`. */
    ghost predicate Delivered(b: bytes, from: nat)
      reads `totalOut, file`data
    {
      from <= totalOut <= |Source()| && b == Source()[from..totalOut]
    }

    /** Only whole buffers were fetched, and none before it was needed. */
    ghost predicate Chunked()
      reads `totalOut, `availIn
    {
      Fetched() == FetchedFor(totalOut, compressedSize)
    }

    ghost predicate Valid()
      reads this, file`data, readBuffer, keys
    {
      && readBuffer.Length == UNZ_BUFSIZE && keys.Length == 3
      && nextIn + availIn <= UNZ_BUFSIZE
      && Fetched() <= |Source()| && Fetched() <= compressedSize
      && readBuffer[nextIn..nextIn + availIn] == Source()[totalOut..Fetched()]
      && restCompressed == compressedSize - Fetched()
      && totalOut + restUncompressed == uncompressedSize
      && posInZipfile + bytesBefore == dataPos + Fetched()
      && crc == Crc32(tab, 0, Source()[..totalOut])
      && KeysOf(keys) == (if encrypted then After(tab, startKeys, Source()[..Fetched()]) else startKeys)
    }

    constructor (f: File, t: Table, k: array<nat>, enc: bool, packed: bool, pos: nat, before: nat,
                 crcW: nat, csize: nat, usize: nat)
      requires k.Length == 3
      ensures Valid() && totalOut == 0 && Chunked() && fresh(readBuffer)
      ensures file == f && tab == t && keys == k && encrypted == enc && deflated == packed && crcWait == crcW
      ensures dataPos == pos + before && compressedSize == csize && uncompressedSize == usize
      ensures startKeys == KeysOf(k)
    {
      hide Decrypt, CrcFold;
      CrcOfNothing(t, 0);
      file, tab, keys, encrypted, deflated, bytesBefore, crcWait := f, t, k, enc, packed, before, crcW;
      readBuffer := new byte[UNZ_BUFSIZE];
      nextIn, availIn, posInZipfile, crc := 0, 0, pos, 0;
      restCompressed, restUncompressed, totalOut := csize, usize, 0;
      dataPos, compressedSize, uncompressedSize, startKeys := pos + before, csize, usize, KeysOf(k);
      new;
      assert Source()[..0] == [];
    }

    /** Read `n` bytes of data into the buffer and decrypt them there. */
    method Load(n: nat) returns (ok: bool)
      requires readBuffer.Length == UNZ_BUFSIZE && keys.Length == 3 && n <= UNZ_BUFSIZE
      requires Fetched() <= |Source()| && Fetched() + n <= compressedSize
      requires posInZipfile + bytesBefore == dataPos + Fetched()
      requires KeysOf(keys) == if encrypted then After(tab, startKeys, Source()[..Fetched()]) else startKeys
      modifies file`pos, readBuffer, keys
      ensures Complete() ==> ok
      ensures ok ==> Fetched() + n <= |Source()|
      ensures ok ==> readBuffer[..n] == Source()[Fetched()..Fetched() + n]
      ensures ok ==>
        KeysOf(keys) == if encrypted then After(tab, startKeys, Source()[..Fetched() + n]) else startKeys
      ensures !ok ==> KeysOf(keys) == old(KeysOf(keys)) && readBuffer[..] == old(readBuffer[..])
    {
      hide Decrypt, After;
      file.Seek(posInZipfile + bytesBefore);
      var b := file.Read(n);
      if |b| != n {
        return false;
      }
      ghost var f, raw := Fetched(), Slice(file.data, dataPos, compressedSize);
      SliceOfSlice(file.data, dataPos, compressedSize, f, n);
      forall i | 0 <= i < n {
        readBuffer[i] := b[i];
      }
      assert readBuffer[..n] == b;
      if encrypted {
        DecryptSlice(tab, startKeys, raw, f, n);
        DecodeBuffer(readBuffer, n, keys, tab);
      }
      ok := true;
    }

    /** Fetch the next piece of data. Fails when the file is too short. */
    method Fetch() returns (ok: bool)
      requires Valid() && availIn == 0 && restCompressed > 0
      modifies file`pos, readBuffer, keys, `nextIn, `availIn, `posInZipfile, `restCompressed
      ensures Valid() && (Complete() ==> ok) && (ok ==> availIn == Min(UNZ_BUFSIZE, old(restCompressed)))
    {
      hide EntryReader.Source, After, Crc32;
      var readThis := Min(UNZ_BUFSIZE, restCompressed);
      ok := Load(readThis);
      if !ok {
        assert readBuffer[nextIn..nextIn] == Source()[totalOut..totalOut];
        return false;
      }
      assert readBuffer[0..readThis] == readBuffer[..readThis];
      posInZipfile := posInZipfile + readThis;
      restCompressed := restCompressed - readThis;
      nextIn := 0;
      availIn := readThis;
    }

    /** Hand over `n` buffered bytes. */
    method Deliver(n: nat) returns (b: bytes)
      requires Valid() && n <= availIn && n <= restUncompressed
      modifies `nextIn, `availIn, `crc, `restUncompressed, `totalOut
      ensures Valid() && totalOut == old(totalOut) + n
      ensures b == Source()[old(totalOut)..totalOut] && |b| == n && Fetched() == old(Fetched())
    {
      hide EntryReader.Source, Decrypt, After, Crc32;
      b := readBuffer[nextIn..nextIn + n];
      ghost var s := Source();
      assert b == readBuffer[nextIn..nextIn + availIn][..n];
      CrcAppend(tab, 0, s[..totalOut], b);
      assert s[..totalOut] + b == s[..totalOut + n];
      assert readBuffer[nextIn + n..nextIn + availIn] == readBuffer[nextIn..nextIn + availIn][n..];
      crc := Crc32(tab, crc, b);
      restUncompressed := restUncompressed - n;
      availIn := availIn - n;
      nextIn := nextIn + n;
      totalOut := totalOut + n;
    }

    /** One round of the loop below: at most `n` bytes from the buffer, which is filled if it
        is empty. None are left when there is no piece. */
    method NextPiece(n: nat) returns (ok: bool, piece: bytes)
      requires Valid() && !deflated && 0 < n <= restUncompressed
      modifies file`pos, readBuffer, keys, `nextIn, `availIn, `posInZipfile, `restCompressed,
               `crc, `restUncompressed, `totalOut
      ensures Valid() && (Complete() ==> ok)
      ensures old(totalOut) <= totalOut <= |Source()| && piece == Source()[old(totalOut)..totalOut] && |piece| <= n
      ensures ok ==> (piece == [] <==> old(totalOut) == compressedSize) && (old(Chunked()) ==> Chunked())
      ensures totalOut <= compressedSize && totalOut + restUncompressed == uncompressedSize
    {
      hide EntryReader.Source, EntryReader.Valid, FetchedFor, Decrypt, After, Crc32;
      piece := [];
      StartsSomewhere();
      Counts();
      if availIn == 0 && restCompressed > 0 {
        ok := Fetch();
        if !ok {
          StartsSomewhere();
          return;
        }
        Counts();
      }
      if availIn == 0 && restCompressed == 0 {
        return true, piece;
      }
      var doCopy := if n < availIn then n else availIn;
      if old(Chunked()) {
        FetchedMore(totalOut, doCopy, compressedSize);
      }
      piece := Deliver(doCopy);
      Counts();
      ok := true;
    }

    /** `unzReadCurrentFile`: the next bytes of the entry, at most `n`, fewer only at its end. */
    method Read(n: nat) returns (ok: bool, b: bytes)
      requires Valid() && !deflated && totalOut <= Min(uncompressedSize, compressedSize)
      modifies file`pos, readBuffer, keys, `nextIn, `availIn, `posInZipfile, `restCompressed,
               `crc, `restUncompressed, `totalOut
      ensures Valid() && (Complete() ==> ok) && (ok && old(Chunked()) ==> Chunked())
      ensures ok ==> Delivered(b, old(totalOut))
      ensures ok ==> |b| == Min(n, Min(uncompressedSize, compressedSize) - old(totalOut))
    {
      hide EntryReader.Source, EntryReader.Valid, EntryReader.Chunked, Decrypt, After, Crc32;
      b := [];
      StartsSomewhere();
      if n == 0 {
        return true, b;
      }
      var availOut := Min(n, restUncompressed);
      while availOut > 0
        invariant Valid() && totalOut <= compressedSize && totalOut + restUncompressed == uncompressedSize
        invariant availOut >= 0 && |b| + availOut == Min(n, uncompressedSize - old(totalOut))
        invariant totalOut == old(totalOut) + |b| && Delivered(b, old(totalOut)) && (old(Chunked()) ==> Chunked())
        decreases availOut
      {
        ghost var before := totalOut;
        var piece;
        ok, piece := NextPiece(availOut);
        if !ok {
          return;
        }
        if piece == [] {
          return true, b;
        }
        ghost var s := Source();
        assert s[old(totalOut)..before] + s[before..totalOut] == s[old(totalOut)..totalOut];
        b := b + piece;
        availOut := availOut - |piece|;
      }
      ok := true;
    }

    lemma Counts()
      requires Valid()
      ensures totalOut + availIn + restCompressed == compressedSize
      ensures totalOut + restUncompressed == uncompressedSize && totalOut <= |Source()|
    {
    }

    lemma StartsSomewhere()
      requires Valid()
      ensures totalOut <= |Source()| && totalOut <= compressedSize && Source()[totalOut..totalOut] == []
      ensures totalOut + restUncompressed == uncompressedSize
    {
    }

    /** `unzCloseCurrentFile`: whether the checksum is right, once everything was read. */
    method Close() returns (crcOk: bool)
      requires Valid()
      ensures crcOk == (totalOut == uncompressedSize ==> Crc32(tab, 0, Source()[..totalOut]) == crcWait)
    {
      hide Decrypt, After, Crc32;
      crcOk := true;
      if restUncompressed == 0 && crc != crcWait {
        crcOk := false;
      }
    }
  }
}
