/** The backward search for the end record, shared by zip.c and unzip.c. */
module ZipSearch {
  import opened Bytes
  import opened ZipNumbers

  predicate SigAt(data: bytes, p: int) {
    && 0 <= p && p + 4 <= |data|
    && data[p] == 0x50 && data[p + 1] == 0x4b && data[p + 2] == 0x05 && data[p + 3] == 0x06
  }

  const MAX_BACK: nat := 0xffff
  const BUFREADCOMMENT: nat := 0x400

  /** The first position the search looks at. */
  function SearchFloor(data: bytes): nat {
    if |data| > MAX_BACK then |data| - MAX_BACK else 0
  }

  /** The greatest offset in the last 0xffff bytes at which the signature occurs, or 0; an
      occurrence at offset 0 counts as none. */
  ghost predicate IsLastSig(data: bytes, r: nat) {
    && (r != 0 ==> SigAt(data, r) && r >= SearchFloor(data))
    && (forall p :: p > r && p >= SearchFloor(data) ==> !SigAt(data, p))
  }

  lemma LastSigUnique(data: bytes, r: nat, q: nat)
    requires IsLastSig(data, r) && IsLastSig(data, q)
    ensures r == q
  {
    assert r < q ==> !SigAt(data, q);
    assert q < r ==> !SigAt(data, r);
  }

  /** The last signature inside one window, or -1. */
  method ScanWindow(buf: bytes) returns (i: int)
    requires |buf| >= 3
    ensures -1 <= i
    ensures i >= 0 ==> SigAt(buf, i)
    ensures forall k :: k > i ==> !SigAt(buf, k)
  {
    i := |buf| - 3;
    while i > 0
      invariant 0 <= i <= |buf| - 3
      invariant forall k :: k >= i ==> !SigAt(buf, k)
    {
      i := i - 1;
      if buf[i] == 0x50 && buf[i + 1] == 0x4b && buf[i + 2] == 0x05 && buf[i + 3] == 0x06 {
        return i;
      }
    }
    i := -1;
  }

  lemma WindowSees(data: bytes, pos: nat, n: nat, k: int)
    requires pos + n <= |data|
    ensures SigAt(data[pos..pos + n], k) <==> k >= 0 && k + 4 <= n && SigAt(data, pos + k)
  {
  }

  /** Overlapping windows of 0x404 bytes, backwards in steps of 0x400: no occurrence on a
      window boundary is missed. */
  method SearchCentralDir(f: File) returns (found: nat)
    modifies f`pos
    ensures IsLastSig(f.data, found)
  {
    f.SeekEnd();
    var size := f.pos;
    var maxBack := if MAX_BACK > size then size else MAX_BACK;
    var back := 4;
    found := 0;
    while back < maxBack
      invariant back == 4 || back <= maxBack
      invariant found == 0
      invariant forall p :: p > 0 && p > size - back ==> !SigAt(f.data, p)
      invariant back > 4 ==> forall p :: p > 0 && p >= size - back ==> !SigAt(f.data, p)
    {
      ghost var before := back;
      if back + BUFREADCOMMENT > maxBack {
        back := maxBack;
      } else {
        back := back + BUFREADCOMMENT;
      }
      var readPos := size - back;
      var readSize := if BUFREADCOMMENT + 4 < size - readPos then BUFREADCOMMENT + 4 else size - readPos;
      f.Seek(readPos);
      var buf := f.Read(readSize);
      var i := ScanWindow(buf);
      forall p | p > 0 && p >= readPos && p > readPos + i
        ensures !SigAt(f.data, p)
      {
        WindowSees(f.data, readPos, readSize, p - readPos);
      }
      if i >= 0 {
        WindowSees(f.data, readPos, readSize, i);
        found := readPos + i;
        if found != 0 {
          break;
        }
      }
    }
  }
}
