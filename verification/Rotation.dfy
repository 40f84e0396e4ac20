/** Size-based log rotation (QsLogDestFile.cpp). */
module Rotation {
  import opened Bytes

  /** The log file, and its numbered backups; higher numbers are older. */
  datatype Name = Log | Backup(n: nat)

  type Files = map<Name, bytes>

  const MAX_BACKUP_COUNT: nat := 10
  const NEWLINE: byte := 10

  // ---------------------------------------------------------------------------------------
  // What a rotation means
  // ---------------------------------------------------------------------------------------

  /** The number of backups 1, 2, ... without a gap, counted up to `max`. */
  function Contiguous(files: Files, max: nat): (n: nat)
    ensures n <= max && forall i :: 1 <= i <= n ==> Backup(i) in files
    ensures n < max ==> Backup(n + 1) !in files
  {
    if max == 0 then 0
    else
      var n := Contiguous(files, max - 1);
      if n == max - 1 && Backup(max) in files then max else n
  }

  /** Backup `k` became the next one. */
  predicate MovedUp(before: Files, after: Files, k: nat) {
    Backup(k) in before && Backup(k + 1) in after && after[Backup(k + 1)] == before[Backup(k)]
  }

  /** Backup `k` is as before, also if it is missing. */
  predicate Same(before: Files, after: Files, k: nat) {
    && (Backup(k) in after <==> Backup(k) in before)
    && (Backup(k) in before ==> after[Backup(k)] == before[Backup(k)])
  }

  /** The files after a rotation with room for `count` backups: the backups before the first
      gap move up by one, the log becomes the first. */
  ghost predicate IsRotated(before: Files, count: nat, after: Files) {
    if count == 0 then after == before - {Log}
    else
      var n := Contiguous(before, count);
      && Log !in after && Log in before && Backup(1) in after && after[Backup(1)] == before[Log]
      && (forall i: nat :: 1 <= i <= n && i < count ==> MovedUp(before, after, i))
      && (forall i: nat :: i == 0 || i > n + 1 || i > count ==> Same(before, after, i))
  }

  /** The backups from the n-th down to the first. */
  function Older(files: Files, n: nat): bytes
    requires forall i :: 1 <= i <= n ==> Backup(i) in files
  {
    if n == 0 then [] else files[Backup(n)] + Older(files, n - 1)
  }

  /** The log and exactly n backups are there. */
  ghost predicate Holds(files: Files, n: nat) {
    Log in files && forall i: nat :: Backup(i) in files <==> 1 <= i <= n
  }

  /** Everything still on disk, oldest first. */
  ghost function Whole(files: Files, n: nat): bytes
    requires Holds(files, n)
  {
    Older(files, n) + files[Log]
  }

  lemma {:induction false} OlderShifted(before: Files, after: Files, k: nat)
    requires Log in before && (forall i: nat :: 1 <= i <= k ==> Backup(i) in before)
    requires forall i: nat :: 1 <= i <= k + 1 ==> Backup(i) in after
    requires after[Backup(1)] == before[Log] && forall i: nat :: 1 <= i <= k ==> MovedUp(before, after, i)
    ensures Older(after, k + 1) == Older(before, k) + before[Log]
  {
    if k == 0 {
      assert Older(after, 0) == [];
    } else {
      OlderShifted(before, after, k - 1);
      assert MovedUp(before, after, k);
      Assoc(before[Backup(k)], Older(before, k - 1), before[Log]);
    }
  }

  /** What a rotation throws away: nothing while a slot is free, else the oldest file. */
  ghost function Lost(files: Files, count: nat, n: nat): bytes
    requires Holds(files, n) && n <= count
  {
    if n < count then [] else if count == 0 then files[Log] else files[Backup(count)]
  }

  lemma ContiguousIs(files: Files, n: nat, count: nat)
    requires Holds(files, n) && n <= count
    ensures Contiguous(files, count) == n
  {
  }

  /** A rotation, after which the log starts again empty, keeps everything but what it throws
      away, and never more backups than allowed. */
  lemma RotationKeeps(before: Files, count: nat, n: nat, after: Files)
    requires Holds(before, n) && n <= count && IsRotated(before, count, after)
    ensures var m := if n < count then n + 1 else count;
            && Holds(after[Log := []], m)
            && Whole(before, n) == Lost(before, count, n) + Whole(after[Log := []], m)
  {
    ContiguousIs(before, n, count);
    var again := after[Log := []];
    var m := if n < count then n + 1 else count;
    if count > 0 {
      forall i: nat ensures Backup(i) in again <==> 1 <= i <= m {
        assert i >= 2 && i <= m ==> MovedUp(before, after, i - 1);
        assert i == 0 || i > m ==> Same(before, after, i);
      }
      assert forall i: nat :: 1 <= i < m ==> MovedUp(before, after, i) ==> MovedUp(before, again, i);
      OlderShifted(before, again, m - 1);
      assert Older(again, m) + [] == Older(again, m);
      if n == count {
        Assoc(before[Backup(count)], Older(before, count - 1), before[Log]);
      }
    }
  }

  /** The backups above the k-th, down from the n-th. */
  function Above(files: Files, n: nat, k: nat): bytes
    requires k <= n && forall i :: k < i <= n ==> Backup(i) in files
  {
    if n == k then [] else files[Backup(n)] + Above(files, n - 1, k)
  }

  lemma {:induction false} OlderSplit(files: Files, n: nat, k: nat)
    requires k <= n && forall i :: 1 <= i <= n ==> Backup(i) in files
    ensures Older(files, n) == Above(files, n, k) + Older(files, k)
  {
    if k < n {
      OlderSplit(files, n - 1, k);
      Assoc(files[Backup(n)], Above(files, n - 1, k), Older(files, k));
    }
  }

  /** The files after a rotation with more backups than allowed. */
  lemma LoweredCountFiles(before: Files, count: nat, n: nat, after: Files, again: Files)
    requires Holds(before, n) && 1 <= count < n && IsRotated(before, count, after) && again == after[Log := []]
    ensures Holds(again, n) && again[Backup(1)] == before[Log]
    ensures forall i: nat :: 1 <= i < count ==> MovedUp(before, again, i)
    ensures forall i: nat :: count < i <= n ==> again[Backup(i)] == before[Backup(i)]
  {
    AllContiguous(before, n, count);
    forall i: nat ensures Backup(i) in again <==> 1 <= i <= n {
      assert i >= 2 && i <= count ==> MovedUp(before, after, i - 1);
      assert i == 0 || i > count ==> Same(before, after, i);
    }
    forall i: nat | count < i <= n ensures again[Backup(i)] == before[Backup(i)] {
      assert Same(before, after, i);
    }
    forall i: nat | 1 <= i < count ensures MovedUp(before, again, i) {
      assert MovedUp(before, after, i);
    }
  }

  /** What such a rotation throws away, and what is newer than that. */
  function Middle(files: Files, count: nat): bytes
    requires Log in files && (count > 0 ==> Backup(count) in files)
  {
    if count == 0 then files[Log] else files[Backup(count)]
  }

  function Newer(files: Files, count: nat): bytes
    requires Log in files && forall i :: 1 <= i < count ==> Backup(i) in files
  {
    if count == 0 then [] else Older(files, count - 1) + files[Log]
  }

  /** If there are more backups than allowed, because their number was lowered, those beyond
      it stay, and the rotation throws a file out of the middle; the log itself, if none is
      allowed. */
  lemma LoweredCountLosesMiddle(before: Files, count: nat, n: nat, after: Files)
    requires Holds(before, n) && count < n && IsRotated(before, count, after)
    ensures Holds(after[Log := []], n)
    ensures Whole(before, n) == Above(before, n, count) + (Middle(before, count) + Newer(before, count))
    ensures Whole(after[Log := []], n) == Above(before, n, count) + Newer(before, count)
  {
    var again := after[Log := []];
    if count == 0 {
      SameAbove(before, again, n, 0);
      OlderSplit(before, n, 0);
      OlderSplit(again, n, 0);
      return;
    }
    hide IsRotated, MovedUp;
    LoweredCountFiles(before, count, n, after, again);
    OlderShifted(before, again, count - 1);
    SameAbove(before, again, n, count);
    OlderSplit(before, n, count);
    OlderSplit(again, n, count);
    Assoc(Above(before, n, count), Older(before, count), before[Log]);
    Assoc(before[Backup(count)], Older(before, count - 1), before[Log]);
    assert Older(again, n) + [] == Older(again, n);
  }

  lemma {:induction false} AllContiguous(files: Files, n: nat, count: nat)
    requires Holds(files, n) && count <= n
    ensures Contiguous(files, count) == count
  {
    if count > 0 {
      AllContiguous(files, n, count - 1);
    }
  }

  lemma {:induction false} SameAbove(a: Files, b: Files, n: nat, k: nat)
    requires k <= n && forall i :: k < i <= n ==> Backup(i) in a && Backup(i) in b && a[Backup(i)] == b[Backup(i)]
    ensures Above(a, n, k) == Above(b, n, k)
  {
    if k < n {
      SameAbove(a, b, n - 1, k);
    }
  }

  // ---------------------------------------------------------------------------------------
  // The directory
  // ---------------------------------------------------------------------------------------

  /** The part of QFile that rotation uses. */
  class Disk {
    var files: Files

    constructor (f: Files)
      ensures files == f
    {
      files := f;
    }

    method Remove(name: Name) returns (ok: bool)
      modifies this
      ensures ok == (name in old(files)) && files == old(files) - {name}
    {
      ok := name in files;
      files := files - {name};
    }

    /** Refused when there is no such file, or when the new name is taken. */
    method Rename(from: Name, to: Name) returns (ok: bool)
      modifies this
      ensures ok == (from in old(files) && to !in old(files))
      ensures files == if ok then (old(files) - {from})[to := old(files)[from]] else old(files)
    {
      ok := from in files && to !in files;
      if ok {
        files := (files - {from})[to := files[from]];
      }
    }

    /** Open for appending: a missing file is created. */
    method OpenAppend(name: Name)
      modifies this
      ensures files == if name in old(files) then old(files) else old(files)[name := []]
    {
      if name !in files {
        files := files[name := []];
      }
    }

    method Append(name: Name, s: bytes)
      requires name in files
      modifies this
      ensures files == old(files)[name := old(files)[name] + s]
    {
      files := files[name := files[name] + s];
    }
  }

  // ---------------------------------------------------------------------------------------
  // The strategy
  // ---------------------------------------------------------------------------------------

  class SizeRotationStrategy {
    const disk: Disk
    var currentSizeInBytes: int
    var maxSizeInBytes: int
    var backupsCount: nat

    constructor (d: Disk)
      ensures disk == d && currentSizeInBytes == 0 && maxSizeInBytes == 0 && backupsCount == 0
    {
      disk := d;
      currentSizeInBytes, maxSizeInBytes, backupsCount := 0, 0, 0;
    }

    method SetInitialInfo()
      requires Log in disk.files
      modifies `currentSizeInBytes
      ensures currentSizeInBytes == |disk.files[Log]|
    {
      currentSizeInBytes := |disk.files[Log]|;
    }

    /** The newline that will be written is not counted. */
    method IncludeMessageInCalculation(message: bytes)
      modifies `currentSizeInBytes
      ensures currentSizeInBytes == old(currentSizeInBytes) + |message|
    {
      currentSizeInBytes := currentSizeInBytes + |message|;
    }

    function ShouldRotate(): bool
      reads this
    {
      currentSizeInBytes > maxSizeInBytes
    }

    method SetMaximumSizeInBytes(size: nat)
      modifies `maxSizeInBytes
      ensures maxSizeInBytes == size
    {
      maxSizeInBytes := size;
    }

    method SetBackupCount(backups: nat)
      modifies `backupsCount
      ensures backupsCount == if backups < 10 then backups else 10
    {
      backupsCount := if backups < MAX_BACKUP_COUNT then backups else MAX_BACKUP_COUNT;
    }

    /** The highest backup to move: the last one before a gap, but not one in the last slot. */
    method LastToShift() returns (last: nat)
      requires backupsCount > 0
      ensures var n := Contiguous(disk.files, backupsCount);
              last == if n < backupsCount then n else backupsCount - 1
    {
      last := 0;
      var i := 1;
      while i <= backupsCount
        invariant 1 <= i <= backupsCount + 1
        invariant Contiguous(disk.files, i - 1) == i - 1
        invariant last == if i - 1 < backupsCount then i - 1 else backupsCount - 1
      {
        if Backup(i) in disk.files {
          last := if i < backupsCount - 1 then i else backupsCount - 1;
        } else {
          GapStays(disk.files, i - 1, backupsCount);
          return;
        }
        i := i + 1;
      }
    }

    /** Move the backups up, the oldest first. */
    method ShiftUp(last: nat) returns (ok: bool)
      requires forall i :: 1 <= i <= last ==> Backup(i) in disk.files
      modifies disk
      ensures ok && IsShifted(old(disk.files), last, 0, disk.files)
    {
      hide IsShifted;
      ok := true;
      var i := last;
      NotShifted(disk.files, last);
      while i >= 1
        invariant 0 <= i <= last && ok
        invariant IsShifted(old(disk.files), last, i, disk.files)
      {
        StillThere(old(disk.files), last, i, disk.files);
        ghost var files := disk.files;
        var _ := disk.Remove(Backup(i + 1));
        var renamed := disk.Rename(Backup(i), Backup(i + 1));
        ShiftStep(old(disk.files), last, i, files, disk.files);
        ok := ok && renamed;
        i := i - 1;
      }
    }

    lemma NotShifted(files: Files, last: nat)
      ensures IsShifted(files, last, last, files)
    {
    }

    lemma StillThere(before: Files, last: nat, i: nat, files: Files)
      requires IsShifted(before, last, i, files) && Backup(i) in before
      ensures Backup(i) in files
    {
      assert Same(before, files, i);
    }

    /** `rotate`; no renaming fails. */
    method Rotate() returns (ok: bool)
      requires Log in disk.files
      modifies disk
      ensures ok && IsRotated(old(disk.files), backupsCount, disk.files)
    {
      hide IsShifted, Contiguous;
      if backupsCount == 0 {
        ok := disk.Remove(Log);
        return;
      }
      var last := LastToShift();
      ok := ShiftUp(last);
      ghost var files := disk.files;
      LogThere(old(disk.files), last, files);
      if Backup(1) in disk.files {
        var _ := disk.Remove(Backup(1));
      }
      assert disk.files == files - {Backup(1)};
      var renamed := disk.Rename(Log, Backup(1));
      ShiftCompletes(old(disk.files), backupsCount, last, files, disk.files);
      ok := ok && renamed;
    }

    lemma LogThere(before: Files, last: nat, files: Files)
      requires IsShifted(before, last, 0, files) && Log in before
      ensures Log in files && files[Log] == before[Log]
    {
    }
  }

  lemma {:induction false} GapStays(files: Files, n: nat, max: nat)
    requires n < max && Contiguous(files, n) == n && Backup(n + 1) !in files
    ensures Contiguous(files, max) == n
  {
    if max > n + 1 {
      GapStays(files, n, max - 1);
    }
  }

  /** The backups above `i` up to `last` were moved up by one; the name they left is free. */
  ghost predicate IsShifted(before: Files, last: nat, i: nat, after: Files) {
    && (forall k: nat :: i < k <= last ==> MovedUp(before, after, k))
    && (if i < last then Backup(i + 1) !in after else Same(before, after, last + 1))
    && (forall k: nat :: k <= i || k > last + 1 ==> Same(before, after, k))
    && (Log in after <==> Log in before) && (Log in before ==> after[Log] == before[Log])
  }

  /** One round of the loop that moves the backups. */
  lemma ShiftStep(before: Files, last: nat, i: nat, files: Files, after: Files)
    requires 1 <= i <= last && IsShifted(before, last, i, files) && Backup(i) in before && Backup(i) in files
    requires after == (files - {Backup(i + 1)} - {Backup(i)})[Backup(i + 1) := files[Backup(i)]]
    ensures IsShifted(before, last, i - 1, after)
  {
    assert Same(before, files, i);
    forall k: nat | i <= k <= last ensures MovedUp(before, after, k) {
      assert k > i ==> MovedUp(before, files, k);
    }
    forall k: nat | k <= i - 1 || k > last + 1 ensures Same(before, after, k) {
      assert Same(before, files, k);
    }
  }

  /** Moving the log behind the backups that were moved completes the rotation. */
  lemma ShiftCompletes(before: Files, count: nat, last: nat, files: Files, after: Files)
    requires count > 0 && Log in before
    requires var n := Contiguous(before, count); last == if n < count then n else count - 1
    requires IsShifted(before, last, 0, files)
    requires after == (files - {Backup(1)} - {Log})[Backup(1) := before[Log]]
    ensures IsRotated(before, count, after)
  {
    var n := Contiguous(before, count);
    forall i: nat | 1 <= i <= n && i < count ensures MovedUp(before, after, i) {
      assert MovedUp(before, files, i);
    }
    forall i: nat | i == 0 || i > n + 1 || i > count ensures Same(before, after, i) {
      assert Same(before, files, i);
    }
  }

  // ---------------------------------------------------------------------------------------
  // The destination
  // ---------------------------------------------------------------------------------------

  class FileDestination {
    const disk: Disk
    const strategy: SizeRotationStrategy

    /** The file is there, with some number of backups, none beyond the allowed number. */
    ghost predicate Valid(n: nat)
      reads disk, strategy
    {
      strategy.disk == disk && Holds(disk.files, n) && n <= strategy.backupsCount
    }

    /** Opening appends to a log that is there. */
    constructor (s: SizeRotationStrategy, ghost n: nat)
      requires forall i: nat :: Backup(i) in s.disk.files <==> 1 <= i <= n
      requires n <= s.backupsCount
      modifies s.disk, s
      ensures Valid(n) && strategy == s && disk == s.disk
      ensures disk.files == if Log in old(s.disk.files) then old(s.disk.files) else old(s.disk.files)[Log := []]
      ensures s.currentSizeInBytes == |disk.files[Log]| && s.backupsCount == old(s.backupsCount)
      ensures s.maxSizeInBytes == old(s.maxSizeInBytes)
    {
      disk, strategy := s.disk, s;
      s.disk.OpenAppend(Log);
      s.SetInitialInfo();
    }

    /** `write`: what is on disk grows by the message and a newline at the end. At the other end
        it loses nothing, unless the log is full and no slot is free: then the oldest file. */
    method Write(message: bytes, ghost n: nat) returns (ghost m: nat, ghost lost: bytes)
      requires Valid(n)
      modifies disk, strategy`currentSizeInBytes
      ensures Valid(m) && old(Whole(disk.files, n)) + (message + [10]) == lost + Whole(disk.files, m)
      ensures var full := old(strategy.currentSizeInBytes) + |message| > strategy.maxSizeInBytes;
              && m == (if full && n < strategy.backupsCount then n + 1 else n)
              && lost == (if full then Lost(old(disk.files), strategy.backupsCount, n) else [])
              && strategy.currentSizeInBytes == if full then 0 else old(strategy.currentSizeInBytes) + |message|
    {
      m, lost := n, [];
      strategy.IncludeMessageInCalculation(message);
      ghost var before := disk.files;
      if strategy.ShouldRotate() {
        var _ := strategy.Rotate();
        ghost var rotated := disk.files;
        RotationKeeps(before, strategy.backupsCount, n, rotated);
        lost := Lost(before, strategy.backupsCount, n);
        m := if n < strategy.backupsCount then n + 1 else n;
        disk.OpenAppend(Log);
        strategy.SetInitialInfo();
      }
      ghost var files := disk.files;
      disk.Append(Log, message + [NEWLINE]);
      SameOlder(files, disk.files, m);
      Assoc(Older(files, m), files[Log], message + [NEWLINE]);
      Assoc(lost, Whole(files, m), message + [NEWLINE]);
      assert [] + Whole(before, n) == Whole(before, n);
    }

    /** After any messages, what is on disk is the end of what was there at first and everything
        logged since, with never more backups than allowed. */
    method WriteAll(messages: seq<bytes>, ghost n: nat) returns (ghost m: nat, ghost lost: bytes)
      requires Valid(n)
      modifies disk, strategy`currentSizeInBytes
      ensures Valid(m) && m >= n && m <= strategy.backupsCount
      ensures old(Whole(disk.files, n)) + Logged(messages) == lost + Whole(disk.files, m)
      ensures m < strategy.backupsCount ==> lost == []
    {
      m, lost := n, [];
      ghost var whole := Whole(disk.files, n);
      var i := 0;
      assert whole + Logged([]) == whole && [] + whole == whole;
      while i < |messages|
        invariant 0 <= i <= |messages| && Valid(m) && n <= m && strategy.backupsCount == old(strategy.backupsCount)
        invariant whole + Logged(messages[..i]) == lost + Whole(disk.files, m)
        invariant m < strategy.backupsCount ==> lost == []
      {
        ghost var line, before := messages[i] + [NEWLINE], Whole(disk.files, m);
        ghost var more: bytes;
        m, more := Write(messages[i], m);
        assert messages[..i + 1][..i] == messages[..i];
        Assoc(whole, Logged(messages[..i]), line);
        Assoc(lost, before, line);
        Assoc(lost, more, Whole(disk.files, m));
        lost := lost + more;
        i := i + 1;
      }
      assert messages[..i] == messages;
    }
  }

  lemma {:induction false} SameOlder(a: Files, b: Files, n: nat)
    requires forall i :: 1 <= i <= n ==> Backup(i) in a && Backup(i) in b && a[Backup(i)] == b[Backup(i)]
    ensures Older(a, n) == Older(b, n)
  {
    if n > 0 {
      SameOlder(a, b, n - 1);
    }
  }

  /** The messages, each with its newline. */
  function Logged(messages: seq<bytes>): bytes {
    if messages == [] then [] else Logged(messages[..|messages| - 1]) + (messages[|messages| - 1] + [10])
  }
}
