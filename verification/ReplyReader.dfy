/** `redisReader` (hiredis.c): a resumable, non-recursive parser over a growing buffer. */
module ReplyReader {
  import opened Bytes
  import opened ReplyMachine
  import opened ReplyTree
  import opened DynamicStrings

  /** `redisReadTask`. A kind of None is the type -1. `parent` is an index into the task stack
      and `obj` names a node of the reply tree by the slots leading to it. */
  datatype Task = Task(kind: Option<Kind>, elements: int, idx: int, obj: Option<seq<int>>, parent: Option<nat>)

  const FRESH_ROOT: Task := Task(None, -1, -1, None, None)

  /** Task i is the i-th open array; task i + 1 reads the element after those it has. */
  ghost predicate Linked(st: seq<Task>, frames: seq<Frame>, i: int)
    requires |frames| < |st| && 0 <= i < |frames|
  {
    && st[i].kind == Some(KArray)
    && st[i].elements == frames[i].count
    && st[i].obj == Some(Slots(frames[..i]))
    && st[i + 1].idx == |frames[i].done|
    && st[i + 1].parent == Some(i)
  }

  /** The task stack that belongs to a list of open arrays. */
  ghost predicate StackOk(st: seq<Task>, frames: seq<Frame>)
    requires |frames| < |st|
  {
    && st[0].idx == -1 && st[0].parent == None
    && forall i :: 0 <= i < |frames| ==> Linked(st, frames, i)
  }

  lemma StackPop(st: seq<Task>, frames: seq<Frame>)
    requires 0 < |frames| < |st| && StackOk(st, frames)
    ensures StackOk(st, frames[..|frames| - 1])
  {
    var below := frames[..|frames| - 1];
    forall i | 0 <= i < |below| ensures Linked(st, below, i) {
      assert Linked(st, frames, i);
      assert below[..i] == frames[..i];
    }
  }

  lemma StackAdvance(st: seq<Task>, frames: seq<Frame>, r: Reply)
    requires 0 < |frames| < |st| && StackOk(st, frames)
    ensures var n := |frames| - 1;
            var next := st[n + 1].(kind := None, elements := -1, idx := st[n + 1].idx + 1);
            StackOk(st[n + 1 := next], frames[..n] + [Frame(frames[n].count, frames[n].done + [r])])
  {
    var n := |frames| - 1;
    var next := st[n + 1].(kind := None, elements := -1, idx := st[n + 1].idx + 1);
    var st' := st[n + 1 := next];
    var frames' := frames[..n] + [Frame(frames[n].count, frames[n].done + [r])];
    forall i | 0 <= i < |frames'| ensures Linked(st', frames', i) {
      assert Linked(st, frames, i);
      assert frames'[..i] == frames[..i];
    }
  }

  lemma StackRetype(st: seq<Task>, frames: seq<Frame>, kind: Option<Kind>)
    requires |frames| < |st| && StackOk(st, frames)
    ensures StackOk(st[|frames| := st[|frames|].(kind := kind)], frames)
  {
    var st' := st[|frames| := st[|frames|].(kind := kind)];
    forall i | 0 <= i < |frames| ensures Linked(st', frames, i) {
      assert Linked(st, frames, i);
    }
  }

  lemma StackPush(st: seq<Task>, frames: seq<Frame>, n: int)
    requires |frames| + 1 < |st| && StackOk(st, frames)
    ensures var k := |frames|;
            var top := st[k].(kind := Some(KArray), elements := n, obj := Some(Slots(frames)));
            StackOk(st[k := top][k + 1 := Task(None, -1, 0, None, Some(k))], frames + [Frame(n, [])])
  {
    var k := |frames|;
    var top := st[k].(kind := Some(KArray), elements := n, obj := Some(Slots(frames)));
    var st' := st[k := top][k + 1 := Task(None, -1, 0, None, Some(k))];
    var frames' := frames + [Frame(n, [])];
    forall i | 0 <= i < |frames'| ensures Linked(st', frames', i) {
      if i < k {
        assert Linked(st, frames, i);
      }
      assert frames'[..i] == frames[..i];
    }
  }

  /** Memory-safe search for CR LF among the `n` bytes at `off`; it may look at the byte after
      them, which is the string's terminator. Returns the distance from `off`, or -1. */
  method SeekNewline(s: array<byte>, off: nat, n: nat) returns (r: int)
    requires off + n < s.Length && s[off + n] == 0
    ensures Newline(s[off..off + n]) == if r >= 0 then Some(r) else None
  {
    var pos := 0;
    var last := n - 1;
    ghost var view := s[off..off + n];
    while pos < last
      invariant 0 <= pos && (pos <= last || n == 0 || pos == n)
      invariant forall k :: k < pos ==> !CrlfAt(view, k)
    {
      while pos < last && s[off + pos] != CR
        invariant 0 <= pos <= last
        invariant forall k :: k < pos ==> !CrlfAt(view, k)
      {
        assert view[pos] == s[off + pos];
        pos := pos + 1;
      }
      if s[off + pos] != CR {
        return -1;
      } else if s[off + pos + 1] == LF {
        assert pos < last;
        NewlineUnique(view, pos);
        return pos;
      } else {
        pos := pos + 1;
      }
    }
    return -1;
  }

  /** The number in the line at `off`, which a CR ends at or before `off + n`. */
  method ReadLongLong(s: array<byte>, off: nat, ghost n: nat) returns (r: int)
    requires off + n < s.Length && s[off + n] == CR
    ensures r == LongLong(s[off..off + n])
  {
    ghost var line := s[off..off + n];
    var p := off;
    var mult := 1;
    if s[p] == 45 {
      mult := -1;
      p := p + 1;
    } else if s[p] == 43 {
      p := p + 1;
    }
    assert s[off] == 45 || s[off] == 43 ==> line != [] && line[0] == s[off] && s[off + 1..off + n] == line[1..];
    ghost var digits := s[p..off + n];
    var v := 0;
    while s[p] != CR
      invariant off <= p <= off + n
      invariant Scan(s[p..off + n], v) == Scan(digits, 0)
      invariant -TWO_63 <= v < TWO_63
      decreases off + n - p
    {
      assert s[p..off + n][1..] == s[p + 1..off + n];
      var dec := (s[p] as int) - 48;
      if 0 <= dec < 10 {
        v := Int64(v * 10);
        v := Int64(v + dec);
      } else {
        return -1;
      }
      p := p + 1;
    }
    assert s[p..off + n] == [] || s[p..off + n][0] == CR;
    r := if mult == -1 then Int64(-v) else v;
  }

  /** The object for a line item. */
  method LineReply(kind: Kind, s: array<byte>, off: nat, n: nat) returns (r: Reply)
    requires off + n < s.Length && s[off + n] == CR
    requires kind.KError? || kind.KStatus? || kind.KInteger?
    ensures r == LineValue(kind, s[off..off + n])
  {
    match kind
    case KInteger =>
      var v := ReadLongLong(s, off, n);
      r := Integer(v);
    case KError =>
      r := Error(s[off..off + n]);
    case KStatus =>
      r := Status(s[off..off + n]);
  }

  class Reader {
    var err: Option<Fault>
    var buf: Sds?
    var pos: nat
    var len: nat
    var maxbuf: nat
    const rstack: array<Task>
    var ridx: int
    var reply: Option<Reply>

    /** The open arrays, outermost first. */
    ghost var frames: seq<Frame>
    ghost var Repr: set<object>

    ghost predicate BufferOk()
      reads `buf, `pos, `len, buf, if buf == null then {} else {buf.data}
    {
      && pos <= len
      && (buf != null ==> buf.Valid() && len == buf.len)
    }

    ghost predicate ErrorOk()
      reads `err, `buf, `pos, `len, `ridx, `reply
    {
      && (err.Some? ==> buf == null && pos == len == 0 && ridx == -1 && reply == None)
      && (err.None? ==> buf != null)
    }

    ghost predicate ReprOk()
      reads `buf, `Repr, buf
    {
      && this in Repr && rstack in Repr
      && (buf != null ==> buf in Repr && buf.data in Repr)
    }

    ghost predicate StackValid()
      reads `ridx, `frames, rstack
    {
      && rstack.Length == 9
      && -1 <= ridx <= MAX_TASK
      && FramesOk(frames)
      && (ridx == -1 ==> frames == [])
      && (ridx >= 0 ==> ridx == |frames| && StackOk(rstack[..], frames))
    }

    ghost predicate TreeOk()
      requires StackValid()
      reads `ridx, `frames, `reply, rstack
    {
      ridx >= 0 ==> reply == if frames == [] then None else Some(Fill(frames, Missing))
    }

    /** What holds between any two items. */
    ghost predicate Inner()
      reads `err, `buf, `pos, `len, `ridx, `reply, `frames, `Repr, rstack, buf, if buf == null then {} else {buf.data}
    {
      BufferOk() && ErrorOk() && ReprOk() && StackValid() && TreeOk()
    }

    /** What holds between calls: no finished reply is left behind. */
    ghost predicate Valid()
      reads this, rstack, buf, if buf == null then {} else {buf.data}
    {
      && Inner()
      && (ridx == -1 ==> reply == None)
      && (ridx == MAX_TASK ==> rstack[ridx].kind != Some(KArray))
    }

    /** The bytes that are fed and not consumed. */
    ghost function Rest(): bytes
      requires BufferOk()
      reads `buf, `pos, `len, buf, if buf == null then {} else {buf.data}
    {
      if buf == null then [] else buf.Contents()[pos..]
    }

    /** The abstract state. An empty stack and a fresh root task are the same state. */
    ghost function State(): (st: ReplyMachine.State)
      requires Inner()
      reads this, rstack, buf, if buf == null then {} else {buf.data}
      ensures StateOk(st)
    {
      if err.Some? then Dead(err.value)
      else Live(frames, if ridx == -1 then None else rstack[ridx].kind, Rest())
    }

    /** Every open array is a node of the tree whose slots before its child's idx are filled,
        and whose slots behind it are null. */
    lemma OpenArrayIsANode(i: nat)
      requires Inner() && i < ridx
      ensures var task, child := rstack[i], rstack[i + 1];
              && task.kind == Some(KArray) && child.parent == Some(i)
              && 0 <= child.idx < task.elements
              && reply.Some? && task.obj.Some? && PathOk(reply.value, task.obj.value)
              && var node := NodeAt(reply.value, task.obj.value);
              && node.Arr? && node.count == |node.element| == task.elements
              && (forall j :: 0 <= j < child.idx ==> node.element[j] != Missing)
              && (forall j :: child.idx < j < task.elements ==> node.element[j] == Missing)
              && (node.element[child.idx] == Missing <==> i + 1 == ridx)
    {
      assert Linked(rstack[..], frames, i);
      NodeOfFrame(frames, i, Missing);
    }

    constructor ()
      ensures Valid() && State() == START && fresh(Repr) && err == None
    {
      err := None;
      var b := new Sds.Empty();
      buf := b;
      pos, len, maxbuf := 0, 0, 1024 * 16;
      rstack := new Task[9](_ => FRESH_ROOT);
      ridx := -1;
      reply := None;
      frames := [];
      new;
      Repr := {this, rstack, buf, buf.data};
    }

    /** Drop everything and remember the error. */
    method SetError(e: Fault)
      requires Inner() && err.None?
      modifies this
      ensures Valid() && State() == Dead(e) && Repr == old(Repr)
    {
      reply := None;
      buf := null;
      pos, len := 0, 0;
      ridx := -1;
      frames := [];
      err := Some(e);
    }

    /** Take a new buffer. */
    method NewBuffer()
      modifies `buf, `pos, `Repr
      ensures buf != null && fresh(buf) && fresh(buf.data) && buf.Valid() && buf.Contents() == [] && pos == 0
      ensures Repr == old(Repr) + {buf, buf.data}
    {
      var b := new Sds.Empty();
      buf := b;
      pos := 0;
      Repr := Repr + {b, b.data};
    }

    /** Swap a large empty buffer for a new one. */
    method ResetBuffer()
      requires Valid() && err.None? && len == 0
      modifies `buf, `pos, `Repr
      ensures Valid() && State() == old(State()) && fresh(Repr - old(Repr)) && buf.data in Repr
      ensures err.None? && fresh(buf) && fresh(buf.data)
    {
      hide FramesOk, StackOk, Fill, Slots, Put, Linked, Reader.StackValid, Reader.TreeOk;
      assert Rest() == [];
      NewBuffer();
      assert buf.len == |buf.Contents()|;
    }

    method Append(chunk: bytes)
      requires Valid() && err.None?
      modifies `len, `Repr, buf, buf.data
      ensures Valid() && State() == ReplyMachine.Feed(old(State()), chunk)
      ensures fresh(Repr - old(Repr))
    {
      hide FramesOk, StackOk, Fill;
      ghost var before := buf.Contents();
      buf.CatLen(chunk);
      Repr := Repr + {buf.data};
      len := buf.len;
      assert (before + chunk)[pos..] == before[pos..] + chunk;
    }

    method Feed(chunk: bytes) returns (ok: bool)
      requires Valid()
      modifies Repr
      ensures Valid() && fresh(Repr - old(Repr))
      ensures State() == ReplyMachine.Feed(old(State()), chunk)
      ensures ok == old(err).None? && err == old(err)
      ensures |chunk| >= 1 && old(err.None? && buf != null && len == 0 && maxbuf != 0 && buf.Avail() > maxbuf) ==>
        fresh(buf)
    {
      hide FramesOk, StackOk, Fill;
      if err.Some? {
        return false;
      }
      if |chunk| >= 1 {
        if len == 0 && maxbuf != 0 && buf.Avail() > maxbuf {
          ResetBuffer();
        }
        Append(chunk);
      } else {
        assert Rest() + chunk == Rest();
      }
      return true;
    }

    /** How far one item got: `m` says what the abstract machine did on it. */
    ghost predicate Reflects(ok: bool, m: Move)
      reads this, rstack, buf, if buf == null then {} else {buf.data}
    {
      && Inner()
      && ok == m.Go?
      && State() == m.st
      && (ok ==> err.None? && (m.out.Some? <==> ridx == -1))
      && (ok && m.out.Some? ==> reply == m.out)
      && (!ok ==> Valid() && (err.Some? || ridx >= 0))
    }

    /** Store a new object for the current task, in its parent's slot or as the root. */
    method Place(r: Reply)
      requires Inner() && ridx >= 0
      modifies this`reply
      ensures BufferOk() && ErrorOk() && ReprOk() && StackValid() && reply == Some(Fill(frames, r))
    {
      var cur := rstack[ridx];
      if frames != [] {
        assert Linked(rstack[..], frames, ridx - 1);
        assert Slots(frames[..ridx - 1]) + [cur.idx] == Slots(frames);
      }
      if cur.parent.Some? {
        var parent := rstack[cur.parent.value];
        assert parent.kind == Some(KArray);
        PutFills(frames, Missing, r);
        reply := Some(Put(reply.value, parent.obj.value + [cur.idx], r));
      }
      if ridx == 0 {
        reply := Some(r);
      }
    }

    /** The value `x` was the last one of its array: the array itself is now the value. */
    method LeaveArray(ghost x: Reply) returns (ghost y: Reply)
      requires x != Missing
      ensures y != Missing
      requires StackValid() && ridx > 0
      requires reply == Some(Fill(frames, x))
      requires rstack[ridx].idx == rstack[ridx - 1].elements - 1
      modifies this`ridx, this`frames
      ensures StackValid() && ridx == old(ridx) - 1 >= 0
      ensures reply == Some(Fill(frames, y))
      ensures Attach(frames, y) == Attach(old(frames), x)
    {
      ghost var n := |frames| - 1;
      assert Linked(rstack[..], frames, n);
      assert frames == frames[..n] + [frames[n]];
      FillMoves(frames[..n], frames[n], x);
      StackPop(rstack[..], frames);
      y := Arr(frames[n].count, frames[n].done + [x]);
      frames := frames[..n];
      ridx := ridx - 1;
    }

    /** The value `x` was not the last one of its array: get ready for the next. */
    method NextSlot(ghost x: Reply)
      requires x != Missing
      requires StackValid() && ridx > 0
      requires reply == Some(Fill(frames, x))
      requires rstack[ridx].idx != rstack[ridx - 1].elements - 1
      modifies this`frames, rstack
      ensures StackValid() && TreeOk() && (frames, None) == Attach(old(frames), x)
      ensures rstack[ridx].kind == None
    {
      assert rstack[ridx].idx < rstack[ridx - 1].elements by {
        assert Linked(rstack[..], frames, ridx - 1);
      }
      ghost var tasks := rstack[..];
      ghost var n := |frames| - 1;
      SlotFilled(frames, x);
      StackAdvance(tasks, frames, x);
      rstack[ridx] := rstack[ridx].(kind := None, elements := -1, idx := rstack[ridx].idx + 1);
      assert rstack[..] == tasks[ridx := rstack[ridx]];
      frames := frames[..n] + [Frame(frames[n].count, frames[n].done + [x])];
    }

    lemma SlotFilled(frames: seq<Frame>, x: Reply)
      requires FramesOk(frames) && 0 < |frames| < rstack.Length && x != Missing
      requires ridx == |frames| && StackOk(rstack[..], frames)
      requires rstack[ridx].idx != rstack[ridx - 1].elements - 1
      ensures var n := |frames| - 1;
              var next := frames[..n] + [Frame(frames[n].count, frames[n].done + [x])];
              && FramesOk(next) && Fill(frames, x) == Fill(next, Missing)
              && Attach(frames, x) == (next, None)
    {
      var n := |frames| - 1;
      assert Linked(rstack[..], frames, n);
      assert frames == frames[..n] + [frames[n]];
      FillMoves(frames[..n], frames[n], x);
    }

    /** After `r` was stored: leave every array it completes, then go to the next slot. */
    method MoveToNextTask(ghost r: Reply)
      requires r != Missing
      requires BufferOk() && ErrorOk() && ReprOk() && StackValid() && err.None? && ridx >= 0
      requires reply == Some(Fill(frames, r))
      modifies this`ridx, this`frames, rstack
      ensures Inner()
      ensures var (fs, root) := Attach(old(frames), r);
              && frames == fs && (ridx == -1 <==> root.Some?)
              && (root.Some? ==> reply == root)
              && (root.None? ==> rstack[ridx].kind == None)
    {
      ghost var x := r;
      while ridx >= 0
        invariant BufferOk() && ErrorOk() && ReprOk() && StackValid() && ridx >= 0
        invariant x != Missing && Attach(frames, x) == Attach(old(frames), r)
        invariant reply == Some(Fill(frames, x))
        decreases ridx
      {
        if ridx == 0 {
          ridx := ridx - 1;
          return;
        }
        if rstack[ridx].idx == rstack[ridx - 1].elements - 1 {
          x := LeaveArray(x);
        } else {
          NextSlot(x);
          return;
        }
      }
    }

    /** Store a complete value and move on; the cursor is already behind it. */
    method Finish(r: Reply)
      requires r != Missing && Inner() && err.None? && ridx >= 0
      modifies this`reply, this`ridx, this`frames, rstack
      ensures Inner()
      ensures var (fs, root) := Attach(old(frames), r);
              && State() == Live(fs, None, old(Rest()))
              && (root.Some? <==> ridx == -1)
              && (root.Some? ==> reply == root)
    {
      Place(r);
      MoveToNextTask(r);
    }

    lemma View(i: nat, j: nat)
      requires BufferOk() && buf != null && i <= j <= len - pos
      ensures |Rest()| == len - pos
      ensures Rest()[i..j] == buf.data[pos + i..pos + j]
      ensures Rest()[j..] == buf.Contents()[pos + j..]
      ensures j < len - pos ==> Rest()[j] == buf.data[pos + j]
    {
      var s := buf.Contents();
      assert s[pos..][i..j] == s[pos + i..pos + j] == buf.data[pos + i..pos + j];
      assert s[pos..][j..] == s[pos + j..];
    }

    /** Move the cursor over `k` bytes. */
    method Advance(k: nat)
      requires Inner() && err.None? && k <= len - pos
      modifies `pos
      ensures Inner() && pos == old(pos) + k && Rest() == old(Rest())[k..]
    {
      View(0, k);
      pos := pos + k;
    }

    /** Where the line at the cursor ends, counted from the cursor, or -1. */
    method LineEnd() returns (s: int)
      requires Inner() && err.None?
      ensures Newline(Rest()) == if s >= 0 then Some(s) else None
      ensures s + 2 <= |Rest()| || s < 0
      ensures s >= 0 ==> pos + s < buf.data.Length && buf.data[pos + s] == CR
      ensures s >= 0 ==> buf.data[pos..pos + s] == Rest()[..s]
    {
      hide FramesOk, StackOk, Fill, Newline;
      View(0, len - pos);
      s := SeekNewline(buf.data, pos, len - pos);
      if s >= 0 {
        View(0, s);
      }
    }

    /** `readLine`: the line at the cursor, consumed together with its CR LF. */
    method ReadLine() returns (found: bool, p: nat, n: nat)
      requires Inner() && err.None?
      modifies this`pos
      ensures Inner() && p == old(pos)
      ensures !found ==> pos == old(pos) && Newline(old(Rest())) == None
      ensures found ==> Newline(old(Rest())) == Some(n) && p + n < buf.data.Length && buf.data[p + n] == CR
      ensures found ==> n + 2 <= |old(Rest())|
      ensures found ==> buf.data[p..p + n] == old(Rest())[..n] && Rest() == old(Rest())[n + 2..]
    {
      hide FramesOk, StackOk, Fill, Newline, CrlfAt;
      p := pos;
      var s := LineEnd();
      if s < 0 {
        return false, p, 0;
      }
      n := s;
      View(0, 0);
      Advance(n + 2);
      return true, p, n;
    }

    method ProcessLineItem(ghost k: Kind) returns (ok: bool)
      requires Inner() && err.None? && ridx >= 0 && rstack[ridx].kind == Some(k)
      requires k.KError? || k.KStatus? || k.KInteger?
      modifies this`pos, this`reply, this`ridx, this`frames, rstack
      ensures Reflects(ok, AfterItem(old(State()), Body(|old(frames)|, k, old(Rest()))))
    {
      hide Body, LineValue, FramesOk, StackOk, Fill, Newline, CrlfAt;
      BodyOfLine(|frames|, k, Rest());
      var cur := rstack[ridx];
      var found, p, n := ReadLine();
      if !found {
        return false;
      }
      var obj := LineReply(cur.kind.value, buf.data, p, n);
      Finish(obj);
      return true;
    }

    /** The object for the bulk item whose length line ends at `s`, and the bytes it takes;
        no object while the buffer does not hold all of it. */
    method BulkReply(s: nat) returns (obj: Option<Reply>, bytelen: nat)
      requires Inner() && err.None? && CrlfAt(Rest(), s)
      requires pos + s < buf.data.Length && buf.data[pos + s] == CR
      requires buf.data[pos..pos + s] == Rest()[..s]
      ensures BulkItem(Rest(), s) == if obj.None? then Wait else Leaf(obj.value, bytelen)
      ensures obj.Some? ==> pos + bytelen <= len
    {
      hide LongLong, FramesOk, StackOk, CrlfAt, Newline, Fill;
      bytelen := s + 2;
      var n := ReadLongLong(buf.data, pos, s);
      View(0, 0);
      if n < 0 {
        return Some(Nil), bytelen;
      }
      bytelen := bytelen + n + 2;
      if pos + bytelen > len {
        return None, bytelen;
      }
      View(s + 2, s + 2 + n);
      obj := Some(Str(buf.data[pos + s + 2..pos + s + 2 + n]));
    }

    method ProcessBulkItem() returns (ok: bool)
      requires Inner() && err.None? && ridx >= 0 && rstack[ridx].kind == Some(KBulk)
      modifies this`pos, this`reply, this`ridx, this`frames, rstack
      ensures Reflects(ok, AfterItem(old(State()), Body(|old(frames)|, KBulk, old(Rest()))))
    {
      hide Body, FramesOk, StackOk, Fill, Newline, BulkItem;
      BodyOfBulk(|frames|, Rest());
      AfterStop(State());
      var s := LineEnd();
      if s < 0 {
        return false;
      }
      var obj, bytelen := BulkReply(s);
      if obj.None? {
        return false;
      }
      Advance(bytelen);
      Finish(obj.value);
      return true;
    }

    /** Drop the consumed part of the buffer. */
    method Discard()
      requires Inner() && err.None?
      modifies `pos, `len, buf, buf.data
      ensures Inner() && pos == 0 && Rest() == old(Rest())
    {
      hide FramesOk, StackOk, Fill, RangeOf, Reader.StackValid, Reader.TreeOk;
      RangeFrom(buf.Contents(), pos);
      buf.Range(pos, -1);
      pos := 0;
      len := buf.len;
      assert buf.Contents()[0..] == buf.Contents();
    }

    lemma RangeFrom(s: bytes, p: nat)
      requires p <= |s|
      ensures RangeOf(s, p, -1) == s[p..]
    {
    }

    /** With an empty buffer there is never a reply, and nothing changes. */
    lemma WaitsOnNothing()
      requires Valid() && len == 0
      ensures Next(State()) == (None, State())
    {
      hide Next, FramesOk, StackOk, Fill, Slots, Put;
      if err.None? {
        View(0, 0);
        NextOnNothing(State());
      } else {
        NextOfDead(err.value);
      }
    }

    /** Open an array of `n` elements: store it and push a task for its first element. */
    method OpenArray(n: int)
      requires Inner() && err.None? && 0 <= ridx < MAX_TASK && n > 0
      modifies this`reply, this`ridx, this`frames, rstack
      ensures Inner() && State() == Live(old(frames) + [Frame(n, [])], None, old(Rest()))
      ensures ridx >= 0
    {
      hide StackOk, Fill;
      Place(Arr(n, Repeat(Missing, n)));
      FillOpen(frames, n);
      StackPush(rstack[..], frames, n);
      ghost var tasks, k := rstack[..], ridx;
      rstack[ridx] := rstack[ridx].(kind := Some(KArray), elements := n, obj := Some(OpenSlots()));
      assert rstack[..] == tasks[k := rstack[k]];
      ridx := ridx + 1;
      rstack[ridx] := Task(None, -1, 0, None, Some(ridx - 1));
      assert rstack[..] == tasks[k := rstack[k]][k + 1 := rstack[k + 1]];
      frames := frames + [Frame(n, [])];
    }

    /** The way to the current task's object: its parent's, and its own slot. */
    function OpenSlots(): (p: seq<int>)
      requires StackValid() && ridx >= 0
      reads `ridx, `frames, rstack
      ensures p == Slots(frames)
    {
      if ridx == 0 then []
      else
        assert Linked(rstack[..], frames, ridx - 1);
        assert Slots(frames[..ridx - 1]) + [rstack[ridx].idx] == Slots(frames);
        rstack[ridx - 1].obj.value + [rstack[ridx].idx]
    }

    /** Act on the number in an array header. */
    method ApplyHeader(n: int) returns (ok: bool)
      requires Inner() && err.None? && 0 <= ridx < MAX_TASK
      modifies this, rstack
      ensures Repr == old(Repr)
      ensures Reflects(ok, AfterItem(old(State()), HeaderItem(n, 0)))
    {
      hide FramesOk, StackOk, Fill;
      if n == -1 {
        Finish(Nil);
      } else if n <= 0 {
        Finish(ClosedArray(Int32(n)));
      } else if Int32(n) <= 0 {
        SetError(CountRange);
        return false;
      } else {
        OpenArray(Int32(n));
      }
      return true;
    }

    method ProcessMultiBulkItem() returns (ok: bool)
      requires Inner() && err.None? && ridx >= 0 && rstack[ridx].kind == Some(KArray)
      modifies this, rstack
      ensures Repr == old(Repr)
      ensures Reflects(ok, AfterItem(old(State()), Body(|old(frames)|, KArray, old(Rest()))))
    {
      hide Body, Heading, AfterItem, FramesOk, StackOk, Fill;
      AfterStop(State());
      BodyOfArray(|frames|, Rest());
      if ridx == MAX_TASK {
        SetError(TooDeep);
        return false;
      }
      ok := ProcessHeader();
    }

    /** The header of an array that is not too deep. */
    method ProcessHeader() returns (ok: bool)
      requires Inner() && err.None? && 0 <= ridx < MAX_TASK && rstack[ridx].kind == Some(KArray)
      modifies this, rstack
      ensures Repr == old(Repr)
      ensures Reflects(ok, AfterItem(old(State()), Heading(old(Rest()))))
    {
      hide HeaderItem, AfterItem, LongLong, FramesOk, StackOk, Fill, Newline, CrlfAt, Reader.TreeOk;
      AfterStop(State());
      ghost var st := State();
      var found, p, n := ReadLine();
      if !found {
        return false;
      }
      var elements := ReadLongLong(buf.data, p, n);
      HeaderConsumed(st, elements, n + 2);
      ok := ApplyHeader(elements);
    }

    /** Consuming the header's bytes first or last makes no difference. */
    lemma HeaderConsumed(st: ReplyMachine.State, n: int, used: nat)
      requires StateOk(st) && st.Live? && used <= |st.rest| && |st.frames| < MAX_TASK
      ensures AfterItem(st.(rest := st.rest[used..]), HeaderItem(n, 0)) == AfterItem(st, HeaderItem(n, used))
    {
      assert st.rest[used..][0..] == st.rest[used..];
    }

    /** Read the type byte of the current item if that is still to be done. */
    method ReadType() returns (ok: bool)
      requires Inner() && err.None? && ridx >= 0
      modifies this, rstack
      ensures Repr == old(Repr) && Inner() && State() == ReadKind(old(State()))
      ensures ok ==> err.None? && ridx == old(ridx) && frames == old(frames) && rstack[ridx].kind.Some?
      ensures !ok ==> Valid() && (err.Some? || ridx >= 0) && (State().Dead? || State().kind.None?)
    {
      if rstack[ridx].kind.Some? {
        return true;
      }
      View(0, 0);
      if len - pos < 1 {
        return false;
      }
      var b := buf.data[pos];
      Advance(1);
      match KindOf(b) {
        case None =>
          SetError(ProtocolByte(b));
          return false;
        case Some(k) =>
          ghost var tasks := rstack[..];
          StackRetype(tasks, frames, Some(k));
          rstack[ridx] := rstack[ridx].(kind := Some(k));
          assert rstack[..] == tasks[ridx := rstack[ridx]];
          return true;
      }
    }

    method ProcessItem() returns (ok: bool)
      requires Inner() && err.None? && ridx >= 0
      modifies this, rstack
      ensures Repr == old(Repr)
      ensures Reflects(ok, Step(old(State())))
    {
      hide Body, AfterItem, FramesOk, StackOk, Fill;
      var typed := ReadType();
      if !typed {
        return false;
      }
      match rstack[ridx].kind.value {
        case KBulk => ok := ProcessBulkItem();
        case KArray => ok := ProcessMultiBulkItem();
        case k => ok := ProcessLineItem(k);
      }
    }

    /** Process items until a reply is complete or one cannot be processed. */
    method ProcessItems()
      requires Inner() && err.None? && ridx >= 0
      modifies this, rstack
      ensures Repr == old(Repr) && Inner()
      ensures ridx == -1 && err.None? ==> reply.Some? && (reply, State()) == Next(old(State()))
      ensures ridx >= 0 || err.Some? ==> Valid() && (None, State()) == Next(old(State()))
    {
      hide Step;
      while ridx >= 0
        invariant Inner() && Repr == old(Repr) && err.None?
        invariant ridx >= 0 ==> Next(State()) == Next(old(State()))
        invariant ridx == -1 ==> reply.Some? && (reply, State()) == Next(old(State()))
        decreases ridx >= 0, Length(State())
      {
        var more := ProcessItem();
        if !more {
          break;
        }
      }
    }

    /** Drop what is consumed once it is at least 1 KiB, and hand over a finished reply. */
    method Emit() returns (r: Option<Reply>)
      requires Inner() && err.None? && (ridx == MAX_TASK ==> rstack[ridx].kind != Some(KArray))
      modifies `reply, `pos, `len, buf, buf.data
      ensures Valid() && err.None? && Repr == old(Repr) && State() == old(State())
      ensures r == (if ridx == -1 then old(reply) else None) && pos < 1024
    {
      if pos >= 1024 {
        Discard();
      }
      r := None;
      if ridx == -1 {
        r := reply;
        reply := None;
      }
    }

    /** An empty stack and a fresh root task are the same state. */
    method PushRoot()
      requires Valid() && err.None? && ridx == -1
      modifies `ridx, rstack
      ensures Inner() && ridx == 0 && State() == old(State())
    {
      rstack[0] := FRESH_ROOT;
      ridx := 0;
    }

    /** The next complete reply, if the bytes fed so far hold one. */
    method GetReply() returns (ok: bool, r: Option<Reply>)
      requires Valid()
      modifies Repr
      ensures Valid() && Repr == old(Repr)
      ensures (r, State()) == Next(old(State()))
      ensures ok == err.None? && (ok ==> pos < 1024)
    {
      hide Next, FramesOk, StackOk;
      if err.Some? {
        NextOfDead(err.value);
        return false, None;
      }
      if len == 0 {
        WaitsOnNothing();
        return true, None;
      }
      if ridx == -1 {
        PushRoot();
      }
      ProcessItems();
      if err.Some? {
        return false, None;
      }
      r := Emit();
      return true, r;
    }
  }

  /** Take replies until there is none. */
  method DrainReplies(reader: Reader) returns (out: seq<Reply>)
    requires reader.Valid()
    modifies reader.Repr
    ensures reader.Valid() && reader.Repr == old(reader.Repr)
    ensures Run(out, reader.State()) == Drain(old(reader.State()))
  {
    hide Next, Drain, FramesOk, StackOk;
    out := [];
    var more := true;
    while more
      invariant reader.Valid() && reader.Repr == old(reader.Repr)
      invariant more ==> Then(Run(out, reader.State()), Drain(reader.State())) == Drain(old(reader.State()))
      invariant !more ==> Run(out, reader.State()) == Drain(old(reader.State()))
      decreases more, Length(reader.State())
    {
      ghost var st := reader.State();
      var ok, r := reader.GetReply();
      if r.None? {
        DrainNone(st, out);
        more := false;
      } else {
        DrainSome(st, out);
        out := out + [r.value];
      }
    }
  }

  /** The loop a client runs: feed what arrived, take replies until there is none, as
      `redisAsyncHandleRead` does. */
  method Pump(reader: Reader, chunks: seq<bytes>) returns (out: seq<Reply>)
    requires reader.Valid()
    modifies reader.Repr
    ensures reader.Valid() && fresh(reader.Repr - old(reader.Repr))
    ensures Run(out, reader.State()) == Session(old(reader.State()), chunks)
  {
    hide Drain, FramesOk, StackOk;
    out := [];
    for i := 0 to |chunks|
      invariant reader.Valid() && fresh(reader.Repr - old(reader.Repr))
      invariant Then(Run(out, reader.State()), Session(reader.State(), chunks[i..]))
             == Session(old(reader.State()), chunks)
    {
      SessionStep(reader.State(), out, chunks[i..]);
      assert chunks[i..][1..] == chunks[i + 1..];
      var _ := reader.Feed(chunks[i]);
      var more := DrainReplies(reader);
      out := out + more;
    }
  }
}
