/** The partly built reply tree, addressed by the slot numbers of the open tasks. */
module ReplyTree {
  import opened ReplyMachine

  /** The slots on the way from the root to the value the innermost task will produce. */
  function Slots(frames: seq<Frame>): (p: seq<int>)
    ensures |p| == |frames|
  {
    seq(|frames|, i requires 0 <= i < |frames| => |frames[i].done|)
  }

  /** The tree under construction when the innermost open slot holds `r`; slots behind the
      open ones are still null. */
  function Fill(frames: seq<Frame>, r: Reply): Reply
    requires forall f :: f in frames ==> FrameOk(f)
  {
    if frames == [] then r
    else
      var f := frames[0];
      assert FrameOk(f);
      Arr(f.count, f.done + [Fill(frames[1..], r)] + Repeat(Missing, f.count - |f.done| - 1))
  }

  predicate PathOk(t: Reply, path: seq<int>)
    decreases |path|
  {
    path == [] || (t.Arr? && 0 <= path[0] < |t.element| && PathOk(t.element[path[0]], path[1..]))
  }

  /** `parent->element[task->idx] = r`, for the slot reached by `path`. */
  function Put(t: Reply, path: seq<int>, r: Reply): Reply
    requires PathOk(t, path)
    decreases |path|
  {
    if path == [] then r
    else t.(element := t.element[path[0] := Put(t.element[path[0]], path[1..], r)])
  }

  /** Storing into the open slot changes that slot and nothing else. */
  lemma {:induction false} PutFills(frames: seq<Frame>, old_: Reply, r: Reply)
    requires forall f :: f in frames ==> FrameOk(f)
    ensures PathOk(Fill(frames, old_), Slots(frames))
    ensures Put(Fill(frames, old_), Slots(frames), r) == Fill(frames, r)
  {
    if frames != [] {
      PutFills(frames[1..], old_, r);
      assert Slots(frames)[1..] == Slots(frames[1..]);
      var f, t := frames[0], Fill(frames, old_);
      assert t.element[|f.done|] == Fill(frames[1..], old_);
      assert t.element[|f.done| := Fill(frames[1..], r)] == Fill(frames, r).element;
    }
  }

  lemma {:induction false} FillAppend(a: seq<Frame>, b: seq<Frame>, r: Reply)
    requires forall f :: f in a + b ==> FrameOk(f)
    ensures forall f :: f in a ==> FrameOk(f)
    ensures forall f :: f in b ==> FrameOk(f)
    ensures Fill(a + b, r) == Fill(a, Fill(b, r))
  {
    assert forall f :: f in a ==> f in a + b;
    assert forall f :: f in b ==> f in a + b;
    if a == [] {
      assert a + b == b;
    } else {
      assert (a + b)[1..] == a[1..] + b;
      FillAppend(a[1..], b, r);
    }
  }

  lemma FillLast(below: seq<Frame>, f: Frame, r: Reply)
    requires FrameOk(f) && forall g :: g in below ==> FrameOk(g)
    ensures forall g :: g in below + [f] ==> FrameOk(g)
    ensures Fill(below + [f], r)
         == Fill(below, Arr(f.count, f.done + [r] + Repeat(Missing, f.count - |f.done| - 1)))
  {
    FillAppend(below, [f], r);
    assert [f][1..] == [];
  }

  /** An array header stored in the open slot is an open array with nothing in it yet. */
  lemma FillOpen(frames: seq<Frame>, n: int)
    requires n > 0 && forall f :: f in frames ==> FrameOk(f)
    ensures forall f :: f in frames + [Frame(n, [])] ==> FrameOk(f)
    ensures Fill(frames, Arr(n, Repeat(Missing, n))) == Fill(frames + [Frame(n, [])], Missing)
  {
    FillLast(frames, Frame(n, []), Missing);
    assert [] + [Missing] + Repeat(Missing, n - 1) == Repeat(Missing, n);
  }

  /** Filling the last slot completes an array; filling another moves to the next slot. */
  lemma FillMoves(below: seq<Frame>, f: Frame, r: Reply)
    requires FrameOk(f) && r != Missing && forall g :: g in below ==> FrameOk(g)
    ensures |f.done| + 1 == f.count ==> Fill(below + [f], r) == Fill(below, Arr(f.count, f.done + [r]))
    ensures |f.done| + 1 < f.count ==>
      var g := Frame(f.count, f.done + [r]);
      (forall h :: h in below + [g] ==> FrameOk(h)) && Fill(below + [f], r) == Fill(below + [g], Missing)
  {
    FillLast(below, f, r);
    var tail := Repeat(Missing, f.count - |f.done| - 1);
    if |f.done| + 1 == f.count {
      assert f.done + [r] + tail == f.done + [r];
    } else {
      var g := Frame(f.count, f.done + [r]);
      FillLast(below, g, Missing);
      assert f.done + [r] + tail == g.done + [Missing] + Repeat(Missing, g.count - |g.done| - 1);
    }
  }

  function NodeAt(t: Reply, path: seq<int>): Reply
    requires PathOk(t, path)
    decreases |path|
  {
    if path == [] then t else NodeAt(t.element[path[0]], path[1..])
  }

  lemma SlotsTail(frames: seq<Frame>, i: nat)
    requires 0 < i < |frames|
    ensures frames[1..][i - 1..] == frames[i..]
    ensures Slots(frames[..i]) == [|frames[0].done|] + Slots(frames[1..][..i - 1])
  {
  }

  /** The i-th open array of a tree under construction, where the slots say it is. */
  lemma {:induction false} NodeOfFrame(frames: seq<Frame>, i: nat, r: Reply)
    requires i < |frames| && forall f :: f in frames ==> FrameOk(f)
    ensures PathOk(Fill(frames, r), Slots(frames[..i]))
    ensures NodeAt(Fill(frames, r), Slots(frames[..i])) == Fill(frames[i..], r)
    decreases i
  {
    if i == 0 {
      assert frames[0..] == frames;
    } else {
      NodeOfFrame(frames[1..], i - 1, r);
      SlotsTail(frames, i);
      var f, t := frames[0], Fill(frames, r);
      assert FrameOk(f) && t.element[|f.done|] == Fill(frames[1..], r);
    }
  }
}
