/** The linked list of fixed-size blocks in which zip.c collects the central directory. */
module DataBlocks {
  import opened Bytes
  import opened ZipNumbers

  const BLOCK_SIZE: nat := 4080

  class Block {
    var next: Block?
    const data: array<byte>
    var filled: nat

    constructor ()
      ensures next == null && filled == 0 && data.Length == 4080 && fresh(data)
    {
      next := null;
      data := new byte[BLOCK_SIZE];
      filled := 0;
    }
  }

  /** Extending the last text extends the whole. */
  lemma ConcatExtend(texts: seq<bytes>, longer: seq<bytes>, s: bytes)
    requires texts != [] && |longer| == |texts| && longer[..|texts| - 1] == texts[..|texts| - 1]
    requires longer[|texts| - 1] == texts[|texts| - 1] + s
    ensures Concat(longer) == Concat(texts) + s
  {
    var k := |texts| - 1;
    ConcatPrefix(texts, k);
    ConcatPrefix(longer, k);
    assert texts[..k + 1] == texts && longer[..k + 1] == longer;
    Assoc(Concat(texts[..k]), texts[k], s);
  }

  /** No block, and no data of a block, occurs twice. */
  ghost predicate Distinct(blocks: seq<Block>) {
    forall i, j :: 0 <= i < j < |blocks| ==> blocks[i] != blocks[j] && blocks[i].data != blocks[j].data
  }

  lemma DistinctAppend(blocks: seq<Block>, b: Block)
    requires Distinct(blocks) && forall i :: 0 <= i < |blocks| ==> blocks[i] != b && blocks[i].data != b.data
    ensures Distinct(blocks + [b])
  {
    var longer := blocks + [b];
    forall i, j | 0 <= i < j < |longer| ensures longer[i] != longer[j] && longer[i].data != longer[j].data {
      assert longer[i] == blocks[i];
      assert j < |blocks| ==> longer[j] == blocks[j];
    }
  }

  class BlockList {
    var first: Block?
    var last: Block?
    ghost var blocks: seq<Block>
    ghost var Repr: set<object>

    /** The list is the chain of `blocks`; every block but the last is full. */
    ghost predicate Valid()
      reads this, Repr
      ensures Valid() ==> this in Repr
    {
      && this in Repr
      && (forall b <- blocks :: b in Repr && b.data in Repr && b.data.Length == BLOCK_SIZE && b.filled <= BLOCK_SIZE)
      && (blocks == [] ==> first == null && last == null)
      && (blocks != [] ==> first == blocks[0] && last == blocks[|blocks| - 1] && last.next == null)
      && (forall i :: 0 <= i < |blocks| - 1 ==> blocks[i].next == blocks[i + 1] && blocks[i].filled == BLOCK_SIZE)
      && Distinct(blocks)
    }

    /** What each block holds. */
    ghost function Texts(): (t: seq<bytes>)
      requires Valid()
      reads this, Repr
      ensures |t| == |blocks|
    {
      seq(|blocks|, i requires 0 <= i < |blocks| reads this, Repr requires Valid() =>
        assert blocks[i] in blocks; blocks[i].data[..blocks[i].filled])
    }

    ghost function Contents(): bytes
      requires Valid()
      reads this, Repr
    {
      Concat(Texts())
    }

    constructor ()
      ensures Valid() && fresh(Repr) && Contents() == []
    {
      first, last := null, null;
      blocks := [];
      Repr := {this};
    }

    /** Append an empty block. */
    method Grow()
      requires Valid() && (last != null ==> last.filled == BLOCK_SIZE)
      modifies this, last
      ensures Valid() && fresh(Repr - old(Repr)) && last != null && fresh(last) && fresh(last.data) && last.filled == 0
      ensures Contents() == old(Contents())
    {
      hide Concat, Distinct;
      ghost var texts := Texts();
      var b := new Block();
      DistinctAppend(blocks, b);
      if last == null {
        first := b;
      } else {
        last.next := b;
      }
      last := b;
      blocks := blocks + [b];
      Repr := Repr + {b, b.data};
      assert Texts() == texts + [[]];
      ConcatPrefix(Texts(), |texts|);
      assert Texts()[..|texts|] == texts && Texts()[..|texts| + 1] == Texts();
    }

    /** Storing into the last block appends to what the list holds. */
    method Store(s: bytes)
      requires Valid() && last != null && last.filled + |s| <= BLOCK_SIZE
      modifies last, last.data
      ensures Valid() && Repr == old(Repr) && last == old(last) && last.filled == old(last.filled) + |s|
      ensures Contents() == old(Contents()) + s
    {
      hide Concat;
      ghost var texts := Texts();
      ghost var kept := last.data[..last.filled];
      forall i | 0 <= i < |s| {
        last.data[last.filled + i] := s[i];
      }
      last.filled := last.filled + |s|;
      assert last.data[..last.filled] == kept + s;
      forall i | 0 <= i < |texts| - 1
        ensures blocks[i].data[..blocks[i].filled] == texts[i]
      {
        assert blocks[i] != last && blocks[i].data != last.data;
      }
      assert Texts()[..|texts| - 1] == texts[..|texts| - 1];
      ConcatExtend(texts, Texts(), s);
    }

    /** One round of the copy loop: fill what room the last block has, or a new one. */
    method AddSome(buf: bytes, from: nat) returns (next: nat)
      requires Valid() && last != null && from < |buf|
      modifies Repr
      ensures Valid() && fresh(Repr - old(Repr)) && last != null
      ensures from < next <= |buf|
      ensures Contents() == old(Contents()) + buf[from..next]
    {
      hide Concat, Distinct;
      if last.filled == BLOCK_SIZE {
        Grow();
      }
      var avail := BLOCK_SIZE - last.filled;
      var copyThis := if avail < |buf| - from then avail else |buf| - from;
      Store(buf[from..from + copyThis]);
      next := from + copyThis;
    }

    /** `add_data_in_datablock` */
    method Add(buf: bytes)
      requires Valid()
      modifies Repr
      ensures Valid() && fresh(Repr - old(Repr))
      ensures Contents() == old(Contents()) + buf
    {
      hide Concat, Distinct;
      if last == null {
        Grow();
      }
      ghost var start := Contents();
      var from := 0;
      assert start + buf[..0] == start;
      while from < |buf|
        invariant 0 <= from <= |buf|
        invariant Valid() && fresh(Repr - old(Repr)) && last != null
        invariant Contents() == start + buf[..from]
      {
        var next := AddSome(buf, from);
        Assoc(start, buf[..from], buf[from..next]);
        assert buf[..from] + buf[from..next] == buf[..next];
        from := next;
      }
      assert buf[..from] == buf;
    }

    /** Write the blocks one by one to a file, as `zipClose` does; the total size. */
    method WriteAll(f: File) returns (size: nat)
      requires Valid() && f !in Repr && f.pos <= |f.data|
      modifies f
      ensures size == |Contents()| && f.pos == old(f.pos) + size <= |f.data|
      ensures f.data == Overwrite(old(f.data), old(f.pos), Contents())
    {
      hide Concat, Overwrite, Distinct;
      size := 0;
      var ldi := first;
      ghost var k, texts := 0, Texts();
      ghost var data, pos := f.data, f.pos;
      assert texts[..0] == [];
      WroteNothing(data, pos);
      while ldi != null
        invariant 0 <= k <= |blocks| && ldi == (if k < |blocks| then blocks[k] else null)
        invariant Valid() && Texts() == texts
        invariant size == |Concat(texts[..k])| && f.pos == pos + size <= |f.data|
        invariant f.data == Overwrite(data, pos, Concat(texts[..k]))
        decreases |blocks| - k
      {
        ConcatPrefix(texts, k);
        WroteMore(data, pos, Concat(texts[..k]), texts[k]);
        WroteNothing(f.data, f.pos);
        assert ldi.data[..ldi.filled] == texts[k];
        if ldi.filled > 0 {
          f.Write(ldi.data[..ldi.filled]);
        }
        size := size + ldi.filled;
        ldi := ldi.next;
        k := k + 1;
      }
      assert texts[..k] == texts;
    }
  }

  lemma WroteNothing(data: bytes, p: nat)
    requires p <= |data|
    ensures Overwrite(data, p, []) == data
    ensures Concat([]) == []
  {
  }

  /** Two writes in a row are one write of both. */
  lemma WroteMore(data: bytes, p: nat, a: bytes, b: bytes)
    requires p <= |data|
    ensures p + |a| <= |Overwrite(data, p, a)|
    ensures Overwrite(Overwrite(data, p, a), p + |a|, b) == Overwrite(data, p, a + b)
  {
    var once := Overwrite(data, p, a);
    assert once[..p + |a|] == data[..p] + a;
    if p + |a| + |b| < |once| {
      assert once[p + |a| + |b|..] == data[p + |a| + |b|..];
    }
  }
}
