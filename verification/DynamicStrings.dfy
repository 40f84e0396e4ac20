/** The dynamic string library under the reply reader (sds.c). */
module DynamicStrings {
  import opened Bytes

  /** The bytes `sdsrange` keeps, for any pair of (possibly negative) indices. */
  function RangeOf(s: bytes, start: int, end: int): bytes {
    var lo := if start >= 0 then start else if |s| + start > 0 then |s| + start else 0;
    var hi := if end >= 0 then end else if |s| + end > 0 then |s| + end else 0;
    if lo > hi || lo >= |s| then [] else s[lo..if hi < |s| then hi + 1 else |s|]
  }

  /** The range from a position, counted from the front or from the back, to the last byte. */
  lemma RangeToEnd(s: bytes, k: int)
    requires 0 <= k <= |s|
    ensures RangeOf(s, k, -1) == s[k..] && (k > 0 ==> RangeOf(s, -k, -1) == s[|s| - k..])
  {
    assert s[k..|s|] == s[k..] && s[|s| - k..|s|] == s[|s| - k..];
    if k == |s| {
      assert s[k..] == [];
    }
  }

  /** Ranges of "ciao" as in the tests of sds.c. */
  lemma RangeExamples()
    ensures RangeOf([99, 105, 97, 111], 1, 1) == [105]
    ensures RangeOf([99, 105, 97, 111], 1, -1) == [105, 97, 111]
    ensures RangeOf([99, 105, 97, 111], -2, -1) == [97, 111]
    ensures RangeOf([99, 105, 97, 111], 2, 1) == []
    ensures RangeOf([99, 105, 97, 111], 1, 100) == [105, 97, 111]
    ensures RangeOf([99, 105, 97, 111], 100, 100) == []
  {
    var s: bytes := [99, 105, 97, 111];
    assert s[1..2] == [105] && s[1..4] == [105, 97, 111] && s[2..4] == [97, 111];
  }

  /** A string with spare room. `data` holds `len` bytes, a terminating zero, and free space;
      growing the string replaces `data`, as realloc does. */
  class Sds {
    var data: array<byte>
    var len: nat

    ghost predicate Valid()
      reads this, data
    {
      len < data.Length && data[len] == 0
    }

    ghost function Contents(): (s: bytes)
      requires Valid()
      reads this, data
    {
      data[..len]
    }

    function Avail(): nat
      requires len < data.Length
      reads this
    {
      data.Length - len - 1
    }

    constructor Empty()
      ensures Valid() && Contents() == [] && Avail() == 0
      ensures fresh(data)
    {
      data := new byte[1](_ => 0);
      len := 0;
    }

    method MakeRoomFor(addlen: nat)
      requires Valid()
      modifies this`data
      ensures Valid() && Contents() == old(Contents())
      ensures Avail() >= addlen
      ensures data == old(data) || fresh(data)
      ensures old(Avail()) >= addlen ==> data == old(data)
      ensures old(Avail()) < addlen ==> Avail() == len + 2 * addlen
    {
      if Avail() >= addlen {
        return;
      }
      var newlen := (len + addlen) * 2;
      var grown := new byte[newlen + 1](_ => 0);
      forall i | 0 <= i <= len {
        grown[i] := data[i];
      }
      data := grown;
    }

    method CatLen(t: bytes)
      requires Valid()
      modifies this, data
      ensures Valid() && Contents() == old(Contents()) + t
      ensures data == old(data) || fresh(data)
    {
      var curlen := len;
      MakeRoomFor(|t|);
      forall i | 0 <= i < |t| {
        data[curlen + i] := t[i];
      }
      len := curlen + |t|;
      data[len] := 0;
    }

    /** The index arithmetic of `sdsrange`: keep `newlen` bytes from `lo`. */
    method Bounds(start: int, end: int) returns (lo: int, newlen: int)
      requires 0 < len
      ensures 0 <= newlen && (newlen > 0 ==> 0 <= lo && lo + newlen <= len)
      ensures forall s: bytes :: |s| == len ==>
        RangeOf(s, start, end) == if newlen == 0 then [] else s[lo..lo + newlen]
    {
      lo := start;
      var hi := end;
      if lo < 0 {
        lo := len + lo;
        if lo < 0 { lo := 0; }
      }
      if hi < 0 {
        hi := len + hi;
        if hi < 0 { hi := 0; }
      }
      newlen := if lo > hi then 0 else hi - lo + 1;
      if newlen != 0 {
        if lo >= len {
          newlen := 0;
        } else if hi >= len {
          hi := len - 1;
          newlen := if lo > hi then 0 else hi - lo + 1;
        }
      } else {
        lo := 0;
      }
    }

    method Range(start: int, end: int)
      requires Valid()
      modifies this`len, data
      ensures Valid() && data == old(data)
      ensures Contents() == RangeOf(old(Contents()), start, end)
    {
      if len == 0 {
        return;
      }
      var lo, newlen := Bounds(start, end);
      ghost var was := Contents();
      if lo != 0 && newlen != 0 {
        forall i | 0 <= i < newlen {
          data[i] := data[lo + i];
        }
      }
      assert newlen > 0 ==> data[..newlen] == was[lo..lo + newlen];
      data[newlen] := 0;
      len := newlen;
    }
  }
}
