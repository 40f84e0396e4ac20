/** Iterating over the hash table, while entries already returned may be deleted. */
module DictIterators {
  import opened Bytes
  import opened Dicts

  /** The entries of the chains, in order. */
  ghost function Flat<K, V>(chains: seq<seq<Entry<K, V>>>): seq<Entry<K, V>> {
    if chains == [] then [] else chains[0] + Flat(chains[1..])
  }

  predicate IsSuffix<T(==)>(b: seq<T>, c: seq<T>) {
    |b| <= |c| && c[|c| - |b|..] == b
  }

  /** The entries an iterator has yet to return: `rest` in the chain it is in, and the chains
      behind that. */
  ghost function Ahead<K, V>(chains: seq<seq<Entry<K, V>>>, index: int, rest: seq<Entry<K, V>>): seq<Entry<K, V>>
    requires -1 <= index
  {
    rest + if index + 1 < |chains| then Flat(chains[index + 1..]) else []
  }

  /** What an iterator returns from there on. With 2^31 chains the comparison with the size, as
      an `int`, ends the walk at the first chain. */
  ghost function ToCome<K, V>(chains: seq<seq<Entry<K, V>>>, index: int, rest: seq<Entry<K, V>>): seq<Entry<K, V>>
    requires -1 <= index
  {
    if |chains| < TWO_31 then Ahead(chains, index, rest) else rest
  }

  ghost predicate NoneHas<K(!new), V(!new)>(s: seq<Entry<K, V>>, key: K) {
    forall e :: e in s ==> e.key != key
  }

  // ---------------------------------------------------------------------------------------
  // What the chains hold
  // ---------------------------------------------------------------------------------------

  lemma {:induction false} FlatMembers<K(!new), V(!new)>(chains: seq<seq<Entry<K, V>>>, e: Entry<K, V>)
    ensures e in Flat(chains) <==> exists i :: 0 <= i < |chains| && e in chains[i]
  {
    if chains != [] {
      var tail := chains[1..];
      assert Flat(chains) == chains[0] + Flat(tail);
      hide Flat;
      FlatMembers(tail, e);
      if e in Flat(tail) {
        var i :| 0 <= i < |tail| && e in tail[i];
        assert e in chains[i + 1];
      }
      forall i | 0 <= i < |chains| && e in chains[i] ensures e in Flat(chains) {
        assert i > 0 ==> tail[i - 1] == chains[i];
      }
    }
  }

  lemma NoDupAppend<T>(a: seq<T>, b: seq<T>)
    requires NoDup(a) && NoDup(b) && forall x :: x in a ==> x !in b
    ensures NoDup(a + b)
  {
    var c := a + b;
    forall i, j | 0 <= i < j < |c| ensures c[i] != c[j] {
      assert i < |a| ==> c[i] == a[i] && a[i] in a;
      assert j >= |a| ==> c[j] == b[j - |a|] && b[j - |a|] in b;
    }
  }

  lemma {:induction false} FlatNoDup<K(!new), V(!new)>(hash: K -> Word, chains: seq<seq<Entry<K, V>>>,
                                                       all: set<Entry<K, V>>, i: nat)
    requires Spread(hash, chains, all) && i <= |chains|
    ensures NoDup(Flat(chains[i..]))
    decreases |chains| - i
  {
    hide Bucket;
    if i < |chains| {
      FlatNoDup(hash, chains, all, i + 1);
      assert InBucket(hash, chains[i], i, |chains|, all);
      assert chains[i..][1..] == chains[i + 1..];
      forall e | e in chains[i] ensures e !in Flat(chains[i + 1..]) {
        FlatMembers(chains[i + 1..], e);
        var later := chains[i + 1..];
        forall k | 0 <= k < |later| ensures e !in later[k] {
          assert later[k] == chains[i + 1 + k];
          assert InBucket(hash, chains[i + 1 + k], i + 1 + k, |chains|, all);
        }
      }
      NoDupAppend(chains[i], Flat(chains[i + 1..]));
    }
  }

  /** The chains hold every entry exactly once, so there are `used` of them. */
  lemma FlatIsAll<K(!new), V(!new)>(d: Dict<K, V>)
    requires d.Valid()
    ensures NoDup(Flat(d.chains)) && |Flat(d.chains)| == d.used
    ensures Elements(Flat(d.chains)) == d.all
  {
    FlatNoDup(d.hash, d.chains, d.all, 0);
    var f := Flat(d.chains);
    assert d.chains[0..] == d.chains;
    forall e ensures e in f <==> e in d.all {
      FlatMembers(d.chains, e);
      forall i | 0 <= i < |d.chains| && e in d.chains[i] ensures e in d.all {
        assert InBucket(d.hash, d.chains[i], i, |d.chains|, d.all);
      }
      if e in d.all {
        var h := Bucket(d.hash(e.key), |d.chains|);
        assert InBucket(d.hash, d.chains[h], h, |d.chains|, d.all);
      }
    }
    CountNoDup(f);
    assert Elements(f) == d.all;
  }

  lemma {:induction false} CountNoDup<T>(c: seq<T>)
    requires NoDup(c)
    ensures |Elements(c)| == |c|
  {
    if c != [] {
      var front, last := c[..|c| - 1], c[|c| - 1];
      assert c == front + [last];
      CountNoDup(front);
      ElementsSnoc(front, last);
      forall k | 0 <= k < |front| ensures front[k] != last {
        assert c[k] == front[k];
      }
    }
  }

  /** `used` is the number of keys. */
  lemma UsedIsCount<K(!new), V(!new)>(d: Dict<K, V>)
    requires d.Valid()
    ensures d.used == |d.model| <= d.size
  {
    KeyCount(d.all, d.model.Keys);
  }

  lemma {:induction false} KeyCount<K(!new), V(!new)>(all: set<Entry<K, V>>, keys: set<K>)
    requires UniqueKeys(all)
    requires (forall e :: e in all ==> e.key in keys) && (forall k :: k in keys ==> exists e :: e in all && e.key == k)
    ensures |all| == |keys|
    decreases |all|
  {
    if all == {} {
      assert keys == {};
    } else {
      var e :| e in all;
      KeyCount(all - {e}, keys - {e.key});
    }
  }

  // ---------------------------------------------------------------------------------------
  // Deleting during the walk
  // ---------------------------------------------------------------------------------------

  lemma {:induction false} MinusNone<K(!new), V(!new)>(c: seq<Entry<K, V>>, key: K)
    requires NoneHas(c, key)
    ensures Minus(c, key) == c
  {
    if c != [] {
      MinusNone(c[1..], key);
    }
  }

  lemma {:induction false} MinusBefore<K(!new), V(!new)>(a: seq<Entry<K, V>>, b: seq<Entry<K, V>>, key: K)
    requires NoneHas(b, key)
    ensures Minus(a + b, key) == Minus(a, key) + b
  {
    if a == [] {
      assert [] + b == b;
      MinusNone(b, key);
    } else {
      assert (a + b)[1..] == a[1..] + b;
      MinusBefore(a[1..], b, key);
      if a[0].key != key {
        Assoc([a[0]], Minus(a[1..], key), b);
      }
    }
  }

  /** Deleting a key that none of the entries ahead has leaves those as they are. */
  lemma DeleteKeepsAhead<K(!new), V(!new)>(chains: seq<seq<Entry<K, V>>>, index: int, rest: seq<Entry<K, V>>,
                                           h: nat, key: K, now: seq<seq<Entry<K, V>>>)
    requires -1 <= index && h < |chains| && now == chains[h := Minus(chains[h], key)]
    requires 0 <= index < |chains| ==> IsSuffix(rest, chains[index])
    requires NoneHas(Ahead(chains, index, rest), key)
    ensures Ahead(now, index, rest) == Ahead(chains, index, rest)
    ensures 0 <= index < |chains| ==> IsSuffix(rest, now[index])
  {
    hide Flat, Minus;
    if h > index {
      NotAhead(chains, index, rest, h, key);
      MinusNone(chains[h], key);
      assert now == chains;
    } else {
      assert index + 1 <= |now| ==> now[index + 1..] == chains[index + 1..];
      if h == index {
        DeleteInChain(chains[h], rest, key);
      }
    }
  }

  lemma NotAhead<K(!new), V(!new)>(chains: seq<seq<Entry<K, V>>>, index: int, rest: seq<Entry<K, V>>, h: nat, key: K)
    requires -1 <= index < h < |chains| && NoneHas(Ahead(chains, index, rest), key)
    ensures NoneHas(chains[h], key)
  {
    hide Flat;
    var later := chains[index + 1..];
    assert later[h - index - 1] == chains[h];
    forall e | e in chains[h] ensures e.key != key {
      FlatMembers(later, e);
    }
  }

  lemma DeleteInChain<K(!new), V(!new)>(c: seq<Entry<K, V>>, rest: seq<Entry<K, V>>, key: K)
    requires IsSuffix(rest, c) && NoneHas(rest, key)
    ensures IsSuffix(rest, Minus(c, key))
  {
    hide Minus;
    var pre := c[..|c| - |rest|];
    assert c == pre + rest;
    MinusBefore(pre, rest, key);
    assert (Minus(pre, key) + rest)[|Minus(pre, key)|..] == rest;
  }

  lemma DeleteKeepsToCome<K(!new), V(!new)>(chains: seq<seq<Entry<K, V>>>, index: int, rest: seq<Entry<K, V>>,
                                            h: nat, key: K, now: seq<seq<Entry<K, V>>>)
    requires -1 <= index && h < |chains| && now == chains[h := Minus(chains[h], key)]
    requires 0 <= index < |chains| ==> IsSuffix(rest, chains[index])
    requires NoneHas(ToCome(chains, index, rest), key)
    ensures ToCome(now, index, rest) == ToCome(chains, index, rest)
    ensures 0 <= index < |chains| ==> IsSuffix(rest, now[index])
  {
    hide Ahead, Minus, IsSuffix;
    if |chains| < TWO_31 {
      DeleteKeepsAhead(chains, index, rest, h, key, now);
    } else if h == index {
      DeleteInChain(chains[h], rest, key);
    }
  }

  class DictIterator<K(!new, ==), V(!new)> {
    const ht: Dict<K, V>
    var index: int
    var entry: Entry?<K, V>
    var nextEntry: Entry?<K, V>
    ghost var rest: seq<Entry<K, V>>

    /** The entries still to come in the current chain are the end of that chain; of the
        current entry only its being there matters, so it may be gone from the table. */
    ghost predicate Valid()
      reads this, ht`chains
    {
      && -1 <= index
      && (entry == null ==> rest == [])
      && (entry != null ==> 0 <= index < |ht.chains| && nextEntry == First(rest))
      && (0 <= index < |ht.chains| ==> IsSuffix(rest, ht.chains[index]))
    }

    ghost function Todo(): seq<Entry<K, V>>
      requires Valid()
      reads this, ht`chains
    {
      ToCome(ht.chains, index, rest)
    }

    /** `dictGetIterator` */
    constructor (d: Dict<K, V>)
      requires d.Valid()
      ensures d.Valid() && d.Repr() == old(d.Repr()) && Valid() && ht == d
      ensures Todo() == if |d.chains| < TWO_31 then Flat(d.chains) else []
    {
      hide Flat, Spread, UniqueKeys, PowerOfTwo, Holds;
      ht := d;
      index := -1;
      entry, nextEntry := null, null;
      rest := [];
      new;
      NotPart();
      AheadAll(ht.chains);
    }

    lemma AheadAll(chains: seq<seq<Entry<K, V>>>)
      ensures Ahead(chains, -1, []) == Flat(chains)
    {
      assert chains[0..] == chains;
    }

    /** Go to the next chain, or to the next entry of this one. */
    method Advance() returns (more: bool)
      requires ht.Valid() && Valid()
      modifies this
      ensures ht.Valid() && -1 <= index && entry == First(rest)
      ensures ToCome(ht.chains, index, rest) == old(Todo())
      ensures more ==> 0 <= index < |ht.chains| && IsSuffix(rest, ht.chains[index])
      ensures !more ==> rest == [] && (index >= |ht.chains| || |ht.chains| >= TWO_31)
      ensures index >= old(index) && (old(entry) == null ==> index > old(index))
    {
      hide Dict.Valid, Flat, Ahead;
      NotPart();
      more := true;
      if entry == null {
        AheadNext(ht.chains, index);
        SameSize();
        index := index + 1;
        if index >= Int32(ht.size) {
          return false;
        }
        HeadOfChain(index);
        entry := ht.table[index];
        rest := ht.chains[index];
      } else {
        entry := nextEntry;
      }
    }

    lemma NotPart()
      ensures this !in ht.Repr()
    {
    }

    /** The conversion of the size to an `int`. */
    lemma SameSize()
      requires ht.Valid()
      ensures ht.size == |ht.chains| && Int32(ht.size) == if ht.size < TWO_31 then ht.size else -TWO_31
    {
    }

    lemma AheadNext(chains: seq<seq<Entry<K, V>>>, index: int)
      requires -1 <= index
      ensures Ahead(chains, index, [])
           == Ahead(chains, index + 1, if index + 1 < |chains| then chains[index + 1] else [])
    {
      if index + 1 < |chains| {
        var now := chains[index + 1..];
        assert now[0] == chains[index + 1] && now[1..] == chains[index + 2..];
        assert Flat(now) == chains[index + 1] + Flat(chains[index + 2..]);
      }
    }

    lemma HeadOfChain(i: nat)
      requires ht.Valid() && i < ht.size
      ensures ht.table != null && i < ht.table.Length && ht.table[i] == First(ht.chains[i])
    {
    }

    lemma NextInChain(i: nat, rest: seq<Entry<K, V>>)
      requires ht.Valid() && i < |ht.chains| && IsSuffix(rest, ht.chains[i]) && rest != []
      ensures rest[0].next == First(rest[1..]) && rest[0] in ht.all
    {
      hide Bucket;
      var c := ht.chains[i];
      var pre := c[..|c| - |rest|];
      assert c == pre + rest;
      ht.HangsIn(i);
      LinkedSuffix(ht.table[i], pre, rest);
      assert InBucket(ht.hash, c, i, |ht.chains|, ht.all) && rest[0] in c;
    }

    /** Remember what comes after the current entry, which the caller may delete. */
    method Remember()
      requires ht.Valid() && entry != null && 0 <= index < |ht.chains| && IsSuffix(rest, ht.chains[index])
      requires entry == First(rest)
      modifies `nextEntry, `rest
      ensures Valid() && ToCome(ht.chains, index, old(rest)) == [entry] + Todo()
    {
      hide Dict.Valid, Flat;
      NextInChain(index, rest);
      nextEntry := entry.next;
      rest := rest[1..];
    }

    /** `dictNext` */
    method Next() returns (e: Entry?<K, V>)
      requires ht.Valid() && Valid()
      modifies this
      ensures ht.Valid() && ht.Repr() == old(ht.Repr()) && Valid()
      ensures old(Todo()) == [] ==> e == null && Todo() == []
      ensures old(Todo()) != [] ==> e == old(Todo())[0] && Todo() == old(Todo())[1..]
    {
      hide Dict.Valid, Flat, IsSuffix, Ahead, ToCome;
      NotPart();
      e := null;
      while true
        invariant ht.Valid() && Valid() && Todo() == old(Todo())
        decreases |ht.chains| - index, entry != null
      {
        var more := Advance();
        if !more {
          EndOfTable(ht.chains, index);
          return null;
        }
        if entry != null {
          Remember();
          return entry;
        }
      }
    }

    lemma EndOfTable(chains: seq<seq<Entry<K, V>>>, index: int)
      requires -1 <= index && (index >= |chains| || |chains| >= TWO_31)
      ensures ToCome(chains, index, []) == []
      ensures 0 <= index < |chains| ==> IsSuffix([], chains[index])
    {
    }
  }

  // ---------------------------------------------------------------------------------------
  // A whole walk
  // ---------------------------------------------------------------------------------------

  ghost predicate DistinctKeys<K(!new), V(!new)>(f: seq<Entry<K, V>>) {
    forall i, j :: 0 <= i < j < |f| ==> f[i].key != f[j].key
  }

  lemma KeysApart<K(!new), V(!new)>(d: Dict<K, V>)
    requires d.Valid()
    ensures DistinctKeys(Flat(d.chains))
  {
    hide Flat;
    FlatIsAll(d);
    var f := Flat(d.chains);
    forall i, j | 0 <= i < j < |f| ensures f[i].key != f[j].key {
      assert f[i] in f && f[j] in f && f[i] != f[j];
      assert f[i] in Elements(f) && f[j] in Elements(f) && UniqueKeys(d.all);
    }
  }

  /** The key of a returned entry is not that of any entry still to come. */
  lemma KeysDiffer<K(!new), V(!new)>(f: seq<Entry<K, V>>, n: nat)
    requires DistinctKeys(f) && n < |f|
    ensures NoneHas(f[n + 1..], f[n].key)
  {
    var todo := f[n + 1..];
    forall k | 0 <= k < |todo| ensures todo[k].key != f[n].key {
      assert todo[k] == f[n + 1 + k];
    }
  }

  /** The map when the entries in `visited` whose keys are to be dropped are gone. */
  ghost function Kept<K(!new), V(!new)>(m: map<K, V>, visited: seq<Entry<K, V>>, drop: K -> bool): map<K, V> {
    map k | k in m && !(drop(k) && exists e :: e in visited && e.key == k) :: m[k]
  }

  lemma KeptStep<K(!new), V(!new)>(m: map<K, V>, visited: seq<Entry<K, V>>, e: Entry<K, V>, drop: K -> bool)
    ensures Kept(m, visited + [e], drop)
         == if drop(e.key) then Kept(m, visited, drop) - {e.key} else Kept(m, visited, drop)
  {
    assert forall x :: x in visited + [e] <==> x in visited || x == e;
    assert e in visited + [e];
  }

  lemma KeptEnds<K(!new), V(!new)>(m: map<K, V>, visited: seq<Entry<K, V>>, all: set<Entry<K, V>>, drop: K -> bool)
    requires Holds(all, m) && Elements(visited) == all
    ensures Kept(m, [], drop) == m
    ensures Kept(m, visited, drop) == map k | k in m && !drop(k) :: m[k]
  {
  }

  /** Delete the current entry of a walk. */
  method DeleteCurrent<K(!new, ==), V(!new)>(it: DictIterator<K, V>, key: K)
    requires it.ht.Valid() && it.Valid() && NoneHas(it.Todo(), key)
    modifies it.ht.Repr()
    ensures it.ht.Valid() && it.Valid() && it.Todo() == old(it.Todo())
    ensures it.ht.model == old(it.ht.model) - {key} && it.ht.all <= old(it.ht.all)
    ensures it.ht.table == old(it.ht.table) && it.ht.size == old(it.ht.size)
  {
    hide Dict.Valid, ToCome, IsSuffix, NoneHas;
    it.NotPart();
    ghost var chains := it.ht.chains;
    var ok := it.ht.Delete(key);
    if it.ht.size > 0 {
      DeleteKeepsToCome(chains, it.index, it.rest, Bucket(it.ht.hash(key), it.ht.size), key, it.ht.chains);
    }
  }

  /** One round of a walk over `f`: drop the current entry if need be, and go on. */
  method Step<K(!new, ==), V(!new)>(it: DictIterator<K, V>, e: Entry<K, V>, drop: K -> bool,
                                    ghost f: seq<Entry<K, V>>, ghost n: nat) returns (next: Entry?<K, V>)
    requires it.ht.Valid() && it.Valid() && DistinctKeys(f)
    requires n < |f| && e == f[n] && it.Todo() == f[n + 1..]
    modifies it, it.ht.Repr()
    ensures it.ht.Valid() && it.Valid() && it.ht.size == old(it.ht.size) && it.ht.Repr() <= old(it.ht.Repr())
    ensures it.ht.model == if drop(e.key) then old(it.ht.model) - {e.key} else old(it.ht.model)
    ensures next == null ==> n + 1 == |f|
    ensures next != null ==> n + 1 < |f| && next == f[n + 1] && it.Todo() == f[n + 2..]
  {
    hide Dict.Valid, DistinctKeys, NoneHas, DictIterator.Todo, DictIterator.Valid;
    KeysDiffer(f, n);
    it.NotPart();
    if drop(e.key) {
      DeleteCurrent(it, e.key);
    }
    assert f[n + 1..] != [] ==> f[n + 1..][1..] == f[n + 2..];
    it.NotPart();
    next := it.Next();
  }

  /** A walk returns every entry exactly once, in the order of the chains, even if some are
      deleted as soon as they are returned; the others stay. It does so exactly if there are
      fewer than 2^31 chains or no entries; with 2^31 chains it returns nothing. */
  method VisitAll<K(!new, ==), V(!new)>(d: Dict<K, V>, drop: K -> bool) returns (visited: seq<Entry<K, V>>)
    requires d.Valid()
    modifies d.Repr()
    ensures d.Valid() && visited == if old(d.size) < TWO_31 then old(Flat(d.chains)) else []
    ensures NoDup(visited) && (Elements(visited) == old(d.all) <==> old(d.size) < TWO_31 || old(d.all) == {})
    ensures d.model == if old(d.size) < TWO_31 then map k | k in old(d.model) && !drop(k) :: old(d.model)[k]
                       else old(d.model)
  {
    hide Dict.Valid, Flat, NoDup, DistinctKeys, NoneHas, DictIterator.Todo, DictIterator.Valid, Kept, Holds, Elements;
    hide Dict.Repr;
    FlatIsAll(d);
    KeysApart(d);
    d.ModelHeld();
    SizeIsChains(d);
    NoneDistinct<K, V>();
    var it := new DictIterator(d);
    ghost var f, m := if d.size < TWO_31 then Flat(d.chains) else [], d.model;
    KeptEnds(m, Flat(d.chains), d.all, drop);
    visited := [];
    var e := it.Next();
    while e != null
      invariant d.Valid() && it.Valid() && it.ht == d && d.size == old(d.size) && d.Repr() <= old(d.Repr())
      invariant d.model == Kept(m, visited, drop)
      invariant |visited| <= |f| && visited == f[..|visited|]
      invariant e == null ==> |visited| == |f|
      invariant e != null ==> |visited| < |f| && e == f[|visited|] && it.Todo() == f[|visited| + 1..]
      decreases |f| - |visited|
    {
      ghost var n := |visited|;
      KeptStep(m, visited, f[n], drop);
      visited := visited + [e];
      e := Step(it, e, drop, f, n);
    }
    assert visited == f;
  }

  lemma SizeIsChains<K(!new), V(!new)>(d: Dict<K, V>)
    requires d.Valid()
    ensures d.size == |d.chains|
  {
  }

  lemma NoneDistinct<K(!new), V(!new)>()
    ensures DistinctKeys<K, V>([]) && NoDup<Entry<K, V>>([]) && Elements<Entry<K, V>>([]) == {}
  {
  }

  /** The size is never above 2^31, and there the first call returns null. */
  method FirstAtLimit<K(!new, ==), V(!new)>(d: Dict<K, V>) returns (e: Entry?<K, V>)
    requires d.Valid()
    ensures d.size <= TWO_31
    ensures e == null <==> d.size == TWO_31 || d.all == {}
  {
    hide Dict.Valid, Flat, DictIterator.Valid;
    FlatIsAll(d);
    SizeIsChains(d);
    SizeLimit(d);
    var it := new DictIterator(d);
    e := it.Next();
    assert Elements(Flat(d.chains)) == {} ==> Flat(d.chains) == [] by {
      if Flat(d.chains) != [] {
        assert Flat(d.chains)[0] in Elements(Flat(d.chains));
      }
    }
  }

  lemma SizeLimit<K(!new), V(!new)>(d: Dict<K, V>)
    requires d.Valid()
    ensures d.size <= TWO_31
  {
  }
}
