/** The chained hash table of dict.c. */
module Dicts {
  import opened Bytes
  import Bits

  type Word = x: int | 0 <= x < TWO_32

  /** An entry; keys are compared by value. */
  class Entry<K, V> {
    const key: K
    var val: V
    var next: Entry?<K, V>

    constructor (k: K, v: V, n: Entry?<K, V>)
      ensures key == k && val == v && next == n
    {
      key, val, next := k, v, n;
    }
  }

  // ---------------------------------------------------------------------------------------
  // Chains
  // ---------------------------------------------------------------------------------------

  /** Following `next` from `head` passes exactly the entries of `c` and arrives at `last`. */
  ghost predicate Linked<K(!new), V(!new)>(head: Entry?<K, V>, c: seq<Entry<K, V>>, last: Entry?<K, V>)
    reads c`next
  {
    if c == [] then head == last else head == c[0] && Linked(c[0].next, c[1..], last)
  }

  lemma LinkedHead<K(!new), V(!new)>(head: Entry?<K, V>, c: seq<Entry<K, V>>)
    requires Linked(head, c, null)
    ensures head == First(c)
  {
  }

  lemma {:induction false} LinkedJoin<K(!new), V(!new)>(head: Entry?<K, V>, a: seq<Entry<K, V>>, mid: Entry?<K, V>,
                                      b: seq<Entry<K, V>>, last: Entry?<K, V>)
    requires Linked(head, a, mid) && Linked(mid, b, last)
    ensures Linked(head, a + b, last)
  {
    if a == [] {
      assert a + b == b;
    } else {
      LinkedJoin(a[0].next, a[1..], mid, b, last);
      assert (a + b)[1..] == a[1..] + b;
    }
  }

  /** The first entry of a chain. */
  function First<K(!new), V(!new)>(c: seq<Entry<K, V>>): Entry?<K, V> {
    if c == [] then null else c[0]
  }

  lemma {:induction false} LinkedSuffix<K(!new), V(!new)>(head: Entry?<K, V>, a: seq<Entry<K, V>>, b: seq<Entry<K, V>>)
    requires Linked(head, a + b, null)
    ensures Linked(First(b), b, null) && Linked(head, a, First(b))
  {
    if a == [] {
      assert a + b == b;
    } else {
      assert (a + b)[1..] == a[1..] + b;
      LinkedSuffix(a[0].next, a[1..], b);
    }
  }

  predicate NoDup<T(==)>(c: seq<T>) {
    forall i, j :: 0 <= i < j < |c| ==> c[i] != c[j]
  }

  // ---------------------------------------------------------------------------------------
  // Sizes
  // ---------------------------------------------------------------------------------------

  const INITIAL_SIZE: nat := 4
  const LONG_MAX: nat := TWO_63 - 1

  ghost predicate PowerOfTwo(n: nat) {
    exists k: nat :: n == Bits.Pow2(k)
  }

  lemma DoubledPower(n: nat)
    requires PowerOfTwo(n)
    ensures PowerOfTwo(2 * n)
  {
    var k: nat :| n == Bits.Pow2(k);
    assert 2 * n == Bits.Pow2(k + 1);
  }

  /** `_dictNextPower`: the least power of two from 4 on that is not below `size`. */
  method NextPower(size: nat) returns (i: nat)
    ensures size >= LONG_MAX ==> i == LONG_MAX
    ensures size < LONG_MAX ==> PowerOfTwo(i) && i >= size && i >= 4 && (i > 4 ==> i < 2 * size)
  {
    i := INITIAL_SIZE;
    assert Bits.Pow2(2) == 4;
    if size >= LONG_MAX {
      return LONG_MAX;
    }
    while i < size
      invariant PowerOfTwo(i) && i >= 4 && (i > 4 ==> i < 2 * size)
      decreases size - i
    {
      DoubledPower(i);
      i := i * 2;
    }
  }

  lemma SamePower(a: nat, b: nat)
    requires PowerOfTwo(a) && b <= a && (a > 4 ==> a < 2 * b) && (b == 4 || (PowerOfTwo(b) && b > 4))
    ensures a == b
  {
    assert Bits.Pow2(2) == 4;
    assert PowerOfTwo(b);
    var j: nat, k: nat :| a == Bits.Pow2(j) && b == Bits.Pow2(k);
    if j > k {
      Pow2Grows(k + 1, j);
    } else {
      Pow2Grows(j, k);
    }
  }

  lemma {:induction false} AndAtMost(a: nat, m: nat)
    ensures Bits.And(a, m) <= m
    decreases a
  {
    if a > 0 {
      AndAtMost(a / 2, m / 2);
    }
  }

  lemma {:induction false} Pow2Grows(a: nat, b: nat)
    requires a <= b
    ensures Bits.Pow2(a) <= Bits.Pow2(b)
  {
    if a < b {
      Pow2Grows(a, b - 1);
    }
  }

  function Bucket(h: Word, size: nat): (i: nat)
    requires size > 0
    ensures i < size
  {
    AndAtMost(h, size - 1);
    Bits.And(h, size - 1)
  }

  /** For a power of two masking is the remainder, so entries spread over all buckets. */
  lemma BucketIsRemainder(h: Word, size: nat)
    requires size > 0 && PowerOfTwo(size)
    ensures Bucket(h, size) == h % size
  {
    var k: nat :| size == Bits.Pow2(k);
    Bits.AndMask(h, k);
  }

  /** The largest table whose bucket indices fit an `int`. */
  const MAX_SIZE: nat := TWO_31

  /** The chain of bucket `i`: the entries of that bucket, each once. */
  ghost predicate InBucket<K(!new), V(!new)>(hash: K -> Word, c: seq<Entry<K, V>>, i: nat, n: nat,
                                             all: set<Entry<K, V>>)
    requires n > 0
  {
    && NoDup(c)
    && (forall e :: e in c ==> e in all && Bucket(hash(e.key), n) == i)
    && (forall e :: e in all && Bucket(hash(e.key), n) == i ==> e in c)
  }

  /** The entries `all` are distributed over the chains, each in the bucket of its hash. */
  ghost predicate Spread<K(!new), V(!new)>(hash: K -> Word, chains: seq<seq<Entry<K, V>>>, all: set<Entry<K, V>>) {
    && (chains == [] ==> all == {})
    && forall i :: 0 <= i < |chains| ==> InBucket(hash, chains[i], i, |chains|, all)
  }

  lemma SpreadNothing<K(!new), V(!new)>(hash: K -> Word, chains: seq<seq<Entry<K, V>>>)
    requires forall i :: 0 <= i < |chains| ==> chains[i] == []
    ensures Spread(hash, chains, {})
  {
  }

  /** Putting a new entry in front of its chain. */
  lemma SpreadMore<K(!new), V(!new)>(hash: K -> Word, chains: seq<seq<Entry<K, V>>>, all: set<Entry<K, V>>,
                                     e: Entry<K, V>, more: seq<seq<Entry<K, V>>>)
    requires Spread(hash, chains, all) && e !in all && chains != []
    requires var h := Bucket(hash(e.key), |chains|); more == chains[h := [e] + chains[h]]
    ensures Spread(hash, more, all + {e})
  {
    hide Bucket;
    forall i | 0 <= i < |more| ensures InBucket(hash, more[i], i, |more|, all + {e}) {
      assert InBucket(hash, chains[i], i, |chains|, all);
      assert more[i] == if i == Bucket(hash(e.key), |chains|) then [e] + chains[i] else chains[i];
    }
  }

  /** The chains from the i-th on hang in the table. */
  ghost predicate LinkedFrom<K(!new), V(!new)>(table: array<Entry?<K, V>>, chains: seq<seq<Entry<K, V>>>,
                                               all: set<Entry<K, V>>,
                                               i: nat)
    reads table, all`next
  {
    && table.Length == |chains|
    && (forall k :: i <= k < |chains| ==> Within(chains[k], all) && Linked(table[k], chains[k], null))
  }

  /** The chains hang in the table. */
  ghost predicate AllLinked<K(!new), V(!new)>(table: array<Entry?<K, V>>, chains: seq<seq<Entry<K, V>>>,
                                              all: set<Entry<K, V>>)
    reads table, all`next
  {
    LinkedFrom(table, chains, all, 0)
  }

  lemma NothingLinked<K(!new), V(!new)>(table: array<Entry?<K, V>>, chains: seq<seq<Entry<K, V>>>)
    requires table.Length == |chains|
    requires forall k :: 0 <= k < |chains| ==> chains[k] == [] && table[k] == null
    ensures AllLinked(table, chains, {})
  {
  }

  lemma SameLength<K(!new), V(!new)>(table: array<Entry?<K, V>>, chains: seq<seq<Entry<K, V>>>, all: set<Entry<K, V>>)
    requires AllLinked(table, chains, all)
    ensures table.Length == |chains|
  {
  }

  ghost function Elements<T>(c: seq<T>): set<T> {
    set e | e in c
  }

  lemma NoElements<T>()
    ensures Elements<T>([]) == {}
  {
  }

  lemma HeadOnce<T>(c: seq<T>, a: seq<T>, b: seq<T>)
    requires NoDup(c) && c == a + b && b != []
    ensures b[0] !in b[1..] && b[0] !in a
  {
    forall k | 0 <= k < |b| - 1 ensures b[1..][k] != b[0] {
      assert c[|a|] == b[0] && c[|a| + 1 + k] == b[1..][k];
    }
    forall k | 0 <= k < |a| ensures a[k] != b[0] {
      assert c[|a|] == b[0] && c[k] == a[k];
    }
  }

  lemma ElementsSnoc<T>(c: seq<T>, x: T)
    ensures Elements(c + [x]) == Elements(c) + {x}
  {
  }

  ghost predicate Within<T>(c: seq<T>, all: set<T>) {
    forall e :: e in c ==> e in all
  }

  ghost predicate UniqueKeys<K(!new), V(!new)>(all: set<Entry<K, V>>) {
    forall a, b :: a in all && b in all && a.key == b.key ==> a == b
  }

  /** `all` holds exactly the pairs of `m`. */
  ghost predicate Holds<K(!new), V(!new)>(all: set<Entry<K, V>>, m: map<K, V>)
    reads all`val
  {
    && (forall e :: e in all ==> e.key in m && m[e.key] == e.val)
    && (forall k :: k in m ==> exists e :: e in all && e.key == k)
  }

  class Dict<K(==, !new), V(!new)> {
    const hash: K -> Word
    var table: array?<Entry?<K, V>>
    var size: nat
    var sizemask: nat
    var used: nat

    /** The entries, bucket by bucket; all of them; and the map they stand for. */
    ghost var chains: seq<seq<Entry<K, V>>>
    ghost var all: set<Entry<K, V>>
    ghost var model: map<K, V>

    ghost function Repr(): set<object>
      reads `table, `all
    {
      {this} + all + if table == null then {} else {table}
    }

    ghost predicate SizesOk()
      reads `table, `size, `sizemask, `used, `chains, `all
    {
      && size == |chains| == (if table == null then 0 else table.Length)
      && (size > 0 ==> sizemask == size - 1 && PowerOfTwo(size) && INITIAL_SIZE <= size <= MAX_SIZE)
      && (size == 0 ==> sizemask == 0 && table == null)
      && used == |all| <= size
    }

    ghost predicate LinksOk()
      reads `table, `chains, table, `all, all`next
    {
      if table == null then chains == [] else AllLinked(table, chains, all)
    }

    ghost predicate Valid()
      reads this, Repr()
    {
      && SizesOk() && LinksOk()
      && Spread(hash, chains, all)
      && UniqueKeys(all) && Holds(all, model)
    }

    /** `dictCreate` */
    constructor (h: K -> Word)
      ensures Valid() && hash == h && model == map[] && fresh(Repr()) && size == 0
    {
      hash := h;
      table := null;
      size, sizemask, used := 0, 0, 0;
      chains, all, model := [], {}, map[];
    }

    /** Move the first entry of a chain. */
    method MoveHead(nt: array<Entry?<K, V>>, he: Entry<K, V>, ghost rest: seq<Entry<K, V>>,
                    ghost newChains: seq<seq<Entry<K, V>>>, ghost moved: set<Entry<K, V>>)
      returns (nextHe: Entry?<K, V>, ghost more: seq<seq<Entry<K, V>>>)
      requires nt.Length > 0 && Spread(hash, newChains, moved) && AllLinked(nt, newChains, moved)
      requires rest != [] && he == rest[0] && he !in rest[1..] && Linked(he, rest, null)
      requires he in all && he !in moved && moved <= all && used + |moved| == |all|
      modifies nt, he`next, `used
      ensures Spread(hash, more, moved + {he}) && AllLinked(nt, more, moved + {he})
      ensures Linked(nextHe, rest[1..], null)
      ensures used + |moved + {he}| == |all|
    {
      hide Spread, AllLinked;
      nextHe := he.next;
      SmallerSubset(moved + {he}, all);
      BucketIs(hash(he.key), nt.Length);
      var h := Bits.And(hash(he.key), nt.Length - 1);
      more := Hang(hash, nt, h, he, newChains, moved);
      used := used - 1;
    }

    /** Move one chain to the new table. */
    method MoveChain(nt: array<Entry?<K, V>>, head: Entry?<K, V>, ghost c: seq<Entry<K, V>>,
                     ghost newChains: seq<seq<Entry<K, V>>>, ghost moved: set<Entry<K, V>>)
      returns (ghost more: seq<seq<Entry<K, V>>>)
      requires nt.Length > 0 && Spread(hash, newChains, moved) && AllLinked(nt, newChains, moved)
      requires Linked(head, c, null) && NoDup(c) && Within(c, all) && moved <= all
      requires forall e :: e in c ==> e !in moved
      requires used + |moved| == |all|
      modifies nt, c`next, `used
      ensures var now := moved + Elements(c);
              && Spread(hash, more, now) && AllLinked(nt, more, now) && used + |now| == |all|
    {
      hide Spread, AllLinked, Elements, NoDup, Linked;
      more := newChains;
      ghost var now: set<Entry<K, V>>, done: seq<Entry<K, V>>, rest := moved, [], c;
      NoElements<Entry<K, V>>();
      var he := head;
      while he != null
        invariant c == done + rest && Linked(he, rest, null) && now == moved + Elements(done)
        invariant forall e :: e in rest ==> e !in now
        invariant Spread(hash, more, now) && AllLinked(nt, more, now)
        invariant now <= all && used + |now| == |all|
        decreases |rest|
      {
        LinkedHead(he, rest);
        ghost var e: Entry<K, V> := he;
        assert c[|done|] == e && e in c;
        ElementsSnoc(done, e);
        HeadOnce(c, done, rest);
        assert rest == [e] + rest[1..];
        Assoc(done, [e], rest[1..]);
        he, more := MoveHead(nt, he, rest, more, now);
        now := now + {e};
        done := done + [e];
        rest := rest[1..];
      }
      LinkedHead(he, rest);
      assert done == c;
    }

    /** The entries of the first `i` buckets. */
    ghost function UpTo(i: nat): set<Entry<K, V>>
      reads `all, `size
    {
      set e | e in all && size > 0 && Bucket(hash(e.key), size) < i
    }

    lemma NextBucket(i: nat)
      requires Spread(hash, chains, all) && i < size == |chains|
      ensures NoDup(chains[i]) && Within(chains[i], all)
      ensures forall e :: e in chains[i] ==> e !in UpTo(i)
      ensures UpTo(i + 1) == UpTo(i) + Elements(chains[i])
    {
      assert InBucket(hash, chains[i], i, size, all);
    }

    lemma OtherBuckets(i: nat, k: nat)
      requires Spread(hash, chains, all) && i < size == |chains| && k < size && i != k
      ensures forall e :: e in chains[i] ==> e !in chains[k]
    {
      assert InBucket(hash, chains[i], i, size, all) && InBucket(hash, chains[k], k, size, all);
    }

    /** Move the i-th chain; the later ones keep hanging in the old table. */
    method MoveBucket(i: nat, nt: array<Entry?<K, V>>, ghost newChains: seq<seq<Entry<K, V>>>)
      returns (ghost more: seq<seq<Entry<K, V>>>)
      requires i < size == |chains| && table != null && nt != table && Spread(hash, chains, all)
      requires LinkedFrom(table, chains, all, i)
      requires nt.Length > 0 && Spread(hash, newChains, UpTo(i)) && AllLinked(nt, newChains, UpTo(i))
      requires used + |UpTo(i)| == |all|
      modifies nt, all`next, `used
      ensures LinkedFrom(table, chains, all, i + 1)
      ensures Spread(hash, more, UpTo(i + 1)) && AllLinked(nt, more, UpTo(i + 1))
      ensures used + |UpTo(i + 1)| == |all|
    {
      hide Spread, Bucket, AllLinked, NoDup;
      NextBucket(i);
      ghost var c := chains[i];
      more := MoveChain(nt, table[i], c, newChains, UpTo(i));
      forall k | i < k < size ensures Linked(table[k], chains[k], null) {
        OtherBuckets(i, k);
        assert old(Linked(table[k], chains[k], null));
        assert forall e :: e in chains[k] ==> e.next == old(e.next);
      }
    }

    /** Move the chains one by one, until no entry is left. */
    method MoveAll(nt: array<Entry?<K, V>>, ghost empty: seq<seq<Entry<K, V>>>)
      returns (ghost newChains: seq<seq<Entry<K, V>>>)
      requires SizesOk() && LinksOk() && Spread(hash, chains, all)
      requires nt != table && nt.Length > 0 && Spread(hash, empty, {}) && AllLinked(nt, empty, {})
      modifies nt, all`next, `used
      ensures Spread(hash, newChains, all) && AllLinked(nt, newChains, all) && used == 0
    {
      hide Spread, Bucket, LinkedFrom;
      newChains := empty;
      assert UpTo(0) == {};
      var i := 0;
      while i < size && used > 0
        invariant 0 <= i <= size && (i < size ==> LinkedFrom(table, chains, all, i))
        invariant Spread(hash, newChains, UpTo(i)) && AllLinked(nt, newChains, UpTo(i))
        invariant used + |UpTo(i)| == |all|
      {
        newChains := MoveBucket(i, nt, newChains);
        i := i + 1;
      }
      SmallerSubset(UpTo(i), all);
      AllMoved(i);
    }

    lemma AllMoved(i: nat)
      requires Spread(hash, chains, all) && size == |chains|
      ensures i >= size ==> UpTo(i) == all
    {
    }

    lemma RealSizeFits(newSize: nat, realSize: nat)
      requires newSize <= MAX_SIZE && PowerOfTwo(realSize)
      requires realSize <= INITIAL_SIZE || realSize < 2 * newSize
      ensures realSize <= MAX_SIZE
    {
      var k: nat :| realSize == Bits.Pow2(k);
      Bits.Pow2Values();
      assert Bits.Pow2(31) * 2 == Bits.Pow2(32);
      if k >= 32 {
        Pow2Grows(32, k);
      } else {
        Pow2Grows(k, 31);
      }
    }

    /** Make the new table the table. */
    method Install(nt: array<Entry?<K, V>>, realSize: nat, count: nat, ghost newChains: seq<seq<Entry<K, V>>>)
      requires nt.Length == realSize == |newChains| && PowerOfTwo(realSize) && INITIAL_SIZE <= realSize <= MAX_SIZE
      requires count == |all| <= realSize
      requires Spread(hash, newChains, all) && AllLinked(nt, newChains, all)
      requires UniqueKeys(all) && Holds(all, model)
      modifies `table, `size, `sizemask, `used, `chains
      ensures Valid() && table == nt && size == realSize && chains == newChains && used == count
    {
      hide Spread, AllLinked, UniqueKeys, Holds, PowerOfTwo;
      table := nt;
      size := realSize;
      sizemask := realSize - 1;
      used := count;
      chains := newChains;
    }

    /** `dictExpand`: a new table, with every entry hung in its new bucket. Refused if the
        entries would not fit. */
    method Expand(newSize: nat) returns (ok: bool)
      requires Valid() && newSize <= MAX_SIZE
      modifies `table, `size, `sizemask, `used, `chains, all`next
      ensures Valid() && ok == (used <= newSize) && used == old(used)
      ensures !ok ==> table == old(table) && chains == old(chains)
      ensures !ok ==> size == old(size)
      ensures ok ==> PowerOfTwo(size) && size >= newSize && size >= 4 && (size > 4 ==> size < 2 * newSize)
      ensures ok ==> fresh(table)
    {
      hide Spread, AllLinked, UniqueKeys, Holds, PowerOfTwo;
      var realSize := NextPower(newSize);
      if used > newSize {
        return false;
      }
      RealSizeFits(newSize, realSize);
      var nt := new Entry?<K, V>[realSize](_ => null);
      ghost var newChains: seq<seq<Entry<K, V>>> := seq(realSize, _ => []);
      SpreadNothing(hash, newChains);
      NothingLinked(nt, newChains);
      var newUsed := used;
      newChains := MoveAll(nt, newChains);
      SameLength(nt, newChains, all);
      Install(nt, realSize, newUsed, newChains);
      ok := true;
    }

    /** The size of a table that has room for one entry more: 4 at first, then twice as much
        whenever it is full. */
    function RoomySize(): (n: nat)
      reads `size, `used
    {
      if size == 0 then 4 else if used == size then 2 * size else size
    }

    /** `_dictExpandIfNeeded`: afterwards there is room for one more. */
    method ExpandIfNeeded() returns (ok: bool)
      requires Valid() && used < MAX_SIZE
      modifies `table, `size, `sizemask, `used, `chains, all`next
      ensures Valid() && ok && used == old(used) && used < size == old(RoomySize())
      ensures if size == old(size) then table == old(table) && chains == old(chains) else fresh(table)
    {
      hide Spread, LinksOk, UniqueKeys, Holds, PowerOfTwo;
      ok := true;
      if size == 0 {
        ok := Expand(INITIAL_SIZE);
        SamePower(size, 4);
      } else if used == size {
        DoubleFits(size);
        ghost var n := size;
        ok := Expand(size * 2);
        SamePower(size, 2 * n);
      }
    }

    lemma DoubleFits(n: nat)
      requires PowerOfTwo(n) && n < MAX_SIZE
      ensures 2 * n <= MAX_SIZE && PowerOfTwo(2 * n)
    {
      DoubledPower(n);
      RealSizeFits(MAX_SIZE, 2 * n);
    }

    /** The bucket of a key: `dictHashKey(ht, key) & ht->sizemask`. */
    function Slot(key: K): (h: nat)
      requires SizesOk() && size > 0
      reads `table, `size, `sizemask, `used, `chains, `all
      ensures h == Bucket(hash(key), size) < size == |chains| && table != null && table.Length == size
    {
      BucketIs(hash(key), size);
      Bits.And(hash(key), sizemask)
    }

    /** The first entry of a chain with the key. */
    method SearchChain(key: K, head: Entry?<K, V>, ghost c: seq<Entry<K, V>>) returns (he: Entry?<K, V>)
      requires Linked(head, c, null)
      ensures he == null ==> forall e :: e in c ==> e.key != key
      ensures he != null ==> he in c && he.key == key
    {
      he := head;
      ghost var rest := c;
      while he != null
        invariant Linked(he, rest, null) && forall e :: e in rest ==> e in c
        invariant forall e :: e in c && e !in rest ==> e.key != key
        decreases |rest|
      {
        if key == he.key {
          return he;
        }
        he := he.next;
        rest := rest[1..];
      }
    }

    /** What is in the chain of a key decides whether the key is there. */
    lemma ChainDecides(key: K)
      requires Valid() && size > 0
      ensures (exists e :: e in chains[Slot(key)] && e.key == key) <==> key in model
      ensures forall e :: e in chains[Slot(key)] ==> e in all
    {
      assert InBucket(hash, chains[Slot(key)], Slot(key), size, all);
      if key in model {
        var e :| e in all && e.key == key;
        assert e in chains[Slot(key)];
      }
    }

    /** `dictFind` */
    method Find(key: K) returns (he: Entry?<K, V>)
      requires Valid()
      ensures he == null <==> key !in model
      ensures he != null ==> he in all && he.key == key && he.val == model[key]
    {
      hide Spread, UniqueKeys;
      if size == 0 {
        NothingHeld(all, model);
        return null;
      }
      var h := Slot(key);
      ChainDecides(key);
      he := SearchChain(key, table[h], chains[h]);
    }

    lemma NothingHeld(all: set<Entry<K, V>>, m: map<K, V>)
      requires Holds(all, m) && all == {}
      ensures m == map[]
    {
    }

    /** `_dictKeyIndex`: the bucket for a new key, with room made for it, or -1. */
    method KeyIndex(key: K) returns (index: int)
      requires Valid() && used < MAX_SIZE
      modifies `table, `size, `sizemask, `used, `chains, all`next
      ensures Valid() && used == old(used) < size == old(RoomySize())
      ensures table == old(table) || fresh(table)
      ensures index == if key in model then -1 else Slot(key)
    {
      hide Spread, UniqueKeys, Holds, LinkedFrom;
      var ok := ExpandIfNeeded();
      var h := Slot(key);
      ChainDecides(key);
      HangsIn(h);
      var he := SearchChain(key, table[h], chains[h]);
      index := if he != null then -1 else h;
    }

    lemma ModelHeld()
      requires Valid()
      ensures Holds(all, model)
    {
    }

    lemma HangsIn(h: nat)
      requires table != null && AllLinked(table, chains, all) && h < |chains|
      ensures h < table.Length && Linked(table[h], chains[h], null)
    {
    }

    /** Enter a new entry in front of its chain. */
    method PushFront(index: nat, key: K, val: V)
      requires Valid() && used < size && key !in model && index == Slot(key)
      modifies `used, `chains, `all, `model, table
      ensures Valid() && model == old(model)[key := val] && used == old(used) + 1
      ensures fresh(all - old(all)) && table == old(table) && size == old(size)
      ensures |chains[index]| > 0 && chains == old(chains)[index := [chains[index][0]] + old(chains)[index]]
    {
      hide Spread, UniqueKeys, PowerOfTwo, LinkedFrom, AllLinked, Bucket, Linked, Holds;
      var entry := new Entry(key, val, null);
      HoldsMore(all, model, entry);
      ghost var more := Hang(hash, table, index, entry, chains, all);
      SameLength(table, more, all + {entry});
      Entered(more, all + {entry}, model[key := val]);
      used := used + 1;
    }

    /** The entries after one more hangs in its chain, before it is counted. */
    ghost method Entered(more: seq<seq<Entry<K, V>>>, now: set<Entry<K, V>>, m: map<K, V>)
      modifies `chains, `all, `model
      ensures chains == more && all == now && model == m
    {
      chains, all, model := more, now, m;
    }

    lemma HoldsMore(all: set<Entry<K, V>>, m: map<K, V>, e: Entry<K, V>)
      requires UniqueKeys(all) && Holds(all, m) && e.key !in m
      ensures UniqueKeys(all + {e}) && Holds(all + {e}, m[e.key := e.val]) && e !in all
    {
    }

    /** `dictAdd` */
    method Add(key: K, val: V) returns (ok: bool)
      requires Valid() && used < MAX_SIZE
      modifies Repr()
      ensures Valid() && fresh(Repr() - old(Repr())) && ok == (key !in old(model))
      ensures model == if ok then old(model)[key := val] else old(model)
      ensures used == old(used) + (if ok then 1 else 0) && size == old(RoomySize())
    {
      hide Dict.Valid;
      var index := KeyIndex(key);
      if index == -1 {
        return false;
      }
      PushFront(index, key, val);
      ok := true;
    }

    /** Change the value of an entry. */
    method SetVal(entry: Entry<K, V>, val: V)
      requires Valid() && entry in all
      modifies entry`val, `model
      ensures Valid() && model == old(model)[entry.key := val]
      ensures all == old(all) && table == old(table)
    {
      hide Spread, AllLinked, PowerOfTwo;
      entry.val := val;
      model := model[entry.key := val];
    }

    /** `dictReplace`: add, or else change the value; whether the key is new. */
    method Replace(key: K, val: V) returns (added: bool)
      requires Valid() && used < MAX_SIZE
      modifies Repr()
      ensures Valid() && fresh(Repr() - old(Repr())) && added == (key !in old(model))
      ensures model == old(model)[key := val] && used == old(used) + if added then 1 else 0
      ensures size == old(RoomySize())
    {
      hide Dict.Valid;
      added := Add(key, val);
      if added {
        return true;
      }
      var entry := Find(key);
      SetVal(entry, val);
    }

    // -------------------------------------------------------------------------------------
    // Deleting
    // -------------------------------------------------------------------------------------

    /** Take `de` out of its chain, after `prevde` if there is one before it. */
    method Unlink(h: nat, prevde: Entry?<K, V>, de: Entry<K, V>, ghost pre: seq<Entry<K, V>>,
                  ghost post: seq<Entry<K, V>>)
      requires table != null && h < table.Length
      requires Linked(table[h], pre + [de] + post, null) && NoDup(pre + [de] + post)
      requires prevde == if pre == [] then null else pre[|pre| - 1]
      modifies table, (if prevde == null then {} else {prevde})`next
      ensures Linked(table[h], pre + post, null)
      ensures forall i :: 0 <= i < table.Length && i != h ==> table[i] == old(table[i])
    {
      hide NoDup;
      ghost var next := de.next;
      UnlinkedParts(table[h], pre, de, post);
      if prevde != null {
        ghost var front := pre[..|pre| - 1];
        assert pre == front + [prevde];
        Assoc(pre, [de], post);
        Assoc(front, [pre[|pre| - 1]], [de] + post);
        LinkedSuffix(table[h], front, [pre[|pre| - 1]] + ([de] + post));
        prevde.next := de.next;
        assert Linked(prevde, [prevde], next);
        LinkedJoin(table[h], front, prevde, [prevde], next);
      } else {
        table[h] := de.next;
      }
      LinkedJoin(table[h], pre, next, post, null);
    }

    /** All chains hang in the table after one entry is unlinked. */
    method UnlinkIn(h: nat, prevde: Entry?<K, V>, de: Entry<K, V>, ghost pre: seq<Entry<K, V>>,
                    ghost post: seq<Entry<K, V>>,
                    ghost less: seq<seq<Entry<K, V>>>)
      requires table != null && h < |chains| == size
      requires chains[h] == pre + [de] + post && less == chains[h := pre + post]
      requires Spread(hash, chains, all) && AllLinked(table, chains, all)
      requires prevde == if pre == [] then null else pre[|pre| - 1]
      requires forall i :: 0 <= i < |less| ==> Within(less[i], all - {de})
      modifies table, all`next
      ensures AllLinked(table, less, all - {de})
    {
      hide Spread, Bucket, NoDup, Linked;
      HangsIn(h);
      NextBucket(h);
      Unlink(h, prevde, de, pre, post);
      forall i | 0 <= i < |less| ensures Linked(table[i], less[i], null) {
        if i != h {
          OtherBuckets(i, h);
          assert old(Linked(table[i], chains[i], null));
          assert prevde != null ==> prevde in chains[h];
          assert forall e: Entry<K, V> :: e in less[i] ==> e.next == old(e.next);
        }
      }
    }

    /** Unlink `de`, and forget it. */
    method Remove(h: nat, prevde: Entry?<K, V>, de: Entry<K, V>, ghost pre: seq<Entry<K, V>>,
                  ghost post: seq<Entry<K, V>>)
      requires Valid() && h < size == |chains| && chains[h] == pre + [de] + post
      requires prevde == if pre == [] then null else pre[|pre| - 1]
      modifies `chains, `all, `model, `used, table, all`next
      ensures Valid() && all == old(all) - {de} && model == old(model) - {de.key} && used == old(used) - 1
      ensures chains == old(chains)[h := pre + post] && table == old(table) && size == old(size)
    {
      hide Spread, PowerOfTwo, UniqueKeys, Bucket, Linked, NoDup, LinkedFrom, Holds, AllLinked;
      ghost var less := chains[h := pre + post];
      SpreadLess(hash, chains, all, h, pre, de, post, less);
      HoldsLess(all, model, de);
      UnlinkIn(h, prevde, de, pre, post, less);
      chains, all, model := less, all - {de}, model - {de.key};
      used := used - 1;
    }

    /** Find the entry with the key in a chain, and the one before it. */
    method SearchTwo(key: K, head: Entry?<K, V>, ghost c: seq<Entry<K, V>>)
      returns (prevde: Entry?<K, V>, de: Entry?<K, V>, ghost pre: seq<Entry<K, V>>, ghost post: seq<Entry<K, V>>)
      requires Linked(head, c, null)
      ensures prevde == if pre == [] then null else pre[|pre| - 1]
      ensures forall e :: e in pre ==> e.key != key
      ensures de == null ==> c == pre
      ensures de != null ==> de in c && de.key == key && c == pre + [de] + post
      ensures de == null ==> forall e :: e in c ==> e.key != key
    {
      hide Linked;
      prevde, de := null, head;
      pre, post := [], [];
      ghost var rest := c;
      while de != null && key != de.key
        invariant c == pre + rest && Linked(de, rest, null)
        invariant prevde == if pre == [] then null else pre[|pre| - 1]
        invariant forall e :: e in pre ==> e.key != key
        decreases |rest|
      {
        LinkedHead(de, rest);
        LinkedNext(de, rest);
        assert rest == [rest[0]] + rest[1..];
        Assoc(pre, [rest[0]], rest[1..]);
        pre := pre + [rest[0]];
        prevde := de;
        de := de.next;
        rest := rest[1..];
      }
      LinkedHead(de, rest);
      if de == null {
        assert c == pre;
      } else {
        post := rest[1..];
        assert rest == [rest[0]] + post;
        Assoc(pre, [rest[0]], post);
      }
    }

    /** `dictDelete`. The entry with the key is gone from its chain; nothing else changes. */
    method Delete(key: K) returns (ok: bool)
      requires Valid()
      modifies `chains, `all, `model, `used, table, all`next
      ensures Valid() && ok == (key in old(model)) && model == old(model) - {key}
      ensures table == old(table) && size == old(size) && used == old(used) - if ok then 1 else 0
      ensures all <= old(all) && forall e :: e in old(all) && e.key != key ==> e in all
      ensures size == 0 ==> chains == old(chains)
      ensures size > 0 ==> var h := Bucket(hash(key), size);
                           h < |old(chains)| && chains == old(chains)[h := Minus(old(chains)[h], key)]
    {
      hide Spread, PowerOfTwo, Bucket, Linked, NoDup, LinkedFrom, UniqueKeys, Minus;
      if size == 0 {
        NothingHeld(all, model);
        return false;
      }
      var h := Slot(key);
      ChainDecides(key);
      HangsIn(h);
      var prevde, de, pre, post := SearchTwo(key, table[h], chains[h]);
      if de == null {
        MinusAt(pre, [], key);
        assert pre + [] == pre;
        return false;
      }
      MinusAt(pre, [de] + post, key);
      Assoc(pre, [de], post);
      Remove(h, prevde, de, pre, post);
      ok := true;
    }
  }

  /** `c` without the first entry with the key. */
  function Minus<K(==), V>(c: seq<Entry<K, V>>, key: K): seq<Entry<K, V>> {
    if c == [] then [] else if c[0].key == key then c[1..] else [c[0]] + Minus(c[1..], key)
  }

  lemma {:induction false} MinusAt<K, V>(a: seq<Entry<K, V>>, b: seq<Entry<K, V>>, key: K)
    requires forall e :: e in a ==> e.key != key
    requires b == [] || b[0].key == key
    ensures Minus(a + b, key) == a + if b == [] then [] else b[1..]
  {
    if a == [] {
      assert [] + b == b;
    } else {
      assert (a + b)[1..] == a[1..] + b;
      MinusAt(a[1..], b, key);
    }
  }

  lemma LinkedNext<K(!new), V(!new)>(head: Entry?<K, V>, c: seq<Entry<K, V>>)
    requires Linked(head, c, null) && head != null
    ensures c != [] && Linked(head.next, c[1..], null)
  {
  }

  lemma UnlinkedParts<K(!new), V(!new)>(head: Entry?<K, V>, pre: seq<Entry<K, V>>, de: Entry<K, V>,
                                        post: seq<Entry<K, V>>)
    requires Linked(head, pre + [de] + post, null) && NoDup(pre + [de] + post)
    ensures Linked(head, pre, de) && Linked(de.next, post, null)
    ensures pre != [] ==> pre[|pre| - 1] !in pre[..|pre| - 1] && pre[|pre| - 1] !in post
  {
    Assoc(pre, [de], post);
    LinkedSuffix(head, pre, [de] + post);
    assert ([de] + post)[1..] == post;
    if pre != [] {
      hide Linked, NoDup;
      var front, p := pre[..|pre| - 1], pre[|pre| - 1];
      assert pre == front + [p];
      Assoc(front, [p], [de] + post);
      HeadOnce(pre + [de] + post, front, [p] + ([de] + post));
      assert ([p] + ([de] + post))[1..] == [de] + post;
    }
  }

  /** Taking one entry out of its chain. */
  lemma SpreadLess<K(!new), V(!new)>(hash: K -> Word, chains: seq<seq<Entry<K, V>>>, all: set<Entry<K, V>>, h: nat,
                                     pre: seq<Entry<K, V>>, de: Entry<K, V>, post: seq<Entry<K, V>>,
                                     less: seq<seq<Entry<K, V>>>)
    requires Spread(hash, chains, all) && h < |chains| && chains[h] == pre + [de] + post
    requires less == chains[h := pre + post]
    ensures Spread(hash, less, all - {de}) && de in all && NoDup(chains[h])
    ensures forall i :: 0 <= i < |less| ==> Within(less[i], all - {de})
  {
    hide Bucket;
    assert InBucket(hash, chains[h], h, |chains|, all);
    Assoc(pre, [de], post);
    HeadOnce(chains[h], pre, [de] + post);
    assert ([de] + post)[1..] == post;
    forall i | 0 <= i < |less| ensures InBucket(hash, less[i], i, |less|, all - {de}) {
      assert InBucket(hash, chains[i], i, |chains|, all);
      if i == h {
        NoDupLess(pre, de, post);
        assert less[h] == pre + post;
        assert forall e :: e in chains[h] <==> e in pre || e == de || e in post;
      } else {
        assert de in chains[h];
      }
    }
  }

  lemma NoDupLess<T>(a: seq<T>, x: T, b: seq<T>)
    requires NoDup(a + [x] + b)
    ensures NoDup(a + b)
  {
    var c, d := a + [x] + b, a + b;
    forall i, j | 0 <= i < j < |d| ensures d[i] != d[j] {
      var i', j' := if i < |a| then i else i + 1, if j < |a| then j else j + 1;
      assert c[i'] == d[i] && c[j'] == d[j];
    }
  }

  lemma HoldsLess<K(!new), V(!new)>(all: set<Entry<K, V>>, m: map<K, V>, de: Entry<K, V>)
    requires UniqueKeys(all) && Holds(all, m) && de in all
    ensures UniqueKeys(all - {de}) && Holds(all - {de}, m - {de.key})
  {
    forall k | k in m - {de.key} ensures exists e :: e in all - {de} && e.key == k {
      var e :| e in all && e.key == k;
      assert e in all - {de};
    }
  }

  // ---------------------------------------------------------------------------------------
  // Rehashing
  // ---------------------------------------------------------------------------------------

  lemma SmallerSubset<T>(a: set<T>, b: set<T>)
    requires a <= b
    ensures |a| <= |b| && (|a| == |b| ==> a == b)
  {
    assert b == a + (b - a);
    assert |b| == |a| + |b - a|;
  }

  /** Hang `he` in front of the chain of its bucket. */
  method Hang<K(!new), V(!new)>(ghost hash: K -> Word, nt: array<Entry?<K, V>>, h: nat, he: Entry<K, V>,
                                ghost chains: seq<seq<Entry<K, V>>>, ghost moved: set<Entry<K, V>>)
    returns (ghost more: seq<seq<Entry<K, V>>>)
    requires nt.Length > 0 && he !in moved && h == Bucket(hash(he.key), nt.Length)
    requires Spread(hash, chains, moved) && AllLinked(nt, chains, moved)
    modifies nt, he`next
    ensures Spread(hash, more, moved + {he}) && AllLinked(nt, more, moved + {he})
    ensures h < |chains| && more == chains[h := [he] + chains[h]]
  {
    hide Bucket, InBucket;
    more := chains[h := [he] + chains[h]];
    SpreadMore(hash, chains, moved, he, more);
    he.next := nt[h];
    nt[h] := he;
    forall i | 0 <= i < |more| ensures Within(more[i], moved + {he}) && Linked(nt[i], more[i], null) {
      assert Within(chains[i], moved);
      assert ([he] + chains[h])[1..] == chains[h];
    }
  }

  lemma BucketIs(h: Word, size: nat)
    requires size > 0
    ensures Bits.And(h, size - 1) == Bucket(h, size)
  {
  }

  // ---------------------------------------------------------------------------------------
  // Any sequence of operations
  // ---------------------------------------------------------------------------------------

  datatype Op<K, V> = Add(key: K, val: V) | Replace(key: K, val: V) | Delete(key: K) | Find(key: K)

  /** What an operation answers: for a search the value, else whether it succeeded (for a
      replacement, whether the key was new). */
  datatype Answer<V> = Done(ok: bool) | Found(val: Option<V>)

  function ApplyOp<K, V>(m: map<K, V>, op: Op<K, V>): (map<K, V>, Answer<V>) {
    match op
    case Add(k, v) => (if k in m then m else m[k := v], Done(k !in m))
    case Replace(k, v) => (m[k := v], Done(k !in m))
    case Delete(k) => (m - {k}, Done(k in m))
    case Find(k) => (m, Found(if k in m then Some(m[k]) else None))
  }

  function ApplyOps<K, V>(m: map<K, V>, ops: seq<Op<K, V>>): (map<K, V>, seq<Answer<V>>) {
    if ops == [] then (m, [])
    else
      var (m1, answers) := ApplyOps(m, ops[..|ops| - 1]);
      var (m2, a) := ApplyOp(m1, ops[|ops| - 1]);
      (m2, answers + [a])
  }

  method RunOp<K(==, !new), V(!new)>(d: Dict<K, V>, op: Op<K, V>) returns (a: Answer<V>)
    requires d.Valid() && d.used < MAX_SIZE
    modifies d.Repr()
    ensures d.Valid() && fresh(d.Repr() - old(d.Repr())) && d.used <= old(d.used) + 1
    ensures (d.model, a) == ApplyOp(old(d.model), op)
  {
    hide Dict.Valid;
    match op {
      case Add(k, v) =>
        var ok := d.Add(k, v);
        a := Done(ok);
      case Replace(k, v) =>
        var ok := d.Replace(k, v);
        a := Done(ok);
      case Delete(k) =>
        var ok := d.Delete(k);
        a := Done(ok);
      case Find(k) =>
        var e := d.Find(k);
        a := Found(if e == null then None else Some(e.val));
    }
  }

  /** Any sequence of operations answers as it would on a map, and leaves that map. */
  method RunOps<K(==, !new), V(!new)>(d: Dict<K, V>, ops: seq<Op<K, V>>) returns (answers: seq<Answer<V>>)
    requires d.Valid() && d.used + |ops| <= MAX_SIZE
    modifies d.Repr()
    ensures d.Valid() && fresh(d.Repr() - old(d.Repr()))
    ensures (d.model, answers) == ApplyOps(old(d.model), ops)
  {
    hide Dict.Valid, ApplyOp;
    answers := [];
    for i := 0 to |ops|
      invariant d.Valid() && fresh(d.Repr() - old(d.Repr())) && d.used <= old(d.used) + i
      invariant (d.model, answers) == ApplyOps(old(d.model), ops[..i])
    {
      assert ops[..i + 1][..i] == ops[..i];
      var a := RunOp(d, ops[i]);
      answers := answers + [a];
    }
    assert ops[..|ops|] == ops;
  }
}
