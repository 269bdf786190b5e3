/** The self-expanding hash table with chaining (lib/hash.cc).  A bucket is the
    sequence of items on its list. */
module HashTables {
  import opened Lists
  import opened Sequences

  const INITIAL_BUCKETS := 4
  const RESIZE_RATIO := 3
  const INCREASE_SIZE_BY := 4

  /** The bucket an item belongs to, of n. */
  function Slot<Key, T>(item: T, getKey: T -> Key, hash: Key -> nat, n: nat): (s: nat)
    requires n > 0
    ensures s < n
  {
    hash(getKey(item)) % n
  }

  /** The buckets hold exactly the items of a set: each item once, in the bucket
      its key hashes to. */
  ghost predicate Holds<Key, T>(buckets: seq<seq<T>>, items: set<T>, getKey: T -> Key, hash: Key -> nat) {
    && |buckets| > 0
    && (forall i, j | 0 <= i < |buckets| && 0 <= j < |buckets[i]| ::
          buckets[i][j] in items && Slot(buckets[i][j], getKey, hash, |buckets|) == i)
    && (forall x | x in items :: x in buckets[Slot(x, getKey, hash, |buckets|)])
    && (forall i | 0 <= i < |buckets| :: Distinct(buckets[i]))
  }

  ghost predicate UniqueKeys<Key, T>(items: set<T>, getKey: T -> Key) {
    forall x, y | x in items && y in items && getKey(x) == getKey(y) :: x == y
  }

  /** The table as a map from keys to items. */
  ghost function AsMap<Key(!new), T>(items: set<T>, getKey: T -> Key): map<Key, T>
    requires UniqueKeys(items, getKey)
  {
    map x | x in items :: getKey(x) := x
  }

  lemma AppendHolds<Key, T>(buckets: seq<seq<T>>, items: set<T>, getKey: T -> Key, hash: Key -> nat, item: T)
    requires Holds(buckets, items, getKey, hash) && item !in items
    ensures var i := Slot(item, getKey, hash, |buckets|);
            Holds(buckets[i := buckets[i] + [item]], items + {item}, getKey, hash)
  {
    var i := Slot(item, getKey, hash, |buckets|);
    var b' := buckets[i := buckets[i] + [item]];
    assert item !in buckets[i];
    forall x | x in items + {item} ensures x in b'[Slot(x, getKey, hash, |b'|)] {
      assert item in b'[i];
    }
  }

  lemma CutHolds<Key, T>(buckets: seq<seq<T>>, items: set<T>, getKey: T -> Key, hash: Key -> nat, i: nat, k: nat)
    requires Holds(buckets, items, getKey, hash) && i < |buckets| && k < |buckets[i]|
    ensures buckets[i][k] in items
    ensures Holds(buckets[i := Cut(buckets[i], k)], items - {buckets[i][k]}, getKey, hash)
  {
    var item := buckets[i][k];
    var b' := buckets[i := Cut(buckets[i], k)];
    CutDistinct(buckets[i], k);
    forall x | x in items - {item} ensures x in b'[Slot(x, getKey, hash, |b'|)] {
      var s := Slot(x, getKey, hash, |buckets|);
      assert x in buckets[s];
      if s == i { CutKeeps(buckets[i], k, x); }
    }
  }

  lemma CutKeeps<T>(s: seq<T>, k: nat, x: T)
    requires k < |s| && x in s && x != s[k]
    ensures x in Cut(s, k)
  {
    var j :| 0 <= j < |s| && s[j] == x;
    assert Cut(s, k)[if j < k then j else j - 1] == x;
  }

  /** An item is found by looking in its own bucket only. */
  lemma KeyInBucket<Key(!new), T>(buckets: seq<seq<T>>, items: set<T>, getKey: T -> Key, hash: Key -> nat, key: Key,
                                  i: nat, k: nat)
    requires Holds(buckets, items, getKey, hash) && UniqueKeys(items, getKey)
    requires i < |buckets| && i == hash(key) % |buckets| && k <= |buckets[i]|
    requires forall j | 0 <= j < k :: getKey(buckets[i][j]) != key
    requires k < |buckets[i]| ==> getKey(buckets[i][k]) == key
    ensures k < |buckets[i]| ==> key in AsMap(items, getKey) && AsMap(items, getKey)[key] == buckets[i][k]
    ensures k == |buckets[i]| ==> key !in AsMap(items, getKey)
  {
    if k < |buckets[i]| {
      var x := buckets[i][k];
      assert x in items && getKey(x) == key;
    } else {
      forall x | x in items ensures getKey(x) != key {
        assert x in buckets[Slot(x, getKey, hash, |buckets|)];
      }
    }
  }

  lemma ItemsHaveBuckets<Key, T>(buckets: seq<seq<T>>, items: set<T>, getKey: T -> Key, hash: Key -> nat)
    requires Holds(buckets, items, getKey, hash)
    ensures forall x | x in items :: buckets[Slot(x, getKey, hash, |buckets|)] != []
  {
    forall x | x in items ensures buckets[Slot(x, getKey, hash, |buckets|)] != [] {
      assert x in buckets[Slot(x, getKey, hash, |buckets|)];
    }
  }

  /** After the test at the start of `Insert` there is room for one more. */
  lemma LoadBound(n: nat, b: nat)
    requires b > 0 && n <= RESIZE_RATIO * b
    ensures n / b >= RESIZE_RATIO ==> n + 1 <= RESIZE_RATIO * (INCREASE_SIZE_BY * b)
    ensures n / b < RESIZE_RATIO ==> n + 1 <= RESIZE_RATIO * b
  {
    assert n == b * (n / b) + n % b;
    if n / b < 3 { assert b * (n / b) <= b * 2; }
  }

  /** Adding an item with a new key. */
  lemma MapAdds<Key(!new), T>(items: set<T>, getKey: T -> Key, item: T)
    requires UniqueKeys(items, getKey) && getKey(item) !in AsMap(items, getKey)
    ensures item !in items && UniqueKeys(items + {item}, getKey)
    ensures AsMap(items + {item}, getKey) == AsMap(items, getKey)[getKey(item) := item]
  {
    forall x | x in items ensures getKey(x) != getKey(item) {
      assert getKey(x) in AsMap(items, getKey);
    }
  }

  lemma MapRemoves<Key(!new), T>(items: set<T>, getKey: T -> Key, item: T)
    requires UniqueKeys(items, getKey) && item in items
    ensures UniqueKeys(items - {item}, getKey)
    ensures AsMap(items - {item}, getKey) == AsMap(items, getKey) - {getKey(item)}
  {
  }

  lemma {:induction false} FlattenMember<T>(buckets: seq<seq<T>>, x: T)
    ensures x in Flatten(buckets) <==> exists i :: 0 <= i < |buckets| && x in buckets[i]
  {
    if buckets != [] {
      var rest := buckets[1..];
      FlattenMember(rest, x);
      if x in Flatten(rest) {
        var i :| 0 <= i < |rest| && x in rest[i];
        assert x in buckets[i + 1];
      }
      if i :| 0 < i < |buckets| && x in buckets[i] {
        assert x in rest[i - 1];
      }
    }
  }

  /** No two buckets share an item. */
  ghost predicate Apart<T>(buckets: seq<seq<T>>) {
    forall i, j, k, l | 0 <= i < j < |buckets| && 0 <= k < |buckets[i]| && 0 <= l < |buckets[j]| ::
      buckets[i][k] != buckets[j][l]
  }

  lemma {:induction false} FlattenDistinct<T>(buckets: seq<seq<T>>)
    requires Apart(buckets) && forall i | 0 <= i < |buckets| :: Distinct(buckets[i])
    ensures Distinct(Flatten(buckets))
  {
    if buckets != [] {
      var rest := buckets[1..];
      FlattenDistinct(rest);
      forall k, l | 0 <= k < |buckets[0]| && 0 <= l < |Flatten(rest)|
        ensures buckets[0][k] != Flatten(rest)[l]
      {
        FlattenMember(rest, Flatten(rest)[l]);
        var i :| 0 <= i < |rest| && Flatten(rest)[l] in rest[i];
        assert rest[i] == buckets[i + 1];
      }
    }
  }

  lemma {:induction false} DistinctSize<T>(s: seq<T>, items: set<T>)
    requires Distinct(s) && (forall x | x in s :: x in items) && (forall x | x in items :: x in s)
    ensures |s| == |items|
  {
    if s == [] {
      assert items == {};
    } else {
      var x, rest := s[0], s[1..];
      assert s == [x] + rest && x in s;
      DistinctSize(rest, items - {x});
    }
  }

  /** Going through the buckets in order meets every item exactly once, and the
      lengths of the buckets add up to the number of items. */
  lemma FlattenHolds<Key, T>(buckets: seq<seq<T>>, items: set<T>, getKey: T -> Key, hash: Key -> nat)
    requires Holds(buckets, items, getKey, hash)
    ensures Distinct(Flatten(buckets)) && |Flatten(buckets)| == |items|
    ensures forall x | x in Flatten(buckets) :: x in items
    ensures forall x | x in items :: x in Flatten(buckets)
  {
    assert Apart(buckets);
    FlattenDistinct(buckets);
    forall x | x in Flatten(buckets) ensures x in items { FlattenMember(buckets, x); }
    forall x | x in items ensures x in Flatten(buckets) { FlattenMember(buckets, x); }
    DistinctSize(Flatten(buckets), items);
  }

  lemma {:induction false} FlattenSkips<T>(buckets: seq<seq<T>>, a: nat, r: nat)
    requires a <= r <= |buckets| && forall j | a <= j < r :: buckets[j] == []
    ensures Flatten(buckets[a..]) == Flatten(buckets[r..])
    decreases r - a
  {
    if a < r {
      FlattenSkips(buckets, a + 1, r);
      assert buckets[a..][1..] == buckets[a + 1..];
    }
  }

  class HashTable<Key(==, !new), T(==)> {
    const getKey: T -> Key
    const hash: Key -> nat
    var buckets: array<seq<T>>
    var numItems: int
    ghost var items: set<T>

    ghost predicate Valid()
      reads this, buckets
    {
      && Holds(buckets[..], items, getKey, hash)
      && UniqueKeys(items, getKey)
      && numItems == |items|
      && numItems <= 3 * buckets.Length
    }

    ghost function Contents(): map<Key, T>
      reads this, buckets
      requires Valid()
    {
      AsMap(items, getKey)
    }

    constructor (get: T -> Key, hFunc: Key -> nat)
      ensures Valid() && getKey == get && hash == hFunc && fresh(buckets)
      ensures Contents() == map[]
    {
      getKey, hash := get, hFunc;
      numItems := 0;
      buckets := new seq<T>[INITIAL_BUCKETS](_ => []);
      items := {};
    }

    method FindInBucket(bucket: nat, key: Key) returns (k: nat)
      requires bucket < buckets.Length
      ensures k <= |buckets[bucket]|
      ensures forall j | 0 <= j < k :: getKey(buckets[bucket][j]) != key
      ensures k < |buckets[bucket]| ==> getKey(buckets[bucket][k]) == key
    {
      k := 0;
      while k < |buckets[bucket]| && getKey(buckets[bucket][k]) != key
        invariant k <= |buckets[bucket]|
        invariant forall j | 0 <= j < k :: getKey(buckets[bucket][j]) != key
      {
        k := k + 1;
      }
    }

    method Find(key: Key) returns (found: bool, itemPtr: seq<T>)
      requires Valid()
      ensures found <==> key in Contents()
      ensures itemPtr == if found then [Contents()[key]] else []
    {
      var bucket := hash(key) % buckets.Length;
      var k := FindInBucket(bucket, key);
      KeyInBucket(buckets[..], items, getKey, hash, key, bucket, k);
      found := k < |buckets[bucket]|;
      itemPtr := if found then [buckets[bucket][k]] else [];
    }

    /** The code asserts that the key is not in the table. */
    method Insert(item: T)
      requires Valid() && getKey(item) !in Contents()
      modifies this, buckets
      ensures Valid() && Contents() == old(Contents())[getKey(item) := item]
      ensures buckets == old(buckets) || fresh(buckets)
    {
      MapAdds(items, getKey, item);
      LoadBound(numItems, buckets.Length);
      if numItems / buckets.Length >= RESIZE_RATIO {
        ReHash();
      }
      AppendToBucket(item);
    }

    method AppendToBucket(item: T)
      requires Holds(buckets[..], items, getKey, hash) && item !in items
      modifies this, buckets
      ensures Holds(buckets[..], items, getKey, hash) && items == old(items) + {item}
      ensures buckets == old(buckets) && numItems == old(numItems) + 1
    {
      var bucket := Slot(item, getKey, hash, buckets.Length);
      AppendHolds(buckets[..], items, getKey, hash, item);
      ghost var was := buckets[..];
      buckets[bucket] := buckets[bucket] + [item];
      assert buckets[..] == was[bucket := was[bucket] + [item]];
      numItems := numItems + 1;
      items := items + {item};
    }

    /** Four times as many buckets, with the same items. */
    method ReHash()
      requires Holds(buckets[..], items, getKey, hash)
      modifies this, buckets
      ensures fresh(buckets) && buckets.Length == 4 * old(buckets.Length)
      ensures items == old(items) && numItems == old(numItems)
      ensures Holds(buckets[..], items, getKey, hash)
    {
      var oldTable := buckets;
      buckets := new seq<T>[oldTable.Length * INCREASE_SIZE_BY](_ => []);
      ghost var moved: set<T> := {};
      assert items - moved == items;
      var i := 0;
      while i < oldTable.Length
        invariant i <= oldTable.Length && fresh(buckets) && oldTable == old(buckets) && buckets != oldTable
        invariant buckets.Length == 4 * oldTable.Length
        invariant items == old(items) && numItems == old(numItems) && moved <= items
        invariant Holds(buckets[..], moved, getKey, hash)
        invariant Holds(oldTable[..], items - moved, getKey, hash)
        invariant forall j | 0 <= j < i :: oldTable[j] == []
      {
        while oldTable[i] != []
          invariant fresh(buckets) && buckets != oldTable && buckets.Length == 4 * oldTable.Length
          invariant items == old(items) && numItems == old(numItems) && moved <= items
          invariant Holds(buckets[..], moved, getKey, hash)
          invariant Holds(oldTable[..], items - moved, getKey, hash)
          invariant forall j | 0 <= j < i :: oldTable[j] == []
          decreases |oldTable[i]|
        {
          moved := MoveFront(oldTable, i, moved);
        }
        i := i + 1;
      }
      ItemsHaveBuckets(oldTable[..], items - moved, getKey, hash);
      assert moved == items;
    }

    /** One item from the front of an old bucket to the end of its new one. */
    method MoveFront(oldTable: array<seq<T>>, i: nat, ghost moved: set<T>) returns (ghost moved': set<T>)
      requires oldTable != buckets && i < oldTable.Length && oldTable[i] != [] && moved <= items
      requires Holds(buckets[..], moved, getKey, hash)
      requires Holds(oldTable[..], items - moved, getKey, hash)
      modifies oldTable, buckets
      ensures moved' <= items
      ensures Holds(buckets[..], moved', getKey, hash)
      ensures Holds(oldTable[..], items - moved', getKey, hash)
      ensures oldTable[i] == old(oldTable[i])[1..]
      ensures forall j | 0 <= j < oldTable.Length && j != i :: oldTable[j] == old(oldTable[j])
    {
      var item := oldTable[i][0];
      ghost var from, to := oldTable[..], buckets[..];
      CutHolds(from, items - moved, getKey, hash, i, 0);
      assert Cut(from[i], 0) == from[i][1..];
      oldTable[i] := oldTable[i][1..];
      assert oldTable[..] == from[i := from[i][1..]];
      var bucket := Slot(item, getKey, hash, buckets.Length);
      AppendHolds(to, moved, getKey, hash, item);
      buckets[bucket] := buckets[bucket] + [item];
      assert buckets[..] == to[bucket := to[bucket] + [item]];
      moved' := moved + {item};
      assert items - moved' == items - moved - {item};
    }

    /** The code asserts that the key is in the table. */
    method Remove(key: Key) returns (item: T)
      requires Valid() && key in Contents()
      modifies this, buckets
      ensures Valid() && Contents() == old(Contents()) - {key}
      ensures item == old(Contents()[key]) && buckets == old(buckets)
    {
      var bucket := hash(key) % buckets.Length;
      var k := FindInBucket(bucket, key);
      KeyInBucket(buckets[..], items, getKey, hash, key, bucket, k);
      item := buckets[bucket][k];
      CutHolds(buckets[..], items, getKey, hash, bucket, k);
      MapRemoves(items, getKey, item);
      ghost var was := buckets[..];
      buckets[bucket] := Cut(buckets[bucket], k);
      assert buckets[..] == was[bucket := Cut(was[bucket], k)];
      numItems := numItems - 1;
      items := items - {item};
    }

    method FindNextFullBucket(start: nat) returns (bucket: nat)
      requires start <= buckets.Length
      ensures start <= bucket <= buckets.Length
      ensures forall j | start <= j < bucket :: buckets[j] == []
      ensures bucket < buckets.Length ==> buckets[bucket] != []
    {
      bucket := start;
      while bucket < buckets.Length && buckets[bucket] == []
        invariant start <= bucket <= buckets.Length
        invariant forall j | start <= j < bucket :: buckets[j] == []
      {
        bucket := bucket + 1;
      }
    }
  }

  /** The items from a position in a bucket on. */
  function RestOf<T>(buckets: seq<seq<T>>, bucket: nat, position: nat): seq<T>
    requires bucket <= |buckets| && (bucket < |buckets| ==> position <= |buckets[bucket]|)
  {
    if bucket == |buckets| then [] else buckets[bucket][position..] + Flatten(buckets[bucket + 1..])
  }

  /** The first item at or after a bucket is at the start of the next full one. */
  lemma AtBucketStart<T>(buckets: seq<seq<T>>, start: nat, bucket: nat)
    requires start <= bucket <= |buckets| && forall j | start <= j < bucket :: buckets[j] == []
    ensures Flatten(buckets[start..]) == RestOf(buckets, bucket, 0)
  {
    FlattenSkips(buckets, start, bucket);
    if bucket < |buckets| { assert buckets[bucket..][1..] == buckets[bucket + 1..]; }
  }

  lemma RestSteps<T>(buckets: seq<seq<T>>, bucket: nat, position: nat)
    requires bucket < |buckets| && position < |buckets[bucket]|
    ensures RestOf(buckets, bucket, position) != []
    ensures RestOf(buckets, bucket, position)[0] == buckets[bucket][position]
    ensures RestOf(buckets, bucket, position)[1..] == RestOf(buckets, bucket, position + 1)
  {
  }

  /** At the end of a bucket the rest is that of the buckets behind it. */
  lemma RestAtEnd<T>(buckets: seq<seq<T>>, bucket: nat, next: nat)
    requires bucket < |buckets| && bucket < next <= |buckets|
    requires forall j | bucket < j < next :: buckets[j] == []
    ensures RestOf(buckets, bucket, |buckets[bucket]|) == RestOf(buckets, next, 0)
  {
    AtBucketStart(buckets, bucket + 1, next);
  }

  lemma VisitOne<T>(visited: seq<T>, rest: seq<T>)
    requires rest != []
    ensures (visited + [rest[0]]) + rest[1..] == visited + rest
  {
  }

  /** The place of the iterator within its bucket is a position on the list. */
  class HashIterator<Key(==, !new), T(==)> {
    const table: HashTable<Key, T>
    var bucket: nat
    var position: nat

    ghost predicate Valid()
      reads this, table, table.buckets
    {
      && bucket <= table.buckets.Length
      && (bucket < table.buckets.Length ==> position < |table.buckets[bucket]|)
    }

    /** The items still to come, the current one first. */
    ghost function Rest(): seq<T>
      requires Valid()
      reads this, table, table.buckets
    {
      RestOf(table.buckets[..], bucket, position)
    }

    constructor (table: HashTable<Key, T>)
      ensures this.table == table && Valid() && Rest() == Flatten(table.buckets[..])
    {
      this.table := table;
      var b := table.FindNextFullBucket(0);
      bucket, position := b, 0;
      new;
      AtBucketStart(table.buckets[..], 0, b);
      assert table.buckets[..][0..] == table.buckets[..];
    }

    method IsDone() returns (done: bool)
      requires Valid()
      ensures done <==> Rest() == []
    {
      if bucket < table.buckets.Length { RestSteps(table.buckets[..], bucket, position); }
      done := bucket == table.buckets.Length;
    }

    /** The code asserts that the iterator is not done. */
    method Item() returns (item: T)
      requires Valid() && Rest() != []
      ensures item == Rest()[0]
    {
      RestSteps(table.buckets[..], bucket, position);
      item := table.buckets[bucket][position];
    }

    method Next()
      requires Valid() && Rest() != []
      modifies this
      ensures Valid() && Rest() == old(Rest())[1..]
    {
      ghost var bs := table.buckets[..];
      RestSteps(bs, bucket, position);
      position := position + 1;
      if position == |table.buckets[bucket]| {
        var next := table.FindNextFullBucket(bucket + 1);
        RestAtEnd(bs, bucket, next);
        bucket, position := next, 0;
      }
    }
  }

  /** A loop over a table, as its users write it. */
  method Visit<Key(!new), T>(table: HashTable<Key, T>) returns (visited: seq<T>)
    ensures visited == Flatten(table.buckets[..])
  {
    visited := [];
    var it := new HashIterator<Key, T>(table);
    ghost var all, rest := it.Rest(), it.Rest();
    var done := it.IsDone();
    while !done
      invariant it.table == table && it.Valid() && rest == it.Rest() && (done <==> rest == [])
      invariant visited + rest == all
      decreases |rest|
    {
      var item := it.Item();
      VisitOne(visited, rest);
      visited := visited + [item];
      it.Next();
      rest := it.Rest();
      done := it.IsDone();
    }
  }

  /** It meets every item of the table exactly once. */
  method VisitAll<Key(!new), T>(table: HashTable<Key, T>) returns (visited: seq<T>)
    requires table.Valid()
    ensures Distinct(visited) && |visited| == table.numItems
    ensures forall x | x in visited :: x in table.items
    ensures forall x | x in table.items :: x in visited
  {
    visited := Visit(table);
    FlattenHolds(table.buckets[..], table.items, table.getKey, table.hash);
  }
}
