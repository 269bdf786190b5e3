/** Singly linked lists with a tail pointer and a count (lib/list.cc). */
module Lists {
  import opened Sequences

  /** `s` without its k-th element. */
  function Cut<T>(s: seq<T>, k: nat): seq<T>
    requires k < |s|
  {
    seq(|s| - 1, i requires 0 <= i < |s| - 1 => if i < k then s[i] else s[i + 1])
  }

  /** `s` with `x` put in at position k. */
  function Spliced<T>(s: seq<T>, k: nat, x: T): seq<T>
    requires k <= |s|
  {
    seq(|s| + 1, i requires 0 <= i <= |s| => if i < k then s[i] else if i == k then x else s[i - 1])
  }

  /** Position k, or the first one after it at which `s` has something bigger
      than `item`. */
  function Place<T>(s: seq<T>, item: T, compare: (T, T) -> int, k: nat): (p: nat)
    requires k <= |s|
    ensures k <= p <= |s|
    ensures forall j | k <= j < p :: compare(item, s[j]) >= 0
    ensures p < |s| ==> compare(item, s[p]) < 0
    decreases |s| - k
  {
    if k == |s| || compare(item, s[k]) < 0 then k else Place(s, item, compare, k + 1)
  }

  /** `s` with `item` before the first element that is bigger. */
  function Inserted<T>(s: seq<T>, item: T, compare: (T, T) -> int): seq<T> {
    Spliced(s, Place(s, item, compare, 0), item)
  }

  lemma PlaceUnique<T>(s: seq<T>, item: T, compare: (T, T) -> int, k: nat)
    requires k <= |s|
    requires forall j | 0 <= j < k :: compare(item, s[j]) >= 0
    requires k < |s| ==> compare(item, s[k]) < 0
    ensures Place(s, item, compare, 0) == k
  {
  }

  lemma SplicedMembers<T>(s: seq<T>, k: nat, x: T)
    requires k <= |s|
    ensures multiset(Spliced(s, k, x)) == multiset(s) + multiset{x}
  {
    assert s == s[..k] + s[k..];
    assert Spliced(s, k, x) == s[..k] + [x] + s[k..];
  }

  ghost predicate Sorted<T(!new)>(s: seq<T>, compare: (T, T) -> int) {
    forall i, j | 0 <= i < j < |s| :: compare(s[i], s[j]) <= 0
  }

  /** Comparison by a key, as all clients of sorted lists do. */
  ghost predicate ByKey<T(!new)>(compare: (T, T) -> int, key: T -> int) {
    forall x, y :: (compare(x, y) < 0 <==> key(x) < key(y)) && (compare(x, y) > 0 <==> key(x) > key(y))
  }

  /** The result is sorted, holds exactly one more element, and the new element
      comes after all that compare equal to it and before all that are bigger. */
  lemma InsertedSorted<T(!new)>(s: seq<T>, item: T, compare: (T, T) -> int, key: T -> int)
    requires ByKey(compare, key) && Sorted(s, compare)
    ensures Sorted(Inserted(s, item, compare), compare)
    ensures multiset(Inserted(s, item, compare)) == multiset(s) + multiset{item}
    ensures var k := Place(s, item, compare, 0);
            && (forall j | 0 <= j < k :: key(s[j]) <= key(item))
            && (forall j | k <= j < |s| :: key(item) < key(s[j]))
  {
    var k := Place(s, item, compare, 0);
    SplicedMembers(s, k, item);
    forall j | k <= j < |s| ensures key(item) < key(s[j]) {
      assert j > k ==> compare(s[k], s[j]) <= 0;
    }
  }

  lemma CutDistinct<T>(s: seq<T>, k: nat)
    requires k < |s| && Distinct(s)
    ensures Distinct(Cut(s, k)) && s[k] !in Cut(s, k)
  {
  }

  lemma SplicedDistinct<T>(s: seq<T>, k: nat, x: T)
    requires k <= |s| && Distinct(s) && x !in s
    ensures Distinct(Spliced(s, k, x)) && forall y | y in Spliced(s, k, x) :: y in s || y == x
  {
  }

  class Node<T> {
    var item: T
    var next: Node?<T>

    constructor (item: T)
      ensures this.item == item && next == null
    {
      this.item := item;
      next := null;
    }
  }

  class List<T(==)> {
    var first: Node?<T>
    var last: Node?<T>
    var numInList: int
    ghost var nodes: seq<Node<T>>
    ghost var items: seq<T>

    ghost predicate Valid()
      reads this, nodes
    {
      && Linked()
      && Distinct(items)
    }

    ghost predicate Linked()
      reads this, nodes
    {
      && Distinct(nodes)
      && |items| == |nodes| == numInList
      && first == (if nodes == [] then null else nodes[0])
      && last == (if nodes == [] then null else nodes[|nodes| - 1])
      && (forall i | 0 <= i < |nodes| :: nodes[i].item == items[i])
      && (forall i | 0 <= i < |nodes| :: Link(nodes, i))
    }

    static ghost predicate Link(ns: seq<Node<T>>, i: nat)
      requires i < |ns|
      reads ns[i]
    {
      ns[i].next == if i + 1 < |ns| then ns[i + 1] else null
    }

    constructor ()
      ensures Valid() && items == [] && nodes == []
    {
      first, last, numInList := null, null, 0;
      nodes, items := [], [];
    }

    method IsInList(item: T) returns (found: bool)
      requires Valid()
      ensures found <==> item in items
    {
      var ptr := first;
      ghost var i := 0;
      while ptr != null
        invariant 0 <= i <= |nodes|
        invariant ptr == if i < |nodes| then nodes[i] else null
        invariant item !in items[..i]
        decreases |nodes| - i
      {
        if item == ptr.item { return true; }
        assert Link(nodes, i);
        ptr := ptr.next;
        i := i + 1;
      }
      return false;
    }

    /** The code asserts that the item is not on the list yet. */
    method Append(item: T)
      requires Valid() && item !in items
      modifies this, nodes
      ensures Valid() && items == old(items) + [item]
      ensures exists n: Node<T> :: fresh(n) && nodes == old(nodes) + [n]
    {
      var element := new Node<T>(item);
      if first == null {
        first := element;
      } else {
        last.next := element;
      }
      last := element;
      numInList := numInList + 1;
      ghost var was := nodes;
      nodes, items := nodes + [element], items + [item];
      forall i | 0 <= i < |was| ensures Link(nodes, i) {
        assert old(Link(was, i)) && nodes[i] == was[i];
      }
    }

    method Prepend(item: T)
      requires Valid() && item !in items
      modifies this, nodes
      ensures Valid() && items == [item] + old(items)
      ensures exists n: Node<T> :: fresh(n) && nodes == [n] + old(nodes)
    {
      var element := new Node<T>(item);
      if first == null {
        last := element;
      } else {
        element.next := first;
      }
      first := element;
      numInList := numInList + 1;
      ghost var was := nodes;
      nodes, items := [element] + nodes, [item] + items;
      forall i | 0 < i < |nodes| ensures Link(nodes, i) {
        assert old(Link(was, i - 1)) && nodes[i] == was[i - 1];
      }
    }

    /** The code asserts that the list is not empty. */
    method RemoveFront() returns (thing: T)
      requires Valid() && items != []
      modifies this
      ensures Valid() && [thing] + items == old(items)
      ensures nodes == old(nodes)[1..]
    {
      thing := first.item;
      assert Link(nodes, 0);
      if first == last {
        first, last := null, null;
      } else {
        first := first.next;
      }
      numInList := numInList - 1;
      ghost var was := nodes;
      nodes, items := nodes[1..], items[1..];
      forall i | 0 <= i < |nodes| ensures Link(nodes, i) {
        assert Link(was, i + 1) && nodes[i] == was[i + 1];
      }
    }

    /** The code asserts that the item is on the list. */
    method Remove(item: T) returns (ghost k: nat)
      requires Valid() && item in items
      modifies this, nodes
      ensures Valid()
      ensures k < |old(items)| && old(items)[k] == item && items == Cut(old(items), k)
      ensures item !in items
      ensures nodes == Cut(old(nodes), k)
    {
      if item == first.item {
        k := 0;
        CutDistinct(items, 0);
        var _ := RemoveFront();
        assert items == Cut(old(items), 0) && nodes == Cut(old(nodes), 0);
      } else {
        var prev, ptr;
        prev, ptr, k := Locate(item);
        CutDistinct(items, k);
        Unlink(prev, ptr, k);
      }
    }

    /** The element with an item that is not the first, and the one before it. */
    method Locate(item: T) returns (prev: Node<T>, ptr: Node<T>, ghost k: nat)
      requires Valid() && item in items && items[0] != item
      ensures 1 <= k < |nodes| && prev == nodes[k - 1] && ptr == nodes[k] && items[k] == item
    {
      assert Link(nodes, 0);
      prev := first;
      var next := first.next;
      k := 1;
      while next != null && next.item != item
        invariant 1 <= k <= |nodes| && prev == nodes[k - 1]
        invariant next == if k < |nodes| then nodes[k] else null
        invariant item !in items[..k]
        decreases |nodes| - k
      {
        assert Link(nodes, k);
        prev, next := next, next.next;
        k := k + 1;
      }
      assert item in items[..k] + items[k..] by { assert items == items[..k] + items[k..]; }
      ptr := next;
    }

    /** Takes the k-th element out from behind the one before it. */
    method Unlink(prev: Node<T>, ptr: Node<T>, ghost k: nat)
      requires Valid() && 1 <= k < |nodes| && prev == nodes[k - 1] && ptr == nodes[k]
      modifies this, prev
      ensures Valid() && items == Cut(old(items), k) && nodes == Cut(old(nodes), k)
    {
      assert Link(nodes, k) && Link(nodes, k - 1);
      prev.next := ptr.next;
      if prev.next == null { last := prev; }
      numInList := numInList - 1;
      CutDistinct(items, k);
      CutDistinct(nodes, k);
      ghost var was := nodes;
      nodes, items := Cut(nodes, k), Cut(items, k);
      forall i | 0 <= i < |nodes| ensures Link(nodes, i) {
        var j := if i < k then i else i + 1;
        assert old(Link(was, j)) && nodes[i] == was[j];
      }
    }

    /** `SortedList::Insert`. */
    method InsertSorted(item: T, compare: (T, T) -> int)
      requires Valid() && item !in items
      modifies this, nodes
      ensures Valid() && items == Inserted(old(items), item, compare)
      ensures forall n | n in nodes :: n in old(nodes) || fresh(n)
    {
      if first == null || compare(item, first.item) < 0 {
        PlaceUnique(items, item, compare, 0);
        assert Spliced(items, 0, item) == [item] + items;
        Prepend(item);
      } else {
        var ptr := first;
        ghost var k := 1;
        assert Link(nodes, 0);
        while ptr.next != null && compare(item, ptr.next.item) >= 0
          invariant 1 <= k <= |nodes| && ptr == nodes[k - 1]
          invariant forall j | 0 <= j < k :: compare(item, items[j]) >= 0
          invariant Link(nodes, k - 1)
          decreases |nodes| - k
        {
          ptr := ptr.next;
          k := k + 1;
          assert Link(nodes, k - 1);
        }
        PlaceUnique(items, item, compare, k);
        SplicedDistinct(items, k, item);
        LinkAfter(ptr, item, k);
      }
    }

    /** Puts a new element behind the one before position k. */
    method LinkAfter(ptr: Node<T>, item: T, ghost k: nat)
      requires Valid() && item !in items && 1 <= k <= |nodes| && ptr == nodes[k - 1]
      modifies this, ptr
      ensures Valid() && items == Spliced(old(items), k, item)
      ensures forall n | n in nodes :: n in old(nodes) || fresh(n)
    {
      var element := new Node<T>(item);
      assert Link(nodes, k - 1);
      element.next := ptr.next;
      ptr.next := element;
      if element.next == null { last := element; }
      numInList := numInList + 1;
      SplicedDistinct(items, k, item);
      SplicedDistinct(nodes, k, element);
      forall j | 0 <= j < |nodes| && j != k - 1 ensures Link(nodes, j) { assert old(Link(nodes, j)); }
      SplicedLinks(nodes, k, element);
      nodes, items := Spliced(nodes, k, element), Spliced(items, k, item);
    }

    /** An element linked in at position k. */
    static lemma SplicedLinks(was: seq<Node<T>>, k: nat, element: Node<T>)
      requires 1 <= k <= |was| && was[k - 1].next == element
      requires element.next == if k < |was| then was[k] else null
      requires forall j | 0 <= j < |was| && j != k - 1 :: Link(was, j)
      ensures forall i | 0 <= i <= |was| :: Link(Spliced(was, k, element), i)
    {
      var nodes := Spliced(was, k, element);
      forall i | 0 <= i < |nodes| ensures Link(nodes, i) {
        if i < k - 1 { assert Link(was, i); }
        if i > k { assert Link(was, i - 1); }
      }
    }
  }
}
