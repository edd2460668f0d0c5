/**
 The cache of pkg/lru/lru.go on the heap: a hash map into a doubly linked list. The list is the ring
 of Go's container/list, whose sentinel `root` stands before the first and after the last element.
 */
module Lru {
  import opened Common
  import opened Recency

  class Element<K, V> {
    var next: Element?<K, V>
    var prev: Element?<K, V>
    var item: Option<Entry<K, V>>

    constructor (item: Option<Entry<K, V>>)
      ensures this.item == item
    {
      this.item := item;
      next, prev := null, null;
    }
  }

  ghost predicate Linked<K, V>(ring: seq<Element<K, V>>)
    reads ring`next, ring`prev
  {
    && (forall i {:trigger ring[i].next} :: 0 <= i < |ring| - 1 ==> ring[i].next == ring[i + 1])
    && (forall i {:trigger ring[i].prev} :: 0 < i < |ring| ==> ring[i].prev == ring[i - 1])
  }

  /** `s` with its element at `i` moved to the front. */
  function Moved<T>(s: seq<T>, i: nat): seq<T>
    requires i < |s|
  {
    seq(|s|, j requires 0 <= j < |s| => if j == 0 then s[i] else if j <= i then s[j - 1] else s[j])
  }

  lemma MovedIsDrop<T>(s: seq<T>, i: nat)
    requires i < |s|
    ensures Moved(s, i) == [s[i]] + Drop(s, i)
  {
  }

  function RingOf<T>(root: T, nodes: seq<T>): seq<T> {
    [root] + nodes + [root]
  }

  /** The ring without its element at `i`: later elements move up, and apart from the root none repeats. */
  lemma RingDrop<T>(root: T, nodes: seq<T>, i: nat)
    requires root !in nodes && Distinct(nodes) && i < |nodes|
    ensures root !in Drop(nodes, i) && Distinct(Drop(nodes, i)) && |Drop(nodes, i)| == |nodes| - 1
    ensures var was, ring := RingOf(root, nodes), RingOf(root, Drop(nodes, i));
            && (forall j {:trigger ring[j]} :: 0 <= j < |ring| ==> ring[j] == if j <= i then was[j] else was[j + 1])
            && (forall j, k :: 0 <= j < k <= |nodes| ==> was[j] != was[k])
            && (forall j, k :: 1 <= j < k <= |nodes| + 1 ==> was[j] != was[k])
  {
  }

  class List<K, V> {
    const root: Element<K, V>
    var len: nat
    ghost var nodes: seq<Element<K, V>>

    /** The ring cut open at its sentinel. */
    ghost function Ring(): seq<Element<K, V>>
      reads this`nodes
    {
      RingOf(root, nodes)
    }

    ghost predicate Valid()
      reads this, root`next, root`prev, nodes`next, nodes`prev
    {
      len == |nodes| && root !in nodes && Distinct(nodes) && Linked(Ring())
    }

    constructor ()
      ensures Valid() && nodes == [] && fresh(root)
    {
      root := new Element(None);
      len, nodes := 0, [];
      new;
      root.next, root.prev := root, root;
    }

    method Back() returns (e: Element?<K, V>)
      requires Valid()
      ensures if nodes == [] then e == null else e == nodes[|nodes| - 1]
    {
      if len == 0 {
        return null;
      }
      ghost var ring := Ring();
      assert ring[|nodes| + 1].prev == ring[|nodes|];
      return root.prev;
    }

    /** Links `e` in as the first element. */
    method InsertFront(e: Element<K, V>)
      requires Valid() && e !in nodes && e != root
      modifies this, e`next, e`prev, root`next, root`prev, nodes`next, nodes`prev
      ensures Valid() && nodes == [e] + old(nodes)
    {
      ghost var was := Ring();
      assert was[0].next == was[1];
      e.prev := root;
      e.next := root.next;
      e.prev.next := e;
      e.next.prev := e;
      len := len + 1;
      nodes := [e] + nodes;
      ghost var ring := Ring();
      assert ring[0] == root && ring[1] == e && forall i :: 2 <= i < |ring| ==> ring[i] == was[i - 1];
      forall i | 0 <= i < |ring| - 1 ensures ring[i].next == ring[i + 1] {
        if 1 < i {
          assert was[i - 1] in old(nodes) && was[i - 1].next == was[i];
        }
      }
    }

    method Remove(e: Element<K, V>, ghost i: nat)
      requires Valid() && i < |nodes| && nodes[i] == e
      modifies this, root`next, root`prev, nodes`next, nodes`prev
      ensures Valid() && nodes == Drop(old(nodes), i)
    {
      ghost var was := Ring();
      assert was[i + 1] == e && was[i + 1].next == was[i + 2] && was[i + 1].prev == was[i];
      RingDrop(root, nodes, i);
      e.prev.next := e.next;
      e.next.prev := e.prev;
      e.next, e.prev := null, null;
      len := len - 1;
      nodes := Drop(nodes, i);
      ghost var ring := Ring();
      forall j | 0 <= j < |ring| - 1 ensures ring[j].next == ring[j + 1] {
        assert j != i ==> ring[j] != e;
      }
      forall j | 0 < j < |ring| ensures ring[j].prev == ring[j - 1] {
        assert j != i + 1 ==> ring[j] != was[i + 2];
      }
    }

    /** Unlinks `e` and links it in again as the first element, unless it is first already. */
    method MoveToFront(e: Element<K, V>, ghost i: nat)
      requires Valid() && i < |nodes| && nodes[i] == e
      modifies this, root`next, root`prev, nodes`next, nodes`prev
      ensures Valid() && nodes == Moved(old(nodes), i)
    {
      ghost var ring := Ring();
      assert ring[0].next == ring[1] == nodes[0];
      MovedIsDrop(nodes, i);
      if root.next == e {
        return;
      }
      RingDrop(root, nodes, i);
      Remove(e, i);
      assert e !in nodes;
      InsertFront(e);
    }
  }

  /** The map caches under each entry's key the element that holds it, and nothing else. */
  ghost predicate Matches<K, E>(cache: map<K, E>, nodes: seq<E>, ks: seq<K>) {
    && |nodes| == |ks|
    && (forall i :: 0 <= i < |ks| ==> ks[i] in cache && cache[ks[i]] == nodes[i])
    && (forall k :: k in cache ==> k in ks)
  }

  ghost predicate Holds<K, V>(nodes: seq<Element<K, V>>, l: seq<Entry<K, V>>)
    reads nodes`item
  {
    |nodes| == |l| && forall i :: 0 <= i < |nodes| ==> nodes[i].item == Some(l[i])
  }

  lemma Locate<K, E>(cache: map<K, E>, nodes: seq<E>, ks: seq<K>, k: K) returns (i: nat)
    requires Matches(cache, nodes, ks) && Distinct(nodes)
    ensures Distinct(ks) && i == Find(ks, k)
    ensures k in cache <==> i < |nodes|
    ensures k in cache ==> cache[k] == nodes[i]
  {
    i := Find(ks, k);
  }

  lemma FrontMatches<K, E>(cache: map<K, E>, nodes: seq<E>, ks: seq<K>, i: nat)
    requires Matches(cache, nodes, ks) && i < |ks|
    ensures Matches(cache, Moved(nodes, i), Moved(ks, i))
  {
    var moved := Moved(ks, i);
    forall k | k in ks ensures k in moved {
      var j := Find(ks, k);
      assert moved[if j == i then 0 else if j < i then j + 1 else j] == k;
    }
  }

  lemma MoveMatches<K, V>(cache: map<K, Element<K, V>>, nodes: seq<Element<K, V>>, l: seq<Entry<K, V>>, i: nat)
    requires Matches(cache, nodes, Keys(l)) && i < |l|
    ensures Matches(cache, Moved(nodes, i), Keys(Moved(l, i)))
  {
    FrontMatches(cache, nodes, Keys(l), i);
    assert Keys(Moved(l, i)) == Moved(Keys(l), i);
  }

  lemma InsertMatches<K, V>(cache: map<K, Element<K, V>>, nodes: seq<Element<K, V>>, l: seq<Entry<K, V>>,
                            e: Element<K, V>, x: Entry<K, V>)
    requires Matches(cache, nodes, Keys(l)) && x.key !in cache
    ensures Matches(cache[x.key := e], [e] + nodes, Keys([x] + l))
  {
    assert Keys([x] + l) == [x.key] + Keys(l);
    assert forall j :: 0 <= j < |l| ==> Keys(l)[j] in cache && Keys(l)[j] != x.key;
  }

  lemma DropLastMatches<K, V>(cache: map<K, Element<K, V>>, nodes: seq<Element<K, V>>, l: seq<Entry<K, V>>)
    requires Matches(cache, nodes, Keys(l)) && Distinct(nodes) && l != []
    ensures var n := |l| - 1; Matches(cache - {l[n].key}, Drop(nodes, n), Keys(l[..n])) && Drop(nodes, n) == nodes[..n]
  {
    var n, ks := |l| - 1, Keys(l);
    assert Drop(nodes, n) == nodes[..n] && Keys(l[..n]) == ks[..n];
    assert forall j :: 0 <= j < n ==> ks[j] != ks[n];
    forall k | k in cache && k != ks[n] ensures k in ks[..n] {
      assert ks[..n][Find(ks, k)] == k;
    }
  }

  lemma OverwriteIsPut<K, V>(l: seq<Entry<K, V>>, capacity: int, k: K, v: V, i: nat)
    requires i == Find(Keys(l), k) && i < |l|
    ensures PutEntry(l, capacity, k, v) == Moved(l[i := Entry(k, v)], i)
  {
    MovedIsDrop(l[i := Entry(k, v)], i);
    assert Drop(l[i := Entry(k, v)], i) == Drop(l, i);
  }

  lemma InsertIsPut<K, V>(l: seq<Entry<K, V>>, capacity: int, k: K, v: V)
    requires Find(Keys(l), k) == |l|
    ensures var l' := [Entry(k, v)] + l; PutEntry(l, capacity, k, v) == if |l'| > capacity then l'[..|l'| - 1] else l'
  {
  }

  lemma TouchIsGet<K, V>(l: seq<Entry<K, V>>, k: K, i: nat)
    requires i == Find(Keys(l), k) && i < |l|
    ensures GetEntry(l, k) == Moved(l, i)
  {
    MovedIsDrop(l, i);
  }

  class LRU<K(==), V> {
    const capacity: int
    const list: List<K, V>
    var cache: map<K, Element<K, V>>
    /** The entries, most recently touched first. */
    ghost var Contents: seq<Entry<K, V>>
    /** The objects the cache is made of. */
    ghost var Repr: set<object>

    ghost predicate Valid()
      reads this, Repr
    {
      && this in Repr && list in Repr && list.root in Repr
      && (forall i :: 0 <= i < |list.nodes| ==> list.nodes[i] in Repr)
      && list.Valid() && Matches(cache, list.nodes, Keys(Contents)) && Holds(list.nodes, Contents)
    }

    constructor (capacity: int)
      ensures Valid() && fresh(Repr) && Contents == [] && this.capacity == capacity
    {
      this.capacity := capacity;
      list := new List();
      cache, Contents := map[], [];
      new;
      Repr := {this, list, list.root};
    }

    /** Moves the element at `i` to the front of the list. */
    method Touch(elem: Element<K, V>, ghost i: nat)
      requires Valid() && i < |list.nodes| && list.nodes[i] == elem
      modifies Repr
      ensures Valid() && Repr == old(Repr)
      ensures Contents == Moved(old(Contents), i) && elem.item == Some(Contents[0])
    {
      MoveMatches(cache, list.nodes, Contents, i);
      list.MoveToFront(elem, i);
      Contents := Moved(Contents, i);
    }

    method Evict()
      requires Valid()
      modifies Repr
      ensures Valid() && Repr == old(Repr)
      ensures Contents == if old(Contents) == [] then [] else old(Contents)[..|old(Contents)| - 1]
    {
      var last := list.Back();
      if last != null {
        ghost var n := |Contents| - 1;
        DropLastMatches(cache, list.nodes, Contents);
        list.Remove(last, n);
        cache := cache - {last.item.value.key};
        Contents := Contents[..n];
      }
    }

    method Overwrite(elem: Element<K, V>, key: K, value: V, ghost i: nat)
      requires Valid() && i < |list.nodes| && list.nodes[i] == elem && Contents[i].key == key
      modifies Repr
      ensures Valid() && Repr == old(Repr)
      ensures Contents == Moved(old(Contents)[i := Entry(key, value)], i)
    {
      elem.item := Some(Entry(key, value));
      Contents := Contents[i := Entry(key, value)];
      assert Keys(Contents) == Keys(old(Contents));
      Touch(elem, i);
    }

    method Insert(key: K, value: V)
      requires Valid() && key !in cache
      modifies Repr
      ensures Valid() && fresh(Repr - old(Repr))
      ensures Contents == [Entry(key, value)] + old(Contents)
    {
      var elem := new Element(Some(Entry(key, value)));
      InsertMatches(cache, list.nodes, Contents, elem, Entry(key, value));
      list.InsertFront(elem);
      cache := cache[key := elem];
      Contents := [Entry(key, value)] + Contents;
      Repr := Repr + {elem};
    }

    method Put(key: K, value: V)
      requires Valid()
      modifies Repr
      ensures Valid() && fresh(Repr - old(Repr))
      ensures Contents == PutEntry(old(Contents), capacity, key, value)
    {
      ghost var i := Locate(cache, list.nodes, Keys(Contents), key);
      if key in cache {
        OverwriteIsPut(Contents, capacity, key, value, i);
        Overwrite(cache[key], key, value, i);
        return;
      }
      InsertIsPut(Contents, capacity, key, value);
      Insert(key, value);
      assert list.len == |Contents|;
      if list.len > capacity {
        Evict();
      }
    }

    method Exist(key: K) returns (exist: bool)
      requires Valid()
      ensures exist <==> key in Keys(Contents)
    {
      ghost var i := Locate(cache, list.nodes, Keys(Contents), key);
      exist := key in cache;
    }

    method Get(key: K) returns (value: Option<V>)
      requires Valid()
      modifies Repr
      ensures Valid() && Repr == old(Repr)
      ensures Contents == GetEntry(old(Contents), key)
      ensures value == if key in Keys(old(Contents)) then Some(Contents[0].value) else None
    {
      ghost var i := Locate(cache, list.nodes, Keys(Contents), key);
      if key in cache {
        var elem := cache[key];
        TouchIsGet(Contents, key, i);
        Touch(elem, i);
        return Some(elem.item.value.value);
      }
      return None;
    }
  }
}
