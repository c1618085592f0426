// The LRU cache: a list of nodes, most recent first, and a map from keys to
// the nodes themselves.
module LruCache {
  type Key = nat

  datatype Item<E> = Item(key: Key, entry: E)

  // ---------------------------------------------------------------- on values

  ghost predicate Distinct<E>(items: seq<Item<E>>) {
    forall i, j | 0 <= i < j < |items| :: items[i].key != items[j].key
  }

  predicate Holds<E>(items: seq<Item<E>>, key: Key) {
    exists i | 0 <= i < |items| :: items[i].key == key
  }

  /** Where the key stands, or the length of the list. */
  function Position<E>(items: seq<Item<E>>, key: Key): (p: nat)
    ensures p <= |items|
    ensures p < |items| ==> items[p].key == key
    ensures forall i | 0 <= i < p :: items[i].key != key
  {
    if items == [] || items[0].key == key then 0 else 1 + Position(items[1..], key)
  }

  function Without<E>(items: seq<Item<E>>, key: Key): seq<Item<E>> {
    var p := Position(items, key);
    if p < |items| then items[..p] + items[p + 1..] else items
  }

  /** What get does to the list. */
  function Touched<E>(items: seq<Item<E>>, key: Key): seq<Item<E>> {
    var p := Position(items, key);
    if p < |items| then [items[p]] + Without(items, key) else items
  }

  /** What add does to the list. */
  function Added<E>(items: seq<Item<E>>, capacity: nat, key: Key, entry: E): seq<Item<E>>
    requires capacity >= 1
  {
    var rest := Without(items, key);
    [Item(key, entry)] + (if |rest| >= capacity then rest[..|rest| - 1] else rest)
  }

  function Take<T>(s: seq<T>, n: nat): seq<T> {
    if n < |s| then s[..n] else s
  }

  lemma WithoutDistinct<E>(items: seq<Item<E>>, key: Key)
    requires Distinct(items)
    ensures Distinct(Without(items, key))
    ensures forall i | 0 <= i < |Without(items, key)| ::
              Without(items, key)[i] in items && Without(items, key)[i].key != key
    ensures forall x | x in items && x.key != key :: x in Without(items, key)
  {
    var p := Position(items, key);
    var rest := Without(items, key);
    forall x | x in items && x.key != key ensures x in rest {
      var i :| 0 <= i < |items| && items[i] == x;
      assert x == if i < p || p == |items| then rest[i] else rest[i - 1];
    }
  }

  lemma WithoutAt<E>(items: seq<Item<E>>, key: Key, i: nat)
    requires i < |Without(items, key)|
    ensures var k := if i < Position(items, key) then i else i + 1;
            k < |items| && Without(items, key)[i] == items[k] && (Position(items, key) == |items| ==> k == i)
  {
    var p := Position(items, key);
    if p < |items| {
      LeftOutAt(items, p, i);
    }
  }

  lemma LeftOutAt<T>(s: seq<T>, p: nat, i: nat)
    requires p < |s| && i < |s| - 1
    ensures (s[..p] + s[p + 1..])[i] == s[if i < p then i else i + 1]
  {}

  lemma PositionUnique<E>(items: seq<Item<E>>, p: nat)
    requires Distinct(items) && p < |items|
    ensures Position(items, items[p].key) == p
  {}

  // ---------------------------------------------------------------- the object

  class Node<E> {
    const key: Key
    const entry: E

    constructor (key: Key, entry: E)
      ensures this.key == key && this.entry == entry
    {
      this.key, this.entry := key, entry;
    }
  }

  ghost function ItemsOf<E>(nodes: seq<Node<E>>): (r: seq<Item<E>>)
    ensures |r| == |nodes| && forall i | 0 <= i < |r| :: r[i] == Item(nodes[i].key, nodes[i].entry)
  {
    seq(|nodes|, i requires 0 <= i < |nodes| => Item(nodes[i].key, nodes[i].entry))
  }

  lemma StaysWithout<T>(s: seq<T>, p: nat, x: T)
    requires p < |s| && x in s && x != s[p]
    ensures x in s[..p] + s[p + 1..]
  {}

  lemma ItemsWithFirst<E>(node: Node<E>, nodes: seq<Node<E>>)
    ensures ItemsOf([node] + nodes) == [Item(node.key, node.entry)] + ItemsOf(nodes)
  {}

  lemma ItemsWithout<E>(nodes: seq<Node<E>>, i: nat)
    requires i < |nodes|
    ensures ItemsOf(nodes[..i] + nodes[i + 1..]) == ItemsOf(nodes)[..i] + ItemsOf(nodes)[i + 1..]
  {
    var less := nodes[..i] + nodes[i + 1..];
    var a, b := ItemsOf(less), ItemsOf(nodes)[..i] + ItemsOf(nodes)[i + 1..];
    forall j | 0 <= j < |a| ensures a[j] == b[j] {
      assert less[j] == nodes[if j < i then j else j + 1];
    }
  }

  class LRUCache<E> {
    const capacity: nat
    var cache: seq<Node<E>>
    var cacheMap: map<Key, Node<E>>

    /** The map sends each listed key, and no other, to its own list node. */
    ghost predicate Valid()
      reads this
    {
      && (forall i | 0 <= i < |cache| :: cache[i].key in cacheMap && cacheMap[cache[i].key] == cache[i])
      && (forall i, j | 0 <= i < j < |cache| :: cache[i].key != cache[j].key)
      && (forall k | k in cacheMap :: cacheMap[k].key == k && cacheMap[k] in cache)
    }

    ghost function Contents(): (r: seq<Item<E>>)
      reads this
    {
      ItemsOf(cache)
    }

    constructor (cacheSize: nat)
      ensures Valid() && Contents() == [] && capacity == cacheSize
    {
      capacity, cache, cacheMap := cacheSize, [], map[];
    }

    /** The map finds the key exactly where the list has it. */
    lemma MapFinds(key: Key)
      requires Valid()
      ensures key in cacheMap <==> Position(Contents(), key) < |Contents()|
      ensures key in cacheMap ==> cacheMap[key] == cache[Position(Contents(), key)]
    {
      var p := Position(Contents(), key);
      if key in cacheMap {
        var i :| 0 <= i < |cache| && cache[i] == cacheMap[key];
        assert Contents()[i].key == key;
      }
    }

    /** Taking the node at index i out of the list, and its key out of the map. */
    method Unlink(i: nat)
      requires Valid() && i < |cache|
      modifies this
      ensures Valid() && cacheMap == old(cacheMap - {cache[i].key})
      ensures cache == old(cache[..i] + cache[i + 1..])
    {
      ghost var nodes := cache;
      var key := cache[i].key;
      cache := cache[..i] + cache[i + 1..];
      cacheMap := cacheMap - {key};
      assert forall j | 0 <= j < |cache| :: cache[j] == nodes[if j < i then j else j + 1];
      forall k | k in cacheMap ensures cacheMap[k] in cache {
        StaysWithout(nodes, i, cacheMap[k]);
      }
    }

    method Remove(key: Key)
      requires Valid()
      modifies this
      ensures Valid() && key !in cacheMap
      ensures Contents() == Without(old(Contents()), key)
    {
      MapFinds(key);
      if key in cacheMap {
        var node := cacheMap[key];
        var i :| 0 <= i < |cache| && cache[i] == node;
        assert Contents()[i].key == key;
        PositionUnique(Contents(), i);
        ItemsWithout(cache, i);
        Unlink(i);
      }
    }

    method RemoveLRU()
      requires Valid() && cache != []
      modifies this
      ensures Valid()
      ensures Contents() == old(Contents())[..|old(Contents())| - 1]
      ensures forall k :: k in cacheMap ==> k in old(cacheMap)
    {
      Unlink(|cache| - 1);
    }

    method Insert(key: Key, entry: E)
      requires Valid() && key !in cacheMap
      modifies this
      ensures Valid()
      ensures Contents() == [Item(key, entry)] + old(Contents())
    {
      var newValue := new Node(key, entry);
      ItemsWithFirst(newValue, cache);
      cache := [newValue] + cache;
      cacheMap := cacheMap[key := newValue];
      forall k | k in cacheMap ensures cacheMap[k] in cache {
        assert k != key ==> cacheMap[k] in old(cache);
      }
    }

    /** The found entry moves to the front; found == false stands for a null result. */
    method Get(key: Key) returns (found: bool, res: Node?<E>)
      requires Valid()
      modifies this
      ensures Valid()
      ensures found == (Position(old(Contents()), key) < |old(Contents())|)
      ensures found ==> res != null && res.entry == old(Contents())[Position(old(Contents()), key)].entry
      ensures Contents() == Touched(old(Contents()), key)
    {
      MapFinds(key);
      if key !in cacheMap {
        return false, null;
      }
      res := cacheMap[key];
      Remove(key);
      Insert(key, res.entry);
      found := true;
    }

    /** At capacity 0 the source pops an empty list, so a caller must have room for one. */
    method Add(key: Key, entry: E)
      requires Valid() && capacity >= 1
      modifies this
      ensures Valid()
      ensures Contents() == Added(old(Contents()), capacity, key, entry)
    {
      Remove(key);
      if |cache| >= capacity {
        RemoveLRU();
      }
      Insert(key, entry);
    }
  }
}
