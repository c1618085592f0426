// The file reader: binary search over a mapped, key-sorted file, with and
// without the cache in front of it.
module Reader {
  import opened Wrappers
  import opened LruCache

  /**
   * What the search can see: the keys of the n entries of the file, and the
   * key-sized bytes of slot n behind it, which end() makes part of the window.
   */
  datatype Memory = Memory(keys: seq<Key>, behind: Key)
  {
    function At(i: nat): Key
      requires i <= |keys|
    {
      if i < |keys| then keys[i] else behind
    }
  }

  ghost predicate Sorted(keys: seq<Key>) {
    forall i, j | 0 <= i < j < |keys| :: keys[i] < keys[j]
  }

  // ---------------------------------------------------------------- the search on values

  /** binSearchEntry on the inclusive window l..r. */
  function Search(m: Memory, l: int, r: int, key: Key): (res: Option<nat>)
    requires 0 <= l && r <= |m.keys|
    ensures res.Some? ==> l <= res.value <= r && m.At(res.value) == key
    decreases r - l
  {
    if l > r then None
    else
      var mid := l + (r - l) / 2;
      if m.At(mid) == key then Some(mid)
      else if m.At(mid) < key then Search(m, mid + 1, r, key)
      else Search(m, l, mid - 1, key)
  }

  /** Reader::getEntry */
  function Lookup(m: Memory, key: Key): Option<nat> {
    Search(m, 0, |m.keys|, key)
  }

  /** The slots that the search reads, in order. */
  function Probes(m: Memory, l: int, r: int, key: Key): seq<int>
    requires 0 <= l && r <= |m.keys|
    decreases r - l, 1
  {
    if l > r then []
    else
      var mid := l + (r - l) / 2;
      [mid] + NextProbes(m, l, r, key)
  }

  function NextProbes(m: Memory, l: int, r: int, key: Key): seq<int>
    requires 0 <= l <= r <= |m.keys|
    decreases r - l, 0
  {
    var mid := l + (r - l) / 2;
    if m.At(mid) == key then []
    else if m.At(mid) < key then Probes(m, mid + 1, r, key)
    else Probes(m, l, mid - 1, key)
  }

  lemma ProbesUnfold(m: Memory, l: int, r: int, key: Key)
    requires 0 <= l <= r <= |m.keys|
    ensures var mid := l + (r - l) / 2;
            Probes(m, l, r, key) == [mid] + (if m.At(mid) == key then []
                                             else if m.At(mid) < key then Probes(m, mid + 1, r, key)
                                             else Probes(m, l, mid - 1, key))
  {}

  /** The reference: read the file from front to back. */
  function Scan(keys: seq<Key>, key: Key): (res: Option<nat>)
    ensures res.Some? ==> res.value < |keys| && keys[res.value] == key
    ensures res.None? ==> key !in keys
  {
    if keys == [] then None
    else if keys[|keys| - 1] == key then Some(|keys| - 1)
    else Scan(keys[..|keys| - 1], key)
  }

  lemma {:induction false} SearchComplete(m: Memory, l: int, r: int, key: Key, i: nat)
    requires Sorted(m.keys) && 0 <= l <= i <= r <= |m.keys|
    requires i < |m.keys| && m.keys[i] == key
    ensures Search(m, l, r, key) == Some(i)
    decreases r - l
  {
    var mid := l + (r - l) / 2;
    if mid < |m.keys| {
      if m.keys[mid] < key {
        SearchComplete(m, mid + 1, r, key, i);
      } else if key < m.keys[mid] {
        SearchComplete(m, l, mid - 1, key, i);
      }
    }
  }

  ghost predicate AllBelow(keys: seq<Key>, key: Key) {
    forall i | 0 <= i < |keys| :: keys[i] < key
  }

  /** With every stored key below, the search walks right until it reads slot n. */
  lemma {:induction false} SearchRunsOff(m: Memory, l: int, key: Key)
    requires AllBelow(m.keys, key) && 0 <= l <= |m.keys|
    ensures Search(m, l, |m.keys|, key) == if m.behind == key then Some(|m.keys|) else None
    ensures |m.keys| in Probes(m, l, |m.keys|, key)
    decreases |m.keys| - l
  {
    var n := |m.keys|;
    var mid := l + (n - l) / 2;
    if mid < n {
      SearchRunsOff(m, mid + 1, key);
    } else if m.behind < key {
      assert Search(m, mid + 1, n, key) == None;
    } else {
      assert Search(m, l, mid - 1, key) == None;
    }
  }

  /** Slot n is read only after the search moved right from slot n - 1. */
  lemma {:induction false} ProbesBehind(m: Memory, l: int, r: int, key: Key)
    requires Sorted(m.keys) && 0 <= l && r <= |m.keys|
    requires |m.keys| in Probes(m, l, r, key)
    requires l > 0 ==> m.keys[l - 1] < key
    ensures AllBelow(m.keys, key)
    decreases r - l
  {
    var n := |m.keys|;
    var mid := l + (r - l) / 2;
    ProbesUnfold(m, l, r, key);
    if mid == n {
      assert l == n;
    } else if m.keys[mid] < key {
      ProbesBehind(m, mid + 1, r, key);
    } else if key < m.keys[mid] {
      ProbesInWindow(m, l, mid - 1, key);
      assert false;
    }
  }

  lemma {:induction false} ProbesInWindow(m: Memory, l: int, r: int, key: Key)
    requires 0 <= l && r <= |m.keys|
    ensures forall p | p in Probes(m, l, r, key) :: l <= p <= r
    decreases r - l
  {
    if l <= r {
      var mid := l + (r - l) / 2;
      ProbesUnfold(m, l, r, key);
      ProbesInWindow(m, mid + 1, r, key);
      ProbesInWindow(m, l, mid - 1, key);
    }
  }

  /** floor(log2(n)), and 0 for 0 */
  function Log2(n: nat): nat {
    if n <= 1 then 0 else 1 + Log2(n / 2)
  }

  lemma {:induction false} Log2Monotone(a: nat, b: nat)
    requires a <= b
    ensures Log2(a) <= Log2(b)
    decreases b
  {
    if a > 1 {
      Log2Monotone(a / 2, b / 2);
    }
  }

  lemma HalfWindow(l: int, r: int)
    requires l < r
    ensures var mid := l + (r - l) / 2;
            && 0 <= mid - l <= r - mid
            && Log2(mid - l) + 1 <= Log2(r - l + 1) && Log2(r - mid) + 1 <= Log2(r - l + 1)
  {
    var mid := l + (r - l) / 2;
    var half := (r - l + 1) / 2;
    assert mid - l <= half && r - mid == half;
    Log2Monotone(mid - l, half);
  }

  lemma {:induction false} FewProbes(m: Memory, l: int, r: int, key: Key)
    requires 0 <= l && r <= |m.keys|
    ensures |Probes(m, l, r, key)| <= if l > r then 0 else Log2(r - l + 1) + 1
    decreases r - l
  {
    if l <= r {
      var mid := l + (r - l) / 2;
      assert |Probes(m, l, r, key)| == 1 + |NextProbes(m, l, r, key)| by {
        ProbesUnfold(m, l, r, key);
      }
      if l < r {
        HalfWindow(l, r);
      }
      if m.At(mid) < key {
        FewProbes(m, mid + 1, r, key);
      } else if key < m.At(mid) {
        FewProbes(m, l, mid - 1, key);
      }
    }
  }

  /**
   * Probe bounds on the window of n + 1 slots as the source passes it: all
   * probes in 0..n, logarithmically many, and slot n read exactly when every
   * stored key is smaller.
   */
  lemma ProbeBounds(m: Memory, key: Key)
    requires Sorted(m.keys)
    ensures var n := |m.keys|;
            var probes := Probes(m, 0, n, key);
            && (forall p | p in probes :: 0 <= p <= n)
            && |probes| <= Log2(n + 1) + 1
            && (n in probes <==> AllBelow(m.keys, key))
  {
    var n := |m.keys|;
    ProbesInWindow(m, 0, n, key);
    FewProbes(m, 0, n, key);
    if n in Probes(m, 0, n, key) {
      ProbesBehind(m, 0, n, key);
    }
    if AllBelow(m.keys, key) {
      SearchRunsOff(m, 0, key);
    }
  }

  lemma ScanUnique(keys: seq<Key>, key: Key, i: nat)
    requires Sorted(keys) && i < |keys| && keys[i] == key
    ensures Scan(keys, key) == Some(i)
  {}

  /**
   * getEntry agrees with a front-to-back scan exactly when slot n does not
   * hold a key above all stored ones that is being asked for.
   */
  lemma LookupIsScan(m: Memory, key: Key)
    requires Sorted(m.keys)
    ensures Lookup(m, key) == Scan(m.keys, key) <==> !(m.behind == key && AllBelow(m.keys, key))
  {
    if key in m.keys {
      var i :| 0 <= i < |m.keys| && m.keys[i] == key;
      SearchComplete(m, 0, |m.keys|, key, i);
      ScanUnique(m.keys, key, i);
    } else if AllBelow(m.keys, key) {
      SearchRunsOff(m, 0, key);
    } else if Lookup(m, key).Some? {
      FoundIsProbed(m, 0, |m.keys|, key);
      ProbesBehind(m, 0, |m.keys|, key);
      assert false;
    }
  }

  lemma {:induction false} FoundIsProbed(m: Memory, l: int, r: int, key: Key)
    requires 0 <= l && r <= |m.keys| && Search(m, l, r, key).Some?
    ensures Search(m, l, r, key).value in Probes(m, l, r, key)
    decreases r - l
  {
    var mid := l + (r - l) / 2;
    if m.At(mid) < key {
      FoundIsProbed(m, mid + 1, r, key);
    } else if key < m.At(mid) {
      FoundIsProbed(m, l, mid - 1, key);
    }
  }

  /** The failure: a key above all stored ones is "found" behind the file if it happens to stand there. */
  lemma SlotBehindIsReturned(keys: seq<Key>, key: Key)
    requires Sorted(keys) && AllBelow(keys, key)
    ensures Lookup(Memory(keys, key), key) == Some(|keys|) && Scan(keys, key) == None
  {
    SearchRunsOff(Memory(keys, key), 0, key);
  }

  /**
   * An instance where no zero bytes stand behind: 1024 entries of 28 bytes fill
   * seven pages of 4096, so slot 1024 lies in whatever is mapped next.
   */
  lemma FullPagesShowIt()
    ensures 1024 * 28 == 7 * 4096
    ensures var keys := seq(1024, i => i);
            Lookup(Memory(keys, 5000), 5000) == Some(1024) && Scan(keys, 5000) == None
  {
    SlotBehindIsReturned(seq(1024, i => i), 5000);
  }

  /** The zero bytes that fill a mapped page are harmless for any non-empty file. */
  lemma ZeroTailIsHarmless(keys: seq<Key>, key: Key)
    requires Sorted(keys) && keys != []
    ensures Lookup(Memory(keys, 0), key) == Scan(keys, key)
  {
    LookupIsScan(Memory(keys, 0), key);
    assert AllBelow(keys, key) ==> keys[0] < key;
  }

  // ---------------------------------------------------------------- the loop

  lemma Joined(a: seq<int>, b: seq<int>, c: seq<int>)
    ensures a + (b + c) == a + b + c
  {}

  /** binSearchEntry; the result is a slot number instead of a pointer. */
  method BinSearchEntry(m: Memory, left: nat, right: int, key: Key) returns (res: Option<nat>, ghost probes: seq<int>)
    requires right <= |m.keys|
    ensures res == Search(m, left, right, key)
    ensures probes == Probes(m, left, right, key)
  {
    var l, r := left as int, right;
    probes := [];
    while l <= r
      invariant 0 <= l && r <= |m.keys|
      invariant Search(m, left, right, key) == Search(m, l, r, key)
      invariant Probes(m, left, right, key) == probes + Probes(m, l, r, key)
      decreases r - l
    {
      var mid := l + (r - l) / 2;
      var mKey := m.At(mid);
      ghost var next := NextProbes(m, l, r, key);
      Joined(probes, [mid], next);
      probes := probes + [mid];
      if mKey == key {
        return Some(mid), probes;
      } else if mKey < key {
        l := mid + 1;
      } else {
        r := mid - 1;
      }
      assert Probes(m, l, r, key) == next;
    }
    return None, probes;
  }

  // ---------------------------------------------------------------- cache in front

  /** The search behind the cache; nothing about it matters for what the cache holds. */
  type Find = Key -> Option<nat>

  function Uncached(m: Memory): Find {
    (key: Key) => Lookup(m, key)
  }

  /** One LRUCacheReader::getEntry call, on the list of cached entries. */
  function Requested(find: Find, capacity: nat, items: seq<Item<nat>>, key: Key): seq<Item<nat>>
    requires capacity >= 1
  {
    if Position(items, key) < |items| then Touched(items, key)
    else
      match find(key)
      case None => items
      case Some(slot) => Added(items, capacity, key, slot)
  }

  /** The list after a history of calls, the last one last. */
  function After(find: Find, capacity: nat, history: seq<Key>): seq<Item<nat>>
    requires capacity >= 1
  {
    if history == [] then []
    else Requested(find, capacity, After(find, capacity, history[..|history| - 1]), history[|history| - 1])
  }

  /** All entries ever found, most recently requested first. */
  function Recent(find: Find, history: seq<Key>): seq<Item<nat>> {
    if history == [] then []
    else
      var before := Recent(find, history[..|history| - 1]);
      var key := history[|history| - 1];
      match find(key)
      case None => before
      case Some(slot) => [Item(key, slot)] + Without(before, key)
  }

  /** The position of the last call for the key, counted from 1; 0 if there was none. */
  function LastUse(history: seq<Key>, key: Key): nat {
    if history == [] then 0
    else if history[|history| - 1] == key then |history|
    else LastUse(history[..|history| - 1], key)
  }

  ghost predicate ByRecency(history: seq<Key>, items: seq<Item<nat>>) {
    forall i, j | 0 <= i < j < |items| :: LastUse(history, items[i].key) > LastUse(history, items[j].key)
  }

  lemma {:induction false} LastUseBound(history: seq<Key>, key: Key)
    ensures LastUse(history, key) <= |history|
    ensures LastUse(history, key) > 0 <==> key in history
  {
    if history != [] {
      LastUseBound(history[..|history| - 1], key);
      assert history == history[..|history| - 1] + [history[|history| - 1]];
    }
  }

  /** Exactly the found keys of the history, each once, by last use. */
  ghost predicate Describes(find: Find, history: seq<Key>, items: seq<Item<nat>>) {
    && Distinct(items) && ByRecency(history, items)
    && (forall x :: x in items <==> x.key in history && find(x.key) == Some(x.entry))
  }

  lemma DescribesNext(find: Find, front: seq<Key>, key: Key)
    requires Describes(find, front, Recent(find, front))
    ensures Describes(find, front + [key], Recent(find, front + [key]))
  {
    assert (front + [key])[..|front|] == front;
    if find(key).Some? {
      MovedToFront(find, front, key);
    } else {
      RecencyAfterMiss(find, front, key);
    }
  }

  lemma SplitLast(history: seq<Key>)
    requires history != []
    ensures history[..|history| - 1] + [history[|history| - 1]] == history
  {}

  /** Recent is what it says. */
  lemma {:induction false} RecentMeaning(find: Find, history: seq<Key>)
    ensures Describes(find, history, Recent(find, history))
  {
    if history != [] {
      RecentMeaning(find, history[..|history| - 1]);
      DescribesNext(find, history[..|history| - 1], history[|history| - 1]);
      SplitLast(history);
    }
  }

  lemma RecencyAfterMiss(find: Find, front: seq<Key>, key: Key)
    requires Describes(find, front, Recent(find, front)) && find(key).None?
    ensures Describes(find, front + [key], Recent(find, front))
  {
    var history := front + [key];
    var items := Recent(find, front);
    assert history[..|front|] == front;
    forall i, j | 0 <= i < j < |items| ensures LastUse(history, items[i].key) > LastUse(history, items[j].key) {
      assert items[i] in items && items[j] in items;
    }
  }

  lemma MovedToFront(find: Find, front: seq<Key>, key: Key)
    requires Describes(find, front, Recent(find, front)) && find(key).Some?
    ensures Describes(find, front + [key], [Item(key, find(key).value)] + Without(Recent(find, front), key))
  {
    var before := Recent(find, front);
    var rest := Without(before, key);
    var items := [Item(key, find(key).value)] + rest;
    WithoutDistinct(before, key);
    WithoutByRecency(front, before, key);
    FrontByRecency(front, key, find(key).value, rest);
    forall x ensures x in items <==> x.key in front + [key] && find(x.key) == Some(x.entry) {
      assert x in items <==> x == items[0] || x in rest;
      assert x in rest ==> x in before && x.key != key;
    }
  }

  lemma FrontByRecency(front: seq<Key>, key: Key, slot: nat, rest: seq<Item<nat>>)
    requires ByRecency(front, rest) && forall i | 0 <= i < |rest| :: rest[i].key != key
    ensures ByRecency(front + [key], [Item(key, slot)] + rest)
  {
    var history := front + [key];
    var items := [Item(key, slot)] + rest;
    assert history[..|front|] == front;
    forall i, j | 0 <= i < j < |items| ensures LastUse(history, items[i].key) > LastUse(history, items[j].key) {
      LastUseBound(front, items[j].key);
      assert items[j] == rest[j - 1];
      if i > 0 { assert items[i] == rest[i - 1]; }
    }
  }

  lemma WithoutByRecency(history: seq<Key>, items: seq<Item<nat>>, key: Key)
    requires ByRecency(history, items)
    ensures ByRecency(history, Without(items, key))
  {
    var rest := Without(items, key);
    forall i, j | 0 <= i < j < |rest| ensures LastUse(history, rest[i].key) > LastUse(history, rest[j].key) {
      WithoutAt(items, key, i);
      WithoutAt(items, key, j);
    }
  }

  /** Only one list is described by RecentMeaning. */
  lemma {:induction false} RecencyIsUnique(history: seq<Key>, a: seq<Item<nat>>, b: seq<Item<nat>>)
    requires ByRecency(history, a) && ByRecency(history, b)
    requires forall x :: x in a <==> x in b
    ensures a == b
  {
    if a == [] {
      assert forall i | 0 <= i < |b| :: b[i] in b;
    } else {
      assert a[0] in b && b != [] && b[0] in a;
      assert a[0] == b[0];
      forall x ensures x in a[1..] <==> x in b[1..] {
        assert x in a <==> x in b;
      }
      RecencyIsUnique(history, a[1..], b[1..]);
      assert a == [a[0]] + a[1..] && b == [b[0]] + b[1..];
    }
  }

  /** One call keeps "the first c of the list of all". */
  lemma RequestOnTake(find: Find, c: nat, all: seq<Item<nat>>, key: Key)
    requires c >= 1 && Distinct(all)
    requires forall x | x in all :: find(x.key) == Some(x.entry)
    ensures Requested(find, c, Take(all, c), key)
            == match find(key)
               case None => Take(all, c)
               case Some(slot) => Take([Item(key, slot)] + Without(all, key), c)
  {
    var items := Take(all, c);
    var p := Position(items, key);
    if p < |items| {
      assert items[p] == all[p] && all[p] in all;
      TouchedOnTake(c, all, key);
    } else if find(key).Some? {
      AddedOnTake(c, all, key, find(key).value);
    }
  }

  lemma TouchedOnTake(c: nat, all: seq<Item<nat>>, key: Key)
    requires c >= 1 && Distinct(all) && Position(Take(all, c), key) < |Take(all, c)|
    ensures var p := Position(Take(all, c), key);
            Touched(Take(all, c), key) == Take([all[p]] + Without(all, key), c)
  {
    var items := Take(all, c);
    var p := Position(items, key);
    assert all[p] == items[p] && p < c;
    var rest := all[..p] + all[p + 1..];
    assert Without(all, key) == rest by {
      PositionUnique(all, p);
    }
    assert Without(items, key) == Take(rest, c - 1) by {
      WithoutOnTake(c, all, p);
    }
    TakeAfterFirst(all[p], rest, c);
  }

  lemma TakeAfterFirst(x: Item<nat>, rest: seq<Item<nat>>, c: nat)
    requires c >= 1
    ensures Take([x] + rest, c) == [x] + Take(rest, c - 1)
  {}

  lemma WithoutOnTake(c: nat, all: seq<Item<nat>>, p: nat)
    requires p < |all| && p < c
    ensures var items := Take(all, c);
            p < |items| && items[..p] + items[p + 1..] == Take(all[..p] + all[p + 1..], c - 1)
  {}

  lemma AddedOnTake(c: nat, all: seq<Item<nat>>, key: Key, slot: nat)
    requires c >= 1 && Distinct(all) && Position(Take(all, c), key) == |Take(all, c)|
    ensures Added(Take(all, c), c, key, slot) == Take([Item(key, slot)] + Without(all, key), c)
  {
    var items := Take(all, c);
    var p := Position(all, key);
    assert p >= |items| by {
      assert forall i | 0 <= i < |items| :: items[i] == all[i];
    }
    TakeAfterFirst(Item(key, slot), Without(all, key), c);
    assert Take(Without(all, key), c - 1) == Take(all, c - 1);
    assert Take(all, c - 1) == if |items| >= c then items[..|items| - 1] else items;
  }

  /** After any history the cache holds exactly the first capacity entries of Recent. */
  lemma {:induction false} CacheExact(find: Find, capacity: nat, history: seq<Key>)
    requires capacity >= 1
    ensures After(find, capacity, history) == Take(Recent(find, history), capacity)
  {
    if history != [] {
      var front := history[..|history| - 1];
      CacheExact(find, capacity, front);
      RecentMeaning(find, front);
      RequestOnTake(find, capacity, Recent(find, front), history[|history| - 1]);
    }
  }

  /** Inclusion: a smaller cache is always a prefix of a larger one. */
  lemma {:induction false} CacheInclusion(find: Find, c1: nat, c2: nat, history: seq<Key>)
    requires 1 <= c1 <= c2
    ensures After(find, c1, history) <= After(find, c2, history)
    ensures forall key | Holds(After(find, c1, history), key) :: Holds(After(find, c2, history), key)
  {
    CacheExact(find, c1, history);
    CacheExact(find, c2, history);
    forall key | Holds(After(find, c1, history), key) ensures Holds(After(find, c2, history), key) {
      var i :| 0 <= i < |After(find, c1, history)| && After(find, c1, history)[i].key == key;
      assert After(find, c2, history)[i].key == key;
    }
  }

  /** Every cached entry is the one an uncached lookup returns. */
  ghost predicate Coherent(find: Find, items: seq<Item<nat>>) {
    forall i | 0 <= i < |items| :: find(items[i].key) == Some(items[i].entry)
  }

  lemma CacheCoherent(find: Find, capacity: nat, history: seq<Key>)
    requires capacity >= 1
    ensures Coherent(find, After(find, capacity, history)) && |After(find, capacity, history)| <= capacity
  {
    CacheExact(find, capacity, history);
    RecentMeaning(find, history);
    forall i | 0 <= i < |After(find, capacity, history)|
      ensures find(After(find, capacity, history)[i].key) == Some(After(find, capacity, history)[i].entry)
    {
      assert After(find, capacity, history)[i] == Recent(find, history)[i];
    }
  }

  /** What the next call finds in the cache, and leaves there. */
  lemma NextCall(find: Find, capacity: nat, history: seq<Key>, key: Key)
    requires capacity >= 1
    ensures var items := After(find, capacity, history);
            && (Position(items, key) < |items| ==> find(key) == Some(items[Position(items, key)].entry))
            && After(find, capacity, history + [key]) == Requested(find, capacity, items, key)
  {
    CacheCoherent(find, capacity, history);
    assert (history + [key])[..|history|] == history;
  }

  // ---------------------------------------------------------------- the reader object

  class LRUCacheReader {
    const memory: Memory
    const cache: LRUCache<nat>
    ghost var history: seq<Key>

    /** The cache is in the state that the calls so far lead to. */
    ghost predicate Valid()
      reads this, cache
    {
      cache.Valid() && cache.capacity >= 1 && cache.Contents() == After(Uncached(memory), cache.capacity, history)
    }

    constructor (memory: Memory, cacheSize: nat)
      requires cacheSize >= 1
      ensures Valid() && this.memory == memory && cache.capacity == cacheSize && history == []
      ensures fresh(cache)
    {
      this.memory := memory;
      cache := new LRUCache(cacheSize);
      history := [];
    }

    /** Transparent: the result is that of the uncached search. */
    method GetEntry(key: Key) returns (r: Option<nat>)
      requires Valid()
      modifies this, cache
      ensures Valid() && history == old(history) + [key]
      ensures r == Lookup(memory, key)
    {
      NextCall(Uncached(memory), cache.capacity, history, key);
      var found, cached := cache.Get(key);
      history := history + [key];
      if found {
        return Some(cached.entry);
      }
      var fromFile, _ := BinSearchEntry(memory, 0, |memory.keys|, key);
      if fromFile.Some? {
        cache.Add(key, fromFile.value);
      }
      return fromFile;
    }
  }
}
