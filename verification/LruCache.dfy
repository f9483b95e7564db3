/** The least-recently-used cache of common/LRUCache.h against a recency list. The access counter
    is unbounded here; the source's has 64 bits. */
module LruCache {

  datatype Item<V> = Item(value: V, lastAccess: nat)
  datatype Entry<K, V> = Entry(key: K, value: V)

  /** Entries from the least to the most recently used. */
  type Recency<K, V> = seq<Entry<K, V>>

  /** The list without the entry of `k`. */
  function Without<K(==), V>(l: Recency<K, V>, k: K): Recency<K, V> {
    if l == [] then []
    else if l[0].key == k then l[1..]
    else [l[0]] + Without(l[1..], k)
  }

  /** The list after dropping the `n` oldest entries. */
  function Drop<K, V>(l: Recency<K, V>, n: nat): Recency<K, V> {
    if n <= |l| then l[n..] else []
  }

  /** A hit moves the entry to the recent end. */
  function Touched<K(==), V>(l: Recency<K, V>, k: K, v: V): Recency<K, V> {
    Without(l, k) + [Entry(k, v)]
  }

  /** How many entries Insert evicts first. In the source the capacity less one is an unsigned
      expression: at capacity zero it wraps, and everything is evicted. */
  function ToShrink(size: nat, capacity: nat): nat {
    if size < capacity then 0 else size + 1 - capacity
  }

  function Inserted<K(==), V>(l: Recency<K, V>, k: K, v: V, capacity: nat): Recency<K, V> {
    Touched(Drop(l, ToShrink(|l|, capacity)), k, v)
  }

  /** The map holds the entries of the list, with access times that increase along it up to
      `newest`. */
  ghost predicate Represents<K, V>(items: map<K, Item<V>>, l: Recency<K, V>, newest: int)
    decreases |l|
  {
    if l == [] then items == map[]
    else
      var e := l[|l| - 1];
      && e.key in items && items[e.key].value == e.value && items[e.key].lastAccess <= newest
      && Represents(items - {e.key}, l[..|l| - 1], items[e.key].lastAccess - 1)
  }

  /** As many entries as keys, and no access later than the newest. */
  lemma {:induction false} Bounds<K, V>(items: map<K, Item<V>>, l: Recency<K, V>, newest: int)
    requires Represents(items, l, newest)
    ensures |l| == |items|
    ensures forall k :: k in items ==> items[k].lastAccess <= newest
    decreases |l|
  {
    if l != [] {
      var key := l[|l| - 1].key;
      Bounds(items - {key}, l[..|l| - 1], items[key].lastAccess - 1);
      assert (items - {key}).Keys == items.Keys - {key};
      forall k | k in items && k != key
        ensures items[k].lastAccess <= newest
      {
        assert k in items - {key};
      }
    }
  }

  /** Access times are pairwise distinct, and the first entry has the least. */
  lemma {:induction false} FirstIsOldest<K, V>(items: map<K, Item<V>>, l: Recency<K, V>, newest: int, k: K)
    requires Represents(items, l, newest) && k in items
    ensures l != [] && l[0].key in items
    ensures k != l[0].key ==> items[l[0].key].lastAccess < items[k].lastAccess
    decreases |l|
  {
    var key := l[|l| - 1].key;
    var less, rest := items - {key}, l[..|l| - 1];
    Bounds(less, rest, items[key].lastAccess - 1);
    if rest == [] {
      assert k != key ==> k in less;
    } else if k != key {
      FirstIsOldest(less, rest, items[key].lastAccess - 1, k);
    } else {
      assert rest[0].key in less by {
        FirstIsPresent(less, rest, items[key].lastAccess - 1);
      }
    }
  }

  lemma {:induction false} FirstIsPresent<K, V>(items: map<K, Item<V>>, l: Recency<K, V>, newest: int)
    requires Represents(items, l, newest) && l != []
    ensures l[0].key in items && items[l[0].key].value == l[0].value
    decreases |l|
  {
    if |l| > 1 {
      FirstIsPresent(items - {l[|l| - 1].key}, l[..|l| - 1], items[l[|l| - 1].key].lastAccess - 1);
    }
  }

  lemma {:induction false} KeysAgree<K, V>(items: map<K, Item<V>>, l: Recency<K, V>, newest: int, k: K)
    requires Represents(items, l, newest)
    ensures HasKey(l, k) <==> k in items
    decreases |l|
  {
    if l != [] {
      var e := l[|l| - 1];
      var rest := l[..|l| - 1];
      KeysAgree(items - {e.key}, rest, items[e.key].lastAccess - 1, k);
      if i :| 0 <= i < |rest| && rest[i].key == k {
        assert l[i].key == k;
      }
    }
  }

  /** Taking out a key takes its entry out of the list and leaves the order of the others. */
  lemma {:induction false} Removed<K, V>(items: map<K, Item<V>>, l: Recency<K, V>, newest: int, k: K)
    requires Represents(items, l, newest)
    ensures Represents(items - {k}, Without(l, k), newest)
    decreases |l|
  {
    if l != [] {
      var e := l[|l| - 1];
      var rest := l[..|l| - 1];
      assert l == rest + [e];
      WithoutLast(rest, e, k);
      if e.key == k {
        KeysAgree(items - {k}, rest, items[k].lastAccess - 1, k);
        Weaken(items - {k}, rest, items[k].lastAccess - 1, newest);
      } else {
        Removed(items - {e.key}, rest, items[e.key].lastAccess - 1, k);
        assert items - {e.key} - {k} == items - {k} - {e.key};
        var w := Without(rest, k) + [e];
        assert w[..|w| - 1] == Without(rest, k);
      }
    }
  }

  ghost predicate HasKey<K, V>(l: Recency<K, V>, k: K) {
    exists i :: 0 <= i < |l| && l[i].key == k
  }

  /** The value cached for `k`. */
  ghost function ValueOf<K, V>(l: Recency<K, V>, k: K): V
    requires HasKey(l, k)
  {
    if l[|l| - 1].key == k then l[|l| - 1].value
    else
      HasKeyBefore(l, k);
      ValueOf(l[..|l| - 1], k)
  }

  lemma HasKeyBefore<K, V>(l: Recency<K, V>, k: K)
    requires HasKey(l, k) && l[|l| - 1].key != k
    ensures HasKey(l[..|l| - 1], k)
  {
    var i :| 0 <= i < |l| && l[i].key == k;
    assert l[..|l| - 1][i].key == k;
  }

  lemma {:induction false} WithoutLast<K, V>(rest: Recency<K, V>, e: Entry<K, V>, k: K)
    ensures Without(rest + [e], k) == if HasKey(rest, k) || e.key != k then Without(rest, k) + [e] else rest
    ensures !HasKey(rest, k) ==> Without(rest, k) == rest
  {
    if rest != [] {
      assert (rest + [e])[1..] == rest[1..] + [e];
      WithoutLast(rest[1..], e, k);
      assert HasKey(rest, k) <==> rest[0].key == k || HasKey(rest[1..], k) by {
        if HasKey(rest, k) && rest[0].key != k {
          var i :| 0 <= i < |rest| && rest[i].key == k;
          assert rest[1..][i - 1].key == k;
        }
      }
    } else {
      assert rest + [e] == [e];
    }
  }

  lemma Weaken<K, V>(items: map<K, Item<V>>, l: Recency<K, V>, newest: int, later: int)
    requires Represents(items, l, newest) && newest <= later
    ensures Represents(items, l, later)
  {
  }

  /** A key used now goes to the recent end. */
  lemma Touching<K, V>(items: map<K, Item<V>>, l: Recency<K, V>, newest: nat, k: K, v: V)
    requires Represents(items, l, newest)
    ensures Represents(items[k := Item(v, newest + 1)], Touched(l, k, v), newest + 1)
  {
    Removed(items, l, newest, k);
    var w := Touched(l, k, v);
    assert w[..|w| - 1] == Without(l, k);
    assert items[k := Item(v, newest + 1)] - {k} == items - {k};
  }

  /** The map determines the list: entries are exactly in order of last access. */
  lemma {:induction false} ListIsUnique<K, V>(items: map<K, Item<V>>, l: Recency<K, V>, l': Recency<K, V>, newest: int)
    requires Represents(items, l, newest) && Represents(items, l', newest)
    ensures l == l'
    decreases |l|
  {
    Bounds(items, l, newest);
    Bounds(items, l', newest);
    if l != [] {
      var e, e' := l[|l| - 1], l'[|l'| - 1];
      Bounds(items - {e.key}, l[..|l| - 1], items[e.key].lastAccess - 1);
      Bounds(items - {e'.key}, l'[..|l'| - 1], items[e'.key].lastAccess - 1);
      assert e.key == e'.key || (e.key in items - {e'.key} && e'.key in items - {e.key});
      ListIsUnique(items - {e.key}, l[..|l| - 1], l'[..|l'| - 1], items[e.key].lastAccess - 1);
      assert l == l[..|l| - 1] + [e] && l' == l'[..|l'| - 1] + [e'];
    }
  }

  /** Dropping the oldest entry is removing the key with the least access time. */
  lemma DropOldest<K, V>(items: map<K, Item<V>>, l: Recency<K, V>, newest: int, k: K)
    requires Represents(items, l, newest) && k in items
    requires forall j :: j in items ==> items[k].lastAccess <= items[j].lastAccess
    ensures l != [] && l[0].key == k
    ensures Represents(items - {k}, l[1..], newest)
  {
    FirstIsOldest(items, l, newest, k);
    Removed(items, l, newest, k);
  }

  class Lru<K(==), V> {
    var items: map<K, Item<V>>
    var lastCounter: nat
    var maxCapacity: nat
    /** The abstract value: entries from the least to the most recently used. */
    ghost var entries: Recency<K, V>

    ghost predicate Valid()
      reads this
    {
      Represents(items, entries, lastCounter)
    }

    /** The state of the abstract cache. */
    ghost function Abstract(): State<K, V>
      reads this
    {
      State(entries, maxCapacity)
    }

    constructor (capacity: nat)
      ensures Valid() && entries == [] && maxCapacity == capacity
    {
      items := map[];
      lastCounter := 0;
      maxCapacity := capacity;
      entries := [];
    }

    method Lookup(key: K) returns (value: LookupResult<V>)
      requires Valid()
      modifies this`items, this`lastCounter, this`entries
      ensures Valid()
      ensures value.Hit? <==> HasKey(old(entries), key)
      ensures value.Hit? ==> value.value == ValueOf(old(entries), key)
      ensures Abstract() == Apply(old(Abstract()), Use(key))
    {
      KeysAgree(items, entries, lastCounter, key);
      if key !in items {
        return Miss;
      }
      EntryOf(items, entries, lastCounter, key);
      value := Hit(items[key].value);
      Touching(items, entries, lastCounter, key, value.value);
      lastCounter := lastCounter + 1;
      items := items[key := Item(value.value, lastCounter)];
      entries := Touched(entries, key, value.value);
    }

    /** `std::min_element` over the access times. */
    method OldestKey() returns (k: K)
      requires items != map[]
      ensures k in items && forall j :: j in items ==> items[k].lastAccess <= items[j].lastAccess
    {
      k :| k in items;
      var rest := items.Keys - {k};
      while rest != {}
        invariant rest <= items.Keys && k in items
        invariant forall j :: j in items && j !in rest ==> items[k].lastAccess <= items[j].lastAccess
      {
        var j :| j in rest;
        if items[j].lastAccess < items[k].lastAccess {
          k := j;
        }
        rest := rest - {j};
      }
    }

    /** Evicts the entries that were used longest ago. */
    method Evict(count: nat)
      requires Valid()
      modifies this`items, this`entries
      ensures Valid()
      ensures entries == Drop(old(entries), count)
    {
      var left := count;
      while items != map[] && left > 0
        invariant Valid() && 0 <= left <= count && entries == Drop(old(entries), count - left)
        invariant count - left <= |old(entries)|
        decreases left
      {
        var lowest := OldestKey();
        DropOldest(items, entries, lastCounter, lowest);
        items := items - {lowest};
        entries := entries[1..];
        left := left - 1;
      }
      Bounds(items, entries, lastCounter);
      assert items == map[] ==> |items| == 0;
    }

    /** Makes room for one more entry. */
    method ShrinkForNewItem()
      requires Valid()
      modifies this`items, this`entries
      ensures Valid()
      ensures entries == Drop(old(entries), ToShrink(|old(entries)|, maxCapacity))
    {
      Bounds(items, entries, lastCounter);
      if |items| < maxCapacity {
        assert Drop(entries, 0) == entries;
        return;
      }
      Evict(|items| + 1 - maxCapacity);
    }

    /** Insert shrinks first, even when the key is present already. */
    method Insert(key: K, value: V)
      requires Valid()
      modifies this`items, this`entries, this`lastCounter
      ensures Valid()
      ensures Abstract() == Apply(old(Abstract()), Put(key, value))
      ensures |old(entries)| <= maxCapacity ==>
                (entries == Textbook(old(entries), key, value, maxCapacity)
                 <==> |old(entries)| < maxCapacity || !HasKey(old(entries), key) || old(entries)[0].key == key)
    {
      KeysStayDistinct(items, entries, lastCounter);
      if |entries| <= maxCapacity {
        InsertIsTextbookIff(entries, key, value, maxCapacity);
      }
      ShrinkForNewItem();
      Touching(items, entries, lastCounter, key, value);
      lastCounter := lastCounter + 1;
      items := items[key := Item(value, lastCounter)];
      entries := Touched(entries, key, value);
    }

    method Remove(key: K) returns (found: bool)
      requires Valid()
      modifies this`items, this`entries
      ensures Valid()
      ensures found <==> HasKey(old(entries), key)
      ensures Abstract() == Apply(old(Abstract()), Forget(key))
    {
      KeysAgree(items, entries, lastCounter, key);
      Removed(items, entries, lastCounter, key);
      found := key in items;
      assert !found ==> items - {key} == items;
      if !found {
        ListIsUnique(items, entries, Without(entries, key), lastCounter);
      } else {
        items := items - {key};
      }
      entries := Without(entries, key);
    }

    method SetMaxCapacity(capacity: nat)
      requires Valid()
      modifies this`items, this`entries, this`maxCapacity
      ensures Valid()
      ensures Abstract() == Apply(old(Abstract()), Resize(capacity))
    {
      maxCapacity := capacity;
      Bounds(items, entries, lastCounter);
      if |items| > maxCapacity {
        Evict(|items| - maxCapacity);
      }
    }
  }

  datatype LookupResult<V> = Miss | Hit(value: V)

  lemma {:induction false} EntryOf<K, V>(items: map<K, Item<V>>, l: Recency<K, V>, newest: int, k: K)
    requires Represents(items, l, newest) && k in items
    ensures HasKey(l, k) && ValueOf(l, k) == items[k].value
    decreases |l|
  {
    KeysAgree(items, l, newest, k);
    var e := l[|l| - 1];
    if e.key != k {
      EntryOf(items - {e.key}, l[..|l| - 1], items[e.key].lastAccess - 1, k);
    }
  }

  /** Every entry was used before every later one; so whatever Evict drops is older than whatever
      it keeps. */
  lemma {:induction false} AccessTimesIncrease<K, V>(items: map<K, Item<V>>, l: Recency<K, V>, newest: int, i: nat, j: nat)
    requires Represents(items, l, newest) && i < j < |l|
    ensures l[i].key in items && l[j].key in items && l[i].key != l[j].key
    ensures items[l[i].key].lastAccess < items[l[j].key].lastAccess
    decreases |l|
  {
    var key := l[|l| - 1].key;
    var less, rest := items - {key}, l[..|l| - 1];
    if j == |l| - 1 {
      assert rest[i].key == l[i].key && HasKey(rest, l[i].key);
      KeysAgree(less, rest, items[key].lastAccess - 1, l[i].key);
      Bounds(less, rest, items[key].lastAccess - 1);
    } else {
      AccessTimesIncrease(less, rest, items[key].lastAccess - 1, i, j);
    }
  }

  // ----- runs -----

  datatype Op<K, V> = Use(key: K) | Put(key: K, value: V) | Forget(key: K) | Resize(capacity: nat)
  datatype State<K, V> = State(entries: Recency<K, V>, capacity: nat)

  /** What the methods do to the recency list and the capacity. */
  ghost function Apply<K, V>(s: State<K, V>, op: Op<K, V>): State<K, V> {
    match op
    case Use(k) =>
      if HasKey(s.entries, k) then s.(entries := Touched(s.entries, k, ValueOf(s.entries, k))) else s
    case Put(k, v) => s.(entries := Inserted(s.entries, k, v, s.capacity))
    case Forget(k) => s.(entries := Without(s.entries, k))
    case Resize(n) =>
      State(if |s.entries| > n then Drop(s.entries, |s.entries| - n) else s.entries, n)
  }

  ghost function Run<K, V>(s: State<K, V>, ops: seq<Op<K, V>>): State<K, V> {
    if ops == [] then s else Apply(Run(s, ops[..|ops| - 1]), ops[|ops| - 1])
  }

  lemma {:induction false} WithoutLength<K, V>(l: Recency<K, V>, k: K)
    ensures |Without(l, k)| == if HasKey(l, k) then |l| - 1 else |l|
  {
    if l != [] && l[0].key != k {
      WithoutLength(l[1..], k);
      assert HasKey(l, k) <==> HasKey(l[1..], k) by {
        if HasKey(l, k) {
          var i :| 0 <= i < |l| && l[i].key == k;
          assert l[1..][i - 1].key == k;
        }
      }
    } else if l != [] {
      assert HasKey(l, k);
    }
  }

  /** One operation keeps the size within the capacity, unless it inserts at capacity zero. */
  lemma ApplyFitsIff<K, V>(s: State<K, V>, op: Op<K, V>)
    requires |s.entries| <= s.capacity
    ensures var t := Apply(s, op);
            |t.entries| <= t.capacity <==> !(op.Put? && s.capacity == 0)
  {
    match op
    case Use(k) =>
      WithoutLength(s.entries, k);
    case Put(k, v) =>
      WithoutLength(Drop(s.entries, ToShrink(|s.entries|, s.capacity)), k);
    case Forget(k) =>
      WithoutLength(s.entries, k);
    case Resize(n) =>
  }

  /** Every run stays within its capacity if it never inserts at capacity zero. */
  lemma {:induction false} RunFits<K, V>(s: State<K, V>, ops: seq<Op<K, V>>)
    requires |s.entries| <= s.capacity
    requires forall n :: 0 <= n < |ops| && ops[n].Put? ==> Run(s, ops[..n]).capacity > 0
    ensures |Run(s, ops).entries| <= Run(s, ops).capacity
  {
    if ops != [] {
      var before := ops[..|ops| - 1];
      assert forall n :: 0 <= n < |before| ==> before[..n] == ops[..n];
      RunFits(s, before);
      ApplyFitsIff(Run(s, before), ops[|ops| - 1]);
    }
  }

  // ----- the order of a run, told from its operations

  /** The operation at this point of a run uses `k`: it puts it in, or looks it up and finds it. */
  ghost predicate Uses<K, V>(s: State<K, V>, op: Op<K, V>, k: K) {
    (op.Put? && op.key == k) || (op.Use? && op.key == k && HasKey(s.entries, k))
  }

  /** The index of the last operation of the run that uses `k`, or -1. */
  ghost function LastUse<K, V>(s: State<K, V>, ops: seq<Op<K, V>>, k: K): int
    ensures -1 <= LastUse(s, ops, k) < |ops|
  {
    if ops == [] then -1
    else
      var before, op := ops[..|ops| - 1], ops[|ops| - 1];
      if Uses(Run(s, before), op, k) then |before| else LastUse(s, before, k)
  }

  /** The value last put in for `k`. */
  ghost predicate LastPut<K, V>(ops: seq<Op<K, V>>, k: K, v: V) {
    ops != [] &&
    (var before, op := ops[..|ops| - 1], ops[|ops| - 1];
     if op.Put? && op.key == k then op.value == v else LastPut(before, k, v))
  }

  /** Entries in the order of a number given to their keys. */
  ghost predicate Ascending<K, V>(l: Recency<K, V>, f: K -> int) {
    forall i, j :: 0 <= i < j < |l| ==> f(l[i].key) < f(l[j].key)
  }

  /** The entry was used, and holds the value last put in for its key. */
  ghost predicate WasPut<K, V>(s: State<K, V>, ops: seq<Op<K, V>>, e: Entry<K, V>) {
    LastUse(s, ops, e.key) >= 0 && LastPut(ops, e.key, e.value)
  }

  /** Every entry holds the value last put in for its key, and was used before the entries after it. */
  ghost predicate InOrderOfUse<K, V>(s: State<K, V>, ops: seq<Op<K, V>>) {
    && (forall e :: e in Run(s, ops).entries ==> WasPut(s, ops, e))
    && Ascending(Run(s, ops).entries, k => LastUse(s, ops, k))
  }

  /** Some entries of `l`, none of them with the key `k`, in their order. */
  ghost predicate KeptWithout<K, V>(t: Recency<K, V>, l: Recency<K, V>, k: K, f: K -> int) {
    Ascending(t, f) && forall e :: e in t ==> e in l && e.key != k
  }

  /** Taking out a key leaves the others in their order. */
  lemma {:induction false} WithoutKeepsOrder<K, V>(l: Recency<K, V>, k: K, f: K -> int)
    requires Ascending(l, f)
    ensures KeptWithout(Without(l, k), l, k, f)
  {
    if l != [] {
      var rest := l[1..];
      assert forall i :: 0 <= i < |rest| ==> rest[i] == l[i + 1];
      assert forall e :: e in rest ==> e in l && f(l[0].key) < f(e.key);
      if l[0].key != k {
        WithoutKeepsOrder(rest, k, f);
        FirstInOrder(l[0], Without(rest, k), f);
      }
    }
  }

  lemma FirstInOrder<K, V>(e: Entry<K, V>, l: Recency<K, V>, f: K -> int)
    requires Ascending(l, f) && forall x :: x in l ==> f(e.key) < f(x.key)
    ensures Ascending([e] + l, f)
  {
    var t := [e] + l;
    forall i, j | 0 <= i < j < |t|
      ensures f(t[i].key) < f(t[j].key)
    {
      assert t[j] == l[j - 1] && t[j] in l;
      if i > 0 {
        assert t[i] == l[i - 1];
      }
    }
  }

  lemma LastInOrder<K, V>(l: Recency<K, V>, e: Entry<K, V>, f: K -> int)
    requires Ascending(l, f) && forall x :: x in l ==> f(x.key) < f(e.key)
    ensures Ascending(l + [e], f)
  {
    var t := l + [e];
    forall i, j | 0 <= i < j < |t|
      ensures f(t[i].key) < f(t[j].key)
    {
      assert t[i] == l[i] && t[i] in l;
    }
  }

  lemma DropKeepsOrder<K, V>(l: Recency<K, V>, n: nat, f: K -> int)
    requires Ascending(l, f)
    ensures Ascending(Drop(l, n), f) && forall e :: e in Drop(l, n) ==> e in l
  {
    var t := Drop(l, n);
    forall i, j | 0 <= i < j < |t|
      ensures f(t[i].key) < f(t[j].key)
    {
      assert t[i] == l[n + i] && t[j] == l[n + j];
    }
  }

  lemma RoomKeepsOrder<K, V>(l: Recency<K, V>, n: nat, k: K, f: K -> int)
    requires Ascending(l, f)
    ensures KeptWithout(Without(Drop(l, n), k), l, k, f)
  {
    DropKeepsOrder(l, n, f);
    WithoutKeepsOrder(Drop(l, n), k, f);
  }

  /** `kept` are entries of the cache that the operation does not use, in their order. */
  ghost predicate Kept<K, V>(s: State<K, V>, op: Op<K, V>, kept: Recency<K, V>, f: K -> int) {
    Ascending(kept, f) && forall e :: e in kept ==> e in s.entries && !Uses(s, op, e.key)
  }

  /** One operation: what it keeps it keeps in order, and only the key that it uses goes to the end. */
  lemma KeepsOrder<K, V>(s: State<K, V>, op: Op<K, V>, f: K -> int) returns (kept: Recency<K, V>)
    requires Ascending(s.entries, f)
    ensures Kept(s, op, kept, f)
    ensures var l := Apply(s, op).entries;
            l == kept || ((op.Put? || op.Use?) && Uses(s, op, op.key)
                          && l == kept + [Entry(op.key, if op.Put? then op.value else ValueOf(s.entries, op.key))])
  {
    match op
    case Use(k) => kept := UseKeepsOrder(s, k, f);
    case Put(k, v) => kept := PutKeepsOrder(s, k, v, f);
    case Forget(k) =>
      kept := Without(s.entries, k);
      WithoutKeepsOrder(s.entries, k, f);
    case Resize(n) => kept := ResizeKeepsOrder(s, n, f);
  }

  lemma UseKeepsOrder<K, V>(s: State<K, V>, k: K, f: K -> int) returns (kept: Recency<K, V>)
    requires Ascending(s.entries, f)
    ensures Kept(s, Use(k), kept, f)
    ensures Apply(s, Use(k)).entries
         == if HasKey(s.entries, k) then kept + [Entry(k, ValueOf(s.entries, k))] else kept
  {
    kept := if HasKey(s.entries, k) then Without(s.entries, k) else s.entries;
    WithoutKeepsOrder(s.entries, k, f);
  }

  lemma PutKeepsOrder<K, V>(s: State<K, V>, k: K, v: V, f: K -> int) returns (kept: Recency<K, V>)
    requires Ascending(s.entries, f)
    ensures Kept(s, Put(k, v), kept, f) && Apply(s, Put(k, v)).entries == kept + [Entry(k, v)]
  {
    kept := Without(Drop(s.entries, ToShrink(|s.entries|, s.capacity)), k);
    RoomKeepsOrder(s.entries, ToShrink(|s.entries|, s.capacity), k, f);
  }

  lemma ResizeKeepsOrder<K, V>(s: State<K, V>, n: nat, f: K -> int) returns (kept: Recency<K, V>)
    requires Ascending(s.entries, f)
    ensures Kept(s, Resize(n), kept, f) && Apply(s, Resize(n)).entries == kept
  {
    kept := s.entries;
    if |s.entries| > n {
      kept := Drop(s.entries, |s.entries| - n);
      DropKeepsOrder(s.entries, |s.entries| - n, f);
    }
  }

  lemma {:induction false} ValueIsOfEntry<K, V>(l: Recency<K, V>, k: K) returns (i: nat)
    requires HasKey(l, k)
    ensures i < |l| && l[i] == Entry(k, ValueOf(l, k))
    decreases |l|
  {
    i := |l| - 1;
    if l[i].key != k {
      HasKeyBefore(l, k);
      i := ValueIsOfEntry(l[..|l| - 1], k);
    }
  }

  /** In every run from an empty cache the recency list is in the order in which its keys were last put
      in or found, and each entry holds the value last put in for its key. */
  lemma {:induction false} RunIsInOrderOfUse<K, V>(s: State<K, V>, ops: seq<Op<K, V>>)
    requires s.entries == []
    ensures InOrderOfUse(s, ops)
  {
    if ops != [] {
      var before, op := ops[..|ops| - 1], ops[|ops| - 1];
      RunIsInOrderOfUse(s, before);
      var kept := KeepsOrder(Run(s, before), op, k => LastUse(s, before, k));
      KeptInOrder(s, ops, kept);
      if Run(s, ops).entries != kept {
        UsedGoesLast(s, ops, kept);
      }
    }
  }

  /** What is kept keeps its last use and its value. */
  lemma KeptInOrder<K, V>(s: State<K, V>, ops: seq<Op<K, V>>, kept: Recency<K, V>)
    requires ops != [] && InOrderOfUse(s, ops[..|ops| - 1])
    requires Ascending(kept, k => LastUse(s, ops[..|ops| - 1], k))
    requires var r, op := Run(s, ops[..|ops| - 1]), ops[|ops| - 1];
             forall e :: e in kept ==> e in r.entries && !Uses(r, op, e.key)
    ensures Ascending(kept, k => LastUse(s, ops, k))
    ensures forall e :: e in kept ==> WasPut(s, ops, e) && LastUse(s, ops, e.key) < |ops| - 1
  {
    var before := ops[..|ops| - 1];
    forall e | e in kept
      ensures WasPut(s, ops, e) && LastUse(s, ops, e.key) == LastUse(s, before, e.key)
    {
      assert WasPut(s, before, e);
    }
    forall i, j | 0 <= i < j < |kept|
      ensures LastUse(s, ops, kept[i].key) < LastUse(s, ops, kept[j].key)
    {
      assert kept[i] in kept && kept[j] in kept;
    }
  }

  /** What is used goes to the end, with its value. */
  lemma UsedGoesLast<K, V>(s: State<K, V>, ops: seq<Op<K, V>>, kept: Recency<K, V>)
    requires ops != [] && InOrderOfUse(s, ops[..|ops| - 1])
    requires Ascending(kept, k => LastUse(s, ops, k))
    requires forall e :: e in kept ==> WasPut(s, ops, e) && LastUse(s, ops, e.key) < |ops| - 1
    requires var r, op := Run(s, ops[..|ops| - 1]), ops[|ops| - 1];
             && (op.Put? || op.Use?) && Uses(r, op, op.key)
             && Run(s, ops).entries == kept + [Entry(op.key, if op.Put? then op.value else ValueOf(r.entries, op.key))]
    ensures InOrderOfUse(s, ops)
  {
    var before, op := ops[..|ops| - 1], ops[|ops| - 1];
    var r := Run(s, before);
    var last := Entry(op.key, if op.Put? then op.value else ValueOf(r.entries, op.key));
    assert LastUse(s, ops, last.key) == |before|;
    if op.Use? {
      var i := ValueIsOfEntry(r.entries, op.key);
      assert r.entries[i] in r.entries && WasPut(s, before, last);
    }
    assert WasPut(s, ops, last);
    LastInOrder(kept, last, k => LastUse(s, ops, k));
  }

  /** A key is in the list without another one as it is in the list. */
  lemma {:induction false} HasKeyWithout<K, V>(l: Recency<K, V>, k: K, x: K)
    requires x != k
    ensures HasKey(Without(l, k), x) <==> HasKey(l, x)
  {
    if l != [] {
      HasKeyWithout(l[1..], k, x);
      HasKeyFirst(l, x);
      if l[0].key != k {
        HasKeyFirst(Without(l, k), x);
        assert Without(l, k)[1..] == Without(l[1..], k);
      }
    }
  }

  /** A key that occurs once is gone. */
  lemma {:induction false} WithoutGone<K, V>(l: Recency<K, V>, k: K)
    requires DistinctKeys(l)
    ensures !HasKey(Without(l, k), k)
  {
    if l != [] {
      assert forall i :: 0 <= i < |l[1..]| ==> l[1..][i] == l[i + 1];
      if l[0].key != k {
        WithoutGone(l[1..], k);
        HasKeyFirst(Without(l, k), k);
        assert Without(l, k)[1..] == Without(l[1..], k);
      }
    }
  }

  lemma HasKeyFirst<K, V>(l: Recency<K, V>, x: K)
    requires l != []
    ensures HasKey(l, x) <==> l[0].key == x || HasKey(l[1..], x)
  {
    if HasKey(l, x) && l[0].key != x {
      var i :| 0 <= i < |l| && l[i].key == x;
      assert l[1..][i - 1].key == x;
    }
  }

  lemma HasKeyTouched<K, V>(l: Recency<K, V>, k: K, v: V, x: K)
    ensures HasKey(Touched(l, k, v), x) <==> x == k || HasKey(l, x)
  {
    var t := Touched(l, k, v);
    assert t[|t| - 1].key == k;
    if x != k {
      HasKeyWithout(l, k, x);
      if HasKey(t, x) {
        var i :| 0 <= i < |t| && t[i].key == x;
        assert Without(l, k)[i].key == x;
      }
      if HasKey(Without(l, k), x) {
        var i :| 0 <= i < |Without(l, k)| && Without(l, k)[i].key == x;
        assert t[i].key == x;
      }
    }
  }

  /** The `n` most recently used entries. */
  function Youngest<K, V>(l: Recency<K, V>, n: nat): Recency<K, V> {
    if n < |l| then l[|l| - n..] else l
  }

  /** Exactly which keys an operation leaves: looking up keeps them all, removing takes out one, resizing
      keeps as many of the youngest as fit; putting in makes room first if the cache is full, and keeps
      as many of the youngest as fit besides the new entry. */
  lemma KeysAfter<K, V>(s: State<K, V>, op: Op<K, V>, x: K)
    requires DistinctKeys(s.entries)
    ensures HasKey(Apply(s, op).entries, x)
       <==> match op
            case Use(_) => HasKey(s.entries, x)
            case Put(k, _) =>
              x == k || HasKey(if |s.entries| < s.capacity then s.entries
                               else Youngest(s.entries, if s.capacity == 0 then 0 else s.capacity - 1), x)
            case Forget(k) => x != k && HasKey(s.entries, x)
            case Resize(n) => HasKey(Youngest(s.entries, n), x)
  {
    var l := s.entries;
    match op
    case Use(k) =>
      if HasKey(l, k) {
        HasKeyTouched(l, k, ValueOf(l, k), x);
      }
    case Put(k, v) =>
      HasKeyTouched(Drop(l, ToShrink(|l|, s.capacity)), k, v, x);
    case Forget(k) =>
      if x == k {
        WithoutGone(l, k);
      } else {
        HasKeyWithout(l, k, x);
      }
    case Resize(n) =>
  }

  /** The textbook cache: only a new key in a full cache evicts, and it evicts the oldest. */
  function Textbook<K(==), V>(l: Recency<K, V>, k: K, v: V, capacity: nat): Recency<K, V> {
    var others := Without(l, k);
    Drop(others, ToShrink(|others|, capacity)) + [Entry(k, v)]
  }

  predicate DistinctKeys<K(==), V>(l: Recency<K, V>) {
    forall i, j :: 0 <= i < j < |l| ==> l[i].key != l[j].key
  }

  lemma KeysStayDistinct<K, V>(items: map<K, Item<V>>, l: Recency<K, V>, newest: int)
    requires Represents(items, l, newest)
    ensures DistinctKeys(l)
  {
    forall i, j | 0 <= i < j < |l|
      ensures l[i].key != l[j].key
    {
      AccessTimesIncrease(items, l, newest, i, j);
    }
  }

  /** Insert does what the textbook cache does, except that refreshing a key other than the oldest
      in a full cache throws out the oldest entry for nothing. */
  lemma InsertIsTextbookIff<K, V>(l: Recency<K, V>, k: K, v: V, capacity: nat)
    requires |l| <= capacity && DistinctKeys(l)
    ensures Inserted(l, k, v, capacity) == Textbook(l, k, v, capacity)
       <==> |l| < capacity || !HasKey(l, k) || l[0].key == k
  {
    WithoutLength(l, k);
    if |l| < capacity {
      assert Drop(l, 0) == l && Drop(Without(l, k), 0) == Without(l, k);
    } else if l != [] {
      var younger := l[1..];
      assert Drop(l, ToShrink(|l|, capacity)) == younger;
      WithoutLength(younger, k);
      if !HasKey(l, k) {
        assert !HasKey(younger, k) by {
          assert forall i :: 0 <= i < |younger| ==> younger[i] == l[i + 1];
        }
        WithoutWhole(l, k);
        WithoutWhole(younger, k);
      } else {
        assert Drop(Without(l, k), 0) == Without(l, k);
        if l[0].key == k {
          assert !HasKey(younger, k);
          WithoutWhole(younger, k);
        } else {
          assert |Without(l, k)| == 1 + |Without(younger, k)|;
        }
      }
    }
  }

  lemma {:induction false} WithoutWhole<K, V>(l: Recency<K, V>, k: K)
    requires |Without(l, k)| == |l|
    ensures Without(l, k) == l
  {
    if l != [] {
      WithoutWhole(l[1..], k);
    }
  }
}
