/**
 * ObservableMap: a map that reports value changes to two optional sinks (an Observable and a
 * Deferred) and fills in missing values from an optional default-value provider.
 *
 * The backing gs-collections MutableMap is `EntryStore`, a class holding a `map` and offering
 * the java.util.Map / ConcurrentMap contracts the map relies on. A stored `None` is a null
 * mapping. The sinks are represented by a ghost log of the records they receive, and the
 * default-value provider by a function together with a ghost log of the keys it was asked for.
 */
module ObservableCollection {
  import opened Optional
  import OrderedCollection

  /** Integer.compare: the sign of `a - b`, as -1, 0 or 1. */
  function IntegerCompare(a: int, b: int): (r: int)
    ensures -1 <= r <= 1
    ensures r < 0 <==> a < b
    ensures r == 0 <==> a == b
  {
    if a < b then -1 else if a == b then 0 else 1
  }

  /** The order `ObservableEntry.compareTo` puts on keys: by hash code alone. */
  function EntryOrder<K>(keyHash: K -> int): (order: (K, K) -> int) {
    (a: K, b: K) => IntegerCompare(keyHash(a), keyHash(b))
  }

  /**
   * Ordering entries by key hash is a total, transitive order that agrees with the hash code,
   * so an ordered list of entries keeps its cached hashes sorted.
   */
  lemma EntryOrderSortsByHash<K(!new)>(keyHash: K -> int)
    ensures OrderedCollection.IsOrdering(EntryOrder(keyHash))
    ensures OrderedCollection.AgreesWithHash(EntryOrder(keyHash), keyHash)
  {
    var order := EntryOrder(keyHash);
    forall a, b
      ensures OrderedCollection.Le(order, a, b) || OrderedCollection.Le(order, b, a)
    {
    }
    forall a, b, c | OrderedCollection.Le(order, a, b) && OrderedCollection.Le(order, b, c)
      ensures OrderedCollection.Le(order, a, c)
    {
    }
  }

  /** The value stored under `k` in `m`, or null when there is none. */
  function Lookup<K, V>(m: map<K, Option<V>>, k: K): (v: Option<V>)
    ensures v.Some? ==> k in m
  {
    if k in m then m[k] else None
  }

  /** The backing MutableMap: key to nullable value. */
  class EntryStore<K(==), V(==)> {
    var contents: map<K, Option<V>>
    /** Whether a null produced by `getIfAbsentPut`'s factory is stored (the store's choice). */
    const keepsNullMappings: bool

    constructor (keepsNullMappings: bool)
      ensures contents == map[] && this.keepsNullMappings == keepsNullMappings
    {
      contents := map[];
      this.keepsNullMappings := keepsNullMappings;
    }

    /** Map.get. */
    method Get(k: K) returns (r: Option<V>)
      ensures r == Lookup(contents, k)
    {
      r := if k in contents then contents[k] else None;
    }

    /** The store step of getIfAbsentPut for an absent key, after its factory produced `v`. */
    method PutIfAbsentResult(k: K, v: Option<V>)
      modifies this
      ensures v.Some? || keepsNullMappings ==> contents == old(contents)[k := v]
      ensures v.None? && !keepsNullMappings ==> contents == old(contents)
    {
      if v.Some? || keepsNullMappings {
        contents := contents[k := v];
      }
    }

    /** Map.put: maps `k` to `v` whether or not `k` was present; returns the previous value. */
    method Put(k: K, v: V) returns (prev: Option<V>)
      modifies this
      ensures contents == old(contents)[k := Some(v)] && prev == Lookup(old(contents), k)
    {
      prev := Lookup(contents, k);
      contents := contents[k := Some(v)];
    }

    /** Map.replace(k, v): replaces only an existing mapping; returns the previous value. */
    method Replace(k: K, v: V) returns (prev: Option<V>)
      modifies this
      ensures k in old(contents) ==> contents == old(contents)[k := Some(v)]
      ensures k !in old(contents) ==> contents == old(contents)
      ensures prev == Lookup(old(contents), k)
    {
      prev := Lookup(contents, k);
      if k in contents {
        contents := contents[k := Some(v)];
      }
    }

    /**
     * ConcurrentMap.replace(k, expected, v): when `k` is mapped to `expected`, maps it to `v`.
     * On an absent key it always fails and changes nothing.
     */
    method ReplaceIf(k: K, expected: Option<V>, v: V) returns (replaced: bool)
      modifies this
      ensures replaced <==> k in old(contents) && old(contents)[k] == expected
      ensures contents == if replaced then old(contents)[k := Some(v)] else old(contents)
    {
      replaced := k in contents && contents[k] == expected;
      if replaced {
        contents := contents[k := Some(v)];
      }
    }

    /** Map.remove: drops `k`; returns the previous value. */
    method Remove(k: K) returns (prev: Option<V>)
      modifies this
      ensures contents == old(contents) - {k} && prev == Lookup(old(contents), k)
    {
      prev := Lookup(contents, k);
      contents := contents - {k};
    }

    /** Map.clear. */
    method Clear()
      modifies this
      ensures contents == map[]
    {
      contents := map[];
    }

    /** Map.putAll: every mapping of `m` overrides the store's. */
    method PutAll(m: map<K, V>)
      modifies this
      ensures contents == old(contents) + map k | k in m :: Some(m[k])
    {
      contents := contents + map k | k in m :: Some(m[k]);
    }
  }

  /** An entry handed to the sinks: a key, its value, and the store it writes back to. */
  class ObservableEntry<K(==), V(==)> {
    const key: K
    var data: V
    const entries: EntryStore<K, V>
    const keyHash: K -> int  // the keys' Object.hashCode

    constructor (key: K, value: V, entries: EntryStore<K, V>, keyHash: K -> int)
      ensures this.key == key && data == value && this.entries == entries && this.keyHash == keyHash
    {
      this.key, data, this.entries, this.keyHash := key, value, entries, keyHash;
    }

    /** `hashCode()`: the key's hash code, so entries with the same key hash alike. */
    function HashCode(): (h: int)
      ensures h == keyHash(key)
    {
      keyHash(key)
    }

    /**
     * `compareTo(o)`: compares this key's hash code with the other key's, so the order is the
     * hash-code order, ties are exactly equal hash codes, and it is antisymmetric.
     */
    function CompareTo(o: ObservableEntry<K, V>): (r: int)
      ensures r < 0 <==> HashCode() < o.HashCode()
      ensures r == 0 <==> HashCode() == o.HashCode()
      ensures r > 0 <==> HashCode() > o.HashCode()
      ensures r == -IntegerCompare(o.HashCode(), HashCode())
      ensures o.keyHash == keyHash ==> r == EntryOrder(keyHash)(key, o.key)
    {
      IntegerCompare(HashCode(), o.HashCode())
    }

    /**
     * `setValue(value)`: sets the entry's own value, then retries a conditional replace in the
     * store until it succeeds, first expecting the entry's previous value and then the store's
     * current one. Returns the value the store held. With the key absent every replace fails
     * and the loop never ends, so the key must be present. Conditional replace compares by
     * identity here, where Java compares with `equals`.
     */
    method SetValue(value: V) returns (prev: Option<V>)
      requires key in entries.contents
      modifies this, entries
      ensures data == value
      ensures entries.contents == old(entries.contents)[key := Some(value)]
      ensures prev == old(entries.contents[key])
    {
      var oldVal := Some(data);
      data := value;
      var replaced := entries.ReplaceIf(key, oldVal, value);
      while !replaced
        invariant data == value
        invariant !replaced ==> entries.contents == old(entries.contents)
        invariant replaced ==>
          entries.contents == old(entries.contents)[key := Some(value)] && oldVal == old(entries.contents[key])
        decreases !replaced
      {
        oldVal := entries.Get(key);
        replaced := entries.ReplaceIf(key, oldVal, value);
      }
      prev := oldVal;
    }
  }

  datatype Sink = ObservableSink | DeferredSink

  /** One record received by a sink: the notified entry's key and value. */
  datatype Notification<K, V> = Notification(sink: Sink, key: K, value: V)

  /**
   * What one `notifyValue` of key `k` and value `v` delivers: one record to each configured
   * sink, the Observable before the Deferred.
   */
  function Notifications<K, V>(hasObservable: bool, hasDeferred: bool, k: K, v: V): (r: seq<Notification<K, V>>)
    ensures |r| == (if hasObservable then 1 else 0) + (if hasDeferred then 1 else 0)
    ensures forall i :: 0 <= i < |r| ==> r[i].key == k && r[i].value == v
    ensures hasObservable ==> r[0].sink == ObservableSink
    ensures hasDeferred ==> r[|r| - 1].sink == DeferredSink
    ensures forall i :: 0 <= i < |r| && r[i].sink == ObservableSink ==> hasObservable && i == 0
    ensures forall i :: 0 <= i < |r| && r[i].sink == DeferredSink ==> hasDeferred && i == |r| - 1
  {
    (if hasObservable then [Notification(ObservableSink, k, v)] else [])
      + (if hasDeferred then [Notification(DeferredSink, k, v)] else [])
  }

  class ObservableMap<K(==), V(==)> {
    const entries: EntryStore<K, V>
    const hasObservable: bool  // the Observable sink is not null
    const hasDeferred: bool    // the Deferred sink is not null
    const defaultValueProvider: Option<K -> Option<V>>
    const keyHash: K -> int
    /** Every record the sinks received, oldest first. */
    ghost var notifications: seq<Notification<K, V>>
    /** Every key the default-value provider was applied to, oldest first. */
    ghost var providerCalls: seq<K>

    constructor (hasObservable: bool, hasDeferred: bool, defaultValueProvider: Option<K -> Option<V>>,
                 keyHash: K -> int, keepsNullMappings: bool)
      ensures fresh(entries) && entries.contents == map[] && entries.keepsNullMappings == keepsNullMappings
      ensures this.hasObservable == hasObservable && this.hasDeferred == hasDeferred
      ensures this.defaultValueProvider == defaultValueProvider && this.keyHash == keyHash
      ensures notifications == [] && providerCalls == []
    {
      this.hasObservable, this.hasDeferred := hasObservable, hasDeferred;
      this.defaultValueProvider, this.keyHash := defaultValueProvider, keyHash;
      entries := new EntryStore(keepsNullMappings);
      notifications, providerCalls := [], [];
    }

    /** `clear()`: empties the store; no notification. */
    method Clear()
      modifies entries
      ensures entries.contents == map[]
      ensures notifications == old(notifications) && providerCalls == old(providerCalls)
    {
      entries.Clear();
    }

    /** `remove(key)`: drops the mapping and returns its value; no notification. */
    method Remove(k: K) returns (prev: Option<V>)
      modifies entries
      ensures entries.contents == old(entries.contents) - {k}
      ensures prev == Lookup(old(entries.contents), k)
      ensures notifications == old(notifications) && providerCalls == old(providerCalls)
    {
      prev := entries.Remove(k);
    }

    /** `putAll(m)`: copies every mapping of `m` into the store; no notification. */
    method PutAll(m: map<K, V>)
      modifies entries
      ensures entries.contents == old(entries.contents) + map k | k in m :: Some(m[k])
      ensures forall k :: k in m ==> Lookup(entries.contents, k) == Some(m[k])
      ensures forall k :: k !in m ==> Lookup(entries.contents, k) == Lookup(old(entries.contents), k)
      ensures notifications == old(notifications) && providerCalls == old(providerCalls)
    {
      entries.PutAll(m);
    }

    /** `size()`: the number of mappings in the store, null mappings included. */
    method Size() returns (n: int)
      ensures n == |entries.contents.Keys|
    {
      n := |entries.contents.Keys|;
    }

    /** `keySet()`: the keys of the store, null mappings included. */
    method KeySet() returns (keys: set<K>)
      ensures forall k :: k in keys <==> k in entries.contents
    {
      keys := entries.contents.Keys;
    }

    /** `notifyValue(entry)`: the Observable first, then the Deferred, skipping a null sink. */
    method NotifyValue(entry: ObservableEntry<K, V>)
      modifies this
      ensures notifications == old(notifications) + Notifications(hasObservable, hasDeferred, entry.key, entry.data)
      ensures providerCalls == old(providerCalls)
    {
      if hasObservable {
        notifications := notifications + [Notification(ObservableSink, entry.key, entry.data)];
      }
      if hasDeferred {
        notifications := notifications + [Notification(DeferredSink, entry.key, entry.data)];
      }
    }

    /**
     * The factory `get` hands to getIfAbsentPut: applies the provider, if there is one, and
     * notifies a non-null default before returning it.
     */
    method SafeValue(k: K) returns (val: Option<V>)
      modifies this
      ensures defaultValueProvider.None? ==>
        val == None && providerCalls == old(providerCalls) && notifications == old(notifications)
      ensures defaultValueProvider.Some? ==>
        && val == defaultValueProvider.value(k)
        && providerCalls == old(providerCalls) + [k]
        && notifications == old(notifications)
             + (if val.Some? then Notifications(hasObservable, hasDeferred, k, val.value) else [])
    {
      val := None;
      if defaultValueProvider.Some? {
        providerCalls := providerCalls + [k];
        val := defaultValueProvider.value(k);
        if val.Some? {
          var entry := new ObservableEntry(k, val.value, entries, keyHash);
          NotifyValue(entry);
        }
      }
    }

    /**
     * `get(key)`: getIfAbsentPut with `SafeValue` as the factory. A key that is present, even
     * mapped to null, gives its stored value with no provider call and no notification. For an
     * absent key the provider's value is returned and stored, and notified when it is not null;
     * a null default is kept as a null mapping or not, as the store decides.
     */
    method Get(k: K) returns (r: Option<V>)
      modifies this, entries
      ensures k in old(entries.contents) ==>
        && r == old(entries.contents)[k]
        && entries.contents == old(entries.contents)
        && providerCalls == old(providerCalls) && notifications == old(notifications)
      ensures k !in old(entries.contents) && defaultValueProvider.None? ==>
        && r == None
        && providerCalls == old(providerCalls) && notifications == old(notifications)
      ensures k !in old(entries.contents) && defaultValueProvider.Some? ==>
        && r == defaultValueProvider.value(k)
        && providerCalls == old(providerCalls) + [k]
        && notifications == old(notifications)
             + (if r.Some? then Notifications(hasObservable, hasDeferred, k, r.value) else [])
      ensures k !in old(entries.contents) && r.Some? ==> entries.contents == old(entries.contents)[k := r]
      ensures k !in old(entries.contents) && r.None? && entries.keepsNullMappings ==>
        entries.contents == old(entries.contents)[k := None]
      ensures k !in old(entries.contents) && r.None? && !entries.keepsNullMappings ==>
        entries.contents == old(entries.contents)
      ensures r == Lookup(entries.contents, k)
    {
      if k in entries.contents {
        r := entries.Get(k);
      } else {
        r := SafeValue(k);
        entries.PutIfAbsentResult(k, r);
      }
    }

    /** `containsKey(key)`: whether `get(key)` is not null, so a default it provides counts. */
    method ContainsKey(k: K) returns (b: bool)
      modifies this, entries
      ensures b <==> Lookup(entries.contents, k).Some?
      ensures b <==> Lookup(old(entries.contents), k).Some?
                     || (k !in old(entries.contents) && defaultValueProvider.Some? && defaultValueProvider.value(k).Some?)
      ensures k in old(entries.contents) ==>
        && entries.contents == old(entries.contents)
        && providerCalls == old(providerCalls) && notifications == old(notifications)
      ensures k !in old(entries.contents) && defaultValueProvider.None? ==>
        && providerCalls == old(providerCalls) && notifications == old(notifications)
        && entries.contents == if entries.keepsNullMappings then old(entries.contents)[k := None] else old(entries.contents)
      ensures k !in old(entries.contents) && defaultValueProvider.Some? ==>
        && providerCalls == old(providerCalls) + [k]
        && notifications == old(notifications)
             + (if b then Notifications(hasObservable, hasDeferred, k, defaultValueProvider.value(k).value) else [])
      ensures k !in old(entries.contents) && defaultValueProvider.Some?
                && (defaultValueProvider.value(k).Some? || entries.keepsNullMappings) ==>
        entries.contents == old(entries.contents)[k := defaultValueProvider.value(k)]
      ensures k !in old(entries.contents) && defaultValueProvider.Some?
                && defaultValueProvider.value(k).None? && !entries.keepsNullMappings ==>
        entries.contents == old(entries.contents)
    {
      var r := Get(k);
      b := r.Some?;
    }

    /**
     * `put(key, value)`: Map.replace, which changes only an existing mapping, then a
     * notification unless the previous value is the very same object. Returns the previous
     * value. An absent key is therefore not inserted, yet still notified.
     */
    method Put(k: K, v: V) returns (prev: Option<V>)
      modifies this, entries
      ensures prev == Lookup(old(entries.contents), k)
      ensures k in old(entries.contents) ==> entries.contents == old(entries.contents)[k := Some(v)]
      ensures k !in old(entries.contents) ==> entries.contents == old(entries.contents)
      ensures notifications == old(notifications)
        + (if prev == Some(v) then [] else Notifications(hasObservable, hasDeferred, k, v))
      ensures providerCalls == old(providerCalls)
    {
      prev := entries.Replace(k, v);
      if prev.None? || prev.value != v {
        var entry := new ObservableEntry(k, v, entries, keyHash);
        NotifyValue(entry);
      }
    }

    /** `put` as Map.put specifies it: the same, through Map.put, so an absent key is inserted. */
    method PutInserting(k: K, v: V) returns (prev: Option<V>)
      modifies this, entries
      ensures prev == Lookup(old(entries.contents), k)
      ensures entries.contents == old(entries.contents)[k := Some(v)]
      ensures notifications == old(notifications)
        + (if prev == Some(v) then [] else Notifications(hasObservable, hasDeferred, k, v))
      ensures providerCalls == old(providerCalls)
    {
      prev := entries.Put(k, v);
      if prev.None? || prev.value != v {
        var entry := new ObservableEntry(k, v, entries, keyHash);
        NotifyValue(entry);
      }
    }
  }

  /**
   * A provider asked for a missing key: the first `get` returns its value, the second finds
   * it stored, and the provider is applied once.
   */
  method DefaultIsProvidedOnce<K(==), V(==)>(k: K, v: V, keyHash: K -> int, keepsNullMappings: bool)
    returns (s1: Option<V>, s2: Option<V>, ghost calls: seq<K>)
    ensures s1 == Some(v) && s2 == Some(v) && calls == [k]
  {
    var m := new ObservableMap(false, false, Some((_: K) => Some(v)), keyHash, keepsNullMappings);
    s1 := m.Get(k);
    s2 := m.Get(k);
    calls := m.providerCalls;
  }

  /**
   * A provider that returns null for a missing key: with a store that keeps the null mapping,
   * the second `get` finds the key present and does not ask the provider again; with one that
   * does not, it asks again. Both `get`s return null.
   */
  method NullDefaultProvidedOncePerMapping<K(==), V(==)>(k: K, keyHash: K -> int, keepsNullMappings: bool)
    returns (s1: Option<V>, s2: Option<V>, ghost calls: seq<K>)
    ensures s1 == None && s2 == None
    ensures calls == if keepsNullMappings then [k] else [k, k]
  {
    var m := new ObservableMap(false, false, Some((_: K) => None), keyHash, keepsNullMappings);
    s1 := m.Get(k);
    s2 := m.Get(k);
    calls := m.providerCalls;
  }

  /**
   * `put` on an empty map without a provider: nothing is stored, so a later `get` still finds
   * nothing, though each sink was notified.
   */
  method PutOnAbsentKeyIsLost<K(==), V(==)>(k: K, v: V, keyHash: K -> int)
    returns (prev: Option<V>, after: Option<V>, ghost sent: seq<Notification<K, V>>)
    ensures prev == None && after == None
    ensures sent == [Notification(ObservableSink, k, v), Notification(DeferredSink, k, v)]
  {
    var m := new ObservableMap(true, true, None, keyHash, false);
    prev := m.Put(k, v);
    after := m.Get(k);
    sent := m.notifications;
  }

  /** The same sequence with `put` as Map.put specifies it: a later `get` finds the value. */
  method PutInsertingKeepsValue<K(==), V(==)>(k: K, v: V, keyHash: K -> int)
    returns (prev: Option<V>, after: Option<V>)
    ensures prev == None && after == Some(v)
  {
    var m := new ObservableMap(true, true, None, keyHash, false);
    prev := m.PutInserting(k, v);
    after := m.Get(k);
  }

  /**
   * The same value put twice: as written, both puts notify (the key is never stored);
   * with an inserting put only the first does, since the second finds the same object.
   */
  method RepeatedPutNotifications<K(==), V(==)>(k: K, v: V, keyHash: K -> int)
    returns (ghost asWritten: nat, ghost inserting: nat)
    ensures asWritten == 2 && inserting == 1
  {
    var m := new ObservableMap(true, false, None, keyHash, false);
    var _ := m.Put(k, v);
    var _ := m.Put(k, v);
    asWritten := |m.notifications|;
    var n := new ObservableMap(true, false, None, keyHash, false);
    var _ := n.PutInserting(k, v);
    var _ := n.PutInserting(k, v);
    inserting := |n.notifications|;
  }
}
