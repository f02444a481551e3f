/**
 The in-memory TTL cache. Go iterates over a map in an unspecified order, so the order in which
 the eviction loop of Set sees the keys is part of the input of its specification.
 */
module TokenCache {
  import opened Collections

  type Key = string
  type Time = int

  datatype Entry<+V> = Entry(data: V, expiresAt: Time)

  type Entries<V> = map<Key, Entry<V>>

  datatype Config = Config(ttl: int, maxSize: int)

  function Lookup<V>(entries: Entries<V>, key: Key, now: Time): Option<V> {
    if key in entries && now <= entries[key].expiresAt then Some(entries[key].data) else None
  }

  function AfterGet<V>(entries: Entries<V>, key: Key, now: Time): Entries<V> {
    if key in entries && now > entries[key].expiresAt then entries - {key} else entries
  }

  function AfterCleanup<V>(entries: Entries<V>, now: Time): Entries<V> {
    map k | k in entries && now <= entries[k].expiresAt :: entries[k]
  }

  /** One turn of the eviction loop; the empty key stands for "no candidate yet". */
  function Older<V>(entries: Entries<V>, candidate: Key, k: Key): Key
    requires k in entries && (candidate != "" ==> candidate in entries)
  {
    if candidate == "" || entries[k].expiresAt < entries[candidate].expiresAt then k else candidate
  }

  /** The candidate after the loop has seen the keys in this order. */
  function Scan<V>(entries: Entries<V>, order: seq<Key>): (candidate: Key)
    requires forall k :: k in order ==> k in entries
    ensures if order == [] then candidate == "" else candidate in order
  {
    if order == [] then
      ""
    else
      var n := |order| - 1;
      assert forall k :: k in order[..n] ==> k in order;
      Older(entries, Scan(entries, order[..n]), order[n])
  }

  ghost predicate Enumerates<V>(order: seq<Key>, entries: Entries<V>) {
    && (forall k :: k in order <==> k in entries)
    && (forall i, j :: 0 <= i < j < |order| ==> order[i] != order[j])
  }

  ghost function AfterSet<V>(entries: Entries<V>, maxSize: int, order: seq<Key>, key: Key, data: V,
                             expiresAt: Time): Entries<V>
    requires Enumerates(order, entries)
  {
    var kept := if |entries| >= maxSize then entries - {Scan(entries, order)} else entries;
    kept[key := Entry(data, expiresAt)]
  }

  class Cache<V> {
    const ttl: int
    const maxSize: int
    var entries: Entries<V>

    constructor (ttl: int, maxSize: int)
      ensures this.ttl == ttl && this.maxSize == maxSize && entries == map[]
    {
      this.ttl, this.maxSize := ttl, maxSize;
      entries := map[];
    }

    method Get(key: Key, now: Time) returns (r: Option<V>)
      modifies this
      ensures r == Lookup(old(entries), key, now)
      ensures entries == AfterGet(old(entries), key, now)
    {
      if key !in entries {
        return None;
      }
      var entry := entries[key];
      if now > entry.expiresAt {
        entries := entries - {key};
        return None;
      }
      return Some(entry.data);
    }

    method Set(key: Key, data: V, now: Time) returns (ghost order: seq<Key>)
      modifies this
      ensures Enumerates(order, old(entries))
      ensures entries == AfterSet(old(entries), maxSize, order, key, data, now + ttl)
    {
      order := EnumerationOf(entries);
      if |entries| >= maxSize {
        var oldestKey: Key := "";
        var oldestTime: Time := 0;
        var rest := entries.Keys;
        order := [];
        while rest != {}
          invariant entries == old(entries)
          invariant Seen(order, entries, rest)
          invariant oldestKey == Scan(entries, order)
          invariant oldestKey != "" ==> oldestKey in entries && oldestTime == entries[oldestKey].expiresAt
          decreases rest
        {
          var k :| k in rest;
          SeenOneMore(order, entries, rest, k);
          if oldestKey == "" || entries[k].expiresAt < oldestTime {
            oldestKey := k;
            oldestTime := entries[k].expiresAt;
          }
          rest, order := rest - {k}, order + [k];
        }
        SeenEverything(order, entries);
        entries := entries - {oldestKey};
      }
      entries := entries[key := Entry(data, now + ttl)];
    }

    method Delete(key: Key)
      modifies this
      ensures entries == old(entries) - {key}
    {
      entries := entries - {key};
    }

    /** One round of the background clean-up. */
    method Cleanup(now: Time)
      modifies this
      ensures entries == AfterCleanup(old(entries), now)
    {
      ghost var before := entries;
      var rest := entries.Keys;
      while rest != {}
        invariant rest <= entries.Keys <= before.Keys
        invariant entries == map k | k in before && (k in rest || now <= before[k].expiresAt) :: before[k]
        decreases rest
      {
        var k :| k in rest;
        if now > entries[k].expiresAt {
          entries := entries - {k};
        }
        rest := rest - {k};
      }
    }
  }

  /** The loop has seen the keys in `order`, each once; the keys in `rest` are still to come. */
  ghost predicate Seen<V>(order: seq<Key>, entries: Entries<V>, rest: set<Key>) {
    && rest <= entries.Keys
    && (forall k :: k in order <==> k in entries.Keys - rest)
    && (forall i, j :: 0 <= i < j < |order| ==> order[i] != order[j])
  }

  lemma SeenOneMore<V>(order: seq<Key>, entries: Entries<V>, rest: set<Key>, k: Key)
    requires Seen(order, entries, rest) && k in rest
    ensures Seen(order + [k], entries, rest - {k})
    ensures Scan(entries, order + [k]) == Older(entries, Scan(entries, order), k)
  {
  }

  lemma SeenEverything<V>(order: seq<Key>, entries: Entries<V>)
    requires Seen(order, entries, {})
    ensures Enumerates(order, entries)
  {
    assert entries.Keys - {} == entries.Keys;
  }

  lemma PrependEnumerates<V>(order: seq<Key>, entries: Entries<V>, k: Key)
    requires k in entries && Enumerates(order, entries - {k})
    ensures Enumerates([k] + order, entries)
  {
    forall j | j in [k] + order
      ensures j in entries
    {
      assert j == k || j in order;
    }
    assert forall j :: j in entries && j != k ==> j in order;
  }

  lemma EnumerationOf<V>(entries: Entries<V>) returns (order: seq<Key>)
    ensures Enumerates(order, entries)
    decreases entries.Keys
  {
    order := [];
    if entries.Keys != {} {
      var k :| k in entries;
      var rest := EnumerationOf(entries - {k});
      PrependEnumerates(rest, entries, k);
      order := [k] + rest;
    }
  }

  // ---------------------------------------------------------------------------------------
  // What is evicted
  // ---------------------------------------------------------------------------------------

  predicate Oldest<V>(entries: Entries<V>, key: Key) {
    key in entries && forall k :: k in entries ==> entries[key].expiresAt <= entries[k].expiresAt
  }

  lemma {:induction false} ScanFindsNamedOldest<V>(entries: Entries<V>, order: seq<Key>, key: Key)
    requires forall k :: k in order ==> k in entries
    requires key in order && key != "" && Oldest(entries, key)
    ensures Scan(entries, order) != "" && Oldest(entries, Scan(entries, order))
  {
    var n := |order| - 1;
    if key in order[..n] {
      ScanFindsNamedOldest(entries, order[..n], key);
    }
  }

  lemma {:induction false} ScanLosesLeadingEmptyKey<V>(entries: Entries<V>, order: seq<Key>)
    requires forall k :: k in order ==> k in entries
    requires 2 <= |order| && "" !in order[1..]
    ensures Scan(entries, order) != ""
  {
  }

  /** The sentinel of the loop collides with the empty key: this entry is skipped when it is the
      only oldest one and something else is cached. */
  predicate EmptyKeyShadowsOldest<V>(entries: Entries<V>) {
    && "" in entries && 2 <= |entries|
    && forall k :: k in entries && k != "" ==> entries[""].expiresAt < entries[k].expiresAt
  }

  /** The entry Set evicts has minimal expiry for every iteration order, unless the empty key is
      cached and is the single oldest of several entries; then some order evicts a younger one. */
  lemma EvictsOldestIff<V>(entries: Entries<V>)
    requires entries != map[]
    ensures (forall order :: Enumerates(order, entries) ==> Oldest(entries, Scan(entries, order)))
       <==> !EmptyKeyShadowsOldest(entries)
  {
    if EmptyKeyShadowsOldest(entries) {
      var rest := EnumerationOf(entries - {""});
      var order := [""] + rest;
      PrependEnumerates(rest, entries, "");
      if rest == [] {
        SingletonCardinality(entries, "");
      }
      ScanLosesLeadingEmptyKey(entries, order);
      assert !Oldest(entries, Scan(entries, order));
    } else {
      var key := NamedOldest(entries);
      forall order | Enumerates(order, entries)
        ensures Oldest(entries, Scan(entries, order))
      {
        if key == "" {
          assert Scan(entries, order) == "";
        } else {
          ScanFindsNamedOldest(entries, order, key);
        }
      }
    }
  }

  /** Among entries of different ages a Set drops another entry exactly if the cache is full, also
      when the key is in it already, and that entry is the oldest. */
  lemma SetDropsIff<V>(entries: Entries<V>, maxSize: int, order: seq<Key>, key: Key, data: V, expiresAt: Time,
                       other: Key)
    requires Enumerates(order, entries) && !EmptyKeyShadowsOldest(entries)
    requires forall j, k :: j in entries && k in entries && entries[j].expiresAt == entries[k].expiresAt ==> j == k
    requires other in entries && other != key
    ensures other !in AfterSet(entries, maxSize, order, key, data, expiresAt)
       <==> |entries| >= maxSize && forall k :: k in entries ==> entries[other].expiresAt <= entries[k].expiresAt
  {
    EvictsOldestIff(entries);
    var gone := Scan(entries, order);
    assert Oldest(entries, gone);
  }

  /** Such a cache: of two entries the younger one is evicted. */
  lemma YoungerEvicted<V>(data: V, key: Key, now: Time)
    requires key != ""
    ensures var entries: Entries<V> := map["" := Entry(data, now), key := Entry(data, now + 1)];
            Enumerates(["", key], entries) && Scan(entries, ["", key]) == key && !Oldest(entries, key)
  {
    var entries: Entries<V>, order := map["" := Entry(data, now), key := Entry(data, now + 1)], ["", key];
    assert order[..1] == [""] && order[..1][..0] == [];
    assert "" in entries && entries[""].expiresAt < entries[key].expiresAt;
  }

  lemma SingletonCardinality<V>(entries: Entries<V>, key: Key)
    requires forall k :: k in entries ==> k == key
    ensures |entries| <= 1
  {
    if entries != map[] {
      assert entries.Keys == {key};
      assert |entries.Keys| == |entries|;
    }
  }

  lemma TwoKeysCardinality<V>(entries: Entries<V>, a: Key, b: Key)
    requires a in entries && b in entries && a != b
    ensures 2 <= |entries|
  {
    assert entries.Keys == {a, b} + (entries.Keys - {a, b});
    assert |entries.Keys| == |entries|;
  }

  /** An oldest entry, named by a non-empty key unless the empty key is all there is. */
  lemma NamedOldest<V>(entries: Entries<V>) returns (key: Key)
    requires entries != map[] && !EmptyKeyShadowsOldest(entries)
    ensures Oldest(entries, key)
    ensures key == "" ==> forall k :: k in entries ==> k == ""
  {
    key := SomeOldest(entries);
    if key == "" && exists k :: k in entries && k != "" {
      var other :| other in entries && other != "";
      TwoKeysCardinality(entries, "", other);
      key :| key in entries && key != "" && entries[key].expiresAt <= entries[""].expiresAt;
    }
  }

  lemma SomeOldest<V>(entries: Entries<V>) returns (key: Key)
    requires entries != map[]
    ensures Oldest(entries, key)
    decreases entries.Keys
  {
    key :| key in entries;
    var others := entries - {key};
    if others != map[] {
      var other := SomeOldest(others);
      if entries[other].expiresAt < entries[key].expiresAt {
        key := other;
      }
    }
    assert forall k :: k in entries ==> k in others || entries - {k} == others;
  }

  /** Dropping expired entries, in the background or on the way, is never observed by a later
      lookup; after a clean-up exactly the entries that can still be read remain. */
  lemma ExpiryIsUnobservable<V>(entries: Entries<V>, key: Key, now: Time, other: Key, later: Time)
    requires now <= later
    ensures Lookup(AfterCleanup(entries, now), other, later) == Lookup(entries, other, later)
    ensures Lookup(AfterGet(entries, key, now), other, later) == Lookup(entries, other, later)
    ensures other in AfterCleanup(entries, now) <==> Lookup(entries, other, now).Some?
    ensures key in AfterGet(entries, key, now) <==> Lookup(entries, key, now).Some?
  {
  }

  lemma SetKeepsSize<V>(entries: Entries<V>, maxSize: int, order: seq<Key>, key: Key, data: V, expiresAt: Time)
    requires Enumerates(order, entries)
    requires |entries| <= (if maxSize < 1 then 1 else maxSize)
    ensures |AfterSet(entries, maxSize, order, key, data, expiresAt)| <= (if maxSize < 1 then 1 else maxSize)
  {
  }
}
