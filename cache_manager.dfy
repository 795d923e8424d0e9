/** The in-memory TTL cache (`CacheManager`): a key -> entry table kept in
    insertion order, with lazy expiry on read, a bulk sweep, capacity
    eviction of the entry created first, and hit/miss counters. The clock is
    the explicit parameter `now`. */
module CacheStore {
  import opened JsValues
  import opened OrderedMaps

  /** Constructor options as passed in; `None` is a missing option. */
  datatype CacheOptions = CacheOptions(maxSize: Option<int>, ttl: Option<int>, checkInterval: Option<int>)

  /** The options in effect. */
  datatype CacheConfig = CacheConfig(maxSize: int, ttl: int, checkInterval: int)

  /** `option || fallback`: a missing or zero option falls back to the default. */
  function OrDefault(o: Option<int>, fallback: int): (r: int)
    ensures o.None? || o.value == 0 ==> r == fallback
    ensures o.Some? && o.value != 0 ==> r == o.value
  {
    if o.Some? && o.value != 0 then o.value else fallback
  }

  /** The constructor's defaults: 500 entries, 30 minutes, sweep every 5 minutes. */
  function Configure(o: CacheOptions): (c: CacheConfig)
    ensures c.maxSize == (if o.maxSize.Some? && o.maxSize.value != 0 then o.maxSize.value else 500)
    ensures c.ttl == (if o.ttl.Some? && o.ttl.value != 0 then o.ttl.value else 1800000)
    ensures c.checkInterval == (if o.checkInterval.Some? && o.checkInterval.value != 0 then o.checkInterval.value else 300000)
    ensures c.maxSize > 0 && c.ttl > 0 && c.checkInterval > 0 <==>
              (o.maxSize.None? || o.maxSize.value >= 0) && (o.ttl.None? || o.ttl.value >= 0) &&
              (o.checkInterval.None? || o.checkInterval.value >= 0)
  {
    CacheConfig(OrDefault(o.maxSize, 500), OrDefault(o.ttl, 1800000), OrDefault(o.checkInterval, 300000))
  }

  /** One stored value with its creation and expiry instants. */
  datatype Entry = Entry(value: JsValue, expiresAt: int, createdAt: int)

  type Table = OMap<string, Entry>

  /** An entry is readable strictly before its expiry instant. */
  predicate Live(e: Entry, now: int)
  {
    now < e.expiresAt
  }

  /** `get`/`has` find `key` and it has not expired. */
  predicate Hit(m: Table, key: string, now: int)
  {
    key in m.table && Live(m.table[key], now)
  }

  /** The entries a sweep at `now` removes. */
  function ExpiredKeys(m: Table, now: int): (r: set<string>)
    ensures forall k :: k in r <==> k in m.table && !Live(m.table[k], now)
  {
    set k | k in m.table && m.table[k].expiresAt <= now
  }

  /** The key `getOldestKey` returns: the first key, in iteration order, whose
      `createdAt` is smallest (the scan replaces its candidate only on a
      strictly smaller value); `None` for an empty table. */
  function Oldest(keys: seq<string>, table: map<string, Entry>): (r: Option<string>)
    requires forall k :: k in keys ==> k in table
    ensures r.Some? ==> r.value in keys
  {
    if keys == [] then None
    else
      var o := Oldest(keys[..|keys| - 1], table);
      var last := keys[|keys| - 1];
      if o.None? || table[last].createdAt < table[o.value].createdAt then Some(last) else o
  }

  /** The scan for the oldest key after one more key. */
  lemma OldestStep(keys: seq<string>, table: map<string, Entry>, i: nat)
    requires forall k :: k in keys ==> k in table
    requires i < |keys|
    ensures var o := Oldest(keys[..i], table);
            Oldest(keys[..i + 1], table) ==
              if o.None? || table[keys[i]].createdAt < table[o.value].createdAt then Some(keys[i]) else o
  {
    PrefixSnoc(keys, i);
  }

  /** `Oldest` finds a key exactly when there is one, and no key was created
      before it. */
  lemma {:induction false} OldestIsMinimum(keys: seq<string>, table: map<string, Entry>)
    requires forall k :: k in keys ==> k in table
    ensures Oldest(keys, table).Some? <==> keys != []
    ensures Oldest(keys, table).Some? ==>
              forall j :: 0 <= j < |keys| ==> table[Oldest(keys, table).value].createdAt <= table[keys[j]].createdAt
  {
    if keys != [] {
      var init := keys[..|keys| - 1];
      OldestIsMinimum(init, table);
      forall j | 0 <= j < |keys|
        ensures table[Oldest(keys, table).value].createdAt <= table[keys[j]].createdAt
      {
        if j < |init| {
          assert keys[j] == init[j];
        }
      }
    }
  }

  /** Among keys created at the same instant, `Oldest` picks the one that comes
      first: it occurs no later than any key `keys[j]` tied with it. */
  lemma {:induction false} OldestFirstAmongTies(keys: seq<string>, table: map<string, Entry>, j: int)
    requires forall k :: k in keys ==> k in table
    requires 0 <= j < |keys|
    requires table[keys[j]].createdAt == table[Oldest(keys, table).value].createdAt
    ensures Oldest(keys, table).value in keys[..j + 1]
  {
    var init := keys[..|keys| - 1];
    var last := keys[|keys| - 1];
    var o := Oldest(init, table);
    if j == |keys| - 1 {
      assert keys[..j + 1] == keys;
    } else {
      assert keys[j] == init[j];
      assert keys[..j + 1] == init[..j + 1];
      OldestIsMinimum(init, table);
      if o.None? || table[last].createdAt < table[o.value].createdAt {
        assert false;
      }
      OldestFirstAmongTies(init, table, j);
    }
  }

  /** The keys among `ks` whose entries have expired at `now`. */
  function ExpiredAmong(ks: seq<string>, m: Table, now: int): (r: set<string>)
    ensures forall k :: k in r <==> k in ks && k in m.table && !Live(m.table[k], now)
  {
    if ks == [] then {}
    else
      var last := ks[|ks| - 1];
      assert ks == ks[..|ks| - 1] + [last];
      ExpiredAmong(ks[..|ks| - 1], m, now) +
        (if last in m.table && m.table[last].expiresAt <= now then {last} else {})
  }

  /** One step of the sweep: the next key is still present, and it joins the
      expired keys exactly when its entry has expired. */
  lemma SweepStep(start: Table, i: int, now: int)
    requires start.Valid() && 0 <= i < |start.keys|
    ensures var key := start.keys[i];
            var before := ExpiredAmong(start.keys[..i], start, now);
            && key !in before
            && key in start.RemoveAll(before).table
            && ExpiredAmong(start.keys[..i + 1], start, now) ==
                 if start.table[key].expiresAt <= now then before + {key} else before
  {
    var key := start.keys[i];
    assert key !in start.keys[..i] by {
      forall j | 0 <= j < i
        ensures start.keys[j] != key
      {
      }
    }
    PrefixSnoc(start.keys, i);
  }

  /** The sweep's state after visiting the `i`-th key, given its state before. */
  lemma SweepAdvance(start: Table, i: int, now: int, removed: set<string>, table: Table)
    requires start.Valid() && 0 <= i < |start.keys|
    requires table == start.RemoveAll(removed)
    requires removed == ExpiredAmong(start.keys[..i], start, now)
    ensures var key := start.keys[i];
            && key in table.table && table.table[key] == start.table[key]
            && (start.table[key].expiresAt <= now ==>
                  && table.Remove(key) == start.RemoveAll(removed + {key})
                  && removed + {key} == ExpiredAmong(start.keys[..i + 1], start, now)
                  && |removed + {key}| == |removed| + 1
                  && table.Remove(key).Size() == table.Size() - 1)
            && (now < start.table[key].expiresAt ==> removed == ExpiredAmong(start.keys[..i + 1], start, now))
  {
    var key := start.keys[i];
    SweepStep(start, i, now);
    RemoveAllStep(start, removed, key);
  }

  /** A sweep over every key finds all expired entries. */
  lemma SweepComplete(start: Table, now: int)
    requires start.Valid()
    ensures ExpiredAmong(start.keys[..|start.keys|], start, now) == ExpiredKeys(start, now)
  {
    assert start.keys[..|start.keys|] == start.keys;
  }

  /** The loop of `cleanup()`: one pass over a snapshot of the keys, deleting
      each expired entry and counting the deletions. */
  method Sweep(start: Table, now: int) returns (table: Table, count: nat)
    requires start.Valid()
    ensures table == start.RemoveAll(ExpiredKeys(start, now))
    ensures count == |ExpiredKeys(start, now)|
    ensures count == start.Size() - table.Size()
    ensures count == 0 ==> table == start
  {
    var snapshot := start.keys;
    ghost var removed: set<string> := {};
    table := start;
    count := 0;
    var i := 0;
    RemoveAllAbsent(start, {});
    while i < |snapshot|
      invariant 0 <= i <= |snapshot|
      invariant table == start.RemoveAll(removed)
      invariant removed == ExpiredAmong(snapshot[..i], start, now)
      invariant count == |removed|
      invariant count == start.Size() - table.Size()
    {
      var key := snapshot[i];
      SweepAdvance(start, i, now, removed, table);
      if table.table[key].expiresAt <= now {
        table := table.Remove(key);
        removed := removed + {key};
        count := count + 1;
      }
      i := i + 1;
    }
    SweepComplete(start, now);
    if count == 0 {
      RemoveAllAbsent(start, removed);
    }
  }

  /** The table after `set(key, value, {ttl})` at `now`: a new key in a full
      table first evicts the oldest entry, unless that key is the empty string,
      which the truthiness test on line 48 skips. */
  function Stored(m: Table, key: string, value: JsValue, ttl: int, maxSize: int, now: int): (r: Table)
    requires m.Valid()
    ensures r.Valid()
  {
    Evicted(m, key, maxSize).Put(key, Entry(value, now + ttl, now))
  }

  /** The table `set` writes into: a full table that lacks `key` first loses
      its oldest entry (unless that entry's key is the empty string). */
  function Evicted(m: Table, key: string, maxSize: int): (r: Table)
    requires m.Valid()
    ensures r.Valid()
    ensures forall k :: k in r.table ==> k in m.table && r.table[k] == m.table[k]
    ensures key in m.table ==> r == m
    ensures m.Size() - 1 <= r.Size() <= m.Size()
  {
    if m.Size() >= maxSize && key !in m.table then
      match Oldest(m.keys, m.table)
      case Some(k) => if k != "" then m.Remove(k) else m
      case None => m
    else m
  }

  /** A stored value is read back before `now + ttl` and is gone from then on. */
  lemma StoredThenRead(m: Table, key: string, value: JsValue, ttl: int, maxSize: int, now: int, later: int)
    requires m.Valid()
    ensures key in Stored(m, key, value, ttl, maxSize, now).table
    ensures Stored(m, key, value, ttl, maxSize, now).table[key] == Entry(value, now + ttl, now)
    ensures Hit(Stored(m, key, value, ttl, maxSize, now), key, later) <==> later < now + ttl
  {
  }

  /** Overwriting a present key never evicts: the order and the other entries stay. */
  lemma StoredOverwrite(m: Table, key: string, value: JsValue, ttl: int, maxSize: int, now: int)
    requires m.Valid() && key in m.table
    ensures Stored(m, key, value, ttl, maxSize, now).keys == m.keys
    ensures Stored(m, key, value, ttl, maxSize, now).table == m.table[key := Entry(value, now + ttl, now)]
  {
  }

  /** A new key in a full table replaces exactly the oldest entry. */
  lemma {:induction false} StoredEvictsOldest(m: Table, key: string, value: JsValue, ttl: int, maxSize: int, now: int)
    requires m.Valid() && key !in m.table && m.Size() >= maxSize && m.Size() > 0
    requires Oldest(m.keys, m.table) != Some("")
    ensures var k := Oldest(m.keys, m.table).value;
            && k in m.table
            && (forall j :: 0 <= j < |m.keys| ==> m.table[k].createdAt <= m.table[m.keys[j]].createdAt)
            && Stored(m, key, value, ttl, maxSize, now).table == (m.table - {k})[key := Entry(value, now + ttl, now)]
            && Stored(m, key, value, ttl, maxSize, now).Size() == m.Size()
  {
    OldestIsMinimum(m.keys, m.table);
  }

  /** The capacity bound: with a positive maximum and no empty-string key, a
      table within capacity stays within capacity. */
  lemma {:induction false} StoredWithinCapacity(m: Table, key: string, value: JsValue, ttl: int, maxSize: int, now: int)
    requires m.Valid() && 1 <= maxSize && m.Size() <= maxSize && "" !in m.table
    ensures Stored(m, key, value, ttl, maxSize, now).Size() <= maxSize
  {
    if m.Size() >= maxSize && key !in m.table {
      OldestIsMinimum(m.keys, m.table);
    }
  }

  class CacheManager {
    const maxSize: int
    const ttl: int
    const checkInterval: int
    var entries: Table
    var hits: nat
    var misses: nat
    var size: nat

    /** `metrics.size` mirrors the entry count. */
    ghost predicate Valid()
      reads this
    {
      entries.Valid() && size == entries.Size()
    }

    constructor (options: CacheOptions)
      ensures Valid()
      ensures CacheConfig(maxSize, ttl, checkInterval) == Configure(options)
      ensures entries == EmptyMap() && hits == 0 && misses == 0 && size == 0
    {
      var c := Configure(options);
      maxSize, ttl, checkInterval := c.maxSize, c.ttl, c.checkInterval;
      entries := EmptyMap();
      hits, misses, size := 0, 0, 0;
    }

    /** `set(key, value, {ttl})`: a missing or zero ttl means the default. */
    method Set(key: string, value: JsValue, ttlOption: Option<int>, now: int) returns (ok: bool)
      requires Valid()
      modifies this
      ensures Valid() && ok
      ensures entries == Stored(old(entries), key, value, OrDefault(ttlOption, ttl), maxSize, now)
      ensures hits == old(hits) && misses == old(misses)
    {
      var effectiveTtl := OrDefault(ttlOption, ttl);
      var expiresAt := now + effectiveTtl;
      ghost var before := entries;
      if entries.Size() >= maxSize && key !in entries.table {
        var oldestKey := GetOldestKey();
        if oldestKey.Some? && oldestKey.value != "" {
          entries := entries.Remove(oldestKey.value);
        }
      }
      assert entries == Evicted(before, key, maxSize);
      entries := entries.Put(key, Entry(value, expiresAt, now));
      assert entries == Stored(before, key, value, effectiveTtl, maxSize, now);
      size := entries.Size();
      ok := true;
    }

    /** `get(key)`: the value of a live entry (a hit), otherwise null (a miss),
        deleting an expired entry on the way. */
    method Get(key: string, now: int) returns (r: JsValue)
      requires Valid()
      modifies this
      ensures Valid()
      ensures Hit(old(entries), key, now) ==>
                r == old(entries).table[key].value && entries == old(entries) &&
                hits == old(hits) + 1 && misses == old(misses)
      ensures !Hit(old(entries), key, now) ==>
                r == JUndefined && entries == old(entries).Remove(key) &&
                hits == old(hits) && misses == old(misses) + 1
    {
      if key !in entries.table {
        misses := misses + 1;
        return JUndefined;
      }
      var entry := entries.table[key];
      if entry.expiresAt <= now {
        entries := entries.Remove(key);
        misses := misses + 1;
        size := entries.Size();
        return JUndefined;
      }
      hits := hits + 1;
      r := entry.value;
    }

    /** `has(key)`: the visibility test of `get` without touching the counters. */
    method Has(key: string, now: int) returns (present: bool)
      requires Valid()
      modifies this
      ensures Valid()
      ensures present == Hit(old(entries), key, now)
      ensures entries == if present then old(entries) else old(entries).Remove(key)
      ensures hits == old(hits) && misses == old(misses)
    {
      if key !in entries.table {
        return false;
      }
      var entry := entries.table[key];
      if entry.expiresAt <= now {
        entries := entries.Remove(key);
        size := entries.Size();
        return false;
      }
      present := true;
    }

    /** `delete(key)`: whether the key was present. */
    method Delete(key: string) returns (existed: bool)
      requires Valid()
      modifies this
      ensures Valid()
      ensures existed == (key in old(entries).table)
      ensures entries == old(entries).Remove(key)
      ensures hits == old(hits) && misses == old(misses)
    {
      existed := key in entries.table;
      entries := entries.Remove(key);
      size := entries.Size();
    }

    /** `clear()`: no entries, counters untouched. */
    method Clear() returns (ok: bool)
      requires Valid()
      modifies this
      ensures Valid() && ok
      ensures entries == EmptyMap() && size == 0
      ensures hits == old(hits) && misses == old(misses)
    {
      entries := EmptyMap();
      size := 0;
      ok := true;
    }

    /** `cleanup()`: removes exactly the expired entries, in one pass over the
        keys, and returns how many it removed. */
    method Cleanup(now: int) returns (expiredCount: nat)
      requires Valid()
      modifies this
      ensures Valid()
      ensures entries == old(entries).RemoveAll(ExpiredKeys(old(entries), now))
      ensures expiredCount == |ExpiredKeys(old(entries), now)|
      ensures expiredCount == old(entries).Size() - entries.Size()
      ensures hits == old(hits) && misses == old(misses)
    {
      var table, count := Sweep(entries, now);
      entries := table;
      expiredCount := count;
      if expiredCount > 0 {
        size := entries.Size();
      }
    }

    /** `getOldestKey()`: a running minimum over the entries. */
    method GetOldestKey() returns (oldestKey: Option<string>)
      requires Valid()
      ensures oldestKey == Oldest(entries.keys, entries.table)
    {
      oldestKey := None;
      var i := 0;
      while i < |entries.keys|
        invariant 0 <= i <= |entries.keys|
        invariant oldestKey == Oldest(entries.keys[..i], entries.table)
      {
        var key := entries.keys[i];
        OldestStep(entries.keys, entries.table, i);
        if oldestKey.None? || entries.table[key].createdAt < entries.table[oldestKey.value].createdAt {
          oldestKey := Some(key);
        }
        i := i + 1;
      }
      WholePrefix(entries.keys);
    }
  }
}
