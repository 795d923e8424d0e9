/** The command-cache adapter (`CommandCacheManager`): command results live in
    the shared TTL cache under `cmd:<command>:<key>`, behind a global switch,
    with per-command hit/miss statistics. */
module CommandCache {
  import opened JsValues
  import opened OrderedMaps
  import opened CacheStore

  /** `getFullKey(commandName, key)`. */
  function FullKey(commandName: string, key: string): (r: string)
    ensures StartsWith(r, CommandPrefix(commandName))
    ensures r[|CommandPrefix(commandName)|..] == key
  {
    CommandPrefix(commandName) + key
  }

  /** The prefix `clearCommandCache` scans for. */
  function CommandPrefix(commandName: string): (r: string)
    ensures |r| == |commandName| + 5 && r[|r| - 1] == ':'
    ensures StartsWith(r, "cmd:") && r[4..|r| - 1] == commandName
  {
    "cmd:" + commandName + ":"
  }

  /** The position of the first `:` in `s`, or `|s|` when there is none. */
  function ColonIndex(s: string): (r: nat)
    ensures r <= |s|
    ensures r < |s| ==> s[r] == ':'
    ensures ':' !in s[..r]
  {
    if s == [] then 0
    else if s[0] == ':' then 0
    else
      assert s[..1 + ColonIndex(s[1..])] == [s[0]] + s[1..][..ColonIndex(s[1..])];
      1 + ColonIndex(s[1..])
  }

  /** In `name:rest` with no `:` inside `name`, the first `:` ends the name. */
  lemma {:induction false} ColonIndexAfterName(name: string, rest: string)
    requires ':' !in name
    ensures ColonIndex(name + ":" + rest) == |name|
  {
    if name != [] {
      assert (name + ":" + rest)[1..] == name[1..] + ":" + rest;
      assert name[0] in name;
      ColonIndexAfterName(name[1..], rest);
    }
  }

  /** Two names without `:` that open the same `name:rest` string are equal,
      and so are the rests. */
  lemma ColonDelimited(a: string, b: string, s: string, t: string)
    requires ':' !in a && ':' !in b
    requires a + ":" + s == b + ":" + t
    ensures a == b && s == t
  {
    ColonIndexAfterName(a, s);
    ColonIndexAfterName(b, t);
    var x := a + ":" + s;
    assert a == x[..|a|];
    assert s == x[|a| + 1..];
  }

  /** Namespacing: for command names without `:`, distinct (command, key)
      pairs give distinct full keys. */
  lemma FullKeyInjective(n1: string, k1: string, n2: string, k2: string)
    requires ':' !in n1 && ':' !in n2
    requires FullKey(n1, k1) == FullKey(n2, k2)
    ensures n1 == n2 && k1 == k2
  {
    assert FullKey(n1, k1) == "cmd:" + (n1 + ":" + k1);
    assert FullKey(n2, k2) == "cmd:" + (n2 + ":" + k2);
    assert n1 + ":" + k1 == FullKey(n1, k1)[4..];
    ColonDelimited(n1, n2, k1, k2);
  }

  /** Clearing one command's prefix reaches exactly that command's full keys. */
  lemma FullKeyUnderPrefix(n: string, k: string, m: string)
    requires ':' !in n && ':' !in m
    ensures StartsWith(FullKey(m, k), CommandPrefix(n)) <==> m == n
  {
    if StartsWith(FullKey(m, k), CommandPrefix(n)) {
      var rest := FullKey(m, k)[|CommandPrefix(n)|..];
      assert FullKey(m, k) == CommandPrefix(n) + rest;
      assert FullKey(n, rest) == FullKey(m, k);
      FullKeyInjective(n, rest, m, k);
    }
  }

  /** One command's record: counts and the instant of its last lookup. */
  datatype CommandStats = CommandStats(hits: nat, misses: nat, lastUsed: int)

  /** The statistics after `trackCommandStats(name, wasHit)` at `now`: a
      missing record starts at zero counts. */
  function Tracked(stats: OMap<string, CommandStats>, name: string, wasHit: bool, now: int): (r: OMap<string, CommandStats>)
    requires stats.Valid()
    ensures r.Valid()
  {
    var s := if name in stats.table then stats.table[name] else CommandStats(0, 0, now);
    var updated := if wasHit then s.(hits := s.hits + 1) else s.(misses := s.misses + 1);
    stats.Put(name, updated.(lastUsed := now))
  }

  /** One tracked lookup adds exactly one hit (if it was a hit) or one miss to
      that command and touches no other command. */
  lemma TrackedCountsOne(stats: OMap<string, CommandStats>, name: string, wasHit: bool, now: int)
    requires stats.Valid()
    ensures var r := Tracked(stats, name, wasHit, now);
            var before := if name in stats.table then stats.table[name] else CommandStats(0, 0, now);
            && name in r.table
            && r.table[name].hits == before.hits + (if wasHit then 1 else 0)
            && r.table[name].misses == before.misses + (if wasHit then 0 else 1)
            && r.table[name].lastUsed == now
            && (forall other :: other != name ==> (other in r.table <==> other in stats.table))
            && (forall other :: other != name && other in stats.table ==> r.table[other] == stats.table[other])
  {
  }

  /** The keys among `ks` that carry `prefix`. */
  function PrefixedAmong(ks: seq<string>, prefix: string): (r: set<string>)
    ensures forall k :: k in r <==> k in ks && StartsWith(k, prefix)
  {
    set k | k in ks && StartsWith(k, prefix)
  }

  /** One step of the prefix scan. */
  lemma PrefixStep(ks: seq<string>, i: int, prefix: string)
    requires NoDup(ks) && 0 <= i < |ks|
    ensures ks[i] !in PrefixedAmong(ks[..i], prefix)
    ensures PrefixedAmong(ks[..i + 1], prefix) ==
              if StartsWith(ks[i], prefix) then PrefixedAmong(ks[..i], prefix) + {ks[i]} else PrefixedAmong(ks[..i], prefix)
  {
    PrefixSnoc(ks, i);
  }

  /** After the prefix scan has visited the first `i` keys of `start`: the
      prefixed ones among them are gone and counted. */
  ghost predicate ClearedUpTo(start: Table, prefix: string, i: int, removed: set<string>, entries: Table, cleared: int)
  {
    && start.Valid() && 0 <= i <= |start.keys|
    && removed == PrefixedAmong(start.keys[..i], prefix)
    && entries == start.RemoveAll(removed)
    && cleared == |removed|
  }

  /** The state of the prefix scan after visiting the `i`-th key, given its
      state before. */
  lemma ClearAdvance(start: Table, prefix: string, i: int, removed: set<string>, entries: Table, cleared: int)
    requires ClearedUpTo(start, prefix, i, removed, entries, cleared) && i < |start.keys|
    ensures var key := start.keys[i];
            && (StartsWith(key, prefix) ==>
                  ClearedUpTo(start, prefix, i + 1, removed + {key}, entries.Remove(key), cleared + 1))
            && (!StartsWith(key, prefix) ==> ClearedUpTo(start, prefix, i + 1, removed, entries, cleared))
  {
    var key := start.keys[i];
    PrefixStep(start.keys, i, prefix);
    RemoveAllStep(start, removed, key);
  }

  /** The finished scan has removed and counted every prefixed key. */
  lemma ClearedAll(start: Table, prefix: string, i: int, removed: set<string>, entries: Table, cleared: int)
    requires ClearedUpTo(start, prefix, i, removed, entries, cleared) && i == |start.keys|
    ensures entries == start.RemoveAll(PrefixedAmong(start.keys, prefix))
    ensures cleared == |PrefixedAmong(start.keys, prefix)|
  {
    WholePrefix(start.keys);
  }

  /** A performance row of `logCommandPerformance`. */
  datatype PerfRow = PerfRow(command: string, hits: nat, misses: nat, total: nat, lastUsed: int)

  function Rows(keys: seq<string>, table: map<string, CommandStats>): (r: seq<PerfRow>)
    requires forall k :: k in keys ==> k in table
    ensures |r| == |keys|
    ensures forall i :: 0 <= i < |keys| ==>
              r[i] == PerfRow(keys[i], table[keys[i]].hits, table[keys[i]].misses,
                              table[keys[i]].hits + table[keys[i]].misses, table[keys[i]].lastUsed)
  {
    if keys == [] then []
    else
      var s := table[keys[0]];
      [PerfRow(keys[0], s.hits, s.misses, s.hits + s.misses, s.lastUsed)] + Rows(keys[1..], table)
  }

  /** Two sequences with the same multiset have the same length and members. */
  lemma SameElements<T>(a: seq<T>, b: seq<T>)
    requires multiset(a) == multiset(b)
    ensures |a| == |b|
    ensures forall x :: x in a ==> x in b
  {
    assert |a| == |multiset(a)| == |multiset(b)| == |b|;
    forall x | x in a
      ensures x in b
    {
      assert x in multiset(a);
    }
  }

  /** Ordered by total, largest first. */
  predicate ByTotalDescending(rows: seq<PerfRow>)
  {
    forall i, j :: 0 <= i < j < |rows| ==> rows[i].total >= rows[j].total
  }

  /** Places `x` before the first row whose total is not larger than its own. */
  function InsertByTotal(x: PerfRow, rows: seq<PerfRow>): (r: seq<PerfRow>)
    requires ByTotalDescending(rows)
    ensures ByTotalDescending(r)
    ensures multiset(r) == multiset(rows) + multiset{x}
    ensures r != [] && (r[0] == x || (rows != [] && r[0] == rows[0]))
  {
    if rows == [] || rows[0].total <= x.total then
      ConsDescending(x, rows);
      [x] + rows
    else
      var rest := rows[1..];
      assert ByTotalDescending(rest) by {
        forall i, j | 0 <= i < j < |rest|
          ensures rest[i].total >= rest[j].total
        {
          assert rest[i] == rows[i + 1] && rest[j] == rows[j + 1];
        }
      }
      var tail := InsertByTotal(x, rest);
      assert rows[0].total >= tail[0].total by {
        if tail[0] != x {
          assert rows[0].total >= rows[1].total;
        }
      }
      ConsDescending(rows[0], tail);
      assert multiset(rows) == multiset{rows[0]} + multiset(rest) by {
        assert rows == [rows[0]] + rest;
      }
      [rows[0]] + tail
  }

  /** A row no smaller than the head of a descending sequence can go in front. */
  lemma ConsDescending(h: PerfRow, tail: seq<PerfRow>)
    requires ByTotalDescending(tail)
    requires tail != [] ==> h.total >= tail[0].total
    ensures ByTotalDescending([h] + tail)
  {
    var r := [h] + tail;
    forall i, j | 0 <= i < j < |r|
      ensures r[i].total >= r[j].total
    {
      if i == 0 && j > 1 {
        assert tail[0].total >= tail[j - 1].total;
      }
    }
  }

  /** `sort((a, b) => b.total - a.total)`. */
  function SortByTotal(rows: seq<PerfRow>): (r: seq<PerfRow>)
    ensures ByTotalDescending(r)
    ensures multiset(r) == multiset(rows)
  {
    if rows == [] then []
    else
      assert rows == [rows[0]] + rows[1..];
      InsertByTotal(rows[0], SortByTotal(rows[1..]))
  }

  class CommandCacheManager {
    const store: CacheManager
    var commandStats: OMap<string, CommandStats>
    var cacheEnabled: bool

    ghost predicate Valid()
      reads this, store
    {
      store.Valid() && commandStats.Valid()
    }

    constructor (store: CacheManager)
      requires store.Valid()
      ensures Valid()
      ensures this.store == store && commandStats == EmptyMap() && cacheEnabled
    {
      this.store := store;
      commandStats := EmptyMap();
      cacheEnabled := true;
    }

    /** `setCacheEnabled(enabled)`: stores and returns `!!enabled`. */
    method SetCacheEnabled(enabled: JsValue) returns (r: bool)
      modifies this
      ensures r == Truthy(enabled) && cacheEnabled == r
      ensures commandStats == old(commandStats)
    {
      cacheEnabled := Truthy(enabled);
      r := cacheEnabled;
    }

    /** `getCommandCache(name, key)`: a store lookup under the full key,
        recorded as a hit exactly when the value found is truthy. */
    method GetCommandCache(commandName: string, key: string, now: int) returns (r: JsValue)
      requires Valid()
      modifies this, store
      ensures Valid() && cacheEnabled == old(cacheEnabled)
      ensures !cacheEnabled ==>
                r == JUndefined && commandStats == old(commandStats) &&
                store.entries == old(store.entries) && store.hits == old(store.hits) && store.misses == old(store.misses)
      ensures cacheEnabled ==>
                var full := FullKey(commandName, key);
                && r == (if Hit(old(store.entries), full, now) then old(store.entries).table[full].value else JUndefined)
                && store.entries == (if Hit(old(store.entries), full, now) then old(store.entries) else old(store.entries).Remove(full))
                && store.hits == old(store.hits) + (if Hit(old(store.entries), full, now) then 1 else 0)
                && store.misses == old(store.misses) + (if Hit(old(store.entries), full, now) then 0 else 1)
                && commandStats == Tracked(old(commandStats), commandName, Truthy(r), now)
    {
      if !cacheEnabled {
        return JUndefined;
      }
      var fullKey := FullKey(commandName, key);
      r := store.Get(fullKey, now);
      TrackCommandStats(commandName, Truthy(r), now);
    }

    /** `setCommandCache(name, key, value, {ttl})`. */
    method SetCommandCache(commandName: string, key: string, value: JsValue, ttlOption: Option<int>, now: int) returns (ok: bool)
      requires Valid()
      modifies store
      ensures Valid()
      ensures ok == cacheEnabled
      ensures !cacheEnabled ==> store.entries == old(store.entries)
      ensures cacheEnabled ==>
                store.entries == Stored(old(store.entries), FullKey(commandName, key), value,
                                        OrDefault(ttlOption, store.ttl), store.maxSize, now)
      ensures store.hits == old(store.hits) && store.misses == old(store.misses)
    {
      if !cacheEnabled {
        return false;
      }
      var fullKey := FullKey(commandName, key);
      ok := store.Set(fullKey, value, ttlOption, now);
    }

    /** `hasCommandCache(name, key)`: never touches the statistics. */
    method HasCommandCache(commandName: string, key: string, now: int) returns (present: bool)
      requires Valid()
      modifies store
      ensures Valid()
      ensures present == (cacheEnabled && Hit(old(store.entries), FullKey(commandName, key), now))
      ensures !cacheEnabled ==> store.entries == old(store.entries)
      ensures cacheEnabled ==>
                store.entries == if present then old(store.entries) else old(store.entries).Remove(FullKey(commandName, key))
      ensures store.hits == old(store.hits) && store.misses == old(store.misses)
    {
      if !cacheEnabled {
        return false;
      }
      var fullKey := FullKey(commandName, key);
      present := store.Has(fullKey, now);
    }

    /** `clearCommandCache(name)`: deletes every stored key under the command's
        prefix, expired or not, whether or not caching is enabled. */
    method ClearCommandCache(commandName: string) returns (cleared: nat)
      requires Valid()
      modifies store
      ensures Valid()
      ensures store.entries == old(store.entries).RemoveAll(PrefixedAmong(old(store.entries).keys, CommandPrefix(commandName)))
      ensures cleared == |PrefixedAmong(old(store.entries).keys, CommandPrefix(commandName))|
      ensures store.hits == old(store.hits) && store.misses == old(store.misses)
    {
      var prefix := CommandPrefix(commandName);
      var allKeys := store.entries.keys;
      ghost var start := store.entries;
      ghost var removed: set<string> := {};
      cleared := 0;
      RemoveAllAbsent(start, {});
      var i := 0;
      while i < |allKeys|
        invariant 0 <= i <= |allKeys| && store.Valid()
        invariant ClearedUpTo(start, prefix, i, removed, store.entries, cleared)
        invariant store.hits == old(store.hits) && store.misses == old(store.misses)
      {
        var key := allKeys[i];
        ClearAdvance(start, prefix, i, removed, store.entries, cleared);
        if StartsWith(key, prefix) {
          var _ := store.Delete(key);
          removed := removed + {key};
          cleared := cleared + 1;
        }
        assert ClearedUpTo(start, prefix, i + 1, removed, store.entries, cleared);
        i := i + 1;
      }
      ClearedAll(start, prefix, i, removed, store.entries, cleared);
    }

    /** `trackCommandStats(name, wasHit)`. */
    method TrackCommandStats(commandName: string, wasHit: bool, now: int)
      requires Valid()
      modifies this
      ensures Valid()
      ensures commandStats == Tracked(old(commandStats), commandName, wasHit, now)
      ensures cacheEnabled == old(cacheEnabled)
    {
      var s := if commandName in commandStats.table then commandStats.table[commandName] else CommandStats(0, 0, now);
      if wasHit {
        s := s.(hits := s.hits + 1);
      } else {
        s := s.(misses := s.misses + 1);
      }
      commandStats := commandStats.Put(commandName, s.(lastUsed := now));
    }

    /** `logCommandPerformance()`: one row per command, with total = hits +
        misses, ordered by total, largest first. */
    function LogCommandPerformance(): (rows: seq<PerfRow>)
      reads this
      requires commandStats.Valid()
      ensures ByTotalDescending(rows)
      ensures multiset(rows) == multiset(Rows(commandStats.keys, commandStats.table))
      ensures |rows| == commandStats.Size()
      ensures forall r :: r in rows ==> r.command in commandStats.table && r.total == r.hits + r.misses
    {
      var unsorted := Rows(commandStats.keys, commandStats.table);
      var sorted := SortByTotal(unsorted);
      SameElements(sorted, unsorted);
      sorted
    }
  }
}
