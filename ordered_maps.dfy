/** The JavaScript `Map` (and, with `set<...>`-like sequences, `Set`) that the
    bot keeps its tables in: entries are visited in first-insertion order,
    re-setting a key keeps its place, deleting a key drops it. */
module OrderedMaps {

  /** No element occurs twice. */
  predicate NoDup<K(==,!new)>(s: seq<K>)
  {
    forall i, j :: 0 <= i < j < |s| ==> s[i] != s[j]
  }

  /** A member of a non-empty sequence is in all but its last element, or is the last. */
  lemma InitMembers<T>(s: seq<T>, x: T)
    requires s != []
    ensures x in s <==> x in s[..|s| - 1] || x == s[|s| - 1]
  {
    assert s == s[..|s| - 1] + [s[|s| - 1]];
  }

  /** Dropping the last element keeps a sequence free of repetitions, and
      the last element does not occur before it. */
  lemma InitNoDup<T(!new)>(s: seq<T>)
    requires s != [] && NoDup(s)
    ensures NoDup(s[..|s| - 1]) && s[|s| - 1] !in s[..|s| - 1]
  {
    var init := s[..|s| - 1];
    forall j | 0 <= j < |init|
      ensures init[j] == s[j] && init[j] != s[|s| - 1]
    {
    }
  }

  /** `s` without the elements of `drop`, in the original order. */
  function Keep<K(==,!new)>(s: seq<K>, drop: set<K>): (r: seq<K>)
    ensures |r| <= |s|
    ensures forall x :: x in r <==> x in s && x !in drop
  {
    if s == [] then []
    else if s[0] in drop then Keep(s[1..], drop)
    else [s[0]] + Keep(s[1..], drop)
  }

  lemma {:induction false} KeepNoDup<K(!new)>(s: seq<K>, drop: set<K>)
    requires NoDup(s)
    ensures NoDup(Keep(s, drop))
  {
    if s != [] {
      KeepNoDup(s[1..], drop);
    }
  }

  /** Dropping in two steps is dropping the union. */
  lemma {:induction false} KeepKeep<K(!new)>(s: seq<K>, a: set<K>, b: set<K>)
    ensures Keep(Keep(s, a), b) == Keep(s, a + b)
  {
    if s != [] {
      KeepKeep(s[1..], a, b);
    }
  }

  /** Dropping nothing that occurs leaves the sequence as it is. */
  lemma {:induction false} KeepNone<K(!new)>(s: seq<K>, drop: set<K>)
    requires forall x :: x in s ==> x !in drop
    ensures Keep(s, drop) == s
  {
    if s != [] {
      KeepNone(s[1..], drop);
    }
  }

  /** Dropping one element that occurs in a duplicate-free sequence shortens it by one. */
  lemma {:induction false} KeepOneLength<K(!new)>(s: seq<K>, k: K)
    requires NoDup(s) && k in s
    ensures |Keep(s, {k})| == |s| - 1
  {
    if s[0] == k {
      KeepNone(s[1..], {k});
    } else {
      KeepOneLength(s[1..], k);
    }
  }

  /** `set.add(x)` on an insertion-ordered set. */
  function AddToSet<K(==,!new)>(s: seq<K>, x: K): (r: seq<K>)
  {
    if x in s then s else s + [x]
  }

  lemma AddToSetFacts<K(!new)>(s: seq<K>, x: K)
    requires NoDup(s)
    ensures NoDup(AddToSet(s, x))
    ensures forall y :: y in AddToSet(s, x) <==> y in s || y == x
    ensures x !in s ==> |AddToSet(s, x)| == |s| + 1
    ensures x in s ==> AddToSet(s, x) == s
  {
  }

  /** An insertion-ordered map: `keys` lists each key of `table` once. */
  datatype OMap<K(==,!new), V> = OMap(keys: seq<K>, table: map<K, V>)
  {
    ghost predicate Valid()
    {
      NoDup(keys) && forall k :: k in table <==> k in keys
    }

    function Size(): nat { |keys| }

    /** `m.set(k, v)`. */
    function Put(k: K, v: V): (r: OMap<K, V>)
      requires Valid()
      ensures r.Valid()
      ensures r.table == table[k := v]
      ensures k in table ==> r.keys == keys
      ensures k !in table ==> r.keys == keys + [k]
    {
      if k in table then OMap(keys, table[k := v]) else OMap(keys + [k], table[k := v])
    }

    /** Every key in `drop` removed; what remains keeps its order. */
    function RemoveAll(drop: set<K>): (r: OMap<K, V>)
      requires Valid()
      ensures r.Valid()
      ensures r.table == table - drop
      ensures r.keys == Keep(keys, drop)
    {
      KeepNoDup(keys, drop);
      OMap(Keep(keys, drop), table - drop)
    }

    /** `m.delete(k)`. */
    function Remove(k: K): (r: OMap<K, V>)
      requires Valid()
      ensures r.Valid()
      ensures r.table == table - {k}
      ensures k !in table ==> r == this
      ensures k in table ==> |r.keys| == |keys| - 1
    {
      if k !in table then
        KeepNone(keys, {k});
        assert table - {k} == table;
        this
      else
        KeepOneLength(keys, k);
        RemoveAll({k})
    }
  }

  function EmptyMap<K(==,!new), V>(): (r: OMap<K, V>)
    ensures r.Valid() && r.Size() == 0
  {
    OMap([], map[])
  }

  /** Removing keys none of which is present changes nothing. */
  lemma RemoveAllAbsent<K(!new), V>(m: OMap<K, V>, drop: set<K>)
    requires m.Valid() && forall k :: k in drop ==> k !in m.table
    ensures m.RemoveAll(drop) == m
  {
    KeepNone(m.keys, drop);
    assert m.table - drop == m.table;
  }

  /** Removing one more key after a set of keys is removing the union. */
  lemma RemoveAllStep<K(!new), V>(m: OMap<K, V>, removed: set<K>, k: K)
    requires m.Valid()
    ensures m.RemoveAll(removed).Remove(k) == m.RemoveAll(removed + {k})
  {
    var r := m.RemoveAll(removed);
    assert r.table - {k} == m.table - (removed + {k});
    KeepKeep(m.keys, removed, {k});
    if k !in r.table {
      KeepNone(r.keys, {k});
    }
  }

  /** The map after the entries of `keys` are set in order from `data`, as
      filling a `Map` from `Object.entries` does. */
  function PutAll<K(==,!new), V>(m: OMap<K, V>, keys: seq<K>, data: map<K, V>): (r: OMap<K, V>)
    requires m.Valid()
    requires forall k :: k in keys ==> k in data
    ensures r.Valid()
    ensures forall k :: k in r.table <==> k in m.table || k in keys
  {
    if keys == [] then m
    else
      var k := keys[|keys| - 1];
      PutAll(m, keys[..|keys| - 1], data).Put(k, data[k])
  }

  /** One more key of `keys` written after the first `i`. */
  lemma PutAllExtend<K(!new), V>(m: OMap<K, V>, keys: seq<K>, data: map<K, V>, i: nat)
    requires m.Valid() && i < |keys|
    requires forall k :: k in keys ==> k in data
    ensures PutAll(m, keys[..i + 1], data) == PutAll(m, keys[..i], data).Put(keys[i], data[keys[i]])
  {
    assert keys[..i + 1][..i] == keys[..i];
  }

  /** Each entry of `PutAll` comes from the last write: from `data` when its
      key was written, from `m` otherwise. */
  lemma {:induction false} PutAllValue<K(!new), V>(m: OMap<K, V>, keys: seq<K>, data: map<K, V>, k: K)
    requires m.Valid()
    requires forall k :: k in keys ==> k in data
    requires k in PutAll(m, keys, data).table
    ensures PutAll(m, keys, data).table[k] == if k in keys then data[k] else m.table[k]
  {
    if keys != [] {
      var init := keys[..|keys| - 1];
      var last := keys[|keys| - 1];
      InitMembers(keys, k);
      var before := PutAll(m, init, data);
      assert PutAll(m, keys, data).table == before.table[last := data[last]];
      if k != last {
        assert k in before.table;
        PutAllValue(m, init, data, k);
      }
    }
  }

  /** The first `i` entries of a map, as a map of their own. */
  function Prefix<K(==,!new), V>(m: OMap<K, V>, i: nat): (r: OMap<K, V>)
    requires m.Valid() && i <= |m.keys|
    ensures r.Valid()
    ensures r.keys == m.keys[..i]
    ensures forall k :: k in r.table ==> k in m.table && r.table[k] == m.table[k]
  {
    OMap(m.keys[..i], map k | k in m.keys[..i] :: m.table[k])
  }

  /** The first `i` entries are the first `i - 1` with the `i`-th put after them. */
  lemma PrefixExtend<K(!new), V>(m: OMap<K, V>, i: nat)
    requires m.Valid() && 0 < i <= |m.keys|
    ensures Prefix(m, i) == Prefix(m, i - 1).Put(m.keys[i - 1], m.table[m.keys[i - 1]])
  {
    var k := m.keys[i - 1];
    var before := Prefix(m, i - 1);
    assert m.keys[..i] == m.keys[..i - 1] + [k];
    assert k !in before.table by {
      forall j | 0 <= j < i - 1
        ensures m.keys[j] != k
      {
      }
    }
    assert before.table[k := m.table[k]] == Prefix(m, i).table;
  }

  /** Setting the first `i` entries of `m` into an empty map rebuilds the
      first `i` entries of `m`. */
  lemma {:induction false} PutAllPrefix<K(!new), V>(m: OMap<K, V>, i: nat)
    requires m.Valid() && i <= |m.keys|
    ensures PutAll(EmptyMap(), m.keys[..i], m.table) == Prefix(m, i)
  {
    if i > 0 {
      PutAllPrefix(m, i - 1);
      PrefixExtend(m, i);
      var pre := m.keys[..i];
      assert pre[..|pre| - 1] == m.keys[..i - 1];
    } else {
      assert Prefix(m, 0).table == map[];
    }
  }

  /** Writing a map out as an object and reading it back entry by entry
      reproduces the map, order included. */
  lemma PutAllRoundTrip<K(!new), V>(m: OMap<K, V>)
    requires m.Valid()
    ensures PutAll(EmptyMap(), m.keys, m.table) == m
  {
    PutAllPrefix(m, |m.keys|);
    assert m.keys[..|m.keys|] == m.keys;
    PrefixAll(m);
  }

  /** All the entries of a map are the map. */
  lemma PrefixAll<K(!new), V>(m: OMap<K, V>)
    requires m.Valid()
    ensures Prefix(m, |m.keys|) == m
  {
    var p := Prefix(m, |m.keys|);
    assert p.keys == m.keys;
    assert p.table == m.table by {
      forall k
        ensures k in p.table <==> k in m.table
      {
        assert k in m.keys <==> k in m.keys[..|m.keys|];
      }
    }
  }
}
