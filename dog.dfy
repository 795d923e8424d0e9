/** The dog command's pure parts and its breed list: turning a breed name
    into the image API's path, flattening the API's breed table into the
    autocomplete list, filtering that list, and the image cache key. */
module DogBreeds {
  import opened JsValues
  import opened OrderedMaps

  /** `s.split(' ')`: the pieces between single spaces, empty pieces kept. */
  function Split(s: string): (r: seq<string>)
    ensures |r| >= 1
    ensures forall p :: p in r ==> ' ' !in p
    decreases |s|
  {
    if |s| == 0 then [""]
    else
      var rest := Split(s[1..]);
      if s[0] == ' ' then [""] + rest
      else [[s[0]] + rest[0]] + rest[1..]
  }

  /** Joining a non-empty list after putting a character in front of its first piece. */
  lemma JoinConsHead(c: char, parts: seq<string>, sep: string)
    requires |parts| >= 1
    ensures Join([[c] + parts[0]] + parts[1..], sep) == [c] + Join(parts, sep)
  {
    var lhs := [[c] + parts[0]] + parts[1..];
    if |parts| > 1 {
      assert lhs[1..] == parts[1..];
    }
  }

  /** Splitting on spaces and joining with spaces gives the string back. */
  lemma {:induction false} SplitJoin(s: string)
    ensures Join(Split(s), " ") == s
    decreases |s|
  {
    if |s| > 0 {
      var rest := Split(s[1..]);
      SplitJoin(s[1..]);
      if s[0] == ' ' {
        assert ([""] + rest)[1..] == rest;
        assert s == [' '] + s[1..];
      } else {
        JoinConsHead(s[0], rest, " ");
        assert s == [s[0]] + s[1..];
      }
    }
  }

  /** A string without a space splits into itself alone. */
  lemma {:induction false} SplitNoSpace(s: string)
    requires ' ' !in s
    ensures Split(s) == [s]
    decreases |s|
  {
    if |s| > 0 {
      SplitNoSpace(s[1..]);
      assert s == [s[0]] + s[1..];
    }
  }

  /** A space-free word followed by a space splits off as the first piece. */
  lemma {:induction false} SplitAfterWord(a: string, b: string)
    requires ' ' !in a
    ensures Split(a + " " + b) == [a] + Split(b)
    decreases |a|
  {
    var s := a + " " + b;
    if |a| == 0 {
      assert s[1..] == b;
    } else {
      assert s[1..] == a[1..] + " " + b;
      SplitAfterWord(a[1..], b);
      assert a == [a[0]] + a[1..];
    }
  }

  /** `formatBreedForApi`: lower-cased; with at least two space-separated
      parts, the last part, `/`, then the others joined by `-`. */
  function FormatBreedForApi(breed: string): (r: string)
  {
    FormatLowered(ToLower(breed))
  }

  /** The formatting applied to the lower-cased name. */
  function FormatLowered(lower: string): string
  {
    var parts := Split(lower);
    if |parts| >= 2 then parts[|parts| - 1] + "/" + Join(parts[..|parts| - 1], "-")
    else lower
  }

  /** A lower-case name: `toLowerCase` leaves it as it is. */
  predicate LowerCaseName(s: string)
  {
    forall i :: 0 <= i < |s| ==> !IsUpperAscii(s[i])
  }

  lemma LowerCaseUnchanged(s: string)
    requires LowerCaseName(s)
    ensures ToLower(s) == s
  {
  }

  /** The formatted breed never contains a space, and a one-word breed is
      just lower-cased. */
  lemma FormatHasNoSpace(breed: string)
    ensures ' ' !in FormatBreedForApi(breed)
    ensures ' ' !in breed ==> FormatBreedForApi(breed) == ToLower(breed)
  {
    var lower := ToLower(breed);
    var parts := Split(lower);
    if |parts| >= 2 {
      var init := parts[..|parts| - 1];
      JoinHasNoSpace(init, "-");
    } else {
      SplitJoin(lower);
      assert lower == parts[0];
    }
    if ' ' !in breed {
      assert ' ' !in lower by {
        forall i | 0 <= i < |lower|
          ensures lower[i] != ' '
        {
          assert breed[i] != ' ';
        }
      }
      SplitNoSpace(lower);
    }
  }

  /** Joining space-free pieces with a space-free separator gives a space-free string. */
  lemma {:induction false} JoinHasNoSpace(parts: seq<string>, sep: string)
    requires forall p :: p in parts ==> ' ' !in p
    requires ' ' !in sep
    ensures ' ' !in Join(parts, sep)
    decreases |parts|
  {
    if |parts| > 1 {
      JoinHasNoSpace(parts[1..], sep);
    }
  }

  /** A list entry `sub main` built from lower-case, space-free names is
      sent to the API as `main/sub`. */
  lemma SubBreedPath(sub: string, main: string)
    requires ' ' !in sub && ' ' !in main
    requires LowerCaseName(sub) && LowerCaseName(main)
    ensures FormatBreedForApi(sub + " " + main) == main + "/" + sub
  {
    var s := sub + " " + main;
    assert LowerCaseName(s);
    LowerCaseUnchanged(s);
    SplitAfterWord(sub, main);
    SplitNoSpace(main);
    assert Split(s) == [sub, main];
    assert Split(s)[..1] == [sub];
  }

  /** A main breed without sub-breeds is sent to the API under its own name. */
  lemma MainBreedPath(main: string)
    requires ' ' !in main && LowerCaseName(main)
    ensures FormatBreedForApi(main) == main
  {
    FormatHasNoSpace(main);
    LowerCaseUnchanged(main);
  }

  /** The list entries contributed by one main breed: its own name when it
      has no sub-breeds, else `sub main` for each sub-breed, in order. */
  function EntriesFor(main: string, subs: seq<string>): (r: seq<string>)
    ensures |subs| == 0 ==> r == [main]
    ensures |subs| > 0 ==> |r| == |subs| && forall j :: 0 <= j < |subs| ==> r[j] == subs[j] + " " + main
  {
    if |subs| == 0 then [main] else seq(|subs|, j requires 0 <= j < |subs| => subs[j] + " " + main)
  }

  /** The whole list for the main breeds `mains`, in table order. */
  function BreedEntries(mains: seq<string>, table: map<string, seq<string>>): (r: seq<string>)
    requires forall k :: k in mains ==> k in table
  {
    if |mains| == 0 then []
    else BreedEntries(mains[..|mains| - 1], table) + EntriesFor(mains[|mains| - 1], table[mains[|mains| - 1]])
  }

  /** The list for one more main breed ends with that breed's entries. */
  lemma BreedEntriesStep(mains: seq<string>, table: map<string, seq<string>>, i: int)
    requires forall k :: k in mains ==> k in table
    requires 0 <= i < |mains|
    ensures BreedEntries(mains[..i + 1], table) == BreedEntries(mains[..i], table) + EntriesFor(mains[i], table[mains[i]])
  {
    PrefixSnoc(mains, i);
  }

  /** `e` is sent to the API as the main breed `k` itself (when `k` has no
      sub-breeds) or as `k/sub` for one of its sub-breeds. */
  predicate ApiPathOf(table: map<string, seq<string>>, k: string, e: string)
    requires k in table
  {
    (table[k] == [] && FormatBreedForApi(e) == k) ||
    (exists s :: s in table[k] && FormatBreedForApi(e) == k + "/" + s)
  }

  /** Every list entry formats to an API path `main` or `main/sub` of the
      table, when the table's names are lower-case and space-free. */
  lemma {:induction false} EntriesFormatToTable(mains: seq<string>, table: map<string, seq<string>>, e: string)
    requires forall k :: k in mains ==> k in table
    requires forall k :: k in table ==> ' ' !in k && LowerCaseName(k)
    requires forall k, s :: k in table && s in table[k] ==> ' ' !in s && LowerCaseName(s)
    requires e in BreedEntries(mains, table)
    ensures exists k :: k in mains && k in table && ApiPathOf(table, k, e)
    decreases |mains|
  {
    var init := mains[..|mains| - 1];
    var last := mains[|mains| - 1];
    if e in BreedEntries(init, table) {
      EntriesFormatToTable(init, table, e);
      var k :| k in init && k in table && ApiPathOf(table, k, e);
      InitMembers(mains, k);
    } else {
      InitMembers(mains, last);
      EntryFormatsToMain(table, last, e);
    }
  }

  /** Each entry one main breed contributes formats to that breed's API path. */
  lemma EntryFormatsToMain(table: map<string, seq<string>>, main: string, e: string)
    requires main in table && ' ' !in main && LowerCaseName(main)
    requires forall s :: s in table[main] ==> ' ' !in s && LowerCaseName(s)
    requires e in EntriesFor(main, table[main])
    ensures ApiPathOf(table, main, e)
  {
    var subs := table[main];
    if subs == [] {
      MainBreedPath(main);
    } else {
      var j :| 0 <= j < |subs| && e == EntriesFor(main, subs)[j];
      SubBreedPath(subs[j], main);
      assert subs[j] in table[main];
    }
  }

  /** The module-level list of valid breeds, filled once from the API. */
  class BreedList {
    var validBreeds: seq<string>

    constructor ()
      ensures validBreeds == []
    {
      validBreeds := [];
    }

    /** `fetchBreeds`: nothing when the list is already filled or the
        response has no breed table; otherwise the table flattened in order. */
    method FetchBreeds(response: Option<OMap<string, seq<string>>>)
      modifies this
      requires response.Some? ==> response.value.Valid()
      ensures old(validBreeds) != [] || response.None? ==> validBreeds == old(validBreeds)
      ensures old(validBreeds) == [] && response.Some? ==>
                validBreeds == BreedEntries(response.value.keys, response.value.table)
    {
      if validBreeds != [] {
        return;
      }
      if response.None? {
        return;
      }
      var table := response.value.table;
      var mains := response.value.keys;
      var i := 0;
      while i < |mains|
        invariant 0 <= i <= |mains|
        invariant validBreeds == BreedEntries(mains[..i], table)
      {
        var main := mains[i];
        var subs := table[main];
        BreedEntriesStep(mains, table, i);
        ghost var before := validBreeds;
        ghost var entries := EntriesFor(main, subs);
        if |subs| == 0 {
          validBreeds := validBreeds + [main];
        } else {
          var j := 0;
          while j < |subs|
            invariant 0 <= j <= |subs|
            invariant validBreeds == before + entries[..j]
          {
            PrefixSnoc(entries, j);
            AppendAssoc(before, entries[..j], [entries[j]]);
            validBreeds := validBreeds + [subs[j] + " " + main];
            j := j + 1;
          }
          WholePrefix(entries);
        }
        i := i + 1;
      }
      WholePrefix(mains);
    }
  }

  /** The most the platform accepts as autocomplete choices. */
  const MaxChoices := 25

  /** Shown for an empty query, when present in the list. */
  const PopularBreeds: seq<string> := ["labrador", "german shepherd", "golden retriever", "beagle", "bulldog"]

  /** The breeds containing `query` once lower-cased, in list order. */
  function Matching(breeds: seq<string>, query: string): (r: seq<string>)
    ensures |r| <= |breeds|
  {
    if |breeds| == 0 then []
    else
      var rest := Matching(breeds[..|breeds| - 1], query);
      if Contains(ToLower(breeds[|breeds| - 1]), query) then rest + [breeds[|breeds| - 1]] else rest
  }

  /** A breed is kept by the filter exactly when it is listed and contains the query. */
  lemma {:induction false} MatchingMembers(breeds: seq<string>, query: string, b: string)
    ensures b in Matching(breeds, query) <==> b in breeds && Contains(ToLower(b), query)
    decreases |breeds|
  {
    if |breeds| > 0 {
      var init := breeds[..|breeds| - 1];
      MatchingMembers(init, query, b);
      InitMembers(breeds, b);
    }
  }

  /** The popular breeds present in the list, in their listed order. */
  function PresentAmong(candidates: seq<string>, breeds: seq<string>): (r: seq<string>)
    ensures |r| <= |candidates|
  {
    if |candidates| == 0 then []
    else
      var rest := PresentAmong(candidates[..|candidates| - 1], breeds);
      if candidates[|candidates| - 1] in breeds then rest + [candidates[|candidates| - 1]] else rest
  }

  lemma {:induction false} PresentAmongMembers(candidates: seq<string>, breeds: seq<string>, b: string)
    ensures b in PresentAmong(candidates, breeds) <==> b in candidates && b in breeds
    decreases |candidates|
  {
    if |candidates| > 0 {
      var init := candidates[..|candidates| - 1];
      PresentAmongMembers(init, breeds, b);
      InitMembers(candidates, b);
    }
  }

  /** `autocomplete`: the lower-cased query filters the list case-insensitively,
      an empty one offers the popular breeds; at most 25 choices either way. */
  function Autocomplete(breeds: seq<string>, focused: string): (r: seq<string>)
    ensures |r| <= MaxChoices
    ensures ToLower(focused) != "" ==> r == Matching(breeds, ToLower(focused))[..Min(MaxChoices, |Matching(breeds, ToLower(focused))|)]
    ensures ToLower(focused) == "" ==> r == PresentAmong(PopularBreeds, breeds)
  {
    var query := ToLower(focused);
    var filtered := if query != "" then Matching(breeds, query) else PresentAmong(PopularBreeds, breeds);
    filtered[..Min(MaxChoices, |filtered|)]
  }

  function Min(a: int, b: int): int
  {
    if a < b then a else b
  }

  /** Every choice offered is a listed breed: one containing the query when
      there is a query, one of the popular breeds otherwise. */
  lemma AutocompleteSound(breeds: seq<string>, focused: string, b: string)
    requires b in Autocomplete(breeds, focused)
    ensures b in breeds
    ensures ToLower(focused) != "" ==> Contains(ToLower(b), ToLower(focused))
    ensures ToLower(focused) == "" ==> b in PopularBreeds
  {
    var query := ToLower(focused);
    if query != "" {
      var m := Matching(breeds, query);
      assert b in m by {
        var i :| 0 <= i < |Autocomplete(breeds, focused)| && Autocomplete(breeds, focused)[i] == b;
        assert m[i] == b;
      }
      MatchingMembers(breeds, query, b);
    } else {
      PresentAmongMembers(PopularBreeds, breeds, b);
    }
  }

  /** With a query and fewer than 25 matches, every listed breed containing
      the query is offered. */
  lemma AutocompleteComplete(breeds: seq<string>, focused: string, b: string)
    requires ToLower(focused) != ""
    requires |Matching(breeds, ToLower(focused))| <= MaxChoices
    requires b in breeds && Contains(ToLower(b), ToLower(focused))
    ensures b in Autocomplete(breeds, focused)
  {
    var m := Matching(breeds, ToLower(focused));
    MatchingMembers(breeds, ToLower(focused), b);
    assert m[..|m|] == m;
  }

  /** With an empty query every popular breed in the list is offered. */
  lemma AutocompletePopular(breeds: seq<string>, focused: string, b: string)
    requires ToLower(focused) == ""
    requires b in PopularBreeds && b in breeds
    ensures b in Autocomplete(breeds, focused)
  {
    PresentAmongMembers(PopularBreeds, breeds, b);
  }

  /** Ten minutes, the lifetime of a cached image URL. */
  const ImageTtlMs := 10 * 60 * 1000

  /** The image cache key: `dog:` and the formatted breed when a breed is
      given, `dog:random` otherwise. */
  function DogCacheKey(breed: Option<string>): (r: string)
    ensures StartsWith(r, "dog:")
    ensures breed.None? || breed.value == "" ==> r == "dog:random"
    ensures breed.Some? && breed.value != "" ==> r[4..] == FormatBreedForApi(breed.value)
  {
    if breed.Some? && breed.value != "" then "dog:" + FormatBreedForApi(breed.value) else "dog:random"
  }

  /** Two breed names that differ only in letter case share one cache entry. */
  lemma CacheKeyIgnoresCase(a: string, b: string)
    requires a != "" && b != "" && ToLower(a) == ToLower(b)
    ensures DogCacheKey(Some(a)) == DogCacheKey(Some(b))
  {
    assert FormatBreedForApi(a) == FormatLowered(ToLower(b));
  }
}
