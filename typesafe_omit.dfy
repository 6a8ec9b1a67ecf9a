/**
 This module models `omit` from src/06-typesafe-omit.ts. The file declares it
 four times with four TypeScript signatures, but every copy has the same
 runtime body: list the object's entries, keep those whose key the array
 `keysToOmit` does not include, and rebuild an object from what is left.
 The object is given here by its entries, in the order `Object.entries`
 lists them; its map view is `FromEntries` of that list.
 */
module TypesafeOmit {
  import opened JsObjects

  /** The keys named in `keysToOmit`, as the type `K[number]` collects them. */
  function OmittedKeys(keysToOmit: seq<string>): set<string>
  {
    set k | k in keysToOmit
  }

  /** The filter callback `([k]) => !keysToOmit.includes(k)`. */
  predicate Kept<V>(keysToOmit: seq<string>, entry: Entry<V>)
    ensures Kept(keysToOmit, entry) <==> entry.0 !in keysToOmit
  {
    !Includes(keysToOmit, entry.0)
  }

  /** `Object.entries(obj).filter(([k]) => !keysToOmit.includes(k))`. */
  function FilterEntries<V>(entries: seq<Entry<V>>, keysToOmit: seq<string>): (r: seq<Entry<V>>)
    ensures |r| <= |entries|
  {
    if entries == [] then []
    else if Kept(keysToOmit, entries[0]) then [entries[0]] + FilterEntries(entries[1..], keysToOmit)
    else FilterEntries(entries[1..], keysToOmit)
  }

  /** `omit(obj, keysToOmit)`: the object rebuilt from the kept entries. */
  function Omit<V>(obj: seq<Entry<V>>, keysToOmit: seq<string>): map<string, V>
  {
    FromEntries(FilterEntries(obj, keysToOmit))
  }

  /**
   Filtering the entries before rebuilding gives what removing the omitted
   keys after rebuilding gives, whatever properties `acc` starts with.
   */
  lemma {:induction false} FilterThenRebuild<V>(acc: map<string, V>, entries: seq<Entry<V>>, keysToOmit: seq<string>)
    ensures FromEntriesOnto(acc - OmittedKeys(keysToOmit), FilterEntries(entries, keysToOmit))
         == FromEntriesOnto(acc, entries) - OmittedKeys(keysToOmit)
    decreases |entries|
  {
    if entries != [] {
      var omitted := OmittedKeys(keysToOmit);
      var (k, v) := entries[0];
      var acc' := acc[k := v];
      FilterThenRebuild(acc', entries[1..], keysToOmit);
      if k in keysToOmit {
        assert FilterEntries(entries, keysToOmit) == FilterEntries(entries[1..], keysToOmit);
        assert acc' - omitted == acc - omitted;
      } else {
        assert FilterEntries(entries, keysToOmit) == [(k, v)] + FilterEntries(entries[1..], keysToOmit);
        assert (acc - omitted)[k := v] == acc' - omitted;
      }
    }
  }

  /**
   The meaning of the cast `Omit<T, K[number]>`: the result is the object
   `obj` with exactly the keys of `keysToOmit` removed and every other
   property unchanged. This holds for any list of entries, distinct keys or not.
   */
  lemma OmitRemovesExactlyTheListedKeys<V>(obj: seq<Entry<V>>, keysToOmit: seq<string>)
    ensures Omit(obj, keysToOmit) == FromEntries(obj) - OmittedKeys(keysToOmit)
  {
    var empty: map<string, V> := map[];
    FilterThenRebuild(empty, obj, keysToOmit);
    assert empty - OmittedKeys(keysToOmit) == empty;
  }

  /** No key listed in `keysToOmit` is a property of the result. */
  lemma OmitDropsListedKeys<V>(obj: seq<Entry<V>>, keysToOmit: seq<string>, k: string)
    requires k in keysToOmit
    ensures k !in Omit(obj, keysToOmit)
  {
    OmitRemovesExactlyTheListedKeys(obj, keysToOmit);
  }

  /** Every entry of `obj` whose key is not listed is in the result with its value. */
  lemma OmitKeepsUnlistedEntries<V>(obj: seq<Entry<V>>, keysToOmit: seq<string>, i: nat)
    requires DistinctKeys(obj)
    requires i < |obj| && obj[i].0 !in keysToOmit
    ensures obj[i].0 in Omit(obj, keysToOmit)
    ensures Omit(obj, keysToOmit)[obj[i].0] == obj[i].1
  {
    OmitRemovesExactlyTheListedKeys(obj, keysToOmit);
    FromEntriesLosesNothing(obj);
  }

  /** The result's keys are those of `obj` less the listed ones; in particular it adds none. */
  lemma OmitKeySet<V>(obj: seq<Entry<V>>, keysToOmit: seq<string>)
    ensures Omit(obj, keysToOmit).Keys == KeySet(obj) - OmittedKeys(keysToOmit)
    ensures Omit(obj, keysToOmit).Keys <= KeySet(obj)
  {
    OmitRemovesExactlyTheListedKeys(obj, keysToOmit);
  }

  /** Listing names that are not keys of `obj` changes neither the kept entries nor the result. */
  lemma {:induction false} OmitIgnoresAbsentKeys<V>(obj: seq<Entry<V>>, keysToOmit: seq<string>, extra: seq<string>)
    requires forall k :: k in extra ==> k !in KeySet(obj)
    ensures FilterEntries(obj, keysToOmit + extra) == FilterEntries(obj, keysToOmit)
    ensures Omit(obj, keysToOmit + extra) == Omit(obj, keysToOmit)
    decreases |obj|
  {
    if obj != [] {
      KeySetCons(obj);
      OmitIgnoresAbsentKeys(obj[1..], keysToOmit, extra);
    }
  }

  /**
   The positions `lo`, `lo + 1`, ... of `entries` whose key is not listed,
   in increasing order: a witness that filtering keeps a subsequence.
   */
  ghost function KeptPositionsFrom<V>(entries: seq<Entry<V>>, keysToOmit: seq<string>, lo: nat): seq<nat>
    requires lo <= |entries|
    decreases |entries| - lo
  {
    if lo == |entries| then []
    else (if entries[lo].0 in keysToOmit then [] else [lo]) + KeptPositionsFrom(entries, keysToOmit, lo + 1)
  }

  /**
   `r` is `entries` restricted to the positions `p` from `lo` on: `p` lists,
   in increasing order, exactly the positions whose key is not listed, and
   `r` holds the entries at those positions.
   */
  ghost predicate Selects<V>(entries: seq<Entry<V>>, keysToOmit: seq<string>, lo: nat, p: seq<nat>, r: seq<Entry<V>>)
  {
    && |p| == |r|
    && (forall j :: 0 <= j < |p| ==> lo <= p[j] < |entries| && r[j] == entries[p[j]])
    && (forall j1, j2 :: 0 <= j1 < j2 < |p| ==> p[j1] < p[j2])
    && (forall i :: lo <= i < |entries| ==> (i in p <==> entries[i].0 !in keysToOmit))
  }

  /** One step back: a selection from `lo + 1` on extends to one from `lo` on. */
  lemma SelectsStep<V>(entries: seq<Entry<V>>, keysToOmit: seq<string>, lo: nat, p: seq<nat>, r: seq<Entry<V>>)
    requires lo < |entries| && Selects(entries, keysToOmit, lo + 1, p, r)
    ensures entries[lo].0 in keysToOmit ==> Selects(entries, keysToOmit, lo, p, r)
    ensures entries[lo].0 !in keysToOmit ==> Selects(entries, keysToOmit, lo, [lo] + p, [entries[lo]] + r)
  {
    if entries[lo].0 !in keysToOmit {
      var p2, r2 := [lo] + p, [entries[lo]] + r;
      forall j | 0 < j < |p2| ensures p2[j] == p[j - 1] && r2[j] == r[j - 1] { }
      forall j1, j2 | 0 <= j1 < j2 < |p2| ensures p2[j1] < p2[j2] {
        assert lo + 1 <= p[j2 - 1];
      }
      forall i | lo <= i < |entries| ensures (i in p2 <==> entries[i].0 !in keysToOmit) {
        if i == lo {
          assert p2[0] == lo;
        } else {
          assert i in p2 <==> i in p;
        }
      }
    }
  }

  /**
   Filtering keeps the order of the entries: the kept entries are the
   entries at the positions whose key is not listed, and those positions,
   in increasing order.
   */
  lemma {:induction false} FilterKeepsOrder<V>(entries: seq<Entry<V>>, keysToOmit: seq<string>, lo: nat)
    requires lo <= |entries|
    ensures Selects(entries, keysToOmit, lo, KeptPositionsFrom(entries, keysToOmit, lo), FilterEntries(entries[lo..], keysToOmit))
    decreases |entries| - lo
  {
    if lo < |entries| {
      FilterKeepsOrder(entries, keysToOmit, lo + 1);
      var p, r := KeptPositionsFrom(entries, keysToOmit, lo + 1), FilterEntries(entries[lo + 1..], keysToOmit);
      SelectsStep(entries, keysToOmit, lo, p, r);
      var rest := entries[lo..];
      assert rest[1..] == entries[lo + 1..] && rest[0] == entries[lo];
      assert FilterEntries(rest, keysToOmit) == if entries[lo].0 in keysToOmit then r else [entries[lo]] + r;
    }
  }

  /** Distinct keys stay distinct after filtering, so rebuilding the object drops no kept entry. */
  lemma OmitLosesNoKeptEntry<V>(obj: seq<Entry<V>>, keysToOmit: seq<string>)
    requires DistinctKeys(obj)
    ensures DistinctKeys(FilterEntries(obj, keysToOmit))
    ensures |Omit(obj, keysToOmit)| == |FilterEntries(obj, keysToOmit)|
  {
    FilterKeepsOrder(obj, keysToOmit, 0);
    assert obj[0..] == obj;
    FromEntriesLosesNothing(FilterEntries(obj, keysToOmit));
  }

  /** The object of src/06-typesafe-omit.ts, `{ a: 'a', b: 'b' }`. */
  function SampleObj(): seq<Entry<string>>
  {
    [("a", "a"), ("b", "b")]
  }

  /** `omit(obj, ['a'])` is exactly `{ b: 'b' }`. */
  lemma OmitSampleA()
    ensures Omit(SampleObj(), ["a"]) == map["b" := "b"]
  {
    OmitRemovesExactlyTheListedKeys(SampleObj(), ["a"]);
  }

  /** `omit(obj, ['c', '42'])` names no key of `obj`, so it keeps both `a` and `b`. */
  lemma OmitSampleAbsent()
    ensures Omit(SampleObj(), ["c", "42"]) == map["a" := "a", "b" := "b"]
  {
    OmitRemovesExactlyTheListedKeys(SampleObj(), ["c", "42"]);
  }
}
