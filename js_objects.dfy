/**
 This module models the JavaScript built-ins that `omit` composes: an
 object seen through `Object.entries` as a list of key/value pairs,
 `Array.prototype.includes` on an array of strings, and
 `Object.fromEntries`, which rebuilds an object (here a map) from a list
 of pairs.
 */
module JsObjects {

  /** One own enumerable string-keyed property, as `Object.entries` lists it. */
  type Entry<V> = (string, V)

  /** The keys that a list of entries mentions. */
  function KeySet<V>(entries: seq<Entry<V>>): set<string>
  {
    set i | 0 <= i < |entries| :: entries[i].0
  }

  /** No key occurs twice: true of every list that `Object.entries` returns. */
  predicate DistinctKeys<V>(entries: seq<Entry<V>>)
  {
    forall i, j :: 0 <= i < j < |entries| ==> entries[i].0 != entries[j].0
  }

  /** `xs.includes(x)` for an array of strings: SameValueZero on two strings is plain equality. */
  function Includes(xs: seq<string>, x: string): (r: bool)
    ensures r <==> x in xs
  {
    if xs == [] then false else xs[0] == x || Includes(xs[1..], x)
  }

  /** The keys of a non-empty list: its first entry's key and the keys of the rest. */
  lemma KeySetCons<V>(entries: seq<Entry<V>>)
    requires entries != []
    ensures KeySet(entries) == {entries[0].0} + KeySet(entries[1..])
  {
  }

  /**
   `Object.fromEntries` started from the properties already in `acc`: each
   entry defines its key in turn, so a later entry overwrites an earlier one
   with the same key.
   */
  function FromEntriesOnto<V>(acc: map<string, V>, entries: seq<Entry<V>>): (m: map<string, V>)
    ensures m.Keys == acc.Keys + KeySet(entries)
    decreases |entries|
  {
    if entries == [] then acc
    else
      KeySetCons(entries);
      FromEntriesOnto(acc[entries[0].0 := entries[0].1], entries[1..])
  }

  /** `Object.fromEntries(entries)`: the object whose properties the entries list. */
  function FromEntries<V>(entries: seq<Entry<V>>): (m: map<string, V>)
    ensures m.Keys == KeySet(entries)
  {
    FromEntriesOnto(map[], entries)
  }

  /** With distinct keys, every entry ends up in the rebuilt object with its own value. */
  lemma {:induction false} FromEntriesOntoAt<V>(acc: map<string, V>, entries: seq<Entry<V>>, i: nat)
    requires DistinctKeys(entries)
    requires i < |entries|
    ensures entries[i].0 in FromEntriesOnto(acc, entries)
    ensures FromEntriesOnto(acc, entries)[entries[i].0] == entries[i].1
    decreases |entries|
  {
    var acc' := acc[entries[0].0 := entries[0].1];
    if i == 0 {
      FromEntriesOntoUntouched(acc', entries[1..], entries[0].0);
    } else {
      FromEntriesOntoAt(acc', entries[1..], i - 1);
    }
  }

  /** A property of `acc` whose key no entry mentions keeps its value. */
  lemma {:induction false} FromEntriesOntoUntouched<V>(acc: map<string, V>, entries: seq<Entry<V>>, k: string)
    requires k in acc
    requires forall j :: 0 <= j < |entries| ==> entries[j].0 != k
    ensures FromEntriesOnto(acc, entries)[k] == acc[k]
    decreases |entries|
  {
    if entries != [] {
      var acc' := acc[entries[0].0 := entries[0].1];
      FromEntriesOntoUntouched(acc', entries[1..], k);
    }
  }

  /** Distinct keys give as many keys as entries. */
  lemma {:induction false} DistinctKeySetSize<V>(entries: seq<Entry<V>>)
    requires DistinctKeys(entries)
    ensures |KeySet(entries)| == |entries|
  {
    if entries != [] {
      KeySetCons(entries);
      DistinctKeySetSize(entries[1..]);
      var rest := entries[1..];
      forall j | 0 <= j < |rest| ensures rest[j].0 != entries[0].0 {
        assert rest[j] == entries[j + 1];
      }
    }
  }

  /**
   Rebuilding an object from a list of entries with distinct keys loses no
   entry: it has exactly as many properties as the list has entries, and
   each entry's key holds that entry's value.
   */
  lemma FromEntriesLosesNothing<V>(entries: seq<Entry<V>>)
    requires DistinctKeys(entries)
    ensures |FromEntries(entries)| == |entries|
    ensures forall i :: 0 <= i < |entries| ==>
      entries[i].0 in FromEntries(entries) && FromEntries(entries)[entries[i].0] == entries[i].1
  {
    DistinctKeySetSize(entries);
    assert |FromEntries(entries).Keys| == |entries|;
    forall i | 0 <= i < |entries|
      ensures entries[i].0 in FromEntries(entries) && FromEntries(entries)[entries[i].0] == entries[i].1
    {
      FromEntriesOntoAt(map[], entries, i);
    }
  }
}
