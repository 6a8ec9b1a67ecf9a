# typesafe `omit`, modelled in Dafny

The repository is a TypeScript tutorial. Its only runtime logic is the `omit`
helper in `src/06-typesafe-omit.ts`. The file declares `omit` four times, with
four signatures: keys typed as plain `string`, not tied to `obj`'s keys; keys
typed as `keyof T`; result cast to `Partial<T>`; and result cast to
`Omit<T, K[number]>`. All four share one runtime body. That body lists the object's entries with `Object.entries`,
keeps the entries whose key `keysToOmit.includes` rejects, and rebuilds an
object with `Object.fromEntries`.

This project models that body and proves that it does what the last cast,
`Omit<T, K[number]>`, claims. The result has exactly the keys of `obj` minus
the listed keys, and each kept key has its original value.

- `js_objects.dfy`, module `JsObjects`, models the built-ins. An object is the list
  of `(key, value)` pairs that `Object.entries` returns. `Object.fromEntries` is a
  left fold that defines each key in turn, so a later entry with the same key wins.
  `Array.prototype.includes` on strings is membership.
- `typesafe_omit.dfy`, module `TypesafeOmit`, models the filter callback, the
  filtered entry list and `omit`. It also holds the lemmas about them and the
  file's concrete example `{ a: 'a', b: 'b' }`.

Values are a type parameter `V`, standing for TypeScript's `unknown`. The
model is pure, like the source: functions and lemmas only.

## Model

| member | source | states |
|---|---|---|
| JsObjects.Includes | src/06-typesafe-omit.ts:9 | `keysToOmit.includes(k)` is true exactly when `k` occurs in `keysToOmit` |
| JsObjects.FromEntriesOnto | src/06-typesafe-omit.ts:8-10 | defining the entries' keys in turn on an object yields the object's old keys plus every key the entries mention, and no others |
| JsObjects.FromEntries | src/06-typesafe-omit.ts:8-10 | the object `Object.fromEntries` builds has exactly the keys that its entries mention |
| JsObjects.FromEntriesOntoAt | src/06-typesafe-omit.ts:8-9 | when the keys are distinct, each entry's key ends up holding that entry's own value |
| JsObjects.FromEntriesOntoUntouched | src/06-typesafe-omit.ts:8-9 | a property whose key no entry mentions keeps its value |
| JsObjects.FromEntriesLosesNothing | src/06-typesafe-omit.ts:8-9 | for entries with distinct keys, the rebuilt object has one property per entry, and each entry's key holds that entry's value |
| TypesafeOmit.Kept | src/06-typesafe-omit.ts:9 | the filter callback `([k]) => !keysToOmit.includes(k)` keeps an entry exactly when its key is not listed in `keysToOmit` |
| TypesafeOmit.Omit | src/06-typesafe-omit.ts:65-71 | `omit` itself: `Object.fromEntries` of the filtered entries. The body is the same in all four copies (lines 7-10, 25-31, 46-52, 65-71). Its specification is `OmitRemovesExactlyTheListedKeys`, with the lemmas below it |
| TypesafeOmit.FilterEntries | src/06-typesafe-omit.ts:9 | the filtered entry list is never longer than the input list |
| TypesafeOmit.FilterThenRebuild | src/06-typesafe-omit.ts:69-71 | filtering the entries and then rebuilding gives the same object as rebuilding and then removing the listed keys, from any starting object |
| TypesafeOmit.OmitRemovesExactlyTheListedKeys | src/06-typesafe-omit.ts:65-71 | `omit(obj, keysToOmit)` equals `obj` with the keys of `keysToOmit` removed. Every other property is unchanged. This holds even if `obj`'s entries repeat a key |
| TypesafeOmit.OmitDropsListedKeys | src/06-typesafe-omit.ts:69-76 | no key listed in `keysToOmit` is a property of the result (`partialObj.a` is gone) |
| TypesafeOmit.OmitKeepsUnlistedEntries | src/06-typesafe-omit.ts:69-77 | every entry of `obj` whose key is not listed is in the result with the same value (`partialObj.b` is kept) |
| TypesafeOmit.OmitKeySet | src/06-typesafe-omit.ts:65-78 | the result's key set is `obj`'s key set minus the listed keys, so it introduces no key absent from `obj` (`partialObj.c` does not exist) |
| TypesafeOmit.OmitIgnoresAbsentKeys | src/06-typesafe-omit.ts:7-14 | appending names that are not keys of `obj` to `keysToOmit` changes neither the kept entries nor the result |
| TypesafeOmit.FilterKeepsOrder | src/06-typesafe-omit.ts:9 | the kept entries are exactly the entries at the positions whose key is not listed, taken in increasing position order, so they form a subsequence of the input |
| TypesafeOmit.OmitLosesNoKeptEntry | src/06-typesafe-omit.ts:8-9 | distinct input keys stay distinct after filtering, so the result has one property per kept entry |
| TypesafeOmit.OmitSampleA | src/06-typesafe-omit.ts:73-78 | `omit({ a: 'a', b: 'b' }, ['a'])` is exactly `{ b: 'b' }` |
| TypesafeOmit.OmitSampleAbsent | src/06-typesafe-omit.ts:12-14 | `omit({ a: 'a', b: 'b' }, ['c', '42'])` keeps both `a` and `b` with their values |

## Left out

- Type-level behaviour: the four signatures, the `keyof T` constraint on `keysToOmit`, and the `as` casts are unchecked compile-time claims of the TypeScript checker; only the runtime body they annotate is modelled, and the lemmas above state what the casts promise.
- `keysToOmit` is a list of strings. With the `keyof T` signatures such an array could in principle hold a number or a symbol, and `includes` would never match it against an entry's string key; the model does not represent such elements.
- JavaScript object details: prototype chains, non-enumerable and symbol-keyed properties, and the rule that integer-like keys such as `'42'` are listed first in ascending numeric order. An input object is taken to be its entries in the order they are listed. The result of `Omit` is a `map`, so the model drops the result's property order, i.e. what `Object.keys(partialObj)` would list. Nothing in the source reads that order.
- `objectKeys` in src/05-object-keys.ts:12-13 is only a type cast over `Object.keys`; it adds no runtime logic beyond the key-set facts proved for `omit`.
- `format` in src/03-type-narrowing.ts:5-13 relies on `Number.parseFloat` and `toFixed`, which are floating-point operations; the other blocks of that file have empty bodies.
- src/00-type-inference.ts, src/01-intersection-and-union-types.ts, src/02-keywords.ts and src/04-generics.ts demonstrate type inference and hold no runtime algorithm; the enum output in src/02-keywords.ts appears only in comments.
