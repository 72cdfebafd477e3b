# Realtime configuration provider, modelled in Dafny

This project models `RealtimeConfigurationProvider` (Soenneker.Config.Realtime). It is a
configuration provider that holds an in-memory dictionary from configuration key to
optional string value. Callers can change the dictionary at run time, and every change
raises the base class's reload signal. The provider also enumerates one level of the
`section:subsection:key` hierarchy (`GetChildKeys`) for the host configuration pipeline.

Files:

- `options.dfy`, module `Options`: `Option<T>`, standing for a nullable `string?`.
- `provider.dfy`, module `Provider`: the class `RealtimeConfigurationProvider`.
  - `data: map<string, Option<string>>` is the `ConcurrentDictionary` field `_data`.
  - `reloads: nat` counts the calls to `OnReload()`.
  - Methods `TryGet`, `Set`, `Remove` and `GetChildKeys`, plus `KeysSnapshot`, which is the
    `_data.Keys` snapshot: every key once, in an order the dictionary does not specify.
  - A few client methods state what a caller observes across several calls.
- `hierarchy.dfy`, module `Hierarchy`: the LINQ pipeline of `GetChildKeys` as pure
  functions over one key enumeration.
  - `IsChildOf` is the `StartsWith(parentPath + ":", OrdinalIgnoreCase)` test.
  - `ChildSegment` is `Substring` followed by `Split(':')[0]`.
  - `ChildSegments` is the `Where`/`Select`/`Select` chain.
  - `Distinct` is LINQ's `Distinct`.
  - `ChildKeys` is the whole root or non-root result.
- `sorting.dfy`, module `Sorting`: `OrderBy(k => k)` as a stable insertion sort `SortBy`
  under an abstract comparer `le`. The module proves that the result is sorted, is a
  permutation and is stable, and that it is the only sorted, stable rearrangement.
- `scenarios.dfy`, module `Scenarios`: one concrete comparer (ordinal order), proved to be a
  total preorder, and one concrete fold (ASCII upper case). It also computes the
  enumeration for three small key sets.

Parameters standing for behaviour outside the class:

- The string comparer behind `OrderBy` is the culture-sensitive default. It is the
  parameter `le`, which may be any total preorder (`Sorting.TotalPreorder`).
  `GetChildKeys` requires this, as `OrderBy` needs a consistent comparer.
- `OrdinalIgnoreCase` compares character by character after a simple case mapping. It is
  the parameter `fold: char -> char`. The prefix-boundary lemma also needs
  `DelimiterFoldsAlone(fold)`: no character other than `':'` folds to the same character
  as `':'`. Real case mapping has this property.

Behaviour modelled as the code has it, although a store of this kind is often described
otherwise:

- Keys compare exactly. The dictionary is built with `new()`, i.e. with the ordinal,
  case-sensitive comparer, so `"A:B"` and `"a:b"` are two entries
  (`Provider.LookupIsCaseSensitive`). Only the parent-path prefix test ignores case.
- `Set` raises a reload on every call, even when the value is unchanged
  (`Provider.RepeatedSetNotifiesEachTime`).
- Empty child segments are kept: `"db:"` under `"db"` yields `""`
  (`Hierarchy.EmptySegmentKept`).
- Child segments are deduplicated with LINQ's `Distinct`, which uses exact string equality.
  So `"Host"` and `"host"` are two segments. `earlierKeys` is never deduplicated, and the
  root listing is not deduplicated either.
- Keys are ordered by the default comparer, which is given as the parameter `le`. This
  model does not fix it to a case-insensitive order.

## Model

| member | source | states |
|---|---|---|
| `Provider.RealtimeConfigurationProvider.constructor` | src/RealtimeConfigurationProvider.cs:14 | the store starts with an empty dictionary and no reloads raised |
| `Provider.RealtimeConfigurationProvider.TryGet` | src/RealtimeConfigurationProvider.cs:16-19 | found exactly when the key is stored under exact (case-sensitive) equality; the stored value when found, null otherwise; nothing changes |
| `Provider.RealtimeConfigurationProvider.Set` | src/RealtimeConfigurationProvider.cs:21-25 | afterwards the key holds the new value and every other key keeps its presence and value; the reload count rises by exactly one, whatever the old value was |
| `Provider.RealtimeConfigurationProvider.Remove` | src/RealtimeConfigurationProvider.cs:27-31 | afterwards the key is absent and every other entry is unchanged; the reload count rises by one exactly when the key was present; an absent key changes nothing |
| `Provider.RealtimeConfigurationProvider.KeysSnapshot` | src/RealtimeConfigurationProvider.cs:43 | the snapshot lists every stored key exactly once and nothing else |
| `Provider.RealtimeConfigurationProvider.GetChildKeys` | src/RealtimeConfigurationProvider.cs:33-50 | the result is the pure enumeration over some snapshot of the stored keys. It is sorted under the comparer. At the root it is a permutation of the earlier keys plus every stored key. Elsewhere it is a permutation of the earlier keys plus each child segment under the parent path exactly once |
| `Provider.SetThenTryGet` | test/Soenneker.Config.Realtime.Tests/RealtimeConfigurationProviderTests.cs:21-32 | a value written with `Set` is read back at once by `TryGet`, and one reload is raised |
| `Provider.RepeatedSetNotifiesEachTime` | src/RealtimeConfigurationProvider.cs:23-24 | writing the same value twice raises two reloads and leaves the single new entry |
| `Provider.RemoveThenTryGet` | src/RealtimeConfigurationProvider.cs:27-31 | after `Remove` the key is not found; a second `Remove` of the same key raises no reload |
| `Provider.LookupIsCaseSensitive` | src/RealtimeConfigurationProvider.cs:14 | after setting `"A:B"` on a new store, `"a:b"` is not found |
| `Hierarchy.IsNullOrEmpty` | src/RealtimeConfigurationProvider.cs:36 | a null parent path is the root; a parent path that is not the root is present and non-empty |
| `Hierarchy.StartsWithIgnoreCase` | src/RealtimeConfigurationProvider.cs:44 | a match implies the prefix is no longer than the text, and an exact prefix always matches whatever the fold; the boundary and case properties of its use are in `PrefixBoundary` and `ParentPathIgnoresCase` |
| `Hierarchy.IsChildOf` | src/RealtimeConfigurationProvider.cs:44 | a key under the parent path is longer than the path, and a key that starts exactly with `parentPath + ":"` is under it; see also `PrefixBoundary`, `ParentPathIgnoresCase`, `ParentIsNotItsOwnChild` |
| `Hierarchy.ChildSegment` | src/RealtimeConfigurationProvider.cs:45-46 | the segment is the text right after `parentPath + ":"`, holds no `':'`, and is followed by `':'` or the end of the key |
| `Hierarchy.ChildSegments` | src/RealtimeConfigurationProvider.cs:43-46 | at most one segment per key, none containing `':'`; which segments appear is stated by `ChildSegmentsExact` |
| `Hierarchy.ChildKeys` | src/RealtimeConfigurationProvider.cs:36-49 | at the root, a permutation of the earlier keys plus all keys; elsewhere, no longer than the earlier keys plus the keys, and every element not among the earlier keys holds no `':'`; sortedness and the exact child multiset are stated by `RootChildKeys` and `NestedChildKeys` |
| `Hierarchy.FirstSegment` | src/RealtimeConfigurationProvider.cs:46 | the segment is a prefix of the text and holds no `':'`; if it is shorter than the text, the next character is `':'` |
| `Hierarchy.FirstSegmentEndsAtFirstDelimiter` | src/RealtimeConfigurationProvider.cs:46 | the segment is exactly the text up to the first `':'`, or the whole text when it has none |
| `Hierarchy.Distinct` | src/RealtimeConfigurationProvider.cs:47 | the result has the same elements as the input, no repeats, and lists them in the order of their first occurrence in the input |
| `Hierarchy.DistinctOfDistinct` | src/RealtimeConfigurationProvider.cs:47 | a sequence without repeats is left exactly as it is |
| `Hierarchy.ChildSegmentsExact` | src/RealtimeConfigurationProvider.cs:43-46 | a segment is produced exactly when some key lies under `parentPath + ":"` (ignoring case) and has that segment right after the prefix |
| `Hierarchy.ChildSegmentIsOneLevel` | src/RealtimeConfigurationProvider.cs:46 | no child segment contains `':'`, so only the immediate level is listed |
| `Hierarchy.ParentIsNotItsOwnChild` | src/RealtimeConfigurationProvider.cs:44 | a key equal to the parent path is not under it |
| `Hierarchy.PrefixBoundary` | src/RealtimeConfigurationProvider.cs:44 | when only `':'` folds to `':'`, a key is under the parent path exactly when it starts with the path (ignoring case) and the next character is `':'`; so `"database"` is not under `"data"` |
| `Hierarchy.ParentPathIgnoresCase` | src/RealtimeConfigurationProvider.cs:44-45 | parent paths that agree after case folding select the same keys and cut the same child segments |
| `Hierarchy.NonChildAddsNothing` | src/RealtimeConfigurationProvider.cs:44 | adding a key that is not under the parent path leaves the set of child segments unchanged |
| `Hierarchy.EmptySegmentKept` | src/RealtimeConfigurationProvider.cs:45-46 | a key like `"db:"` or `"db::x"` under `"db"` contributes the empty segment `""` |
| `Hierarchy.RootChildKeys` | src/RealtimeConfigurationProvider.cs:36-40 | for a null or empty parent path, the result is sorted, is a permutation of the earlier keys followed by all stored keys (no splitting, no deduplication), and keeps the input order among ties |
| `Hierarchy.NestedChildKeys` | src/RealtimeConfigurationProvider.cs:43-49 | otherwise the result is sorted and is a permutation of the earlier keys plus each distinct child segment under the parent path, once |
| `Sorting.SortBy` | src/RealtimeConfigurationProvider.cs:39 | the sort is a permutation of its input |
| `Sorting.SortBySorted` | src/RealtimeConfigurationProvider.cs:39 | under a total preorder, the result is in order |
| `Sorting.SortByStable` | src/RealtimeConfigurationProvider.cs:49 | elements that tie under the comparer keep their relative input order, as `OrderBy` promises |
| `Sorting.SortByIsTheStableSort` | src/RealtimeConfigurationProvider.cs:49 | any sorted rearrangement that keeps every group of ties in input order equals `SortBy`, so `SortBy` is exactly a stable sort |
| `Scenarios.DatabaseChildren` | src/RealtimeConfigurationProvider.cs:43-49 | under `"db"`, the keys `db:host`, `db:port`, `db:creds:user` give `creds`, `host`, `port` in ordinal order |
| `Scenarios.DataChildren` | src/RealtimeConfigurationProvider.cs:44-46 | under `"data"`, the keys `database` and `data:x` give only `x` |
| `Scenarios.RootListing` | src/RealtimeConfigurationProvider.cs:36-40 | at the root, earlier key `zeta` and stored keys `db:host`, `db:port` give the three whole keys in ordinal order |

## Left out

- Concurrency. `ConcurrentDictionary`'s thread safety and the atomicity of `AddOrUpdate`
  and `TryRemove` are not modelled. Each operation is one atomic step on a sequential map,
  and `GetChildKeys` works over one snapshot of the key set.
- The change-token mechanism behind `OnReload()` is not modelled; it is only counted in
  `reloads`. The base class's own `Data` dictionary and `Load` are not modelled.
- Deferred execution. `GetChildKeys` returns a lazy LINQ query; the model computes its
  result at once, over the snapshot taken at the call.
- Null arguments. A null key makes the dictionary throw `ArgumentNullException`. The key
  parameters are non-nullable `string` in the interface, so the model's keys are never
  null. Null elements of `earlierKeys` are not modelled either.
- Lone surrogates. A Dafny `char` is a Unicode scalar value, not a UTF-16 code unit, so a
  key holding an unpaired surrogate has no counterpart in the model, and a supplementary
  character is one `char` here but two code units in C#. Offsets still agree, because the
  prefix and the key are counted the same way.
- Scenarios.OrdinalLe: orders by code point, so it differs from .NET's UTF-16 ordinal order
  between supplementary characters and U+E000 to U+FFFF; the scenarios use ASCII keys only.
- The culture-sensitive default string order and the Unicode case table of
  `OrdinalIgnoreCase` are not modelled; they are the parameters `le` and `fold`.
- `RealtimeConfigurationSource.Build` (src/RealtimeConfigurationSource.cs) only returns the
  stored provider. The registrar (src/Registrars/RealtimeConfigurationProviderRegistrar.cs)
  is dependency-injection wiring. The interface (src/Abstract/IRealtimeConfigurationProvider.cs)
  only declares the methods. None of these are part of this model.
- How the host configuration root merges its providers (which provider wins for
  `config["key"]`) is not part of this model. `Provider.SetThenTryGet` reads through
  `TryGet` rather than through the merged view.
