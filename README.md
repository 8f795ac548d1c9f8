# ConcurrentDictionary extension methods, modelled in Dafny

This project models `ConcurrentDictionaryExtensions` from Craig's Utility Library. The class has three null-safe
helpers over a `ConcurrentDictionary<TKey, TValue>`:

- `GetValue` looks a key up and falls back to a default.
- `SetValue` inserts or overwrites an entry in place.
- `CopyTo` upserts every entry of one dictionary into another.

Each helper substitutes something safe for a null dictionary argument instead of throwing.

- `wrappers.dfy` (module `Wrappers`): the `Option` type returned by a lookup.
- `dictionary.dfy` (module `Dictionary`): the library dictionary, reduced to what the helpers use.
  - `Dict<K, V>` is a class whose `contents: map<K, V>` field is updated in place.
  - Its members are `TryGetValue`, `AddOrUpdate` (whose update factory always returns the new value) and `Entries` (enumeration).
  - `Upsert` is the map-level insert-or-overwrite.
- `concurrent_dictionary_extensions.dfy` (module `ConcurrentDictionaryExtensions`): the three helpers.
  - An absent dictionary is a null `Dict?`.
  - `CopyTo` enumerates the source and passes the entries to `UpsertEach`. That loop calls `SetValue` on the target once per entry, as line 47 does.
  - The lemmas show that this loop leaves the old target overridden by the source, whatever the enumeration order. Both dictionaries compare keys with the same equality.
  - `ExampleGetAndSet`, `ExampleNullDictionary` and `ExampleCopy` are client methods. They prove a sample scenario (`{"a": 1, "b": 2}`: read, write, read back, write the same entry again) and the null policies from the contracts alone.

C#'s `default(TValue)` default argument becomes an explicit `defaultValue` parameter of `GetValue`.

## Model

| member | source | states |
|---|---|---|
| Dictionary.Upsert | src/CraigsUtilityLibrary/DataTypes/ExtensionMethods/ConcurrentDictionaryExtensions.cs:83 | the key is bound to the new value whether it was new or existing; the key set grows by exactly that key; every other key keeps its value |
| Dictionary.Dict.constructor | src/CraigsUtilityLibrary/DataTypes/ExtensionMethods/ConcurrentDictionaryExtensions.cs:82 | a new dictionary holds no entries |
| Dictionary.Dict.TryGetValue | src/CraigsUtilityLibrary/DataTypes/ExtensionMethods/ConcurrentDictionaryExtensions.cs:67 | finds something exactly when the key is stored, and what it finds is the stored value |
| Dictionary.Dict.AddOrUpdate | src/CraigsUtilityLibrary/DataTypes/ExtensionMethods/ConcurrentDictionaryExtensions.cs:83 | the dictionary's new contents are the old contents with the key upserted to the value |
| Dictionary.Dict.Entries | src/CraigsUtilityLibrary/DataTypes/ExtensionMethods/ConcurrentDictionaryExtensions.cs:47 | enumeration yields every stored entry exactly once: keys distinct, each element a stored entry, each stored key present, length equal to the entry count |
| ConcurrentDictionaryExtensions.GetValue | src/CraigsUtilityLibrary/DataTypes/ExtensionMethods/ConcurrentDictionaryExtensions.cs:62-68 | null dictionary gives the default for every key; otherwise the stored value when the key is present, else the default; reads only |
| ConcurrentDictionaryExtensions.SetValue | src/CraigsUtilityLibrary/DataTypes/ExtensionMethods/ConcurrentDictionaryExtensions.cs:79-85 | null dictionary: a fresh empty dictionary is returned and nothing is stored or changed; otherwise the same reference is returned, its contents are the old ones with the key upserted, and a following GetValue of that key returns the value whatever the default |
| ConcurrentDictionaryExtensions.UpsertIdempotent | src/CraigsUtilityLibrary/DataTypes/ExtensionMethods/ConcurrentDictionaryExtensions.cs:83 | setting the same key to the same value twice gives the same map as setting it once |
| ConcurrentDictionaryExtensions.UpsertAllOverrides | src/CraigsUtilityLibrary/DataTypes/ExtensionMethods/ConcurrentDictionaryExtensions.cs:47 | upserting, one after another, the entries of any enumeration of a source map into a map m yields m overridden by the source |
| ConcurrentDictionaryExtensions.UpsertAllEnumerated | src/CraigsUtilityLibrary/DataTypes/ExtensionMethods/ConcurrentDictionaryExtensions.cs:47 | an entry sequence that gives each key a single value is an enumeration of the map built by upserting it into an empty map |
| ConcurrentDictionaryExtensions.UpsertAllOrderIndependent | src/CraigsUtilityLibrary/DataTypes/ExtensionMethods/ConcurrentDictionaryExtensions.cs:47 | for an entry sequence that gives each key a single value (so any sequence with distinct keys), every permutation of it upserts to the same final map, so the order of the per-entry upserts does not matter |
| ConcurrentDictionaryExtensions.UpsertEach | src/CraigsUtilityLibrary/DataTypes/ExtensionMethods/ConcurrentDictionaryExtensions.cs:47 | calling SetValue on the target for each entry in turn leaves the target equal to its old contents with those entries upserted first to last |
| ConcurrentDictionaryExtensions.CopyTo | src/CraigsUtilityLibrary/DataTypes/ExtensionMethods/ConcurrentDictionaryExtensions.cs:42-49 | returns the source, or a fresh empty dictionary when the source is null; the source's contents are unchanged; with a null target nothing is modified; otherwise the target becomes its old contents overridden by the source; a null source leaves the target unchanged; target keys absent from the source keep their old values |

## Left out

- The parallelism of `Parallel.ForEach` (line 47) is not modelled. This covers thread scheduling, interleaving with concurrent writers on the source or target, and the lack of atomicity across entries. The copy is a sequential loop over one enumeration of the source. `UpsertAllOrderIndependent` shows that any order of the per-entry upserts gives the same result when nobody else writes and the source and target compare keys alike.
- The internals of `ConcurrentDictionary` are treated as a plain finite map. This covers locking, bucket resizing and the atomicity of `TryGetValue` and `AddOrUpdate`.
- The update-factory delegate `(x, y) => value` of line 83 is not modelled as a function value. `AddOrUpdate` binds the key to the value directly, which is what that delegate always produces.
- The enumeration order of a dictionary is unspecified. `Dict.Entries` picks keys in an arbitrary order, and nothing in the model depends on that order.
- The extension-method `this` syntax and the `[EditorBrowsable]` attribute (line 31) are C# surface details with no behaviour, so they are not modelled.
- GetValue: a null key with a present dictionary makes `TryGetValue` (line 67) throw `ArgumentNullException` in the source. In the model, null is an ordinary key and the lookup returns the stored value or the default. Keys are a generic type here, with no null value to single out.
- SetValue: a null key with a present dictionary makes `AddOrUpdate` (line 83) throw `ArgumentNullException` in the source. In the model the pair is stored like any other.
- Dict.TryGetValue: the `ArgumentNullException` for a null key is not modelled; every key is a valid lookup.
- Dict.AddOrUpdate: the `ArgumentNullException` for a null key is not modelled. Neither is the `OverflowException` raised when the dictionary already holds `int.MaxValue` entries, because the model's map has no size bound.
- CopyTo: key equality is one fixed equality on the key type, shared by the source and the target. In the source each dictionary may carry its own `IEqualityComparer<TKey>`. If the target's comparer identifies keys that the source's comparer keeps apart, the target ends with whichever of those entries was upserted last. That result depends on the order of the per-entry upserts and is not the old target overridden by the source. The model does not cover that case.
