# NamingData: a case-insensitive configuration store

`NamingData` keeps configuration values as name/string pairs. Names are
compared ignoring letter case. Values come from hashtables, dictionaries,
property bags and other `NamingData` stores. Each raw value is flattened to
one string before it is stored. This project models the class in Dafny and
proves its merge, lookup and flattening rules.

- `case_fold.dfy` (module `CaseFold`): the ordinal ignore-case comparison,
  restricted to ASCII letters. It is proved equal to a letter-by-letter
  reference.
- `breakup.dfy` (module `Breakup`):
  - the raw value shapes (`Raw`);
  - the flattening rules as a function (`Flatten`);
  - the recursive, loop-based `BreakupValue`, proved to append exactly
    `Flatten(value)`.
- `naming_model.dfy` (module `NamingModel`):
  - the backing `Dictionary<string, string>` and its comparer as a value
    (`Dict`);
  - the rebuild under the ignore-case comparer (`Normalize`);
  - the single write primitive (`AddSpec`), and batches of writes as a fold
    (`BatchSpec`);
  - lemmas about all of the above.
- `naming_data.dfy` (module `Naming`): the class `NamingData`, whose field
  `BaseValues` the methods update in place. Each method is proved to leave
  the state that the functions above describe.

A store is well formed (`WellFormed`) when:
- each entry is filed under its comparer's canonical form of its own name;
- no stored name is empty;
- no two stored names are equal ignoring case.

Every method keeps this invariant.

Like the original, `ContainsKey`, `Get` and `TryGet` first call
`AssureComparer`. So a read may rebuild a case-sensitive dictionary into an
ignore-case one, and these methods therefore declare `modifies this`.

## Model

| member | source | states |
|---|---|---|
| CaseFold.FoldEqualIff | src/ConfigurationSubstitution/ConfigurationSubstitution/NamingData.cs:32 | two names have the same fold exactly when they agree letter by letter up to ASCII case (both directions) |
| Breakup.BreakupValue | src/ConfigurationSubstitution/ConfigurationSubstitution/NamingData.cs:157-197 | appending a value's pieces to `result` through the index and enumerator loops yields `result` followed by exactly `Flatten(value)` |
| Breakup.JoinedSkipsNulls | src/ConfigurationSubstitution/ConfigurationSubstitution/NamingData.cs:171-194 | a container contributes the usual separator-join of its non-null elements, plus one extra leading separator exactly when its first element is null and a later one is not (the separator depends on the index) |
| Breakup.FlattenWithoutNulls | src/ConfigurationSubstitution/ConfigurationSubstitution/NamingData.cs:171-194 | without nulls, an array flattens to the ", "-join and any other enumerable to the ","-join of the element flattenings |
| Breakup.SeparatorByContainerKind | src/ConfigurationSubstitution/ConfigurationSubstitution/NamingData.cs:171-194 | the same three strings give "x, y, z" in an array and "x,y,z" in another enumerable |
| Breakup.NestedSeparators | src/ConfigurationSubstitution/ConfigurationSubstitution/NamingData.cs:171-194 | a nested enumerable inside an array uses its own separator: "p, q,r" |
| Breakup.LeadingNullKeepsSeparator | src/ConfigurationSubstitution/ConfigurationSubstitution/NamingData.cs:174-193 | a leading null still earns the next element its separator: `[null, "a"]` gives ", a", and an enumerable `[null, null, "a"]` gives ",a" |
| NamingModel.Normalize | src/ConfigurationSubstitution/ConfigurationSubstitution/NamingData.cs:27-37 | the rebuilt dictionary has the ignore-case comparer and is well formed |
| NamingModel.NormalizeKeepsPairs | src/ConfigurationSubstitution/ConfigurationSubstitution/NamingData.cs:27-37 | rebuilding keeps every (name, value) pair, spelling included |
| NamingModel.NormalizeOnce | src/ConfigurationSubstitution/ConfigurationSubstitution/NamingData.cs:29-30 | an ignore-case dictionary is kept as it is, so a second rebuild changes nothing |
| NamingModel.ContainsIffStoredSpelling | src/ConfigurationSubstitution/ConfigurationSubstitution/NamingData.cs:39-43 | ContainsKey holds exactly when some stored name equals the key ignoring case |
| NamingModel.LookupIgnoresCase | src/ConfigurationSubstitution/ConfigurationSubstitution/NamingData.cs:39-49 | names that differ only in letter case give the same ContainsKey and Get answers |
| NamingModel.LookupFailsIffAbsent | src/ConfigurationSubstitution/ConfigurationSubstitution/NamingData.cs:45-49 | Get fails with KeyNotFound exactly when the name is absent; otherwise it gives the value stored under a spelling equal to it ignoring case |
| NamingModel.PairsAgreeWithLookup | src/ConfigurationSubstitution/ConfigurationSubstitution/NamingData.cs:25 | every pair of the plain name-to-value view is what Get returns, and every present name has a spelling in that view |
| NamingModel.Put | src/ConfigurationSubstitution/ConfigurationSubstitution/NamingData.cs:209-218 | a write into a well-formed ignore-case dictionary leaves it well formed and ignore-case |
| NamingModel.AddSpec | src/ConfigurationSubstitution/ConfigurationSubstitution/NamingData.cs:199-221 | Add keeps the store well formed |
| NamingModel.AddRefused | src/ConfigurationSubstitution/ConfigurationSubstitution/NamingData.cs:201-205 | a null value or an empty name returns false and leaves the dictionary exactly as it was (not even rebuilt) |
| NamingModel.PutPairs | src/ConfigurationSubstitution/ConfigurationSubstitution/NamingData.cs:209-218 | a write that happens changes exactly one pair of the plain view: the stored spelling of a present name, or the new name's own spelling; a refused overwrite changes nothing |
| NamingModel.InsertOne | src/ConfigurationSubstitution/ConfigurationSubstitution/NamingData.cs:207-217 | after Insert(k, v), Get(k) is the flattened v; an existing name keeps its stored spelling; Get on every other name is unchanged |
| NamingModel.TryAddOne | src/ConfigurationSubstitution/ConfigurationSubstitution/NamingData.cs:204-220 | TryAdd(k, v) returns true exactly when the pair is accepted and the name absent; it then adds exactly that pair, and otherwise the pairs stay exactly as before |
| NamingModel.TryAddNeverOverwrites | src/ConfigurationSubstitution/ConfigurationSubstitution/NamingData.cs:209-220 | a second TryAdd under a name equal ignoring case returns false, and the first value stays |
| NamingModel.BatchSpec | src/ConfigurationSubstitution/ConfigurationSubstitution/NamingData.cs:111-152 | a batch of Adds keeps the store well formed |
| NamingModel.BatchNames | src/ConfigurationSubstitution/ConfigurationSubstitution/NamingData.cs:111-152 | after a batch, the present names are the earlier ones plus the names of the accepted pairs |
| NamingModel.BatchResultIffAllNew | src/ConfigurationSubstitution/ConfigurationSubstitution/NamingData.cs:111-152 | a batch TryAdd returns true exactly when every pair is accepted, absent beforehand and distinct from the others ignoring case; a null value anywhere makes it false |
| NamingModel.TryAddBatchKeeps | src/ConfigurationSubstitution/ConfigurationSubstitution/NamingData.cs:111-152 | a batch TryAdd never changes an entry that was present before it |
| NamingModel.TryAddBatchFirstWins | src/ConfigurationSubstitution/ConfigurationSubstitution/NamingData.cs:111-152 | every pair is attempted even after a false: the first accepted pair for an absent name is stored, with its own spelling and value |
| NamingModel.InsertBatchLastWins | src/ConfigurationSubstitution/ConfigurationSubstitution/NamingData.cs:64-93 | in a batch Insert, the last accepted pair for a name gives its value |
| NamingModel.InsertBatchKeepsOthers | src/ConfigurationSubstitution/ConfigurationSubstitution/NamingData.cs:64-93 | a batch Insert leaves Get on every name that no accepted pair of the batch carries (ignoring case) exactly as it was |
| Naming.NamingData.AsMap | src/ConfigurationSubstitution/ConfigurationSubstitution/NamingData.cs:25 | the conversion gives an empty map for a null store; otherwise each key is the stored spelling of its name (one key per name), each pair agrees with Get, and every present name appears |
| Naming.NamingData.constructor | src/ConfigurationSubstitution/ConfigurationSubstitution/NamingData.cs:248 | a new store is empty with the ignore-case comparer |
| Naming.NamingData.FromSource | src/ConfigurationSubstitution/ConfigurationSubstitution/NamingData.cs:249-251 | a store built from a source is the batch TryAdd of that source into an empty store; a null source gives an empty store |
| Naming.NamingData.Copy | src/ConfigurationSubstitution/ConfigurationSubstitution/NamingData.cs:253-259 | the copy holds exactly the other store's pairs under the ignore-case comparer; a null store gives an empty one |
| Naming.NamingData.AssignBaseValues | src/ConfigurationSubstitution/ConfigurationSubstitution/NamingData.cs:22 | assigning the public field a case-sensitive dictionary gives a store whose pairs are exactly the assigned ones |
| Naming.NamingData.AssureComparer | src/ConfigurationSubstitution/ConfigurationSubstitution/NamingData.cs:27-37 | the entry-by-entry copy loop leaves the rebuilt dictionary `Normalize(old)`; an ignore-case store is left as it is |
| Naming.NamingData.ContainsKey | src/ConfigurationSubstitution/ConfigurationSubstitution/NamingData.cs:39-43 | answers `Contains` on the old store, and leaves the store rebuilt |
| Naming.NamingData.Get | src/ConfigurationSubstitution/ConfigurationSubstitution/NamingData.cs:45-49 | returns `Lookup` on the old store: the value, or KeyNotFound |
| Naming.NamingData.TryGet | src/ConfigurationSubstitution/ConfigurationSubstitution/NamingData.cs:51-61 | returns whether the name is present; the ref value is left untouched when the name is absent or the value was null, and is otherwise replaced by the stored value |
| Naming.NamingData.Add | src/ConfigurationSubstitution/ConfigurationSubstitution/NamingData.cs:199-221 | the new store and the result are exactly `AddSpec` of the old store: refused pairs change nothing, a new name is added, and a present name is overwritten only when overwrite is set |
| Naming.NamingData.InsertEntry | src/ConfigurationSubstitution/ConfigurationSubstitution/NamingData.cs:95 | Insert(key, value) is the overwriting Add |
| Naming.NamingData.TryAddEntry | src/ConfigurationSubstitution/ConfigurationSubstitution/NamingData.cs:154 | TryAdd(key, value) is the non-overwriting Add, and returns true exactly when the pair is accepted and the name absent |
| Naming.NamingData.Insert | src/ConfigurationSubstitution/ConfigurationSubstitution/NamingData.cs:64-93 | the loop leaves `BatchSpec` of the source with overwriting; a null source changes nothing |
| Naming.NamingData.TryAdd | src/ConfigurationSubstitution/ConfigurationSubstitution/NamingData.cs:111-152 | the loop leaves `BatchSpec` of the source without overwriting, with the non-short-circuit conjunction as result; the result is true exactly when every pair was new; a null source gives true and changes nothing |
| Naming.NamingData.TryAddFrom | src/ConfigurationSubstitution/ConfigurationSubstitution/NamingData.cs:100-109 | merging another store keeps every present entry and adds each absent one; the result is true exactly when no name of the other store was present; a null or empty store gives true and changes nothing |
| Naming.NamingData.MergeEntries | src/ConfigurationSubstitution/ConfigurationSubstitution/NamingData.cs:104-106 | the merge loop over the other store's entries, in any order, leaves those entries beneath the existing ones, and its result is true exactly when the two sets of names are disjoint |

## Left out

- `ToString` renders JSON through Newtonsoft's serializer and a `StringWriter`. That is a foreign library and I/O.
- The `JObject` constructor: how a JSON token flattens depends on Newtonsoft's enumeration behaviour, which is not part of this model.
- The property bag's member enumeration and its `PSMemberTypes` filter belong to the PowerShell runtime. A property bag is a sequence of already-filtered (name, value) pairs.
- Hashtable and dictionary enumeration order, and `Key.ToString()`: every source is a given sequence of (string, raw value) pairs.
- Naming.NamingData.Insert and Naming.NamingData.TryAdd each stand for the four overloads over a hashtable, a property bag and the two dictionary types. `None` stands for a null source. The `Count` tests of every overload except the two property-bag ones are covered, because an empty sequence does nothing.
- Naming.NamingData.Copy and Naming.NamingData.TryAddFrom enumerate the other store in an order the model leaves unspecified. The proved results do not depend on it.
- Breakup.BreakupValue works on finite, acyclic values only. The model therefore does not capture that the source never finishes on an array that contains itself or on an endless enumerable: it recurses until the stack overflows, or loops forever. The model also flattens `Arr` without error, whereas `Array.GetValue(int)` at line 175 throws `ArgumentException` on a non-empty multi-dimensional array.
- Runtime type tests (`IsArray`, `IEnumerable`) and `ToString()` of arbitrary objects become the cases of `Raw`. A scalar carries the text its `ToString()` would give.
- Full Unicode `OrdinalIgnoreCase` folding: only ASCII letters are folded.
- Naming.NamingData.AsMap returns the pairs as a value. The real conversion hands out the store's own dictionary, so writes through it would alias the store.
- Null names are not modelled, because names are strings. In the source, `ContainsKey`, `Get` and `TryGet` throw `ArgumentNullException` on a null key (lines 42, 48, 53). `Add`, and with it `Insert(key, value)` and `TryAdd(key, value)`, refuse a null key through `String.IsNullOrEmpty` and return false (lines 204-205). Only the empty-name half of that guard is modelled.
- Null values inside `BaseValues`, and a null `BaseValues` field (the copy constructor's test at line 255): only a deserializer or an outside assignment could produce them, and the model's store always holds a dictionary of strings.
- Naming.NamingData.AssignBaseValues requires a dictionary with no empty name and no two names equal ignoring case. The public field accepts either, and the store invariant excludes both states, so the model does not capture what the class does with them. On its own store, `ContainsKey("")` would find an empty name. Passed to the copy constructor, a store with an empty name loses that pair, because Add refuses it. A case-duplicate store passed there keeps the first spelling enumerated with the last value enumerated. Passed to TryAdd(NamingData), the empty-name pair makes the result false even when the names are disjoint, and a case-duplicate pair keeps the first pair enumerated and makes the result false.
- Naming.NamingData.AssureComparer requires the store to be well formed. A case-sensitive dictionary holding two names equal ignoring case (possible only through outside assignment of the public field) would make the source's rebuild throw `ArgumentException`. The model excludes that state instead of modelling the exception.
- Breakup.BreakupValue takes and returns the string instead of a `ref` parameter. Its call to `AssureComparer` is made once by `Add` before flattening, which has the same effect because the rebuild is idempotent.
