# ecstore in Dafny

A model of `ecstore`, an in-memory store for "entities": pointers to
structs that expose an `Id()` string. The store keeps two indices over the
same entities: `store` maps a type key (the struct's type name) to a
bucket, an ordered slice of entities; `idCache` maps an id to the entity
last added with it. `Add` appends to buckets and overwrites id entries.
`Remove` finds an entity in its bucket by pointer identity, swaps the last
element into its slot, truncates, deletes the id entry and drops an
emptied bucket. `GetAll`, `GetFirst`, `GetById`, `CountType` and
`CountTotal` read the indices; `Clear` resets them. The type key comes from
`getTypeKey`, which accepts only non-nil pointers to structs.

Files and modules:

- `entities.dfy` (`Entities`): entities as Dafny objects, so that pointer
  identity is object identity (`const id`, `const structType` with package
  path and name). Reflection is replaced by the datatype `Value`, which says
  what an interface value is: nil, a typed nil pointer, a non-pointer, a
  pointer to a non-struct, or a pointer to a struct entity. There are also
  the two error values and a Go `error` result (`Outcome`).
- `type_key.dfy` (`TypeKey`): `getTypeKey` as the total function
  `GetTypeKey`, with lemmas about which values get equal keys.
- `store_spec.dfy` (`StoreSpec`): the two maps as a value `State`. What one
  iteration of Add's loop does (`Append`) and what one iteration of
  Remove's loop does (`Detach`, built on `IndexOf` and `SwapRemove`). The
  whole calls as folds over the arguments (`AddEach`/`AfterAdd`,
  `RemoveEach`/`AfterRemove`), including stopping at the first invalid
  value.
- `store_invariants.dfy` (`StoreInvariants`): the invariants. No empty
  bucket; type isolation (`Keyed`); and the bijection between the two
  indices, including "the id index is as large as all buckets together".
  Lemmas prove that each operation keeps them.
- `store_properties.dfy` (`StoreProperties`): what Add and Remove promise,
  stated against independent descriptions: per-type order of appended
  entities, last id wins, partial application, removal by identity, and the
  add/remove round trip. Also the store's sharp edges, stated as lemmas.
- `ec_store.dfy` (`EcStore`): the class `Store` with the two map fields.
  `Add` and `Remove` are loops that update the fields in place, mirroring
  the Go code branch by branch. Their postconditions equate the new state
  with `AfterAdd`/`AfterRemove` of the old state. The read-only methods
  state their results against the fields.
- `store_scenarios.dfy` (`StoreScenarios`): a client that replays the
  remove-and-count scenario and proves its counts from the class contracts
  alone.

`GetAll` returns the live bucket slice, which later updates can change in
place (see Left out). The bijection between the two indices holds only
while ids are unique. The model proves it preserved under that condition,
and shows a duplicate id breaking it.

## Model

| member | source | states |
|---|---|---|
| `TypeKey.GetTypeKey` | util.go:5-19 | succeeds exactly on a non-nil pointer to a struct, with that struct type's name; nil, nil pointers, non-pointers and pointers to non-structs all give the invalid-pointer error |
| `TypeKey.SameTypeSameKey` | util.go:18 | two entities of one struct type get the same key, whatever their ids |
| `TypeKey.DistinctNamesDistinctKeys` | util.go:18 | struct types with different names get different keys |
| `TypeKey.SameNameOtherPackageCollides` | util.go:18 | the key is the short name only, so distinct struct types of one name in different packages share a key |
| `StoreSpec.IndexOf` | ecstore.go:99-100 | the first slot holding the very entity (pointer identity); none exactly when the entity is not in the bucket |
| `TypeKey.KeyOf` | util.go:18 | no contract of its own: the key of a struct pointer, its type's short name. `GetTypeKey` returns it on success, and `SameTypeSameKey`, `DistinctNamesDistinctKeys` and `SameNameOtherPackageCollides` say what it identifies |
| `StoreSpec.Append` | ecstore.go:63-68 | no contract of its own: one Add step, the entity appended to its bucket (created when absent) and its id mapped to it. Described by `AppendKeepsBuckets`, `AppendKeepsBijective` and `AppendThenDetach` |
| `StoreSpec.AddEach` | ecstore.go:51-71 | no contract of its own: the Add loop, one `Append` per value, stopping with the invalid-pointer error at the first invalid value. Described by `AddEachSnoc`, `AddAppendsInOrder`, `AddLastIdWins`, `AddStopsAtFirstInvalid` and `AddEachKeeps` |
| `StoreSpec.AfterAdd` | ecstore.go:44-72 | no contract of its own: the whole Add, with the no-entities error for an empty call. Described by `EmptyCallsChangeNothing`, `AddThenRemoveRestores` and the `Add` method's postcondition |
| `StoreSpec.SwapRemove` | ecstore.go:101-102 | no contract of its own: the last element moved into the slot and the slice cut by one. Described by `SwapRemoveShape` and `SwapRemoveAppended` |
| `StoreSpec.Detach` | ecstore.go:94-110 | no contract of its own: one Remove step, a no-op when the bucket is absent or lacks the entity; otherwise swap removal, deletion of the entity's id entry, and deletion of an emptied bucket. Described by `RemovePresent`, `RemoveAbsentIsNoOp`, `DetachKeepsBuckets` and `DetachKeepsBijective` |
| `StoreSpec.RemoveEach` | ecstore.go:81-113 | no contract of its own: the Remove loop, one `Detach` per value, stopping with the invalid-pointer error at the first invalid value. Described by `RemoveStopsAtFirstInvalid` and `RemoveEachKeeps` |
| `StoreSpec.AfterRemove` | ecstore.go:74-114 | no contract of its own: the whole Remove, with the no-entities error for an empty call. Described by `EmptyCallsChangeNothing`, `AddThenRemoveRestores` and the `Remove` method's postcondition |
| `StoreSpec.SwapRemoveShape` | ecstore.go:101-102 | swap-and-truncate makes the bucket one shorter and moves the last element into the freed slot. Every other slot keeps its element. The elements are the old ones minus one copy of the removed entity |
| `StoreInvariants.AppendKeepsBuckets` | ecstore.go:63-67 | one Add step keeps "no empty bucket" and type isolation |
| `StoreInvariants.AppendKeepsBijective` | ecstore.go:63-68 | one Add step with a fresh id keeps the bijection between the indices and the count equality |
| `StoreInvariants.DetachKeepsBuckets` | ecstore.go:99-110 | one Remove step keeps "no empty bucket" (an emptied bucket is dropped) and type isolation |
| `StoreInvariants.DetachKeepsBijective` | ecstore.go:99-110 | one Remove step keeps the bijection and the count equality |
| `StoreInvariants.AddEachKeeps` | ecstore.go:51-69 | a whole Add, even one that fails part-way, keeps no-empty-bucket and type isolation. With fresh, pairwise distinct ids it also keeps the bijection |
| `StoreInvariants.RemoveEachKeeps` | ecstore.go:81-112 | a whole Remove, even one that fails part-way, keeps all invariants |
| `StoreProperties.AddEachSnoc` | ecstore.go:51-69 | Add over valid values succeeds, and one more value is one more append after the others |
| `StoreProperties.AddAppendsInOrder` | ecstore.go:63-67 | after a successful Add, each bucket is the old bucket followed by that type's entities in argument order. A key is present afterwards exactly when it was before or received an entity |
| `StoreProperties.AddLastIdWins` | ecstore.go:68 | after a successful Add an id maps to the last entity of the call carrying it; ids the call does not carry keep their entry or absence |
| `StoreProperties.AddStopsAtFirstInvalid` | ecstore.go:51-62 | Add returns the invalid-pointer error at the first invalid value. The values before it are applied, the values after it are not |
| `StoreProperties.RemoveStopsAtFirstInvalid` | ecstore.go:81-93 | Remove returns the invalid-pointer error at the first invalid value. The values before it are applied, the values after it are not |
| `StoreProperties.EmptyCallsChangeNothing` | ecstore.go:45-47 | Add and Remove (ecstore.go:75-77) with no arguments return the no-entities error and leave both maps unchanged |
| `StoreProperties.RemovePresent` | ecstore.go:99-110 | removing a bucketed entity shortens its bucket by one and moves the last element into its slot. The entity's id entry is deleted, and the key is dropped when the bucket was a singleton. Nothing else changes |
| `StoreProperties.RemoveAbsentIsNoOp` | ecstore.go:94-111 | valid entities that are not in their bucket, whether the bucket is absent or holds only other objects (even ones with the same id), change nothing and raise no error |
| `StoreProperties.SwapRemoveAppended` | ecstore.go:99-102 | removing an entity from a bucket it was just appended to gives back the bucket, whether the appended copy is the first one or an earlier copy is found first |
| `StoreProperties.AppendThenDetach` | ecstore.go:63-108 | one Remove step undoes one Add step of an entity with an unused id, unless its type had an empty bucket stored |
| `StoreProperties.AddThenRemoveRestores` | ecstore.go:63-108 | in a store with no empty bucket, Add of an entity with an unused id and then Remove of it restores both maps exactly, even when the entity was already bucketed under a deleted id. So the counts are back and the id resolves to nothing |
| `StoreProperties.DuplicateIdLeavesStaleReference` | ecstore.go:67-68 | two entities with one id: the id index points at the second while both are bucketed, so the bijection fails. Removing the second leaves the first bucketed with no id entry |
| `StoreProperties.RemovingStaleEntityDropsLiveId` | ecstore.go:100-104 | removing the stale first entity of a duplicate pair deletes the id entry that pointed at the live second one |
| `StoreProperties.SwapRemovalReordersFirst` | ecstore.go:101-102 | after adding a, b, c and removing a, the bucket is [c, b], so GetFirst yields c and not b |
| `EcStore.Store.constructor` | ecstore.go:35-42 | `New` yields two empty maps, which satisfy every invariant |
| `EcStore.Store.Add` | ecstore.go:44-72 | the new maps and the error are exactly `AfterAdd` of the old maps. The bucket invariants hold afterwards, and so does the bijection when the ids were fresh |
| `EcStore.Store.Remove` | ecstore.go:74-114 | the new maps and the error are exactly `AfterRemove` of the old maps; all invariants are kept |
| `EcStore.Store.GetAll` | ecstore.go:116-130 | an invalid sample gives the error and nothing. Otherwise: no error, and the sample type's bucket, empty when absent. Every returned entity is of the sample's type |
| `EcStore.Store.GetFirst` | ecstore.go:132-141 | slot 0 of the sample type's bucket, or null when the bucket is absent or the sample invalid (then with the error) |
| `EcStore.Store.GetById` | ecstore.go:143-148 | the id's entry or null. Under the bijection the result carries that id and sits in its type's bucket |
| `EcStore.Store.Clear` | ecstore.go:150-157 | always succeeds and leaves both maps empty (so a second Clear changes nothing) |
| `EcStore.Store.CountType` | ecstore.go:159-165 | the length of the sample type's bucket, 0 for an invalid sample or an absent bucket. With no empty buckets it is 0 exactly in those two cases |
| `EcStore.Store.CountTotal` | ecstore.go:167-169 | the size of the id index, which under the bijection is the number of entities across all buckets |
| `StoreScenarios.AddThree` | test/ecstore_test.go:16-23 | three entities of one type with distinct ids fill one bucket in order and index all three ids |
| `StoreScenarios.RemoveTwo` | test/ecstore_test.go:37-44 | removing the first and third of three leaves only the second, in its bucket and its id entry |
| `StoreScenarios.RemoveAndCount` | test/ecstore_test.go:26-44 | through the class contracts: total 3 after adding, then total 1 and type count 1; the removed id resolves to null and the kept one to its entity |

## Left out

- The `sync.RWMutex` and its lock/unlock pairs: concurrency is not modelled, and each method is one atomic step. So is the unlocked read of `idCache` in `CountTotal`.
- Reflection: `reflect.ValueOf`/`TypeOf` are replaced by the `Value` datatype. The separate nil checks in `Add` and `Remove` (ecstore.go:52-58, ecstore.go:82-88) are kept as branches but coincide with `GetTypeKey`'s own rejections.
- Slice aliasing: Go's `GetAll` returns the bucket's backing array (ecstore.go:129). A later `Remove` can swap elements inside it (ecstore.go:101), and a later `Add` after a `Remove` truncated the bucket can write into the spare capacity that the returned slice still covers (ecstore.go:67). Here buckets are sequence values, so a returned list never changes afterwards.
- Changing an entity's id after insertion (test/ecstore_test.go:60-61): ids are constant fields here. The stale id key this would leave in `idCache` is not modelled.
- The distinction between a nil slice and an empty slice: `GetAll` on an absent bucket returns `[]`, which stands for Go's nil.
- errlib.go only repeats the two error values. It is not part of this model.
- The timing benchmarks (test/ecstore_perf_test.go) are not part of this model.
