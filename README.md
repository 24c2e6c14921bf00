# ECS storage engine in Dafny

This is a model of the entity/component storage engine of the ECS repository, with proofs about it. It covers two headers:

- `ECS/ECS.h`: the `EntityManager` class.
- `ECS/Component.h`: the component-identity counter.

**Entities.** An entity is an index. `CreateEntity` hands out indices in one of two ways:
- it reuses the most recently freed index from a LIFO stack (`_freeEntityIndices`);
- or it takes the allocation frontier (`_firstUsableEntityIndex`) and grows every container by one slot.

`DestroyEntity` pushes the index back on the stack.

**Components and signatures.** Each declared component type has:
- a process-wide id from `GetComponentID<T>`;
- one dense container in a 32-entry table (`_containers`).

Each allocated index has a signature: a 32-bit set (`_componentsByEntityIndex`) recording which components were set on it. `GetEntities` scans the signatures for supersets of a filter.

**Files.**
- `component.dfy`, module `Component`:
  - the identity registry as a class, `ComponentIds`, with a counter and a type-to-id map;
  - its behaviour as values, `Registry`, `Query` and `QueryAll`, about which the guarantees are proved.
- `ecs.dfy`, module `ECS`:
  - the manager's state as a value, `Store`;
  - every operation except `GetEntities` as a function on `Store`, with lemmas about them;
  - the class `EntityManager`. It holds the same fields, and each of its methods is proved to change them exactly as the corresponding `Store` function does.
  - The const members `EntityCount`, `HasComponent` and `GetComponent` are read through `EntityManager.Snapshot()`.
  - `GetEntities` exists only as a method of the class. It is a loop, specified directly by which indices it reports and in what order.
- `filter_test.dfy`, module `FilterTest`: the filtering unit test (`GetEntitiesForComponents`) as a method. It builds the store, runs the creation loop of 1000 entities, and calls `GetEntities`.
- `nat_range.dfy`, module `NatRange`: counting facts about sets of indices.

**Representation.**
- A signature is the set of its set bits, ids below `MAX_COMPONENT_COUNT` = 32. The filter test `(sig & filter) == filter` is `sig * filter == filter`.
- A container is its kind plus a sequence of tagged `Value`s. `None` in the table stands for `nullptr`.

**Two behaviours of the code that callers might not expect:**
- **Creation does not clear the signature.** `CreateEntity` only sets the EntityState bit, through `SetComponent<EntityState>` (`ECS/ECS.h:129`, `134`).
  - A new index starts from an all-zero signature.
  - A reused index keeps whatever its destruction left.
- **A destroyed index keeps the EntityState bit.** `DestroyEntity` resets the signature and then calls `SetComponent<EntityState>(…, Destroyed)`, which sets that bit again (`ECS/ECS.h:166-167`).
  - So every allocated index, live or freed, has the EntityState bit.
  - So a filter that contains the EntityState bit also matches freed indices.
- **A reused index carries no bit of its previous occupant only under a condition.** Every freed index must still have exactly the EntityState bit. The predicate `Store.FreedClean` states this condition.
  - `DestroyEntity`, `CreateEntity` and `SetComponent` on a live index preserve it.
  - `SetComponent` on a freed index may break it, and the code does not prevent that.

## Model

| member | source | states |
|---|---|---|
| Component.Query | ECS/Component.h:21-26 | A known type gets its cached id and nothing changes. An unknown type gets the counter value and the counter goes up by one. Either way the type is then known with that id, and no other type's id changes. |
| Component.QueryAll | ECS/ECS.h:97 | The pack of `GetComponentID<T>()` calls, in order. Every queried type becomes known, no type known before changes its id, and the counter never goes down. |
| Component.QueryIdempotent | ECS/Component.h:21-26 | Asking twice for the same type gives the same id and the same registry as asking once. |
| Component.IdsInUse | ECS/Component.h:14-25 | In a well-formed registry, the ids in use are exactly 0 .. counter-1. |
| Component.QueryPreservesWellFormed | ECS/Component.h:14-26 | A query keeps the registry well formed: ids are distinct, all below the counter, and there is one per known type. |
| Component.DistinctTypesDistinctIds | ECS/Component.h:16-24 | Two distinct types, queried one after the other, receive distinct ids. |
| Component.QueryAllWellFormed | ECS/Component.h:14-26 | Any sequence of queries keeps the registry well formed. |
| Component.QueryAllStable | ECS/Component.h:21-26 | After a sequence of queries, the known types are the old ones plus the queried ones, and no old id has changed. |
| Component.QueryAllFromStart | ECS/Component.h:14-26 | From a fresh counter, after querying some types: the counter equals the number of distinct types, the ids in use are exactly 0 .. counter-1, and distinct types have distinct ids. |
| Component.QueryAllPrefix | ECS/Component.h:21-26 | Querying the first i+1 types is querying the first i, then the next one. |
| Component.QueryAllCounter | ECS/Component.h:14-18 | Each query draws at most one counter value. |
| Component.QueryAllIdsBelow | ECS/Component.h:14-26 | After the queries, every queried type has an id below the old counter plus the number of queries. So a registry with room for as many ids as declared types always meets the constructor's precondition. |
| Component.ComponentIds.constructor | ECS/Component.h:16 | The counter starts at 0 with no type known, and the registry is well formed. |
| Component.ComponentIds.NextId | ECS/Component.h:14-18 | Returns the counter's value before the increment, then increments it. |
| Component.ComponentIds.IdOf | ECS/Component.h:21-26 | Updates the registry and returns the id exactly as `Query` does, and keeps the registry well formed. |
| ECS.Matches | ECS/ECS.h:64 | `(sig & filter) == filter` holds exactly when the filter is a subset of the signature. |
| ECS.Default | ECS/ECS.h:145 | The appended default value has the container's type. For EntityState it is `Unknown`. |
| ECS.Container.AddNew | ECS/ECS.h:145 | One more slot holding the default value, with earlier slots unchanged and well-typedness kept. |
| ECS.Container.Set | ECS/ECS.h:91 | Only slot `index` changes. A value of the container's type keeps the container well typed. |
| ECS.Store.EntityCount | ECS/ECS.h:32 | In a consistent store, the frontier minus the free-stack size is the number of live indices. |
| ECS.Store.HasComponent | ECS/ECS.h:79-83 | Reads the type's bit of e's signature. A type the store was not built with is never reported present. Partners: `Store.SetComponent` makes the bit true, and `DestroyEntityState` makes it false for every type but EntityState. |
| ECS.Store.AddEntitySlot | ECS/ECS.h:139-150 | Every non-null container gets one more slot holding the default, null entries stay null, and one empty signature is appended. The frontier and the free stack do not change. |
| ECS.Store.PopFree | ECS/ECS.h:152-162 | Returns the top of the free stack and removes it. Pushing it back restores the stack. Nothing else changes, and validity is kept. |
| ECS.Store.GetComponent | ECS/ECS.h:71-77 | In a consistent store the value read from T's container always has type T, so the cast is safe. |
| ECS.Store.SetComponent | ECS/ECS.h:85-92 | Sets bit id(T) of e's signature and stores v in e's slot, so `HasComponent` is true and `GetComponent` returns v. No other signature, slot or field changes, and consistency and validity are kept. |
| ECS.Store.CreateEntity | ECS/ECS.h:123-137 | Keeps the store valid. The returned index is allocated. |
| ECS.Store.DestroyEntity | ECS/ECS.h:164-169 | Keeps the store valid and the frontier unchanged. |
| ECS.Store.SetEach | ECS/ECS.h:110 | Applying SetComponent for each value in order keeps the store consistent, and valid if it was. |
| ECS.Store.CreateEntityWithComponents | ECS/ECS.h:106-113 | Keeps the store valid. |
| ECS.GrownConsistent | ECS/ECS.h:139-150 | Growing by one index gives one default slot per container and one empty signature, with parallel lengths equal to the new frontier and nothing allocated changed. |
| ECS.EntityCountIsLive | ECS/ECS.h:32 | In a consistent store, the frontier minus the free-stack size is the number of allocated, not freed indices. |
| ECS.CreateEntityLive | ECS/ECS.h:123-137 | The returned index was not live and now is, and `EntityCount` rises by one. |
| ECS.CreateEntityState | ECS/ECS.h:123-162 | The new entity has the EntityState bit and the value Active. On reuse: it is the top of the stack (LIFO), is popped, the frontier is unchanged, and its other bits and values are kept. On growth: it is the old frontier, the frontier rises by one, its signature is the EntityState bit alone, and its other values are defaults. |
| ECS.CreateEntityFrame | ECS/ECS.h:123-137 | No other allocated index changes its signature or any slot. |
| ECS.DestroyEntityLive | ECS/ECS.h:164-169 | A live index becomes free, and `EntityCount` drops by one. |
| ECS.DestroyEntityState | ECS/ECS.h:164-169 | The index is pushed on the stack, and its state is Destroyed. Its signature is the EntityState bit alone, so `HasComponent` is false for every other type. Its other slots keep their stale values, and no other index changes. |
| ECS.DestroyThenCreate | ECS/ECS.h:123-169 | Creating right after destroying e returns e, Active and with no component but EntityState, and the live set is as before. |
| ECS.DestroyEntityFreedClean | ECS/ECS.h:164-169 | After DestroyEntity, every freed index, the new one included, holds exactly the EntityState bit. |
| ECS.CreateEntityFreedClean | ECS/ECS.h:123-137 | While freed indices are clean, the created index (reused or new) has exactly the EntityState bit, and the remaining freed indices stay clean. |
| ECS.SetComponentLiveFreedClean | ECS/ECS.h:85-92 | SetComponent on a live index keeps every freed index clean. |
| ECS.SetEachPrefix | ECS/ECS.h:110 | Setting the first i+1 values is setting the first i, then the next. |
| ECS.SetEachSignature | ECS/ECS.h:110 | The pack of SetComponent calls adds exactly the ids of the values' types to e's signature, and no other signature changes. |
| ECS.SetEachValues | ECS/ECS.h:110 | Each slot of e holds the last value of its type, or its old value when no value has that type. Other indices are unchanged. |
| ECS.CreateEntityWithComponentsLive | ECS/ECS.h:106-113 | Returns the index CreateEntity hands out. That index was not live and now is, and `EntityCount` rises by one. |
| ECS.CreateEntityWithComponentsSignature | ECS/ECS.h:106-113 | The signature is the one CreateEntity left plus the ids of the values' types, and `HasComponent` holds for each given value's type. |
| ECS.CreateEntityWithComponentsValues | ECS/ECS.h:106-113 | `GetComponent` returns the last given value of each type, and otherwise what CreateEntity left. Other allocated indices are unchanged. |
| ECS.CreateEntityWithComponentsExact | ECS/ECS.h:106-113 | While freed indices are clean, the new signature is exactly {EntityState} plus the ids of the given types. A reused index carries no bit of its previous occupant. |
| ECS.EvenIndicesMatch | ECSTest/UnitTests_01.cpp:139-157 | When exactly the even indices below 2n match the filter, a strictly ascending, exact answer of GetEntities has n elements. |
| ECS.TestPack | ECSTest/UnitTests_01.cpp:119-129 | The pack of step i: an int, plus a TestComponent exactly when i is even. |
| ECS.TestPackIds | ECSTest/UnitTests_01.cpp:119-129 | The ids the pack of step i sets are int's id, plus TestComponent's id when i is even. |
| ECS.TestSignature | ECSTest/UnitTests_01.cpp:119-129 | The expected signature of index i. It holds EntityState and int, and it holds TestComponent exactly when i is even, provided the ids are distinct. |
| ECS.CreateEntityGrows | ECS/ECS.h:133-136 | With an empty free stack, CreateEntity takes the frontier and appends the signature {EntityState}. |
| ECS.CreateEntityWithComponentsGrows | ECS/ECS.h:106-113 | With an empty free stack, the new index is the frontier. Its signature is EntityState plus the values' types. |
| ECS.PopulateTestStep | ECSTest/UnitTests_01.cpp:119-129 | One step of the test's creation loop from a store with no freed index appends index i with the expected signature. |
| ECS.FilterTestCount | ECSTest/UnitTests_01.cpp:139-157 | If the first 2n indices have the expected signatures, the answer for the filter {int, TestComponent} is the n even indices. |
| FilterTest.GetEntitiesForComponents | ECSTest/UnitTests_01.cpp:110-157 | Builds a store for EntityState, int and TestComponent and creates 1000 entities. `EntityCount` is then 1000, and GetEntities returns exactly the 500 even indices, in ascending order. |
| FilterTest.CreateTestEntities | ECSTest/UnitTests_01.cpp:119-129 | After the loop, indices 0..999 are live with the expected signatures, and no index is freed. |
| FilterTest.CreateTestEntity | ECSTest/UnitTests_01.cpp:121-128 | One step of the loop, in place: index i is appended with the expected signature. |
| ECS.EntityManager.constructor | ECS/ECS.h:21-25 | Registers every declared type in order, and the registry is then `QueryAll` of them. Each declared type gets an empty container at its id, and every other entry of the table is null. The store starts valid, empty and with no free index. |
| ECS.EntityManager.RegisterAll | ECS/ECS.h:94-102 | The pack of `GetComponentID<T>()` calls leaves the registry equal to `QueryAll` of the declared types, still well formed. |
| ECS.EntityManager.EmptyContainers | ECS/ECS.h:94-104 | The table has 32 entries. Each declared type's id holds an empty container of that type, every other entry stays null (`fill(nullptr)`), and every non-null entry is empty. |
| ECS.EntityManager.SetComponent | ECS/ECS.h:85-92 | The new state is `Store.SetComponent` of the old one. |
| ECS.EntityManager.CreateContainersForNewEntity | ECS/ECS.h:139-150 | The loop calls AddNew on every non-null container and pushes an all-zero signature (`Store.AddEntitySlot`). |
| ECS.EntityManager.TryReuseEntityIndex | ECS/ECS.h:152-162 | Succeeds exactly when the stack is non-empty, and then returns and pops its top. Otherwise nothing changes. |
| ECS.EntityManager.CreateEntity | ECS/ECS.h:123-137 | The new state and the returned index are `Store.CreateEntity` of the old state, and the store stays valid. |
| ECS.EntityManager.DestroyEntity | ECS/ECS.h:164-169 | The new state is `Store.DestroyEntity` of the old state, and the store stays valid. |
| ECS.EntityManager.CreateEntityWithComponents | ECS/ECS.h:106-113 | The new state and the index are `Store.CreateEntityWithComponents` of the old state. |
| ECS.EntityManager.GetEntities | ECS/ECS.h:59-69 | Keeps the prior contents of `entities`. Appends, in strictly ascending order, exactly the allocated indices whose signature includes the filter. |

## Left out

- Ownership of containers is not modelled. This covers `new` and `delete`, the destructor and `CleanupContainers` (`ECS/ECS.h:27-30`, `115-121`). The table is a value that the manager owns.
- The `ComponentContainer<T>` class is not part of this model. Each container is a kind plus a sequence of tagged values. Its `AddNew` appends the type's default value and its `Set` overwrites one slot. The `reinterpret_cast` downcasts become lookups by id, and the model proves them type-correct (`Store.GetComponent`).
- Component payloads are opaque: a type name plus a sequence of integers. Floating-point components and values are not interpreted.
- The identity registry is process-wide in the original, shared by every manager and test. Here it is an object passed to the constructor.
- The function-local `static` caching of ids inside `GetComponent`, `HasComponent` and `SetComponent` is represented by the manager's `ids` map. That map is taken from the registry when the manager is built, and the registry never changes a known id.
- The variadic packs of the constructor and of `CreateEntityWithComponents` become sequences, processed in order.
- The constructor's effect is the same as the original's interleaving of one registration and one allocation per declared type. It registers all declared types first, then allocates their containers.
- ECS.EntityManager.constructor: requires EntityState among the declared types and every declared id below 32. Otherwise the original indexes a null or out-of-range container, which is undefined behaviour.
- ECS.Store.SetComponent: requires an allocated index and a declared type. The original calls `GetComponentID<T>()` for any T, and an undeclared T reaches a null or out-of-range container. `GetComponent` has the same precondition.
- ECS.Store.HasComponent: for a type the store was not built with, it returns false, as the original does. The original also draws a fresh id from the process-wide counter on the first such call. That side effect on the registry is not modelled. Neither is the undefined bit read when that id is 32 or more.
- ECS.Store.DestroyEntity: requires a live index. The original does not check, and destroying an index twice would push it twice on the stack.
- ECS.EntityManager.CreateEntity: on growth, the frontier is advanced before `SetComponent<EntityState>`, whereas the original advances it after. Nothing reads the frontier in between.
- `EntityCount` returns the difference as an unbounded integer. The conversion of `size_t` to `int` and any wrap-around of indices are not modelled.
- `GetEntities` appends to a sequence passed in and returns the extended sequence. It does not update a vector by reference.
- The unit tests' timing and logging are not modelled.
- Of the unit tests, only the filtering test is modelled as a run, by `FilterTest.GetEntitiesForComponents`. In it, the ids passed to the filter are read from the store rather than by calling `GetComponentID<T>()` again, which returns the same cached ids. The other tests' expectations are stated by lemmas:
  - the counts before and after creation and destruction, by `CreateEntityLive` and `DestroyEntityLive`;
  - reuse of index 0, by `DestroyThenCreate`;
  - the absence of the previous occupant's components, by `CreateEntityWithComponentsExact`.
