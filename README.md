# Bounded LRU cache service in front of a durable store

This project models `CacheService`, a thread-safe least-recently-used cache.
It keeps entities (`id`, `data`) in an access-ordered map of at most `maxSize` entries.
It sits in front of a durable store reached through the four-call `PersistencePort`: `save`, `delete`, `deleteAll` and `findById`.
The model proves the following:

- the cache never holds more than `maxSize` entries;
- ids are unique, and the recency order is a permutation of the cached ids;
- an add evicts exactly one entry, and only when a new id meets a full cache;
- the entry evicted is the least recently used one, and, with the store up, it is written to the store;
- a get hit refreshes recency and never consults the store;
- a get miss reads through the store and re-admits the result by the same rule as add;
- with the store up, remove deletes through both tiers, falling back from the cache to the store;
- with the store up, `NotFound` is raised exactly when an id is in neither tier;
- with the store up, `removeAll` empties both tiers; `clear` empties the cache only.

Layout:

- `wrappers.dfy`: `Option`, `Result` and `Outcome`. They stand for Java's `null`, `Optional` and thrown exceptions.
- `domain.dfy` (module `Domain`): the `Entity` record, with a nullable id. It also holds a model of `String.trim` and the null/blank id check that `add`, `get` and `remove` make first.
- `persistence.dfy` (module `Persistence`): `Store`, an in-memory stand-in for the persistence port. Its field `available` says whether the store is up; while it is down every call throws `StoreUnavailable` and changes nothing.
- `lru.dfy` (module `LruModel`): the access-ordered map as a value. `order` lists the ids from least to most recently used, and `vals` is the lookup table. The module holds its invariant `Inv`, the map primitives (`Put`, `Touch`, `Delete`) and `Admit`, the in-memory half of add.
- `service_spec.dfy` (module `ServiceSpec`): each public operation as a function from both tiers before the call to both tiers after it, plus the call's answer.
- `cache_service.dfy` (module `Service`): the class `CacheService`. Its fields are `order`, `vals`, `maxSize` and `database`. Its methods change those fields in place. The `ensures` of `Add`, `Get`, `Remove`, `RemoveAll` and `Clear` equate the new state and the answer with the matching function of `ServiceSpec` applied to the old state. `PutInMemory`, the in-memory half of `Add`, is tied to `LruModel.Admit`, and `CacheSize` states its answer directly.
- `properties.dfy` (module `ServiceProperties`): the promised behaviour, proved as lemmas about those functions.
- `scenarios.dfy` (module `Scenarios`): concrete scenarios. Most follow the service's unit tests, with capacity 3, except the store-failure scenario, which uses capacity 1 as its test does. `RecencyDecidesEviction` is not a unit test; it shows that recency, not insertion order, picks the entry evicted. One scenario is stated against the class itself.

Two behaviours of the code are worth stating on their own:

- Removing a store-only id succeeds once. A second removal finds the id in neither tier and throws not-found (CacheService.java:96-111, `RemoveStoreOnlyTwice`).
- The Javadoc above `remove` says an id missing from the cache gives 404. The code first falls back to the store, and the model does the same.

## Model

| member | source | states |
|---|---|---|
| Domain.TrimStart | src/main/java/com/project/cache/service/CacheService.java:41 | the leading half of `String.trim`: what it drops is all characters up to a space, and what it keeps is a suffix that starts with a character above a space |
| Domain.TrimEnd | src/main/java/com/project/cache/service/CacheService.java:41 | the trailing half of `String.trim`: what it drops is all characters up to a space, and what it keeps is a prefix that ends with a character above a space |
| Domain.TrimEmptyIffBlank | src/main/java/com/project/cache/service/CacheService.java:41 | `id.trim().isEmpty()` holds exactly when every character of the id is at most a space |
| Domain.Trim | src/main/java/com/project/cache/service/CacheService.java:41 | `String.trim`: the result is no longer than the input, and when it is not empty it neither starts nor ends with a character up to a space |
| Domain.ValidIdNotBlank | src/main/java/com/project/cache/service/CacheService.java:41 | the checks `ValidId` (made by add at line 41, remove at 65 and get at 124) and `ValidEntity` (add's, line 41) pass exactly when the id is not null and holds a character above a space, and, for an entity, when the entity is not null |
| Persistence.Store.Save | src/main/java/com/project/cache/persistence/PersistencePort.java:8 | save upserts the entity under its id, or throws and changes nothing when the store is down |
| Persistence.Store.Delete | src/main/java/com/project/cache/persistence/PersistencePort.java:9 | delete removes the row if there is one, and an absent row is not an error; it throws and changes nothing when the store is down |
| Persistence.Store.DeleteAll | src/main/java/com/project/cache/persistence/PersistencePort.java:10 | deleteAll leaves no rows, or throws and changes nothing when the store is down |
| Persistence.Store.FindById | src/main/java/com/project/cache/persistence/PersistencePort.java:11 | findById answers the stored row or absence, and absence is not an error; it fails only when the store is down |
| LruModel.WithoutFacts | src/main/java/com/project/cache/service/CacheService.java:73 | taking an id out of the recency order keeps exactly the other ids, keeps them duplicate-free, and shortens the order by one exactly when the id was there |
| LruModel.WithoutAbsent | src/main/java/com/project/cache/service/CacheService.java:46 | taking out an id the order does not hold leaves the order as it was |
| LruModel.WithoutAt | src/main/java/com/project/cache/service/CacheService.java:50 | taking out the id at position p closes the gap and leaves every other id where it was in the order |
| LruModel.Put | src/main/java/com/project/cache/service/CacheService.java:46 | `lru.put` in access order: the id maps to the new entity, becomes most recent, and the key set gains exactly that id |
| LruModel.Touch | src/main/java/com/project/cache/service/CacheService.java:129 | `lru.get` in access order: the id becomes most recent and the entries are unchanged |
| LruModel.Delete | src/main/java/com/project/cache/service/CacheService.java:73 | `lru.remove` (also used for the eviction at line 50): the id leaves the map and the key set loses exactly that id |
| LruModel.DistinctCard | src/main/java/com/project/cache/service/CacheService.java:30 | a duplicate-free recency order has as many distinct ids as positions |
| LruModel.SizeIsOrderLength | src/main/java/com/project/cache/service/CacheService.java:157 | the map's size equals the length of the recency order and is at most maxSize |
| LruModel.Admit | src/main/java/com/project/cache/service/CacheService.java:46-50 | the put-then-evict step keeps the invariant: size at most maxSize, unique ids, and the order a permutation of the keys; the added entity is cached under its id as most recent, and any evicted entry has left the cache |
| LruModel.AdmitEvictsLeastRecent | src/main/java/com/project/cache/service/CacheService.java:46-50 | an entry is evicted exactly when the id is new and the cache is full; the evicted entry is the front of the old order (the least recently used), and the rest of the order moves up |
| LruModel.EvictFront | src/main/java/com/project/cache/service/CacheService.java:48-50 | dropping the eldest id of an order one over capacity leaves a full cache that keeps the invariant, keeps the newest id last and no longer holds the eldest |
| LruModel.AdmitFullEvicts | src/main/java/com/project/cache/service/CacheService.java:48-50 | a new id in a full cache pushes out the front entry, and the order becomes the old tail followed by the new id |
| LruModel.AdmitRoomNoEviction | src/main/java/com/project/cache/service/CacheService.java:46-48 | re-adding a cached id, or adding to a cache with room, is a plain put with no eviction |
| LruModel.AdmitCachedRefreshes | src/main/java/com/project/cache/service/CacheService.java:46 | re-adding a cached id replaces its entity and moves it last; the other ids keep their order and the size does not change |
| LruModel.TouchMovesToNewest | src/main/java/com/project/cache/service/CacheService.java:129 | a hit moves the id last and leaves the other ids in their order and the entries as they were |
| LruModel.DeleteKeepsOrder | src/main/java/com/project/cache/service/CacheService.java:73 | removing a cached id keeps the invariant and the other ids in their order |
| ServiceSpec.AddSpec | src/main/java/com/project/cache/service/CacheService.java:40-57 | add on both tiers keeps the cache invariant whatever its outcome |
| ServiceSpec.GetSpec | src/main/java/com/project/cache/service/CacheService.java:123-145 | get on both tiers keeps the cache invariant on every path |
| ServiceSpec.RemoveSpec | src/main/java/com/project/cache/service/CacheService.java:64-111 | remove on both tiers keeps the cache invariant on every path |
| ServiceSpec.RemoveAllSpec | src/main/java/com/project/cache/service/CacheService.java:114-120 | removeAll empties the cache in every case; it succeeds exactly when the store is up, and then the store is empty; otherwise it reports StoreUnavailable with the rows unchanged |
| ServiceSpec.ClearSpec | src/main/java/com/project/cache/service/CacheService.java:148-152 | clear empties the cache and leaves the store's rows unchanged |
| ServiceProperties.AddRejectsInvalidFirst | src/main/java/com/project/cache/service/CacheService.java:41-42 | add fails with InvalidArgument exactly for a null entity or a null/blank id, and then changes neither tier |
| ServiceProperties.AddEvictsLeastRecentToStore | src/main/java/com/project/cache/service/CacheService.java:46-53 | after add the entity is cached as most recent and the size is at most maxSize. A new id in a full cache evicts the least recently used entry and saves it; the add reports the save's outcome, and the entry is out of the cache even if the save failed. Any other add evicts nothing, leaves the store alone, and grows the size by one exactly when the id is new |
| ServiceProperties.AddNewWithRoom | src/main/java/com/project/cache/service/CacheService.java:46-48 | a new id added to a cache with room is appended as most recent, and the store is untouched |
| ServiceProperties.AddNewToFull | src/main/java/com/project/cache/service/CacheService.java:48-51 | a new id added to a full cache drops the front entry and saves that entry to the store |
| ServiceProperties.AddCachedIdReplaces | src/main/java/com/project/cache/service/CacheService.java:46 | re-adding a cached id replaces the value and moves it to most recent; the size does not change, nothing is evicted and the store is untouched |
| ServiceProperties.GetHitServesFromMemory | src/main/java/com/project/cache/service/CacheService.java:127-133 | a hit returns the cached entity, moves the id to most recent, keeps the other ids in order and does not touch the store |
| ServiceProperties.GetMissReadsThrough | src/main/java/com/project/cache/service/CacheService.java:138-144 | a miss answered by the store with a valid entity returns that entity and re-admits it exactly as add does, under the entity's own id; when the stored entity is filed under the id asked for, the next get of that id is then a hit that does not consult the store |
| ServiceProperties.GetNotFoundPrecisely | src/main/java/com/project/cache/service/CacheService.java:139-141 | get fails with NotFound exactly when a valid id is in neither the cache nor an available store, and then nothing changes |
| ServiceProperties.AddNeverNotFound | src/main/java/com/project/cache/service/CacheService.java:40-57 | add fails with InvalidArgument exactly for an invalid entity, and otherwise only with StoreUnavailable; it never reports NotFound |
| ServiceProperties.RemoveNotFoundPrecisely | src/main/java/com/project/cache/service/CacheService.java:108-111 | remove fails with NotFound exactly when a valid id is in neither tier of an available store, and then nothing changes |
| ServiceProperties.RemoveDeletesThrough | src/main/java/com/project/cache/service/CacheService.java:73-106 | with the store up, removing an id held by either tier succeeds and the id is then in neither tier; other rows stay, and a store-only removal leaves the cache unchanged |
| ServiceProperties.RemoveCachedKeepsOrder | src/main/java/com/project/cache/service/CacheService.java:73-89 | removing a cached id takes it out of the cache and keeps the other ids' recency order; the store delete's outcome is reported |
| ServiceProperties.RemoveStoreOnlyTwice | src/main/java/com/project/cache/service/CacheService.java:96-111 | removing a store-only id succeeds once, and a second removal fails with NotFound |
| ServiceProperties.ClearKeepsStore | src/main/java/com/project/cache/service/CacheService.java:148-152 | clear leaves the store as it was, so a get of a stored id whose row is a valid entity falls through to the store and answers that row |
| ServiceProperties.RemoveAllEmptiesBoth | src/main/java/com/project/cache/service/CacheService.java:114-120 | removeAll with the store up empties both tiers, after which every get of a valid id with the store up fails with NotFound |
| ServiceProperties.Run | src/main/java/com/project/cache/service/CacheService.java:24-160 | any sequence of calls, each run to completion before the next and each with the store up or down, keeps the cache invariant |
| ServiceProperties.RunStaysWithinCapacity | src/main/java/com/project/cache/service/CacheService.java:48 | after any sequence of calls the cache holds at most maxSize entries |
| Service.CacheService.constructor | src/main/java/com/project/cache/service/CacheService.java:32-37 | a new service starts with an empty cache over the given store |
| Service.CacheService.Create | src/main/java/com/project/cache/service/CacheService.java:33 | construction fails with InvalidArgument exactly when maxSize <= 0; otherwise the cache is empty and the store unchanged |
| Service.CacheService.Add | src/main/java/com/project/cache/service/CacheService.java:40-57 | the new cache, the new store rows and the answer are AddSpec of the old state; the invariant is kept |
| Service.CacheService.PutInMemory | src/main/java/com/project/cache/service/CacheService.java:46-50 | the map's put and the eviction of its eldest entry change the fields to exactly Admit of the old contents and hand back what Admit evicts; the invariant is kept |
| Service.CacheService.Get | src/main/java/com/project/cache/service/CacheService.java:123-145 | the new cache, the new store rows and the answer are GetSpec of the old state; the invariant is kept |
| Service.CacheService.Remove | src/main/java/com/project/cache/service/CacheService.java:64-111 | the new cache, the new store rows and the answer are RemoveSpec of the old state; the invariant is kept |
| Service.CacheService.RemoveAll | src/main/java/com/project/cache/service/CacheService.java:114-120 | the cache becomes empty, then the store is emptied, or the store failure is reported with the cache already empty |
| Service.CacheService.Clear | src/main/java/com/project/cache/service/CacheService.java:148-152 | the cache becomes empty and the store is unchanged |
| Service.CacheService.CacheSize | src/main/java/com/project/cache/service/CacheService.java:155-159 | the answer is the number of cached ids, and it is between 0 and maxSize |
| Scenarios.EvictionWhenFull | src/test/java/com/project/cache/CacheServiceTest.java:62-70 | capacity 3 and ids 1, 2, 3, 4 added: ids 2, 3, 4 remain cached, and exactly one row, entity 1, is saved |
| Scenarios.RecencyDecidesEviction | src/main/java/com/project/cache/service/CacheService.java:46-50 | capacity 3, ids 1, 2, 3 added, then get 1 (the access-order `lru.get` at line 129), then add 4: the head removed and saved is 2, not 1 |
| Scenarios.CacheHitTwice | src/test/java/com/project/cache/CacheServiceTest.java:72-80 | capacity 3, add 1, then get 1: the get answers entity 1 and leaves both tiers as they were, whether or not the store is up, so a second get answers it again and the store is never read |
| Scenarios.EvictionThroughTheService | src/test/java/com/project/cache/CacheServiceTest.java:62-70 | against the class itself: four adds to a service of capacity 3 over an empty store leave cacheSize 3 and exactly one saved row, entity 1 |
| Scenarios.UpdateExistingEntity | src/test/java/com/project/cache/CacheServiceTest.java:33-38 | adding id 1 twice keeps one entry holding the second value, and get returns it |
| Scenarios.StoreFailureDuringEviction | src/test/java/com/project/cache/CacheServiceTest.java:117-123 | capacity 1 with the store down: the second add reports the failure, and the evicted entity is left in neither tier |

## Left out

- The `ReentrantLock` and thread interleavings. Each public method is modelled as one atomic step. The lock serialises the in-memory part of every call; the model does not interleave other callers with the store calls that `remove`, `removeAll` and `get` make outside it (CacheService.java:76-106, 117-118, 135-144). Such interleavings can produce states no serial order gives. For example, `remove` may drop a cached id from the cache, then a `get` of that id misses and re-caches its stored row, and only then does `remove` delete the row. The id ends up cached but not stored.
- SLF4J logging, which has no effect on state.
- The `LinkedHashMap` sizing arguments `16, 0.75f`, which tune hashing and do not change behaviour.
- The Postgres implementation of the port (`PostgresDatabaseService`, `JpaEntityRecord`, `EntityRepository`), including the `Long.valueOf` parsing of ids. The store is an abstract map from id to entity.
- The store's "row not found" exception on delete. `Store.Delete` treats an absent row as a no-op, which is what the two catch blocks in `remove` make of it.
- Store failures other than "the store is down". A store is either up for every call or down for every call; a store that fails for one call and then recovers within the same operation is not modelled.
- The HTTP controller, the exception handler and the response wrapper, which translate answers into HTTP statuses.
- Entity mutability: `EntityModel` has setters, but the cache never calls them. Entities are values here, and `data` is not nullable.
