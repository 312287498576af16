/**
 * What the cache service promises, stated over the two-tier reference model:
 * argument checks, the capacity bound, least-recently-used eviction,
 * read-through, delete-through and the two bulk wipes.
 */
module ServiceProperties {
  import opened Wrappers
  import opened Domain
  import opened LruModel
  import opened ServiceSpec

  /** add refuses exactly a null entity or a null or blank id, and then changes neither tier. */
  lemma AddRejectsInvalidFirst(t: Tiers, available: bool, entity: Option<Entity>, maxSize: int)
    requires Inv(t.cache, maxSize)
    ensures var s := AddSpec(t, available, entity, maxSize);
      && (s.result == Fail(InvalidArgument) <==> !ValidEntity(entity))
      && (!ValidEntity(entity) ==> s.after == t)
  {
  }

  /**
   * After an add the entity is cached under its id as the most recent entry and
   * the cache holds at most maxSize entries. A new id added to a full cache
   * evicts exactly the least recently used entry and writes it to the store;
   * any other add evicts nothing and leaves the store alone.
   */
  lemma AddEvictsLeastRecentToStore(t: Tiers, available: bool, e: Entity, maxSize: int)
    requires Inv(t.cache, maxSize) && ValidEntity(Some(e))
    ensures var s := AddSpec(t, available, Some(e), maxSize);
      var k := e.id.value;
      && |s.after.cache.vals| <= maxSize
      && k in s.after.cache.vals && s.after.cache.vals[k] == e
      && s.after.cache.order[|s.after.cache.order| - 1] == k
      && (k in t.cache.vals || |t.cache.order| < maxSize ==>
            && s.result == Pass
            && s.after.rows == t.rows
            && |s.after.cache.vals| == |t.cache.vals| + (if k in t.cache.vals then 0 else 1))
      && (k !in t.cache.vals && |t.cache.order| == maxSize ==>
            var eldest := t.cache.order[0];
            && s.result == StoreOutcome(available)
            && s.after.cache.order == t.cache.order[1..] + [k]
            && eldest !in s.after.cache.vals
            && s.after.rows == (if available then t.rows[eldest := t.cache.vals[eldest]] else t.rows))
  {
    var k := e.id.value;
    var s := AddSpec(t, available, Some(e), maxSize);
    SizeIsOrderLength(s.after.cache, maxSize);
    if k !in t.cache.vals && |t.cache.order| == maxSize {
      AddNewToFull(t, available, e, maxSize);
    } else {
      var p := Put(t.cache, k, e);
      assert s == Step(Tiers(p, t.rows), Pass) by {
        AdmitRoomNoEviction(t.cache, e, maxSize);
      }
      assert |p.vals| == |t.cache.vals| + (if k in t.cache.vals then 0 else 1) by {
        PutWellFormed(t.cache, k, e);
        SizeIsOrderLength(t.cache, maxSize);
      }
    }
  }

  /** Adding a new id to a cache with room appends it as most recent and leaves the store alone. */
  lemma AddNewWithRoom(t: Tiers, available: bool, e: Entity, maxSize: int)
    requires Inv(t.cache, maxSize) && ValidEntity(Some(e))
    requires e.id.value !in t.cache.vals && |t.cache.order| < maxSize
    ensures AddSpec(t, available, Some(e), maxSize)
      == Step(Tiers(Lru(t.cache.order + [e.id.value], t.cache.vals[e.id.value := e]), t.rows), Pass)
  {
    AdmitRoomNoEviction(t.cache, e, maxSize);
    WithoutAbsent(t.cache.order, e.id.value);
  }

  /** Adding a new id to a full cache evicts the front of the order and saves it to the store. */
  lemma AddNewToFull(t: Tiers, available: bool, e: Entity, maxSize: int)
    requires Inv(t.cache, maxSize) && ValidEntity(Some(e))
    requires e.id.value !in t.cache.vals && |t.cache.order| == maxSize
    ensures var eldest := t.cache.order[0];
      AddSpec(t, available, Some(e), maxSize)
      == Step(Tiers(Lru(t.cache.order[1..] + [e.id.value], (t.cache.vals - {eldest})[e.id.value := e]),
                    if available then t.rows[eldest := t.cache.vals[eldest]] else t.rows),
              StoreOutcome(available))
  {
    AdmitFullEvicts(t.cache, e, maxSize);
    assert t.cache.vals[t.cache.order[0]].id == Some(t.cache.order[0]);
  }

  /**
   * Adding an id that is already cached replaces its entity and moves it to most
   * recent; the other ids keep their order, the size stays and nothing is evicted.
   */
  lemma AddCachedIdReplaces(t: Tiers, available: bool, e: Entity, maxSize: int, p: nat)
    requires Inv(t.cache, maxSize) && ValidEntity(Some(e))
    requires p < |t.cache.order| && t.cache.order[p] == e.id.value
    ensures var s := AddSpec(t, available, Some(e), maxSize);
      && s.result == Pass
      && s.after.rows == t.rows
      && s.after.cache.order == t.cache.order[..p] + t.cache.order[p + 1..] + [e.id.value]
      && s.after.cache.vals == t.cache.vals[e.id.value := e]
      && |s.after.cache.vals| == |t.cache.vals|
  {
    AdmitCachedRefreshes(t.cache, e, maxSize, p);
    var s := AddSpec(t, available, Some(e), maxSize);
    SizeIsOrderLength(t.cache, maxSize);
    SizeIsOrderLength(s.after.cache, maxSize);
  }

  /**
   * A get of a cached id answers the cached entity, moves the id to most recent,
   * keeps the other ids in order and does not touch the store.
   */
  lemma GetHitServesFromMemory(t: Tiers, available: bool, maxSize: int, p: nat)
    requires Inv(t.cache, maxSize) && p < |t.cache.order| && ValidId(Some(t.cache.order[p]))
    ensures var k := t.cache.order[p];
      var s := GetSpec(t, available, Some(k), maxSize);
      && s.result == Success(t.cache.vals[k])
      && s.after.rows == t.rows
      && s.after.cache.order == t.cache.order[..p] + t.cache.order[p + 1..] + [k]
      && s.after.cache.vals == t.cache.vals
  {
    TouchMovesToNewest(t.cache, maxSize, p);
  }

  /**
   * A miss that the store can answer with a valid entity returns that entity and
   * re-admits it exactly as add would, under the entity's own id. When the store
   * files that entity under the id asked for, the id is cached afterwards, so the
   * next get of it is a hit that does not consult the store, whether or not the
   * store is up.
   */
  lemma GetMissReadsThrough(t: Tiers, id: string, maxSize: int, available2: bool)
    requires Inv(t.cache, maxSize) && ValidId(Some(id))
    requires id !in t.cache.vals && id in t.rows && ValidEntity(Some(t.rows[id]))
    ensures var s := GetSpec(t, true, Some(id), maxSize);
      && s.result == Success(t.rows[id])
      && s == Step(AddSpec(t, true, Some(t.rows[id]), maxSize).after, Success(t.rows[id]))
      && (t.rows[id].id == Some(id) ==>
            && id in s.after.cache.vals
            && var s2 := GetSpec(s.after, available2, Some(id), maxSize);
               s2.result == s.result && s2.after.rows == s.after.rows)
  {
    var e := t.rows[id];
    var s := GetSpec(t, true, Some(id), maxSize);
    AddEvictsLeastRecentToStore(t, true, e, maxSize);
  }

  /**
   * get fails with NotFound exactly when a valid id is in neither the cache nor
   * a store that is up, and then it changes nothing.
   */
  lemma GetNotFoundPrecisely(t: Tiers, available: bool, id: Option<string>, maxSize: int)
    requires Inv(t.cache, maxSize)
    ensures var s := GetSpec(t, available, id, maxSize);
      && (s.result == Failure(NotFound) <==>
            ValidId(id) && id.value !in t.cache.vals && available && id.value !in t.rows)
      && (s.result == Failure(NotFound) ==> s.after == t)
  {
    if ValidId(id) && id.value !in t.cache.vals && available && id.value in t.rows {
      AddNeverNotFound(t, available, Some(t.rows[id.value]), maxSize);
    }
  }

  /** add reports only a rejected argument or a store that is down; never NotFound. */
  lemma AddNeverNotFound(t: Tiers, available: bool, entity: Option<Entity>, maxSize: int)
    requires Inv(t.cache, maxSize)
    ensures var r := AddSpec(t, available, entity, maxSize).result;
      && (r == Fail(InvalidArgument) <==> !ValidEntity(entity))
      && (r == Pass || r == Fail(InvalidArgument) || r == Fail(StoreUnavailable))
  {
  }

  /**
   * remove fails with NotFound exactly when a valid id is in neither the cache
   * nor a store that is up, and then it changes nothing.
   */
  lemma RemoveNotFoundPrecisely(t: Tiers, available: bool, id: Option<string>, maxSize: int)
    requires Inv(t.cache, maxSize)
    ensures var s := RemoveSpec(t, available, id, maxSize);
      && (s.result == Fail(NotFound) <==>
            ValidId(id) && id.value !in t.cache.vals && available && id.value !in t.rows)
      && (s.result == Fail(NotFound) ==> s.after == t)
  {
  }

  /**
   * With the store up, removing an id that either tier holds succeeds and the id
   * is then in neither tier; the other stored rows stay, and when the id was not
   * cached the cache is untouched.
   */
  lemma RemoveDeletesThrough(t: Tiers, id: string, maxSize: int)
    requires Inv(t.cache, maxSize) && ValidId(Some(id))
    requires id in t.cache.vals || id in t.rows
    ensures var s := RemoveSpec(t, true, Some(id), maxSize);
      && s.result == Pass
      && id !in s.after.cache.vals && id !in s.after.rows
      && s.after.rows == t.rows - {id}
      && (id !in t.cache.vals ==> s.after.cache == t.cache)
  {
  }

  /**
   * Removing a cached id takes it out of the cache and leaves every other cached
   * id in its recency order, whether or not the store is up.
   */
  lemma RemoveCachedKeepsOrder(t: Tiers, available: bool, maxSize: int, p: nat)
    requires Inv(t.cache, maxSize) && p < |t.cache.order| && ValidId(Some(t.cache.order[p]))
    ensures var k := t.cache.order[p];
      var s := RemoveSpec(t, available, Some(k), maxSize);
      && s.result == StoreOutcome(available)
      && s.after.cache.order == t.cache.order[..p] + t.cache.order[p + 1..]
      && s.after.cache.vals == t.cache.vals - {k}
  {
    DeleteKeepsOrder(t.cache, maxSize, p);
  }

  /**
   * Removing an id that only the store holds succeeds once; removing it again
   * finds it in neither tier and fails with NotFound.
   */
  lemma RemoveStoreOnlyTwice(t: Tiers, id: string, maxSize: int)
    requires Inv(t.cache, maxSize) && ValidId(Some(id))
    requires id !in t.cache.vals && id in t.rows
    ensures var s1 := RemoveSpec(t, true, Some(id), maxSize);
      && s1.result == Pass
      && RemoveSpec(s1.after, true, Some(id), maxSize).result == Fail(NotFound)
  {
    RemoveDeletesThrough(t, id, maxSize);
  }

  /**
   * After clear the store is as it was, so a get of a stored id with a well-formed
   * row falls through to the store and answers that row.
   */
  lemma ClearKeepsStore(t: Tiers, id: string, maxSize: int)
    requires Inv(t.cache, maxSize) && 0 < maxSize && ValidId(Some(id))
    requires id in t.rows && ValidEntity(Some(t.rows[id]))
    ensures ClearSpec(t).rows == t.rows
    ensures GetSpec(ClearSpec(t), true, Some(id), maxSize).result == Success(t.rows[id])
  {
    EmptyInv(maxSize);
  }

  /** After a removeAll with the store up, both tiers are empty and every get fails with NotFound. */
  lemma RemoveAllEmptiesBoth(t: Tiers, id: string, maxSize: int)
    requires 0 < maxSize && ValidId(Some(id))
    ensures var s := RemoveAllSpec(t, true);
      && s.result == Pass
      && s.after == Tiers(Empty, map[])
      && GetSpec(s.after, true, Some(id), maxSize).result == Failure(NotFound)
  {
    EmptyInv(maxSize);
  }

  /** One call to the service. */
  datatype Call =
    | AddCall(entity: Option<Entity>)
    | GetCall(id: Option<string>)
    | RemoveCall(id: Option<string>)
    | RemoveAllCall
    | ClearCall

  /**
   * The tiers after a sequence of calls, each run to completion before the next;
   * each call comes with whether the store is up while it runs.
   */
  function Run(t: Tiers, calls: seq<(Call, bool)>, maxSize: int): (u: Tiers)
    requires Inv(t.cache, maxSize)
    ensures Inv(u.cache, maxSize)
    decreases |calls|
  {
    if calls == [] then t
    else
      var available := calls[0].1;
      var next := match calls[0].0
        case AddCall(entity) => AddSpec(t, available, entity, maxSize).after
        case GetCall(id) => GetSpec(t, available, id, maxSize).after
        case RemoveCall(id) => RemoveSpec(t, available, id, maxSize).after
        case RemoveAllCall => (EmptyInv(maxSize); RemoveAllSpec(t, available).after)
        case ClearCall => (EmptyInv(maxSize); ClearSpec(t));
      Run(next, calls[1..], maxSize)
  }

  /** Whatever calls are made, the cache never holds more than maxSize entries. */
  lemma RunStaysWithinCapacity(t: Tiers, calls: seq<(Call, bool)>, maxSize: int)
    requires Inv(t.cache, maxSize)
    ensures |Run(t, calls, maxSize).cache.vals| <= maxSize
  {
    SizeIsOrderLength(Run(t, calls, maxSize).cache, maxSize);
  }
}
