/**
 * The bounded LRU cache service. It keeps an access-ordered map from id to
 * entity, never larger than maxSize, in front of a durable store; overflow
 * writes the least recently used entry back to the store.
 */
module Service {
  import opened Wrappers
  import opened Domain
  import opened LruModel
  import opened ServiceSpec
  import opened Persistence

  class CacheService {
    const database: Store
    const maxSize: int
    /** The cached ids, least recently used first. */
    var order: seq<string>
    /** The cached entities by id. */
    var vals: map<string, Entity>

    /** The in-memory map as a value. */
    function Contents(): Lru
      reads this
    {
      Lru(order, vals)
    }

    /** Both tiers as a value. */
    function State(): Tiers
      reads this, database
    {
      Tiers(Contents(), database.rows)
    }

    ghost predicate Valid()
      reads this
    {
      Inv(Contents(), maxSize)
    }

    /** Builds an empty cache over database; a non-positive maxSize is refused by Create. */
    constructor (database: Store, maxSize: int)
      requires 0 < maxSize
      ensures Valid()
      ensures this.database == database && this.maxSize == maxSize
      ensures Contents() == Empty
    {
      this.database := database;
      this.maxSize := maxSize;
      order := [];
      vals := map[];
    }

    /** The service's constructor with its argument check: maxSize must be positive. */
    static method Create(database: Store, maxSize: int) returns (r: Result<CacheService, Error>)
      ensures r.Failure? <==> maxSize <= 0
      ensures r.Failure? ==> r.error == InvalidArgument
      ensures r.Success? ==>
        && fresh(r.value) && r.value.Valid()
        && r.value.database == database && r.value.maxSize == maxSize
        && r.value.State() == Fresh(database.rows)
    {
      if maxSize <= 0 {
        return Failure(InvalidArgument);
      }
      var c := new CacheService(database, maxSize);
      r := Success(c);
    }

    /** add: insert or replace, make most recent, and on overflow evict the eldest entry to the store. */
    method Add(entity: Option<Entity>) returns (r: Outcome<Error>)
      requires Valid()
      modifies this, database
      ensures Valid()
      ensures database.available == old(database.available)
      ensures Step(State(), r) == AddSpec(old(State()), old(database.available), entity, maxSize)
    {
      if !ValidEntity(entity) {
        return Fail(InvalidArgument);
      }
      ghost var before := State();
      ghost var a := Admit(before.cache, entity.value, maxSize);
      var evicted := PutInMemory(entity.value);
      assert Contents() == a.cache && evicted == a.evicted;
      if evicted.Some? {
        r := database.Save(evicted.value);
      } else {
        r := Pass;
      }
      assert State() == AddSpec(before, old(database.available), entity, maxSize).after;
    }

    /**
     * The in-memory half of add: the access-ordered map's put, then, once size
     * exceeds maxSize, removal of the entry at the head of the map's iteration order.
     */
    method PutInMemory(e: Entity) returns (evicted: Option<Entity>)
      requires Valid() && e.id.Some?
      modifies this
      ensures Valid()
      ensures Contents() == Admit(old(Contents()), e, maxSize).cache
      ensures evicted == Admit(old(Contents()), e, maxSize).evicted
    {
      var k := e.id.value;
      ghost var a := Admit(Contents(), e, maxSize);
      PutWellFormed(Contents(), k, e);
      order := Without(order, k) + [k];
      vals := vals[k := e];
      if |order| > maxSize {
        EvictFront(Contents(), k, maxSize);
        var eldest := order[0];
        evicted := Some(vals[eldest]);
        order := Without(order, eldest);
        vals := vals - {eldest};
      } else {
        evicted := None;
      }
      assert a.cache == Contents() && a.evicted == evicted;
    }

    /** get: a hit is answered from memory and made most recent; a miss reads through the store. */
    method Get(id: Option<string>) returns (r: Result<Entity, Error>)
      requires Valid()
      modifies this, database
      ensures Valid()
      ensures database.available == old(database.available)
      ensures Step(State(), r) == GetSpec(old(State()), old(database.available), id, maxSize)
    {
      if !ValidId(id) {
        return Failure(InvalidArgument);
      }
      var k := id.value;
      if k in vals {
        var hit := vals[k];
        TouchKeepsInv(Contents(), maxSize, k);
        order := Without(order, k) + [k];
        return Success(hit);
      }
      var fromDb := database.FindById(k);
      if fromDb.Failure? {
        return Failure(fromDb.error);
      }
      if fromDb.value.None? {
        return Failure(NotFound);
      }
      var added := Add(fromDb.value);
      if added.Fail? {
        return Failure(added.error);
      }
      r := Success(fromDb.value.value);
    }

    /** remove: delete through both tiers; NotFound only when the id is in neither. */
    method Remove(id: Option<string>) returns (r: Outcome<Error>)
      requires Valid()
      modifies this, database
      ensures Valid()
      ensures database.available == old(database.available)
      ensures Step(State(), r) == RemoveSpec(old(State()), old(database.available), id, maxSize)
    {
      if !ValidId(id) {
        return Fail(InvalidArgument);
      }
      var k := id.value;
      var removedFromCache := k in vals;
      if removedFromCache {
        DeleteKeepsInv(Contents(), maxSize, k);
        order := Without(order, k);
        vals := vals - {k};
        r := database.Delete(k);
        return;
      }
      var found := database.FindById(k);
      if found.Failure? {
        return Fail(found.error);
      }
      if found.value.Some? {
        r := database.Delete(k);
        return;
      }
      r := Fail(NotFound);
    }

    /** removeAll: empty the cache, then the store. */
    method RemoveAll() returns (r: Outcome<Error>)
      requires Valid()
      modifies this, database
      ensures Valid()
      ensures database.available == old(database.available)
      ensures Step(State(), r) == RemoveAllSpec(old(State()), old(database.available))
    {
      order := [];
      vals := map[];
      r := database.DeleteAll();
    }

    /** clear: empty the cache; the store is not touched. */
    method Clear()
      requires Valid()
      modifies this
      ensures Valid()
      ensures State() == ClearSpec(old(State()))
    {
      order := [];
      vals := map[];
    }

    /** cacheSize: the number of cached entries, which never exceeds maxSize. */
    method CacheSize() returns (n: int)
      requires Valid()
      ensures n == |order| && 0 <= n <= maxSize
    {
      SizeIsOrderLength(Contents(), maxSize);
      n := |vals|;
    }
  }
}
