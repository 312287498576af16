/**
 * Concrete scenarios of the service, stated over the reference model and, once,
 * over the class. Most follow the service's unit tests (capacity 3, and capacity 1
 * for the store failure); RecencyDecidesEviction is a scenario of its own.
 */
module Scenarios {
  import opened Wrappers
  import opened Domain
  import opened LruModel
  import opened ServiceSpec
  import opened ServiceProperties
  import opened Persistence
  import opened Service

  const One := Entity(Some("1"), "one")
  const Two := Entity(Some("2"), "two")
  const Three := Entity(Some("3"), "three")
  const Four := Entity(Some("4"), "four")

  /** The four test entities pass add's argument check. */
  lemma TestEntitiesValid()
    ensures ValidEntity(Some(One)) && ValidEntity(Some(Two))
    ensures ValidEntity(Some(Three)) && ValidEntity(Some(Four))
  {
  }

  /** The tiers after adding 1; 1 and 2; 1, 2 and 3; then 4, to an empty cache over an empty store. */
  const After1 := Tiers(Lru(["1"], map["1" := One]), map[])
  const After12 := Tiers(Lru(["1", "2"], map["1" := One, "2" := Two]), map[])
  const After123 := Tiers(Lru(["1", "2", "3"], map["1" := One, "2" := Two, "3" := Three]), map[])

  const After1234 := Tiers(Lru(["2", "3", "4"], map["2" := Two, "3" := Three, "4" := Four]), map["1" := One])

  /** Each of After1, After12 and After123 is the previous one with one id appended. */
  lemma GrowShape()
    ensures Empty.order + ["1"] == After1.cache.order && Empty.vals["1" := One] == After1.cache.vals
    ensures After1.cache.order + ["2"] == After12.cache.order && After1.cache.vals["2" := Two] == After12.cache.vals
    ensures After12.cache.order + ["3"] == After123.cache.order && After12.cache.vals["3" := Three] == After123.cache.vals
  {
  }

  /** After123 is a full, well-formed cache of capacity 3. */
  lemma After123Inv()
    ensures Inv(After123.cache, 3)
  {
    assert Distinct(After123.cache.order);
  }

  /** Adding 1 to the empty cache. */
  lemma AddFirst()
    ensures Inv(After1.cache, 3)
    ensures AddSpec(Fresh(map[]), true, Some(One), 3) == Step(After1, Pass)
  {
    TestEntitiesValid();
    EmptyInv(3);
    AddNewWithRoom(Fresh(map[]), true, One, 3);
    GrowShape();
  }

  /** Adding 2 after 1. */
  lemma AddSecond()
    ensures Inv(After12.cache, 3)
    ensures AddSpec(After1, true, Some(Two), 3) == Step(After12, Pass)
  {
    AddFirst();
    TestEntitiesValid();
    AddNewWithRoom(After1, true, Two, 3);
    GrowShape();
  }

  /** Adding 3 after 1 and 2 fills the cache. */
  lemma AddThird()
    ensures Inv(After123.cache, 3)
    ensures AddSpec(After12, true, Some(Three), 3) == Step(After123, Pass)
  {
    AddSecond();
    TestEntitiesValid();
    AddNewWithRoom(After12, true, Three, 3);
    GrowShape();
  }

  /** Evicting the front of After123 to make room for 4 leaves the tiers After1234. */
  lemma EvictOneShape()
    ensures After123.cache.order[1..] + ["4"] == After1234.cache.order
    ensures (After123.cache.vals - {"1"})["4" := Four] == After1234.cache.vals
    ensures After123.rows["1" := One] == After1234.rows
  {
    assert After123.cache.order[1..] == ["2", "3"];
  }

  /**
   * Adding 1, 2, 3 and then 4 to an empty cache of capacity 3 over an empty
   * store leaves the three newest entries cached and exactly one stored row:
   * entity 1, the least recently used.
   */
  lemma EvictionWhenFull()
    ensures AddSpec(Fresh(map[]), true, Some(One), 3) == Step(After1, Pass)
    ensures AddSpec(After1, true, Some(Two), 3) == Step(After12, Pass)
    ensures AddSpec(After12, true, Some(Three), 3) == Step(After123, Pass)
    ensures AddSpec(After123, true, Some(Four), 3) == Step(After1234, Pass)
  {
    AddFirst();
    AddSecond();
    AddThird();
    AddFourth();
  }

  /** Adding 4 to the full cache pushes out 1 and saves it. */
  lemma AddFourth()
    ensures AddSpec(After123, true, Some(Four), 3) == Step(After1234, Pass)
  {
    After123Inv();
    TestEntitiesValid();
    AddNewToFull(After123, true, Four, 3);
    EvictOneShape();
  }

  /** After1, 2, 3 once 1 has been read again, and then once 4 has been added. */
  const AfterGet1 := Tiers(Lru(["2", "3", "1"], After123.cache.vals), map[])
  const AfterGet1Add4 := Tiers(Lru(["3", "1", "4"], map["1" := One, "3" := Three, "4" := Four]), map["2" := Two])

  /**
   * Capacity 3: add 1, then get 1 twice. Both gets answer entity 1 from memory,
   * whether or not the store is up, and neither changes the store.
   */
  lemma CacheHitTwice(available: bool)
    ensures AddSpec(Fresh(map[]), true, Some(One), 3) == Step(After1, Pass)
    ensures GetSpec(After1, available, Some("1"), 3) == Step(After1, Success(One))
  {
    AddFirst();
    GetOneHit(available);
  }

  /** With 1 the only cached id, a get of 1 is a hit that leaves both tiers as they were. */
  lemma GetOneHit(available: bool)
    ensures GetSpec(After1, available, Some("1"), 3) == Step(After1, Success(One))
  {
    AddFirst();
    TestEntitiesValid();
    GetHitServesFromMemory(After1, available, 3, 0);
    OnlyIdShape();
  }

  /** Moving the only id of After1 to most recent leaves the order as it was. */
  lemma OnlyIdShape()
    ensures After1.cache.order[..0] + After1.cache.order[1..] + ["1"] == After1.cache.order
  {
    assert After1.cache.order[1..] == [];
  }

  /** Reading 1 again makes 2 the least recently used entry. */
  lemma GetOneRefreshes()
    ensures Inv(AfterGet1.cache, 3)
    ensures GetSpec(After123, true, Some("1"), 3) == Step(AfterGet1, Success(One))
  {
    After123Inv();
    assert ValidId(Some(After123.cache.order[0])) by {
      TestEntitiesValid();
    }
    assert GetSpec(After123, true, Some("1"), 3) == Step(AfterGet1, Success(One)) by {
      GetHitServesFromMemory(After123, true, 3, 0);
      RotateShape();
    }
  }

  /** The order after 1 moves from front to back. */
  lemma RotateShape()
    ensures After123.cache.order[..0] + After123.cache.order[1..] + ["1"] == AfterGet1.cache.order
  {
    assert After123.cache.order[1..] == ["2", "3"];
  }

  /** The cache and store shape after 4 pushes out 2. */
  lemma EvictTwoShape()
    ensures AfterGet1.cache.order[1..] + ["4"] == AfterGet1Add4.cache.order
    ensures (AfterGet1.cache.vals - {"2"})["4" := Four] == AfterGet1Add4.cache.vals
    ensures AfterGet1.rows["2" := Two] == AfterGet1Add4.rows
  {
    assert AfterGet1.cache.order[1..] == ["3", "1"];
  }

  /**
   * Capacity 3: add 1, 2, 3, get 1, then add 4. The entry evicted to the store
   * is 2, the least recently used, and not 1, the least recently inserted.
   */
  lemma RecencyDecidesEviction()
    ensures GetSpec(After123, true, Some("1"), 3) == Step(AfterGet1, Success(One))
    ensures AddSpec(AfterGet1, true, Some(Four), 3) == Step(AfterGet1Add4, Pass)
    ensures AfterGet1Add4.rows == map["2" := Two] && "1" in AfterGet1Add4.cache.vals
  {
    GetOneRefreshes();
    TestEntitiesValid();
    AddNewToFull(AfterGet1, true, Four, 3);
    EvictTwoShape();
  }

  const Updated := Entity(Some("1"), "updated")
  const AfterUpdate := Tiers(Lru(["1"], map["1" := Updated]), map[])

  /** Adding 1 twice keeps one entry, holding the second entity, and a get returns it. */
  lemma UpdateExistingEntity()
    ensures AddSpec(After1, true, Some(Updated), 3) == Step(AfterUpdate, Pass)
    ensures GetSpec(AfterUpdate, true, Some("1"), 3).result == Success(Updated)
  {
    AddUpdated();
    GetUpdated();
  }

  /** The second add of 1 replaces the first entity in place. */
  lemma AddUpdated()
    ensures Inv(AfterUpdate.cache, 3)
    ensures AddSpec(After1, true, Some(Updated), 3) == Step(AfterUpdate, Pass)
  {
    AddFirst();
    assert ValidEntity(Some(Updated));
    AddCachedIdReplaces(After1, true, Updated, 3, 0);
    UpdateShape();
  }

  /** The one-entry cache after 1 is replaced by its update. */
  lemma UpdateShape()
    ensures After1.cache.order[..0] + After1.cache.order[1..] + ["1"] == AfterUpdate.cache.order
    ensures After1.cache.vals["1" := Updated] == AfterUpdate.cache.vals
  {
    assert After1.cache.order[1..] == [];
  }

  /** A get of 1 then hits the replaced entity. */
  lemma GetUpdated()
    ensures GetSpec(AfterUpdate, true, Some("1"), 3).result == Success(Updated)
  {
    AddUpdated();
    TestEntitiesValid();
    GetHitServesFromMemory(AfterUpdate, true, 3, 0);
  }

  /**
   * Capacity 1 with the store down: the second add evicts entity 1, whose save
   * fails. The add reports the failure, entity 1 is in neither tier, and 2 is cached.
   */
  lemma StoreFailureDuringEviction()
    ensures AddSpec(Tiers(Lru(["1"], map["1" := One]), map[]), false, Some(Two), 1)
      == Step(Tiers(Lru(["2"], map["2" := Two]), map[]), Fail(StoreUnavailable))
  {
    TestEntitiesValid();
    var t := Tiers(Lru(["1"], map["1" := One]), map[]);
    assert Inv(t.cache, 1);
    AddNewToFull(t, false, Two, 1);
    ReplaceOnlyShape();
  }

  /** The one-entry cache after 2 replaces 1. */
  lemma ReplaceOnlyShape()
    ensures ["1"][1..] + ["2"] == ["2"]
    ensures (map["1" := One] - {"1"})["2" := Two] == map["2" := Two]
  {
    assert ["1"][1..] == [];
  }

  /**
   * The eviction scenario stated against the class itself: capacity 3 over an
   * empty store that is up; four adds leave three cached entries and entity 1,
   * and only it, in the store.
   */
  method EvictionThroughTheService() returns (n: int, saved: map<string, Entity>)
    ensures n == 3 && saved == map["1" := One]
  {
    var db := new Store(map[], true);
    var created := CacheService.Create(db, 3);
    var cache := created.value;
    EvictionWhenFull();
    var r := cache.Add(Some(One));
    r := cache.Add(Some(Two));
    r := cache.Add(Some(Three));
    r := cache.Add(Some(Four));
    assert r == Pass;
    n := cache.CacheSize();
    saved := db.rows;
  }
}
