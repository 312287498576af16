/**
 * The cache service as a function of both tiers: each public operation maps the
 * cache and the store rows before the call to the two after it and to the
 * call's answer. Every call is modelled as one step; the interleavings the lock
 * allows around the store calls are left out.
 */
module ServiceSpec {
  import opened Wrappers
  import opened Domain
  import opened LruModel

  /** Both tiers: the in-memory cache and the rows of the durable store, by id. */
  datatype Tiers = Tiers(cache: Lru, rows: map<string, Entity>)

  /** What a call leaves behind, and what it answers. */
  datatype Step<T> = Step(after: Tiers, result: T)

  /** The answer of a store call: it returns when the store is up and throws otherwise. */
  function StoreOutcome(available: bool): Outcome<Error> {
    if available then Pass else Fail(StoreUnavailable)
  }

  /** The service right after construction: nothing cached, the store as it was. */
  function Fresh(rows: map<string, Entity>): Tiers {
    Tiers(Empty, rows)
  }

  /** add: check the argument, put the entity, and on overflow save the evicted eldest entry. */
  function AddSpec(t: Tiers, available: bool, entity: Option<Entity>, maxSize: int): (s: Step<Outcome<Error>>)
    requires Inv(t.cache, maxSize)
    ensures Inv(s.after.cache, maxSize)
  {
    if !ValidEntity(entity) then Step(t, Fail(InvalidArgument))
    else
      var a := Admit(t.cache, entity.value, maxSize);
      match a.evicted
      case None => Step(Tiers(a.cache, t.rows), Pass)
      case Some(eldest) =>
        var rows := if available then t.rows[eldest.id.value := eldest] else t.rows;
        Step(Tiers(a.cache, rows), StoreOutcome(available))
  }

  /** get: answer a hit from memory; on a miss read the store and re-admit what it holds through add. */
  function GetSpec(t: Tiers, available: bool, id: Option<string>, maxSize: int): (s: Step<Result<Entity, Error>>)
    requires Inv(t.cache, maxSize)
    ensures Inv(s.after.cache, maxSize)
  {
    if !ValidId(id) then Step(t, Failure(InvalidArgument))
    else if id.value in t.cache.vals then
      TouchKeepsInv(t.cache, maxSize, id.value);
      Step(Tiers(Touch(t.cache, id.value), t.rows), Success(t.cache.vals[id.value]))
    else if !available then Step(t, Failure(StoreUnavailable))
    else if id.value !in t.rows then Step(t, Failure(NotFound))
    else
      var fromDb := t.rows[id.value];
      var added := AddSpec(t, available, Some(fromDb), maxSize);
      if added.result.Fail? then Step(added.after, Failure(added.result.error))
      else Step(added.after, Success(fromDb))
  }

  /** remove: delete through both tiers, falling back to the store when the id is not cached. */
  function RemoveSpec(t: Tiers, available: bool, id: Option<string>, maxSize: int): (s: Step<Outcome<Error>>)
    requires Inv(t.cache, maxSize)
    ensures Inv(s.after.cache, maxSize)
  {
    if !ValidId(id) then Step(t, Fail(InvalidArgument))
    else if id.value in t.cache.vals then
      DeleteKeepsInv(t.cache, maxSize, id.value);
      var rows := if available then t.rows - {id.value} else t.rows;
      Step(Tiers(Delete(t.cache, id.value), rows), StoreOutcome(available))
    else if !available then Step(t, Fail(StoreUnavailable))
    else if id.value in t.rows then Step(Tiers(t.cache, t.rows - {id.value}), Pass)
    else Step(t, Fail(NotFound))
  }

  /** removeAll: empty the cache, then delete every row of the store. */
  function RemoveAllSpec(t: Tiers, available: bool): (s: Step<Outcome<Error>>)
    ensures s.after.cache.order == [] && s.after.cache.vals == map[]
    ensures s.result == Pass <==> available
    ensures s.result.Fail? ==> s.result.error == StoreUnavailable && s.after.rows == t.rows
    ensures s.result == Pass ==> s.after.rows == map[]
  {
    Step(Tiers(Empty, if available then map[] else t.rows), StoreOutcome(available))
  }

  /** clear: empty the cache and leave the store alone. */
  function ClearSpec(t: Tiers): (u: Tiers)
    ensures u.cache.order == [] && u.cache.vals == map[] && u.rows == t.rows
  {
    Tiers(Empty, t.rows)
  }
}
