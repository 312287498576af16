/**
 * The durable store behind the cache, reached through its four-call port.
 * Store is an in-memory stand-in: its rows by id, and whether the store is up.
 * While it is down every call throws and changes nothing.
 */
module Persistence {
  import opened Wrappers
  import opened Domain

  class Store {
    var rows: map<string, Entity>
    var available: bool

    constructor (rows: map<string, Entity>, available: bool)
      ensures this.rows == rows && this.available == available
    {
      this.rows := rows;
      this.available := available;
    }

    /** save: upsert the entity under its id. */
    method Save(e: Entity) returns (r: Outcome<Error>)
      requires e.id.Some?
      modifies this
      ensures available == old(available)
      ensures r == (if available then Pass else Fail(StoreUnavailable))
      ensures rows == if available then old(rows)[e.id.value := e] else old(rows)
    {
      if !available {
        return Fail(StoreUnavailable);
      }
      rows := rows[e.id.value := e];
      r := Pass;
    }

    /** delete: remove the row with this id; a missing row is not an error. */
    method Delete(id: string) returns (r: Outcome<Error>)
      modifies this
      ensures available == old(available)
      ensures r == (if available then Pass else Fail(StoreUnavailable))
      ensures rows == if available then old(rows) - {id} else old(rows)
    {
      if !available {
        return Fail(StoreUnavailable);
      }
      rows := rows - {id};
      r := Pass;
    }

    /** deleteAll: remove every row. */
    method DeleteAll() returns (r: Outcome<Error>)
      modifies this
      ensures available == old(available)
      ensures r == (if available then Pass else Fail(StoreUnavailable))
      ensures rows == if available then map[] else old(rows)
    {
      if !available {
        return Fail(StoreUnavailable);
      }
      rows := map[];
      r := Pass;
    }

    /** findById: the row stored under id, or None; absence is an answer, not an error. */
    method FindById(id: string) returns (r: Result<Option<Entity>, Error>)
      ensures r.Failure? <==> !available
      ensures r.Failure? ==> r.error == StoreUnavailable
      ensures r.Success? ==> (r.value.Some? <==> id in rows)
      ensures r.Success? && r.value.Some? ==> r.value.value == rows[id]
    {
      if !available {
        return Failure(StoreUnavailable);
      }
      r := Success(if id in rows then Some(rows[id]) else None);
    }
  }
}
