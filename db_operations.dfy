/**
 * The generic data-access operations of the services' database handlers
 * (`Find`, `Add`, `Update`, `Delete`, `DeleteById`), on one table: a map from
 * identity to row. The handlers assign the result to the store's field for
 * that table; `SaveChanges` is the assignment.
 */
module DbOperations {
  import opened Wrappers

  /** `Find<T>(id)`: the row with that identity, or null. */
  function Find<T>(table: map<int, T>, id: int): (r: Option<T>)
    ensures r.Some? <==> id in table
    ensures r.Some? ==> r.value == table[id]
  {
    if id in table then Some(table[id]) else None
  }

  /** `Add<T>(entity)`, once the database has given the row the identity `id`. */
  function Add<T>(table: map<int, T>, id: int, entity: T): (r: map<int, T>)
    requires id !in table
    ensures r.Keys == table.Keys + {id}
    ensures r[id] == entity
    ensures forall k :: k in table ==> r[k] == table[k]
  {
    table[id := entity]
  }

  /** `Update<T>(entity)`: the stored row with the entity's identity is replaced. */
  function Update<T>(table: map<int, T>, id: int, entity: T): (r: map<int, T>)
    requires id in table
    ensures r.Keys == table.Keys
    ensures r[id] == entity
    ensures forall k :: k in table && k != id ==> r[k] == table[k]
  {
    table[id := entity]
  }

  /** `Delete<T>(entity)` on a stored row: one row is affected, so it reports true. */
  function Delete<T>(table: map<int, T>, id: int): (r: (bool, map<int, T>))
    requires id in table
    ensures r.0
    ensures r.1.Keys == table.Keys - {id}
    ensures forall k :: k in r.1 ==> r.1[k] == table[k]
  {
    (true, table - {id})
  }

  /** `DeleteById<T>(id)`: false and no change when no row has that identity. */
  function DeleteById<T>(table: map<int, T>, id: int): (r: (bool, map<int, T>))
    ensures r.0 <==> id in table
    ensures !r.0 ==> r.1 == table
    ensures r.1.Keys == table.Keys - {id}
    ensures forall k :: k in r.1 ==> r.1[k] == table[k]
  {
    match Find(table, id)
    case None => (false, table)
    case Some(_) => Delete(table, id)
  }
}
