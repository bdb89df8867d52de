/** The connection handle and the record of the steps the request handlers
    take on the cache, the pool and the store.

    Every operation of the cache, the pool and the store statements appends
    its own step to a shared `Log`, so the order of the steps in the log is
    the order in which the operations were called. */
module Trace {
  import opened Common

  /** An established connection to the store. */
  datatype Conn = Conn(id: nat)

  /** One step a handler takes on the cache, the pool or the store. */
  datatype Step =
    | CacheLookup(key: int, hit: bool)
    | Acquired(got: Option<Conn>)
    | Upserted(key: int, value: string, ok: bool)
    | Selected(key: int, row: Option<string>)
    | RowDeleted(key: int, ok: bool)
    | Released(returned: Conn)
    | CachePut(key: int, value: string)
    | CacheRemove(key: int)
  {
    predicate WritesCache() {
      CachePut? || CacheRemove?
    }

    predicate StoreSucceeded() {
      (Upserted? && ok) || (Selected? && row.Some?) || (RowDeleted? && ok)
    }
  }

  /** The steps taken so far, oldest first. */
  class Log {
    ghost var steps: seq<Step>

    constructor ()
      ensures steps == []
    {
      steps := [];
    }
  }
}
