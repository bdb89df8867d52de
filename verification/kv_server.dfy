/** The create, read and delete request handlers: cache-aside coordination
    of the LRU cache, the connection pool and the backing store.

    The store is a map from key to value. The outcome of each SQL statement is
    a parameter: whether the upsert or the delete succeeded, whether the select
    succeeded (a select that succeeds returns the store's row for the key, if
    any). `Service` is the abstract state; its `Create`, `Read` and `Delete` say
    what each handler answers, what state it leaves and which steps it takes in
    which order. The class `KvServer` runs the same handlers step by step
    against an `LRUCache` and a `DBPool` object and its own store-statement
    methods; each of those calls logs its step, so the proof that a handler's
    log grows by the function's steps checks the order of its calls. */
module KvServer {
  import opened Common
  import opened Trace
  import opened LruCache
  import opened DbPool

  /** The status code and body a handler answers with. */
  datatype Response = Response(status: int, body: string)

  const NoConnection := Response(503, "Database connection failed")
  const NotFound := Response(404, "Key not found")
  const Created := Response(200, "Created")
  const Deleted := Response(200, "Deleted")
  const MissingKey := Response(400, "Missing key parameter")
  const MissingKeyOrValue := Response(400, "Missing key or value parameter")

  /** A store error is reported with the store's own message. */
  function StoreError(message: string): Response {
    Response(500, "Error: " + message)
  }

  /** Every connection taken from the pool is handed back later in the same
      handler. */
  predicate ReleasesEveryConnection(steps: seq<Step>) {
    forall i :: 0 <= i < |steps| && steps[i].Acquired? && steps[i].got.Some? ==>
      Released(steps[i].got.value) in steps[i + 1..]
  }

  /** The cache is written only after a store operation has succeeded. */
  predicate CacheWrittenAfterStore(steps: seq<Step>) {
    forall i :: 0 <= i < |steps| && steps[i].WritesCache() ==>
      exists j :: 0 <= j < i && steps[j].StoreSucceeded()
  }

  /** No connection is taken from the pool. */
  predicate AcquiresNothing(steps: seq<Step>) {
    forall i :: 0 <= i < |steps| ==> !steps[i].Acquired?
  }

  /** The cache is written only after the connection has been handed back. */
  predicate ReleasedBeforeCacheWrite(steps: seq<Step>) {
    forall i :: 0 <= i < |steps| && steps[i].WritesCache() ==>
      exists j :: 0 <= j < i && steps[j].Released?
  }

  /** What a handler answers, the state it leaves and the steps it took. */
  datatype Outcome = Outcome(response: Response, after: Service, steps: seq<Step>)

  datatype Service = Service(cache: Cache, pool: Pool, store: map<int, string>) {

    predicate Valid() {
      cache.Valid() && pool.Valid() && CacheAgrees()
    }

    /** Every cached key holds the value the store holds for it: the cache is
        never stale, only incomplete. */
    predicate CacheAgrees() {
      forall k :: k in cache.entries ==> k in store && cache.entries[k] == store[k]
    }

    /** POST /create as received: a request without a key or without a value
        is refused before anything is touched. */
    function CreateRequest(key: Option<int>, value: Option<string>, upsertOk: bool, error: string): (o: Outcome)
      requires Valid()
      ensures o.after.Valid() && o.after.pool == pool
      ensures key.None? || value.None? ==> o.response == MissingKeyOrValue && o.after == this && o.steps == []
      ensures key.Some? && value.Some? ==> o.response != MissingKeyOrValue
    {
      if key.None? || value.None? then Outcome(MissingKeyOrValue, this, [])
      else Create(key.value, value.value, upsertOk, error)
    }

    /** GET /read as received: a request without a key is refused. */
    function ReadRequest(key: Option<int>, selectOk: bool): (o: Outcome)
      requires Valid()
      ensures o.after.Valid() && o.after.pool == pool && o.after.store == store
      ensures key.None? ==> o.response == MissingKey && o.after == this && o.steps == []
      ensures key.Some? ==> o.response != MissingKey
    {
      if key.None? then Outcome(MissingKey, this, []) else Read(key.value, selectOk)
    }

    /** DELETE /delete as received: a request without a key is refused. */
    function DeleteRequest(key: Option<int>, deleteOk: bool, error: string): (o: Outcome)
      requires Valid()
      ensures o.after.Valid() && o.after.pool == pool
      ensures key.None? ==> o.response == MissingKey && o.after == this && o.steps == []
      ensures key.Some? ==> o.response != MissingKey
    {
      if key.None? then Outcome(MissingKey, this, []) else Delete(key.value, deleteOk, error)
    }

    /** POST /create: acquire a connection, upsert the row, release the
        connection, and only when the upsert succeeded put the pair in the
        cache. */
    function Create(key: int, value: string, upsertOk: bool, error: string): (o: Outcome)
      requires Valid()
      ensures o.after.Valid() && o.after.pool == pool
      ensures o.response.status != 400
      ensures pool.idle == [] ==> o.response == NoConnection && o.after == this
      ensures pool.idle != [] && upsertOk ==>
                && o.response == Created
                && o.after.store == store[key := value]
                && o.after.cache == cache.Put(key, value)
      ensures pool.idle != [] && !upsertOk ==> o.response == StoreError(error) && o.after == this
    {
      var acquired := pool.Acquire();
      if acquired.0.None? then
        Outcome(NoConnection, this, [Acquired(None)])
      else
        var c := acquired.0.value;
        AcquireRelease(pool);
        var returned := acquired.1.Release(c);
        var steps := [Acquired(acquired.0), Upserted(key, value, upsertOk), Released(c)];
        if upsertOk then
          PutChangesOnlyKey(cache, key, value);
          Outcome(Created, Service(cache.Put(key, value), returned, store[key := value]),
                  steps + [CachePut(key, value)])
        else
          Outcome(StoreError(error), this, steps)
    }

    /** GET /read: a cache hit answers at once without a connection; a miss
        reads through to the store. */
    function Read(key: int, selectOk: bool): (o: Outcome)
      requires Valid()
      ensures o.after.Valid() && o.after.pool == pool && o.after.store == store
      ensures o.response.status == 200 ==> key in store && o.response.body == store[key]
      ensures key in cache.entries ==>
                && o.response == Response(200, cache.entries[key])
                && o.after.cache == cache.Get(key).1
                && o.steps == [CacheLookup(key, true)]
      ensures key !in cache.entries ==>
                var through := ReadThrough(key, selectOk);
                && o.response == through.response && o.after == through.after
                && o.steps == [CacheLookup(key, false)] + through.steps
    {
      var looked := cache.Get(key);
      if looked.0.Some? then
        Outcome(Response(200, looked.0.value), this.(cache := looked.1), [CacheLookup(key, true)])
      else
        var through := ReadThrough(key, selectOk);
        through.(steps := [CacheLookup(key, false)] + through.steps)
    }

    /** The cache-miss half of GET /read: acquire a connection, select the
        row, put a found row in the cache, then release the connection. A
        failed select is answered like a missing row. */
    function ReadThrough(key: int, selectOk: bool): (o: Outcome)
      requires Valid() && key !in cache.entries
      ensures o.after.Valid() && o.after.pool == pool && o.after.store == store
      ensures pool.idle == [] ==> o.response == NoConnection && o.after == this
      ensures pool.idle != [] && selectOk && key in store ==>
                && o.response == Response(200, store[key])
                && o.after.cache == cache.Put(key, store[key])
      ensures pool.idle != [] && !(selectOk && key in store) ==>
                o.response == NotFound && o.after == this
    {
      var acquired := pool.Acquire();
      if acquired.0.None? then
        Outcome(NoConnection, this, [Acquired(None)])
      else
        var c := acquired.0.value;
        AcquireRelease(pool);
        var returned := acquired.1.Release(c);
        if selectOk && key in store then
          var value := store[key];
          PutChangesOnlyKey(cache, key, value);
          Outcome(Response(200, value), Service(cache.Put(key, value), returned, store),
                  [Acquired(acquired.0), Selected(key, Some(value)), CachePut(key, value), Released(c)])
        else
          Outcome(NotFound, this, [Acquired(acquired.0), Selected(key, None), Released(c)])
    }

    /** DELETE /delete: acquire a connection, delete the row, release the
        connection, and only when the delete succeeded remove the key from the
        cache. */
    function Delete(key: int, deleteOk: bool, error: string): (o: Outcome)
      requires Valid()
      ensures o.after.Valid() && o.after.pool == pool
      ensures o.response.status != 400
      ensures pool.idle == [] ==> o.response == NoConnection && o.after == this
      ensures pool.idle != [] && deleteOk ==>
                && o.response == Deleted
                && o.after.store == store - {key}
                && o.after.cache == cache.Remove(key)
      ensures pool.idle != [] && !deleteOk ==> o.response == StoreError(error) && o.after == this
    {
      var acquired := pool.Acquire();
      if acquired.0.None? then
        Outcome(NoConnection, this, [Acquired(None)])
      else
        var c := acquired.0.value;
        AcquireRelease(pool);
        var returned := acquired.1.Release(c);
        var steps := [Acquired(acquired.0), RowDeleted(key, deleteOk), Released(c)];
        if deleteOk then
          Outcome(Deleted, Service(cache.Remove(key), returned, store - {key}),
                  steps + [CacheRemove(key)])
        else
          Outcome(StoreError(error), this, steps)
    }
  }

  /** The shape of a write handler's steps once it holds connection `c`: the
      statement, the release, then possibly one cache write, which needs the
      statement to have succeeded. */
  lemma WriteStepsOrdered(c: Conn, statement: Step, cacheWrite: seq<Step>)
    requires !statement.Acquired? && !statement.Released? && !statement.WritesCache()
    requires cacheWrite == [] || (cacheWrite == [cacheWrite[0]] && cacheWrite[0].WritesCache()
                                  && statement.StoreSucceeded())
    ensures var steps := [Acquired(Some(c)), statement, Released(c)] + cacheWrite;
            && ReleasesEveryConnection(steps)
            && CacheWrittenAfterStore(steps)
            && ReleasedBeforeCacheWrite(steps)
  {
    var steps := [Acquired(Some(c)), statement, Released(c)] + cacheWrite;
    assert steps[2..][0] == Released(c);
    forall i | 0 <= i < |steps| && steps[i].WritesCache()
      ensures steps[1].StoreSucceeded() && steps[2].Released? && 2 < i
    {
      assert i == 3;
    }
  }

  /** Create hands back every connection it takes, and writes the cache only
      after the upsert has succeeded and the connection has been released. */
  lemma CreateOrder(s: Service, key: int, value: string, upsertOk: bool, error: string)
    requires s.Valid()
    ensures var steps := s.Create(key, value, upsertOk, error).steps;
            && ReleasesEveryConnection(steps)
            && CacheWrittenAfterStore(steps)
            && ReleasedBeforeCacheWrite(steps)
  {
    if s.pool.idle != [] {
      var c := s.pool.idle[|s.pool.idle| - 1];
      WriteStepsOrdered(c, Upserted(key, value, upsertOk), if upsertOk then [CachePut(key, value)] else []);
    }
  }

  /** Delete hands back every connection it takes, and removes the key from
      the cache only after the delete has succeeded and the connection has
      been released. */
  lemma DeleteOrder(s: Service, key: int, deleteOk: bool, error: string)
    requires s.Valid()
    ensures var steps := s.Delete(key, deleteOk, error).steps;
            && ReleasesEveryConnection(steps)
            && CacheWrittenAfterStore(steps)
            && ReleasedBeforeCacheWrite(steps)
  {
    if s.pool.idle != [] {
      var c := s.pool.idle[|s.pool.idle| - 1];
      WriteStepsOrdered(c, RowDeleted(key, deleteOk), if deleteOk then [CacheRemove(key)] else []);
    }
  }

  /** Read hands back every connection it takes and caches only a row the
      select returned; a hit takes no connection at all. */
  lemma ReadOrder(s: Service, key: int, selectOk: bool)
    requires s.Valid()
    ensures var steps := s.Read(key, selectOk).steps;
            && ReleasesEveryConnection(steps)
            && CacheWrittenAfterStore(steps)
            && (key in s.cache.entries ==> AcquiresNothing(steps))
  {
    if key !in s.cache.entries && s.pool.idle != [] {
      var c := s.pool.idle[|s.pool.idle| - 1];
      var through := s.ReadThrough(key, selectOk).steps;
      if selectOk && key in s.store {
        var value := s.store[key];
        assert through == [Acquired(Some(c)), Selected(key, Some(value))] + [CachePut(key, value)] + [Released(c)];
        ReadStepsOrdered(key, c, Some(value), [CachePut(key, value)]);
      } else {
        assert through == [Acquired(Some(c)), Selected(key, None)] + [] + [Released(c)];
        ReadStepsOrdered(key, c, None, []);
      }
    }
  }

  /** The shape of a read miss's steps once it holds connection `c`: the
      select, possibly one cache write, which needs the select to have found
      a row, then the release. */
  lemma ReadStepsOrdered(key: int, c: Conn, row: Option<string>, cacheWrite: seq<Step>)
    requires cacheWrite == [] || (row.Some? && cacheWrite == [CachePut(key, row.value)])
    ensures var steps := [CacheLookup(key, false)] + ([Acquired(Some(c)), Selected(key, row)] + cacheWrite + [Released(c)]);
            && ReleasesEveryConnection(steps)
            && CacheWrittenAfterStore(steps)
  {
    var steps := [CacheLookup(key, false)] + ([Acquired(Some(c)), Selected(key, row)] + cacheWrite + [Released(c)]);
    var last := |steps| - 1;
    assert steps[last] == Released(c) && steps[last..][0] == steps[last];
    forall i | 0 <= i < |steps| && steps[i].WritesCache()
      ensures steps[2].StoreSucceeded() && 2 < i
    {
      assert i == 3;
    }
  }

  /** Unlike create and delete, a read that finds the row fills the cache
      while it still holds the connection. */
  lemma ReadFillsCacheBeforeRelease(s: Service, key: int, selectOk: bool)
    requires s.Valid() && key !in s.cache.entries && s.pool.idle != []
    requires selectOk && key in s.store
    ensures !ReleasedBeforeCacheWrite(s.Read(key, selectOk).steps)
  {
    var steps := s.Read(key, selectOk).steps;
    assert steps[3].WritesCache();
    assert !steps[0].Released? && !steps[1].Released? && !steps[2].Released?;
  }

  /** A value just created is read back from the cache without taking a
      connection, whatever the store would answer. */
  lemma CreateThenRead(s: Service, key: int, value: string, error: string, selectOk: bool)
    requires s.Valid() && s.pool.idle != []
    ensures var after := s.Create(key, value, true, error).after;
            && after.Read(key, selectOk).response == Response(200, value)
            && AcquiresNothing(after.Read(key, selectOk).steps)
  {
    var after := s.Create(key, value, true, error).after;
    ReadOrder(after, key, selectOk);
  }

  /** Once a key is deleted, reading it answers 404 and leaves everything as
      it was. */
  lemma DeleteThenRead(s: Service, key: int, error: string, selectOk: bool)
    requires s.Valid() && s.pool.idle != []
    ensures var after := s.Delete(key, true, error).after;
            && after.Read(key, selectOk).response == NotFound
            && after.Read(key, selectOk).after == after
  {
  }

  /** Reading a key the store does not hold never answers 200 and never
      fills the cache. */
  lemma ReadMissingKey(s: Service, key: int, selectOk: bool)
    requires s.Valid() && key !in s.store
    ensures var o := s.Read(key, selectOk);
            && (o.response == NotFound || o.response == NoConnection)
            && o.after == s
  {
  }

  /** Of two successful creates of one key, a later read sees the second
      value. */
  lemma LastWriterWins(s: Service, key: int, first: string, second: string, error: string, selectOk: bool)
    requires s.Valid() && s.pool.idle != []
    ensures var once := s.Create(key, first, true, error).after;
            var twice := once.Create(key, second, true, error).after;
            && twice.store[key] == second
            && twice.Read(key, selectOk).response == Response(200, second)
  {
    var once := s.Create(key, first, true, error).after;
    CreateThenRead(once, key, second, error, selectOk);
  }

  /** One request as it reaches the service: its parameters and the outcome
      the store will give it. */
  datatype Request =
    | CreateReq(key: Option<int>, value: Option<string>, ok: bool, error: string)
    | ReadReq(key: Option<int>, ok: bool)
    | DeleteReq(key: Option<int>, ok: bool, error: string)

  /** What a request does to the store, given whether a connection is
      available: only a well-formed create or delete whose statement
      succeeds writes anything. */
  function WriteEffect(store: map<int, string>, connected: bool, r: Request): map<int, string> {
    match r
    case CreateReq(Some(k), Some(v), true, _) => if connected then store[k := v] else store
    case DeleteReq(Some(k), true, _) => if connected then store - {k} else store
    case _ => store
  }

  /** The store after a sequence of requests, computed from the requests alone. */
  function Written(store: map<int, string>, connected: bool, reqs: seq<Request>): map<int, string>
    decreases |reqs|
  {
    if reqs == [] then store else Written(WriteEffect(store, connected, reqs[0]), connected, reqs[1..])
  }

  /** Dispatches one request to its handler. */
  function Handle(s: Service, r: Request): (o: Outcome)
    requires s.Valid()
    ensures o.after.Valid() && o.after.pool == s.pool
    ensures o.after.store == WriteEffect(s.store, s.pool.idle != [], r)
  {
    match r
    case CreateReq(key, value, ok, error) => s.CreateRequest(key, value, ok, error)
    case ReadReq(key, ok) => s.ReadRequest(key, ok)
    case DeleteReq(key, ok, error) => s.DeleteRequest(key, ok, error)
  }

  /** The service after handling the requests one after another. */
  function Serve(s: Service, reqs: seq<Request>): (r: Service)
    requires s.Valid()
    ensures r.Valid() && r.pool == s.pool
    decreases |reqs|
  {
    if reqs == [] then s else Serve(Handle(s, reqs[0]).after, reqs[1..])
  }

  /** Whatever the cache did along the way, the store ends up exactly as the
      successful writes alone leave it. */
  lemma {:induction false} ServeStore(s: Service, reqs: seq<Request>)
    requires s.Valid()
    ensures Serve(s, reqs).store == Written(s.store, s.pool.idle != [], reqs)
    decreases |reqs|
  {
    if reqs != [] {
      ServeStore(Handle(s, reqs[0]).after, reqs[1..]);
    }
  }

  /** After any sequence of requests, a read that answers 200 answers with the
      value the last successful write of that key left. */
  lemma ServeThenRead(s: Service, reqs: seq<Request>, key: int, selectOk: bool)
    requires s.Valid()
    ensures var o := Serve(s, reqs).Read(key, selectOk);
            var store := Written(s.store, s.pool.idle != [], reqs);
            o.response.status == 200 ==> key in store && o.response.body == store[key]
  {
    ServeStore(s, reqs);
  }

  /** The service object: the shared cache and pool, and the store they front.
      Every call on the cache, the pool and the store appends its step to the
      ghost log, so the log holds the steps the handlers took, in order. */
  class KvServer {
    const cache: LRUCache
    const pool: DBPool
    var store: map<int, string>
    ghost const log: Log

    ghost function View(): Service
      reads this, cache, pool
    {
      Service(cache.View(), pool.View(), store)
    }

    ghost predicate Valid()
      reads this, cache, pool
    {
      View().Valid()
    }

    constructor (cache: LRUCache, pool: DBPool, ghost log: Log, store: map<int, string>)
      requires Service(cache.View(), pool.View(), store).Valid()
      ensures Valid()
      ensures this.cache == cache && this.pool == pool && this.log == log && this.store == store
    {
      this.cache := cache;
      this.pool := pool;
      this.log := log;
      this.store := store;
    }

    /** The upsert statement: stores the pair, replacing the value of a stored
        key, when it succeeds; a failed statement changes nothing. */
    method Upsert(key: int, value: string, ok: bool)
      modifies this, log
      ensures store == if ok then old(store)[key := value] else old(store)
      ensures log.steps == old(log.steps) + [Upserted(key, value, ok)]
    {
      if ok {
        store := store[key := value];
      }
      log.steps := log.steps + [Upserted(key, value, ok)];
    }

    /** The select statement: the stored value of the key, when the statement
        succeeds and finds a row. */
    method SelectRow(key: int, ok: bool) returns (row: Option<string>)
      modifies log
      ensures row.Some? <==> ok && key in store
      ensures row.Some? ==> row.value == store[key]
      ensures log.steps == old(log.steps) + [Selected(key, row)]
    {
      if ok && key in store {
        row := Some(store[key]);
      } else {
        row := None;
      }
      log.steps := log.steps + [Selected(key, row)];
    }

    /** The delete statement: removes the key's row, if any, when it
        succeeds; a failed statement changes nothing. */
    method DeleteRow(key: int, ok: bool)
      modifies this, log
      ensures store == if ok then old(store) - {key} else old(store)
      ensures log.steps == old(log.steps) + [RowDeleted(key, ok)]
    {
      if ok {
        store := store - {key};
      }
      log.steps := log.steps + [RowDeleted(key, ok)];
    }

    method CreateRequest(key: Option<int>, value: Option<string>, upsertOk: bool, error: string)
      returns (res: Response)
      requires Valid()
      modifies this, cache, pool, log
      ensures Valid()
      ensures var o := old(View()).CreateRequest(key, value, upsertOk, error);
              res == o.response && View() == o.after && log.steps == old(log.steps) + o.steps
    {
      if key.None? || value.None? {
        return MissingKeyOrValue;
      }
      res := Create(key.value, value.value, upsertOk, error);
    }

    method ReadRequest(key: Option<int>, selectOk: bool) returns (res: Response)
      requires Valid()
      modifies this, cache, pool, log
      ensures Valid()
      ensures var o := old(View()).ReadRequest(key, selectOk);
              res == o.response && View() == o.after && log.steps == old(log.steps) + o.steps
    {
      if key.None? {
        return MissingKey;
      }
      res := Read(key.value, selectOk);
    }

    method DeleteRequest(key: Option<int>, deleteOk: bool, error: string) returns (res: Response)
      requires Valid()
      modifies this, cache, pool, log
      ensures Valid()
      ensures var o := old(View()).DeleteRequest(key, deleteOk, error);
              res == o.response && View() == o.after && log.steps == old(log.steps) + o.steps
    {
      if key.None? {
        return MissingKey;
      }
      res := Delete(key.value, deleteOk, error);
    }

    method Create(key: int, value: string, upsertOk: bool, error: string) returns (res: Response)
      requires Valid()
      modifies this, cache, pool, log
      ensures Valid()
      ensures var o := old(View()).Create(key, value, upsertOk, error);
              res == o.response && View() == o.after && log.steps == old(log.steps) + o.steps
    {
      ghost var s := View();
      ghost var o := s.Create(key, value, upsertOk, error);
      ghost var start := log.steps;
      var conn := pool.GetConnection(log);
      if conn.None? {
        return NoConnection;
      }
      var c := conn.value;
      Upsert(key, value, upsertOk);
      pool.ReleaseConnection(c, log);
      assert pool.View() == s.pool by {
        AcquireRelease(s.pool);
      }
      if upsertOk {
        cache.Put(key, value, log);
        res := Created;
      } else {
        res := StoreError(error);
      }
      assert log.steps == start + o.steps;
      assert View() == o.after;
    }

    method Read(key: int, selectOk: bool) returns (res: Response)
      requires Valid()
      modifies this, cache, pool, log
      ensures Valid()
      ensures var o := old(View()).Read(key, selectOk);
              res == o.response && View() == o.after && log.steps == old(log.steps) + o.steps
    {
      ghost var start := log.steps;
      var hit, value := cache.Get(key, log);
      if hit {
        return Response(200, value);
      }
      res := ReadThrough(key, selectOk);
      assert log.steps == start + ([CacheLookup(key, false)] + log.steps[|start| + 1..]);
    }

    method ReadThrough(key: int, selectOk: bool) returns (res: Response)
      requires Valid() && key !in cache.View().entries
      modifies this, cache, pool, log
      ensures Valid()
      ensures var o := old(View()).ReadThrough(key, selectOk);
              res == o.response && View() == o.after && log.steps == old(log.steps) + o.steps
    {
      ghost var s := View();
      ghost var o := s.ReadThrough(key, selectOk);
      ghost var start := log.steps;
      var conn := pool.GetConnection(log);
      if conn.None? {
        return NoConnection;
      }
      var c := conn.value;
      var row := SelectRow(key, selectOk);
      if row.Some? {
        cache.Put(key, row.value, log);
        res := Response(200, row.value);
      } else {
        res := NotFound;
      }
      pool.ReleaseConnection(c, log);
      assert pool.View() == s.pool by {
        AcquireRelease(s.pool);
      }
      assert log.steps == start + o.steps;
      assert View() == o.after;
    }

    method Delete(key: int, deleteOk: bool, error: string) returns (res: Response)
      requires Valid()
      modifies this, cache, pool, log
      ensures Valid()
      ensures var o := old(View()).Delete(key, deleteOk, error);
              res == o.response && View() == o.after && log.steps == old(log.steps) + o.steps
    {
      ghost var s := View();
      ghost var o := s.Delete(key, deleteOk, error);
      ghost var start := log.steps;
      var conn := pool.GetConnection(log);
      if conn.None? {
        return NoConnection;
      }
      var c := conn.value;
      DeleteRow(key, deleteOk);
      pool.ReleaseConnection(c, log);
      assert pool.View() == s.pool by {
        AcquireRelease(s.pool);
      }
      if deleteOk {
        cache.Remove(key, log);
        res := Deleted;
      } else {
        res := StoreError(error);
      }
      assert log.steps == start + o.steps;
      assert View() == o.after;
    }
  }
}
