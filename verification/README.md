# KV-Server in Dafny

A verified model of the core of KV-Server. This is a key-value service that puts a
bounded least-recently-used cache in front of a relational store. The store is
reached through a small, fixed pool of database connections. The model has three parts:

- `LruCache` (`lru_cache.dfy`) models the `LRUCache` class: a hash map from `int`
  keys to `string` values plus a recency list, most recently used key first.
  - `Cache` is the abstract state, and its member functions say what `get`, `put` and `remove` do to it.
  - The class `LRUCache` keeps the same state in fields and changes it in place. Each method is proved equal to the matching function.
  - The list iterator that the original keeps beside each entry is modelled as the key's position in the recency list.
- `DbPool` (`db_pool.dfy`) models the `DBPool` class: a stack (vector) of idle
  connections.
  - Connections are opaque ids. The ghost bookkeeping is the set of connections currently checked out and the set the pool owns.
  - `Pool` is the abstract state. The class `DBPool` pops and pushes its vector.
  - The constructor's connection attempts become a sequence of success flags.
- `KvServer` (`kv_server.dfy`) models the three HTTP handlers `/create`, `/read` and
  `/delete`, lifted to operations over the cache, the pool and the store.
  - The store is a `map<int, string>`.
  - The outcome of each SQL statement is a parameter, because it comes from the database library:
    - whether the upsert or the delete succeeded, and the error text when it did not;
    - whether the select succeeded. A select that succeeds returns the store's row for the key, if there is one.
  - `Service` holds the cache, the pool and the store. Its functions give each handler's response and the state it leaves, plus the ordered list of steps it takes (cache lookup, acquire, statement, release, cache write).
  - The class `KvServer` runs the handlers step by step against an `LRUCache`, a `DBPool` and three store-statement methods (upsert, select, delete). Each method is proved to give the same response and state as the matching function, and the steps its calls log are proved to be the function's steps, in the same order.

`trace.dfy` holds the connection handle, the `Step` type and a ghost `Log` object. Every cache, pool and store-statement method appends its own step to the log it is given. The log's order is therefore the order in which the handler made its calls.

`common.dfy` holds an `Option` type and facts about sequences without repetitions.

Invariants kept by every operation:

- The cache's map keys and its recency list hold the same keys, each once, and there are never more than `capacity` of them (`Cache.Valid`).
- The idle connections and the checked-out ones are disjoint and together make up every connection the pool owns (`Pool.Valid`).
- Every cached key holds the value the store holds for it (`Service.CacheAgrees`). The cache can miss a key, but in the model it never holds a stale value. This rests on the store receiving exactly the key and value that the cache receives (see "Left out").

What the handlers do, in the code's order:

- `/create` and `/delete` hand the connection back to the pool first, and only then write the cache (server.cpp:167-170, 259-262).
  - `CreateOrder` and `DeleteOrder` state this order.
- `/read` on a miss does it the other way round. It puts the found row into the cache while it still holds the connection, and hands the connection back afterwards (server.cpp:214, 220).
  - `ReadFillsCacheBeforeRelease` states this.
- `/read` answers a select that fails exactly as it answers a missing row: 404 "Key not found". It is not reported as a store error (server.cpp:211-217, 226-227).
- `put` into a full cache reads `lru_list.back()`. With capacity 0 that list is empty and the read is undefined, so the model requires `capacity >= 1` (server.cpp:50).

## Model

| member | source | states |
|---|---|---|
| LruCache.Cache.Get | server.cpp:26-37 | hit iff the key is stored; a hit returns the stored value, leaves every value as it was and puts the key in front; a miss changes nothing |
| LruCache.Cache.Put | server.cpp:40-57 | afterwards the key holds the new value, is the most recently used key, and the cache is still valid with the same capacity |
| LruCache.Cache.EvictLru | server.cpp:50-52 | eviction takes exactly the back of the recency list out of the list and the map |
| LruCache.Cache.PushFront | server.cpp:54-55 | a new key with room goes into the map and in front of the list |
| LruCache.Cache.Remove | server.cpp:59-66 | the key is gone from map and list; removing an absent key is a no-op |
| LruCache.Cache.MoveToFront | server.cpp:32-34 | a stored key goes in front, the map is unchanged, the cache stays valid |
| LruCache.Empty | server.cpp:24 | a new cache is valid and empty |
| LruCache.SizeBound | server.cpp:68-71 | the list is as long as the map is large, and both are at most the capacity |
| LruCache.MoveToFrontOrder | server.cpp:32-34 | the touched key is cut from its position and put in front; the other keys keep their relative order |
| LruCache.RemoveOrder | server.cpp:62-63 | removing a stored key cuts exactly its position out of the list |
| LruCache.GetHit | server.cpp:26-37 | a hit returns the stored value, keeps all values, and reorders the list only by moving the key to the front |
| LruCache.PutStored | server.cpp:44-47 | put of a stored key replaces its value, evicts nothing, keeps the size, and only moves the key to the front |
| LruCache.PutWithRoom | server.cpp:54-55 | put of a new key with room adds exactly that key, in front, and evicts nothing |
| LruCache.PutWhenFull | server.cpp:49-56 | put of a new key into a full cache evicts exactly the least recently used key and then inserts in front; the size stays at capacity |
| LruCache.PutChangesOnlyKey | server.cpp:40-57 | put changes no other key's value and brings in no other key |
| LruCache.GetProtectsFromEviction | server.cpp:26-56 | when the capacity is at least two, a key just read survives the next put of a new key |
| LruCache.PutEach | server.cpp:40-57 | any run of puts keeps the cache valid at the same capacity |
| LruCache.FillWithoutEviction | server.cpp:54-55 | distinct new keys put while there is room end up in front in reverse order, before the old list |
| LruCache.PutEachAppend | server.cpp:40-57 | putting two runs of keys one after the other is putting their concatenation |
| LruCache.FillFromEmpty | server.cpp:49-56 | putting `capacity` distinct keys into an empty cache fills it, with the first key the least recently used |
| LruCache.OverfillEvictsOldest | server.cpp:49-56 | putting `capacity + 1` distinct keys into an empty cache evicts exactly the first, whose get then misses; all others stay |
| LruCache.LRUCache.constructor | server.cpp:24 | a new cache object is valid and empty |
| LruCache.LRUCache.Get | server.cpp:26-37 | found iff the key was stored, with its value; the new state is `Cache.Get`'s; logs the lookup and whether it hit |
| LruCache.LRUCache.Put | server.cpp:40-57 | the in-place erase, push_front, pop_back and map updates leave exactly `Cache.Put`'s state; logs the put |
| LruCache.LRUCache.Remove | server.cpp:59-66 | the in-place erase leaves exactly `Cache.Remove`'s state; logs the remove |
| LruCache.LRUCache.Size | server.cpp:68-71 | returns the number of entries, which is the list length and at most the capacity |
| DbPool.Pool.Acquire | server.cpp:111-117 | nothing is returned iff no connection is idle; otherwise the top of the stack is popped, returned and marked checked out, and the partition is kept |
| DbPool.Pool.Release | server.cpp:119-122 | a checked-out connection is pushed back on the stack and no longer checked out; the partition is kept |
| DbPool.AcquireTimes | server.cpp:111-117 | any run of acquisitions keeps the pool valid and owning the same connections |
| DbPool.AcquireRelease | server.cpp:111-122 | acquiring and then releasing what was got restores the pool exactly |
| DbPool.ReleaseAcquire | server.cpp:111-122 | after a release the next acquire succeeds and hands out that same connection (last in, first out) |
| DbPool.AcquireTimesPops | server.cpp:111-117 | `n` acquisitions in a row pop the top `n` idle connections |
| DbPool.Exhaustion | server.cpp:111-117 | with `N` idle connections, the first `N` acquisitions succeed in stack order and the next one reports exhaustion |
| DbPool.Established | server.cpp:83-92 | the pool keeps exactly the attempts that connected, each once, in the order they were made |
| DbPool.DBPool.constructor | server.cpp:83-92 | the new pool is valid, holds the established connections as idle and has none checked out |
| DbPool.DBPool.GetConnection | server.cpp:111-117 | the pop leaves exactly `Pool.Acquire`'s result and state; logs the acquisition |
| DbPool.DBPool.ReleaseConnection | server.cpp:119-122 | the push leaves exactly `Pool.Release`'s state; logs the release |
| KvServer.Service.CreateRequest | server.cpp:138-143 | a create without key or value answers 400 and touches nothing |
| KvServer.Service.ReadRequest | server.cpp:180-185 | a read without key answers 400 and touches nothing; a read with a key never answers that 400 |
| KvServer.Service.DeleteRequest | server.cpp:232-237 | a delete without key answers 400 and touches nothing |
| KvServer.Service.Create | server.cpp:151-176 | no idle connection gives 503 and nothing changes; a successful upsert gives 200 "Created", stores the value and caches it; a failed one gives 500 with the message and nothing changes; the pool is restored and the cache agrees with the store |
| KvServer.Service.Read | server.cpp:191-228 | a hit answers 200 with the cached value and only refreshes recency; any 200 answers the store's value for the key; a miss behaves as `ReadThrough` |
| KvServer.Service.ReadThrough | server.cpp:197-228 | no idle connection gives 503; a found row gives 200 with the store's value and is put into the cache; otherwise 404 "Key not found" with nothing changed; the pool is restored and the store untouched |
| KvServer.Service.Delete | server.cpp:243-268 | no idle connection gives 503; a successful delete gives 200 "Deleted" and removes the key from store and cache; a failed one gives 500 with the message and nothing changes |
| KvServer.CreateOrder | server.cpp:151-176 | create releases every connection it takes, and writes the cache only after a successful upsert and after the release |
| KvServer.DeleteOrder | server.cpp:243-268 | delete releases every connection it takes, and removes the cached key only after a successful delete and after the release |
| KvServer.ReadOrder | server.cpp:191-228 | read releases every connection it takes, caches only a row the select returned, and takes no connection on a hit |
| KvServer.ReadStepsOrdered | server.cpp:198-220 | a miss holding a connection releases it at the end, and its cache write follows a select that found the row |
| KvServer.ReadFillsCacheBeforeRelease | server.cpp:211-220 | on a miss that finds the row, the cache is written while the connection is still held |
| KvServer.CreateThenRead | server.cpp:151-195 | after a successful create, reading the key answers the new value from the cache without a connection |
| KvServer.DeleteThenRead | server.cpp:191-268 | after a successful delete, reading the key answers 404 and changes nothing |
| KvServer.ReadMissingKey | server.cpp:197-228 | reading a key the store lacks answers 404 or 503 and never fills the cache |
| KvServer.LastWriterWins | server.cpp:151-195 | of two successful creates of one key, the store and a later read hold the second value |
| KvServer.Handle | server.cpp:138-269 | every request keeps the invariants, restores the pool and changes the store exactly by its own write |
| KvServer.Serve | server.cpp:138-269 | any sequence of requests keeps the cache in agreement with the store and restores the pool |
| KvServer.ServeStore | server.cpp:138-269 | after any sequence of requests the store is what the successful writes alone make of it, whatever the cache did |
| KvServer.ServeThenRead | server.cpp:138-269 | after any sequence of requests, a read that answers 200 answers the last successfully written value |
| KvServer.KvServer.constructor | server.cpp:130-131 | the service starts from a valid cache, pool and store, logging to the log it is given |
| KvServer.KvServer.Upsert | server.cpp:158-164 | a successful upsert stores the pair, replacing any old value; a failed one changes nothing; logs the statement |
| KvServer.KvServer.SelectRow | server.cpp:205-217 | a row comes back iff the select succeeds and the key is stored, and it is the stored value; logs the statement with its row |
| KvServer.KvServer.DeleteRow | server.cpp:250-254 | a successful delete removes the key's row; a failed one changes nothing; logs the statement |
| KvServer.KvServer.CreateRequest | server.cpp:138-177 | the handler's response, new state and logged steps are `Service.CreateRequest`'s |
| KvServer.KvServer.ReadRequest | server.cpp:180-229 | the handler's response, new state and logged steps are `Service.ReadRequest`'s |
| KvServer.KvServer.DeleteRequest | server.cpp:232-269 | the handler's response, new state and logged steps are `Service.DeleteRequest`'s |
| KvServer.KvServer.Create | server.cpp:151-176 | calls acquire, upsert, release, then cache put, in that order; the log gains exactly `Service.Create`'s steps, and its response and new state are that function's |
| KvServer.KvServer.Read | server.cpp:191-195 | calls the cache lookup, then on a miss the read-through; the log gains exactly `Service.Read`'s steps, and its response and new state are that function's |
| KvServer.KvServer.ReadThrough | server.cpp:197-228 | calls acquire, select, cache put, then release, in that order; the log gains exactly `Service.ReadThrough`'s steps, and its response and new state are that function's |
| KvServer.KvServer.Delete | server.cpp:243-268 | calls acquire, delete, release, then cache remove, in that order; the log gains exactly `Service.Delete`'s steps, and its response and new state are that function's |

## Left out

- HTTP routing, the server's listening socket and its thread pool (server.cpp:133-135, 271-272). A request arrives as its parameters.
- The text that reaches the store. The cache is given `stoi(key_str)` and the whole value string, but the SQL statements are given the raw key text and the value as NUL-terminated C strings (server.cpp:158, 205, 250). So a value with an embedded NUL character is stored cut short at the NUL but cached whole. A key text such as "12abc" is cached under 12, but the integer column rejects it. The model assumes the store receives exactly the cached key and value, and `Service.CacheAgrees` holds only under that assumption.
- `stoi` parsing of the key (server.cpp:150, 189, 241). The key arrives as an integer. A key text that does not parse throws inside the library, and the model does not capture that.
- libpq: opening connections, executing SQL and reading result status. Each statement's outcome is a parameter, and the select's row comes from the store map.
- Table creation in the pool constructor and the destructor's `PQfinish` (server.cpp:94-109). These are I/O with no effect on the modelled state.
- Logging to `cout` and `cerr`.
- The mutexes and `lock_guard`s (server.cpp:21, 27, 41, 60, 69, 78, 112, 120). Each operation is modelled as atomic, and requests are handled one at a time. Races between concurrent requests on the same key are not modelled.
- `main`'s configuration (pool size 20, capacity 1000) is not fixed in the model. Both are parameters.
- The load-generation scripts.
- DbPool.DBPool.ReleaseConnection: requires the connection to be checked out. The original pushes whatever it is given. A double release is a caller error the model rules out rather than models.
- LruCache.Cache.Put: requires `capacity >= 1` (through `Valid`). Capacity 0 is undefined behaviour in the original.
