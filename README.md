# Sharded key/value store: router and shard tables

This project models the core that five Python scripts share: a key-value
store split over three SQLite shard databases. The router sends an integer
key to shard `key % 3 + 1`, named `shard_<n>`. Each shard holds one table,
`data(key INTEGER PRIMARY KEY, value TEXT)`. On that table the scripts run
`create_db`, `insert_data`, `get_data`, `delete_data` and the show
functions. The variants differ in how an insert treats a key that already
exists, and in when the tables are created:

| script | insert on an existing key | tables created |
|---|---|---|
| UI_Sharding.py | `INSERT OR REPLACE` (last write wins) | by `create_db` at start-up |
| DynaShard.py | `INSERT OR REPLACE` | by `create_db` at import |
| Dynamic_Sharding.py | `INSERT OR REPLACE` | by `create_db` at import |
| Dynamic_Sharding_V2.py | `INSERT`, `IntegrityError` caught (first write wins) | by `insert_data`, lazily |
| Sharding.py | plain `INSERT`, `IntegrityError` raised | by `create_db` at import |

The model is organised as follows:

- `router.dfy` (module `Router`): the router, shard naming and their properties.
- `store.dfy` (module `Store`): the state of the three shards, one `Table`
  each (`Missing`, or `Present` with a `map<int, string>`). It gives one
  function per SQL statement. The conflict rule is the
  parameter `InsertPolicy = OrReplace | OrIgnore | Plain`. A statement on a
  missing table fails with `NoSuchTable`, as SQLite's "no such table" does.
  The module also holds the properties of the store: insert-then-get,
  replace versus keep versus raise, delete, isolation between keys and
  shards, idempotent creation, and scan coverage. `Routed` is the invariant
  that each record lies in the shard its key routes to. Under it, the three
  shards together act as one map (`Contents`).
- `sharded_store.dfy` (module `ShardedDb`): the class `ShardedStore` with
  `const tables: array<Table>` (slot `n - 1` is `shard_n`). Each of its
  methods updates or reads the array the way the script's function does, and
  is proved against the `Store` function for its statement. The object
  invariant `Valid()` includes `Routed`.
- `scenarios.dfy` (module `Scenarios`): the fixed call sequences of the scripts'
  `__main__` blocks. These are Sharding.py's four inserts and lookups, and
  the insert-then-read-back of the console loops.
- `wrappers.dfy`: `Option` and `Result`.

The router needs no normalisation. Python's `%` with divisor 3 is never
negative, and neither is Dafny's, so `key % 3 + 1` carries over directly
and is total over all integers.

Some consequences of the code that the model keeps:

- All three conflict policies occur, and the insert is modelled with each.
- `get_data`, `delete_data` and the show statements raise
  `sqlite3.OperationalError` when the shard's table has not been created.
  This can happen in Dynamic_Sharding_V2.py, where only `insert_data`
  creates tables. The model returns `Err(NoSuchTable(n))` (or
  `Failed(NoSuchTable(n))`) and leaves the state unchanged.
- V2's scan stops at the first missing table, because its error is not
  caught, so only the rows of the shards already shown are listed
  (`ShowAllData`). UI_Sharding.py and DynaShard.py catch the error and go
  on to the next shard (`ShowAllShardData`).

## Model

| member | source | states |
|---|---|---|
| `Router.ShardNumber` | UI_Sharding.py:21-24 | For every integer key, negatives included, the shard number n is in 1..3, and n - 1 is the key's residue modulo 3. |
| `Router.ShardName` | UI_Sharding.py:24 | The f-string `shard_{n}` is `shard_` followed by the one decimal digit of n, 1..3 (read back by `Router.ShardNameRoundTrip`). |
| `Router.ShardForKey` | DynaShard.py:21-24 | `get_shard_for_key` returns one of `shard_1`, `shard_2`, `shard_3`, and the name reads back as the key's shard number. |
| `Router.ShardNameRoundTrip` | Dynamic_Sharding_V2.py:9-10 | Reading back the name `shard_{n}` gives n. |
| `Router.ShardNameInjective` | Dynamic_Sharding_V2.py:73-76 | Two shard names are equal exactly when the shard numbers are, so shards 1..3 address three distinct databases. |
| `Router.SameShardIffCongruent` | UI_Sharding.py:23 | Two keys go to the same shard if and only if they are congruent modulo 3. |
| `Router.ShardNumberPeriodic` | Dynamic_Sharding.py:22-25 | Adding any multiple of 3 to a key keeps its shard. |
| `Router.EveryShardReachable` | Dynamic_Sharding.py:24 | Every shard n receives a key (key n - 1). |
| `Router.ExampleRoutes` | Sharding.py:53-56 | Keys 1, 2, 3 and 4 go to `shard_2`, `shard_3`, `shard_1` and `shard_2`, and key -1 goes to the same shard as key 2. |
| `Store.CreateTable` | UI_Sharding.py:12-18 | After `CREATE TABLE IF NOT EXISTS`, shard n's table exists and the other shards are unchanged. |
| `Store.CreateAll` | DynaShard.py:17-19 | After the three start-up `create_db` calls, every shard's table exists. |
| `Store.Insert` | UI_Sharding.py:27-33 | An insert changes only the routed shard. An insert that is not applied (ignored duplicate, raised duplicate, missing table) leaves the whole state unchanged. |
| `Store.InsertCreatingTable` | Dynamic_Sharding_V2.py:12-27 | V2's insert leaves the routed shard's table in existence and changes no other shard. |
| `Store.Get` | UI_Sharding.py:38-41 | `SELECT value FROM data WHERE key=?` on the routed shard fails with `NoSuchTable` exactly when that table is missing; otherwise it finds a row exactly when the shard holds the key, and returns its value (and `Store.GetIsLookupInContents` ties it to the whole store). |
| `Store.GetData` | UI_Sharding.py:42-45 | `get_data` fails exactly when the table is missing; otherwise it returns the stored value for a key with a row and `"Data not found"` for a key without one, and any other answer is the stored value (see `Store.GetDataSentinel`). |
| `Store.Delete` | DynaShard.py:45-52 | A delete changes only the routed shard, and a failed delete changes nothing. |
| `Store.FirstMissing` | Dynamic_Sharding_V2.py:73-76 | Gives the index of the first shard, in order 1..3, whose table is missing (3 if none is): all earlier tables exist and that one does not. |
| `Store.KeyOnlyInOwnShard` | Sharding.py:29-33 | Under the routing invariant a key occurs in no shard other than its own. |
| `Store.GetIsLookupInContents` | UI_Sharding.py:36-45 | Under the routing invariant and with the routed table created, the point lookup in the routed shard equals a lookup in the union of all shards. |
| `Store.InsertKeepsRouted` | UI_Sharding.py:29-31 | An insert under any policy keeps every record in the shard its key routes to. |
| `Store.DeleteKeepsRouted` | UI_Sharding.py:50-53 | A delete keeps the routing invariant. |
| `Store.InsertContents` | DynaShard.py:26-32 | Inserting changes the logical key space to `Contents[key := value]` under replace, or for a new key under any policy. It leaves the key space unchanged for an existing key under the other two policies. |
| `Store.DeleteContents` | UI_Sharding.py:48-55 | A delete removes exactly that key from the logical key space and keeps every other key. |
| `Store.CreateTableIdempotent` | UI_Sharding.py:117-119 | Creating a table twice is the same as creating it once, and creation keeps existing rows. |
| `Store.CreateAllIdempotent` | Sharding.py:9-20 | Repeating the start-up creation of all three tables changes nothing. It never loses a row, and it keeps the routing invariant. |
| `Store.MissingTableRejects` | Dynamic_Sharding_V2.py:29-52 | When a shard has no table, its insert without creation, its get and its delete all fail with `NoSuchTable` and leave the state unchanged. Only V2's insert creates the table, and it then stores the value. |
| `Store.ReplaceThenGet` | Dynamic_Sharding.py:27-50 | After `INSERT OR REPLACE` of (k, v), `get_data(k)` returns v, whatever was stored before. |
| `Store.ReplaceTwice` | DynaShard.py:30 | Two replacing inserts of one key give the same state as the second insert alone: one record, holding the second value. |
| `Store.InsertNewKey` | Sharding.py:27-36 | A key the shard does not hold is stored under every policy, and then reads back. |
| `Store.InsertExistingKey` | Dynamic_Sharding_V2.py:20-25 | For a key already present, the ignoring insert returns `Ignored` and the plain insert of Sharding.py:33 fails with `DuplicateKey`. Neither changes any shard. |
| `Store.InsertCreatingTableThenGet` | Dynamic_Sharding_V2.py:12-42 | After V2's insert, a new key is stored and reads back as the new value (`Applied`). An existing key keeps its old value and rows (`Ignored`). |
| `Store.InsertIsolation` | UI_Sharding.py:29 | A get of any other key, on any shard, sees the same result before and after an insert. |
| `Store.GetDataSentinel` | UI_Sharding.py:40-45 | `get_data` returns `"Data not found"` for a key with no row, and the stored value, `""` included, otherwise. A stored `"Data not found"` also reads as the sentinel (`Store.SentinelIsAmbiguous`). |
| `Store.SentinelIsAmbiguous` | DynaShard.py:40-43 | Storing the value `"Data not found"` changes the state, yet `get_data` cannot tell it from an absent key. |
| `Store.DeleteThenGet` | DynaShard.py:45-52 | After `delete_data(k)`, k has no row and `get_data(k)` gives the sentinel; every other key reads as before. |
| `Store.DeleteIdempotent` | Dynamic_Sharding_V2.py:44-54 | Deleting an absent key is a successful no-op, and deleting twice equals deleting once. |
| `Store.ListingHasOneRowPerRecord` | DynaShard.py:54-68 | A shard listing has exactly as many rows as the shard has records, so an empty shard is listed as empty. |
| `Store.ListsShardsExtend` | Dynamic_Sharding_V2.py:73-76 | Appending the listing of shard count + 1 to a listing of shards 1..count gives a listing of shards 1..count + 1. |
| `Store.ScanAllCoversContents` | DynaShard.py:73-76 | In a listing of all three shards, every stored record appears exactly once, under the shard its key routes to, and the listing has nothing else. |
| `ShardedDb.ShardedStore.constructor` | Dynamic_Sharding_V2.py:4-7 | A fresh database directory: three shards, none with a table. |
| `ShardedDb.ShardedStore.CreateDb` | UI_Sharding.py:12-18 | `create_db(shard_n)` takes the state to `Store.CreateTable(old, n)` and keeps the object invariant. |
| `ShardedDb.ShardedStore.CreateAllShards` | DynaShard.py:9-19 | The three `create_db` calls leave every table existing and the key space unchanged. |
| `ShardedDb.ShardedStore.InsertData` | UI_Sharding.py:27-33 | The new state and status are those of `Store.Insert` for the given policy (`OrReplace` in UI_Sharding.py, DynaShard.py and Dynamic_Sharding.py; `Plain` in Sharding.py), and the invariant is kept. |
| `ShardedDb.ShardedStore.InsertDataCreatingTable` | Dynamic_Sharding_V2.py:12-27 | V2's `insert_data`: the new state and status are those of `Store.InsertCreatingTable`. |
| `ShardedDb.ShardedStore.Get` | Dynamic_Sharding_V2.py:29-37 | Returns the routed shard's row for the key, or `NoSuchTable`. When the table exists, this is the lookup of the key in the whole store. The store is not changed. |
| `ShardedDb.ShardedStore.GetData` | UI_Sharding.py:36-45 | `get_data` returns `Store.GetData`: the value, or the sentinel for an absent key, or the missing-table error. The store is not changed. |
| `ShardedDb.ShardedStore.DeleteData` | Dynamic_Sharding_V2.py:44-54 | `delete_data` takes the state to `Store.Delete(old, key)` and keeps the invariant. |
| `ShardedDb.ShardedStore.ShowShardData` | UI_Sharding.py:58-74 | Lists every row of shard n exactly once and nothing else, or reports `NoSuchTable(n)` exactly when the table is missing. |
| `ShardedDb.ShardedStore.ShowAllShardData` | UI_Sharding.py:77-80 | Reports shards 1, 2, 3 in order. For each it gives that shard's full listing, or its missing-table error, and the scan goes on past an error. |
| `ShardedDb.ShardedStore.ShowAllData` | Dynamic_Sharding_V2.py:56-76 | Lists, in shard order, every row of the shards before the first missing table. It then reports that table's error, or no error when all three exist. |
| `Scenarios.ShardingMain` | Sharding.py:52-61 | Start from a fresh directory, create the tables at import, then insert keys 1..4. `get_data` then returns `"UserA"`, `"UserB"`, `"UserC"`, `"UserD"`, and keys 1 and 4 remain distinct records in `shard_2`. |
| `Scenarios.InsertAndReadBack` | DynaShard.py:83-87 | With the tables created at import, the store afterwards is `Store.Insert(old, key, value, OrReplace)`, every table still exists, and the value read back right after `insert_data(key, value)` is `value`. |
| `Scenarios.InsertAndReadBackV2` | Dynamic_Sharding_V2.py:82-86 | In V2, the store afterwards is `Store.InsertCreatingTable(old, key, value)`, and the value read back is the value already stored under the key, or the new value if there was none. |

## Left out

- Console and GUI front-ends are not modelled: the `input()`/`print` loops of every `__main__` block and the tkinter window and handlers of UI_Sharding.py (lines 83-150). The printed messages are presentation; the `Status` and `Result` values stand in for them.
- Parsing keys with `int()` and the `ValueError` handlers are not modelled. The model takes integer keys directly.
- SQLite and file-system mechanics (`os.makedirs`, path joining, `sqlite3.connect`, `commit`, `close`) are replaced by one abstract table per shard. Durability across restarts is not modelled. The scenarios start from a fresh, empty directory, so a run of Sharding.py that meets earlier rows is not covered: one left by an earlier run of itself, or by UI_Sharding.py, DynaShard.py or Dynamic_Sharding.py, which share the directory `db_files` (line 6 of UI_Sharding.py, line 4 of the others). Its plain inserts at Sharding.py:33 would then raise `IntegrityError` on keys 1..4 (`Store.InsertExistingKey`).
- The module-level connections `shard_1`..`shard_3` of Dynamic_Sharding.py (lines 18-20) and Sharding.py (lines 18-20) are not modelled. Nothing reads them, and only their `CREATE TABLE` effect is kept.
- The call to the undefined `delete_data` at Dynamic_Sharding.py:66 is not modelled. It raises `NameError`, and that script has no delete.
- Store.Insert: a key outside the signed 64-bit range makes SQLite's parameter binding raise `OverflowError`. This is not modelled, and the same holds for Store.Get and Store.Delete. Keys are unbounded integers.
- ShardedDb.ShardedStore.ShowShardData: SQLite returns a full scan of a table keyed by `INTEGER PRIMARY KEY` in ascending key order. The model promises every row exactly once, in an unspecified order.
- Other `sqlite3.OperationalError` causes, such as a locked or corrupt file or a full disk, are I/O failures and are not modelled. Only the missing-table case is.
- Concurrency is not modelled: the code has no threads or locks, and each call runs to completion.
- The sentinel ambiguity is kept as in the code. A stored value equal to `"Data not found"` cannot be told from an absent key through `get_data` (`Store.SentinelIsAmbiguous`). `ShardedStore.Get` exposes the underlying `Option`.
