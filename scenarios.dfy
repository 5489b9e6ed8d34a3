/**
 * The fixed call sequences the variants' `__main__` blocks make against the
 * store, with what they print proved.
 */
module Scenarios {
  import opened Wrappers
  import opened Router
  import Store
  import opened ShardedDb

  /**
   * Sharding.py: the import-time `create_db` of all three shards, four plain
   * inserts into a fresh directory, then a lookup of each key. Keys 1 and 4
   * both go to `shard_2` and stay two records.
   */
  method ShardingMain() returns (a: Result<string, Store.StoreError>, b: Result<string, Store.StoreError>,
                                 c: Result<string, Store.StoreError>, d: Result<string, Store.StoreError>)
    ensures a == Ok("UserA") && b == Ok("UserB") && c == Ok("UserC") && d == Ok("UserD")
  {
    var store := new ShardedStore();
    store.CreateAllShards();
    var s1 := store.InsertData(1, "UserA", Store.Plain);
    var s2 := store.InsertData(2, "UserB", Store.Plain);
    var s3 := store.InsertData(3, "UserC", Store.Plain);
    var s4 := store.InsertData(4, "UserD", Store.Plain);
    assert ShardNumber(1) == ShardNumber(4) == 2;
    a := store.GetData(1);
    b := store.GetData(2);
    c := store.GetData(3);
    d := store.GetData(4);
  }

  /**
   * The insert branch of the console loops of DynaShard.py and
   * Dynamic_Sharding.py: `insert_data` followed by the `get_data` that
   * prints the value back. With the tables created at import, the value
   * read back is the value inserted.
   */
  method InsertAndReadBack(store: ShardedStore, key: int, value: string) returns (shown: Result<string, Store.StoreError>)
    requires store.Valid() && Store.AllCreated(store.State())
    modifies store.tables
    ensures store.Valid() && Store.AllCreated(store.State())
    ensures store.State() == Store.Insert(old(store.State()), key, value, Store.OrReplace).0
    ensures shown == Ok(value)
  {
    var status := store.InsertData(key, value, Store.OrReplace);
    Store.ReplaceThenGet(old(store.State()), key, value);
    shown := store.GetData(key);
  }

  /**
   * The insert branch of Dynamic_Sharding_V2.py's console loop: the insert
   * creates the table when needed, then the read-back shows the value
   * already stored under the key, if any, and otherwise the new value.
   */
  method InsertAndReadBackV2(store: ShardedStore, key: int, value: string) returns (shown: Result<string, Store.StoreError>)
    requires store.Valid()
    modifies store.tables
    ensures store.Valid()
    ensures store.State() == Store.InsertCreatingTable(old(store.State()), key, value).0
    ensures var before := Store.RowsOf(old(store.State())[Store.Slot(key)]);
            shown == Ok(if key in before then before[key] else value)
  {
    var status := store.InsertDataCreatingTable(key, value);
    Store.InsertCreatingTableThenGet(old(store.State()), key, value);
    shown := store.GetData(key);
  }
}
