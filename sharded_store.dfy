/**
 * The three shard databases as one object whose methods run the variants'
 * `create_db`, `insert_data`, `get_data`, `delete_data` and show functions.
 * Each method is proved against the function of module Store that says what
 * its SQL statement does.
 */
module ShardedDb {
  import opened Wrappers
  import opened Router
  import Store

  class ShardedStore {
    /** `tables[n - 1]` is the `data` table of `shard_n`. */
    const tables: array<Store.Table>

    ghost predicate Valid()
      reads this, tables
    {
      tables.Length == ShardCount && Store.Routed(tables[..])
    }

    /** The state of the three shards. */
    ghost function State(): Store.State
      reads this, tables
      requires tables.Length == ShardCount
    {
      tables[..]
    }

    /** A fresh database directory: no shard has its table yet. */
    constructor ()
      ensures Valid() && fresh(tables)
      ensures State() == [Store.Missing, Store.Missing, Store.Missing]
    {
      tables := new Store.Table[ShardCount](_ => Store.Missing);
    }

    /** `create_db(shard_n)`. */
    method CreateDb(n: ShardId)
      requires Valid()
      modifies tables
      ensures Valid() && State() == Store.CreateTable(old(State()), n)
    {
      if tables[n - 1].Missing? {
        tables[n - 1] := Store.Present(map[]);
      }
      Store.CreateTableKeepsRouted(old(State()), n);
    }

    /** The three `create_db` calls made at import or at start-up. */
    method CreateAllShards()
      requires Valid()
      modifies tables
      ensures Valid() && State() == Store.CreateAll(old(State()))
      ensures Store.AllCreated(State()) && Store.Contents(State()) == Store.Contents(old(State()))
    {
      CreateDb(1);
      CreateDb(2);
      CreateDb(3);
      Store.CreateAllIdempotent(old(State()));
    }

    /** `insert_data(key, value)` with the conflict policy of the variant. */
    method InsertData(key: int, value: string, policy: Store.InsertPolicy) returns (status: Store.Status)
      requires Valid()
      modifies tables
      ensures Valid() && (State(), status) == Store.Insert(old(State()), key, value, policy)
    {
      var n := ShardNumber(key);
      match tables[n - 1]
      case Missing =>
        status := Store.Failed(Store.NoSuchTable(n));
      case Present(rows) =>
        if key !in rows || policy == Store.OrReplace {
          tables[n - 1] := Store.Present(rows[key := value]);
          status := Store.Applied;
        } else if policy == Store.OrIgnore {
          status := Store.Ignored;
        } else {
          status := Store.Failed(Store.DuplicateKey(n, key));
        }
      Store.InsertKeepsRouted(old(State()), key, value, policy);
    }

    /** `insert_data` of Dynamic_Sharding_V2.py: create the table if needed, then insert or skip. */
    method InsertDataCreatingTable(key: int, value: string) returns (status: Store.Status)
      requires Valid()
      modifies tables
      ensures Valid() && (State(), status) == Store.InsertCreatingTable(old(State()), key, value)
    {
      CreateDb(ShardNumber(key));
      status := InsertData(key, value, Store.OrIgnore);
    }

    /** The point lookup of `get_data`, before the sentinel is substituted. */
    method Get(key: int) returns (r: Result<Option<string>, Store.StoreError>)
      requires Valid()
      ensures r == Store.Get(State(), key)
      ensures State()[Store.Slot(key)].Present? ==>
                r == Ok(if key in Store.Contents(State()) then Some(Store.Contents(State())[key]) else None)
    {
      var n := ShardNumber(key);
      match tables[n - 1]
      case Missing =>
        r := Err(Store.NoSuchTable(n));
      case Present(rows) =>
        r := Ok(if key in rows then Some(rows[key]) else None);
        Store.GetIsLookupInContents(State(), key);
    }

    /** `get_data(key)`: the value, or `"Data not found"` when no row matches. */
    method GetData(key: int) returns (r: Result<string, Store.StoreError>)
      requires Valid()
      ensures r == Store.GetData(State(), key)
    {
      var found := Get(key);
      match found
      case Err(e) => r := Err(e);
      case Ok(None) => r := Ok(Store.NotFound);
      case Ok(Some(v)) => r := Ok(v);
    }

    /** `delete_data(key)`. */
    method DeleteData(key: int) returns (status: Store.Status)
      requires Valid()
      modifies tables
      ensures Valid() && (State(), status) == Store.Delete(old(State()), key)
    {
      var n := ShardNumber(key);
      match tables[n - 1]
      case Missing =>
        status := Store.Failed(Store.NoSuchTable(n));
      case Present(rows) =>
        tables[n - 1] := Store.Present(rows - {key});
        status := Store.Applied;
      Store.DeleteKeepsRouted(old(State()), key);
    }

    /** `show_shard_data(shard_n)`: the rows of one shard, or the error of a missing table. */
    method ShowShardData(n: ShardId) returns (r: Result<seq<Store.Row>, Store.StoreError>)
      requires Valid()
      ensures Store.ReportsShard(r, n, State()[n - 1])
    {
      match tables[n - 1]
      case Missing =>
        r := Err(Store.NoSuchTable(n));
      case Present(m) =>
        var rows: seq<Store.Row> := [];
        var rest := m.Keys;
        while rest != {}
          invariant rest <= m.Keys
          invariant Store.ListsShard(rows, n, m - rest)
          decreases rest
        {
          Store.EmptyOrHasMember(rest);
          var k :| k in rest;
          ghost var listed, unlisted := rows, rest;
          rows := rows + [Store.Row(n, k, m[k])];
          rest := rest - {k};
          forall j | j in m - rest
            ensures Store.Row(n, j, (m - rest)[j]) in rows
          {
            if j == k {
              assert rows[|rows| - 1] == Store.Row(n, k, m[k]);
            } else {
              assert j in m - unlisted;
              assert Store.Row(n, j, m[j]) in listed;
            }
          }
        }
        assert m - rest == m;
        r := Ok(rows);
    }

    /**
     * `show_all_shard_data` of UI_Sharding.py and DynaShard.py: shards 1, 2, 3
     * in order; a missing table is reported for that shard and the scan goes on.
     */
    method ShowAllShardData() returns (report: seq<Result<seq<Store.Row>, Store.StoreError>>)
      requires Valid()
      ensures |report| == ShardCount
      ensures forall i :: 0 <= i < ShardCount ==> Store.ReportsShard(report[i], i + 1, State()[i])
    {
      report := [];
      for n := 1 to ShardCount + 1
        invariant |report| == n - 1
        invariant forall i :: 0 <= i < n - 1 ==> Store.ReportsShard(report[i], i + 1, State()[i])
      {
        var r := ShowShardData(n);
        report := report + [r];
      }
    }

    /**
     * `show_all_data` of Dynamic_Sharding_V2.py: shards 1, 2, 3 in order; the
     * first missing table raises, ending the scan after the rows already shown.
     */
    method ShowAllData() returns (rows: seq<Store.Row>, failure: Option<Store.StoreError>)
      requires Valid()
      ensures Store.ListsShards(rows, State(), Store.FirstMissing(State()))
      ensures failure == if Store.FirstMissing(State()) < ShardCount
                         then Some(Store.NoSuchTable(Store.FirstMissing(State()) + 1))
                         else None
    {
      rows := [];
      for n := 1 to ShardCount + 1
        invariant forall j :: 0 <= j < n - 1 ==> State()[j].Present?
        invariant Store.ListsShards(rows, State(), n - 1)
      {
        var r := ShowShardData(n);
        if r.Err? {
          failure := Some(r.error);
          Store.FirstMissingUnique(State(), n - 1);
          return;
        }
        Store.ListsShardsExtend(rows, r.value, State(), n - 1);
        rows := rows + r.value;
      }
      failure := None;
      Store.FirstMissingUnique(State(), ShardCount);
    }
  }
}
