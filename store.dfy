/**
 * What each SQL statement does to the three shard tables
 * `data(key INTEGER PRIMARY KEY, value TEXT)`, as functions on the state of
 * the store, and the properties of the store proved about them.
 *
 * A shard's table either does not exist yet (every statement other than
 * `CREATE TABLE IF NOT EXISTS` then raises "no such table") or holds a map
 * from keys to values; the primary key makes keys unique within a table.
 */
module Store {
  import opened Wrappers
  import opened Router

  datatype Table = Missing | Present(rows: map<int, string>)

  /** The tables of `shard_1`, `shard_2` and `shard_3`, in that order. */
  type State = s: seq<Table> | |s| == ShardCount witness [Missing, Missing, Missing]

  /** The three conflict policies of the variants' `insert_data`. */
  datatype InsertPolicy =
    | OrReplace   // `INSERT OR REPLACE`: the last write wins
    | OrIgnore    // `INSERT` with `IntegrityError` caught: the first write wins
    | Plain       // `INSERT`: a duplicate key raises `IntegrityError`

  datatype StoreError =
    | NoSuchTable(shard: ShardId)             // `sqlite3.OperationalError`
    | DuplicateKey(shard: ShardId, key: int)  // `sqlite3.IntegrityError`

  /** What a write reports: done, skipped as a duplicate, or raised. */
  datatype Status = Applied | Ignored | Failed(error: StoreError)

  /** One row of a listing: the shard it came from, its key and its value. */
  datatype Row = Row(shard: ShardId, key: int, value: string)

  /** The sentinel `get_data` returns for an absent key. */
  const NotFound: string := "Data not found"

  /** The index in a State of the shard a key is routed to. */
  function Slot(key: int): (i: nat)
    ensures i < ShardCount && i + 1 == ShardNumber(key)
  {
    ShardNumber(key) - 1
  }

  /** The rows of a table; a table that does not exist has none. */
  function RowsOf(t: Table): map<int, string> {
    if t.Present? then t.rows else map[]
  }

  /** The logical key space: every record of every shard. */
  function Contents(s: State): map<int, string> {
    RowsOf(s[0]) + RowsOf(s[1]) + RowsOf(s[2])
  }

  /** Every stored record lies in the shard its key is routed to. */
  ghost predicate Routed(s: State) {
    forall i, k :: 0 <= i < ShardCount && k in RowsOf(s[i]) ==> ShardNumber(k) == i + 1
  }

  /** Every shard's table exists. */
  predicate AllCreated(s: State) {
    forall i :: 0 <= i < ShardCount ==> s[i].Present?
  }

  /** `create_db(shard_n)`: `CREATE TABLE IF NOT EXISTS` on shard n. */
  function CreateTable(s: State, n: ShardId): (r: State)
    ensures r[n - 1].Present?
    ensures forall i :: 0 <= i < ShardCount && i != n - 1 ==> r[i] == s[i]
  {
    s[n - 1 := if s[n - 1].Missing? then Present(map[]) else s[n - 1]]
  }

  /** The three `create_db` calls the variants make at start-up. */
  function CreateAll(s: State): (r: State)
    ensures AllCreated(r)
  {
    CreateTable(CreateTable(CreateTable(s, 1), 2), 3)
  }

  /** `insert_data(key, value)` under a conflict policy, on an existing table or not. */
  function Insert(s: State, key: int, value: string, policy: InsertPolicy): (r: (State, Status))
    ensures forall i :: 0 <= i < ShardCount && i != Slot(key) ==> r.0[i] == s[i]
    ensures !r.1.Applied? ==> r.0 == s
  {
    var n := ShardNumber(key);
    match s[n - 1]
    case Missing => (s, Failed(NoSuchTable(n)))
    case Present(rows) =>
      if key !in rows || policy == OrReplace then (s[n - 1 := Present(rows[key := value])], Applied)
      else if policy == OrIgnore then (s, Ignored)
      else (s, Failed(DuplicateKey(n, key)))
  }

  /**
   * `insert_data` of Dynamic_Sharding_V2.py: `CREATE TABLE IF NOT EXISTS` on
   * the routed shard, then an `INSERT` whose duplicate-key error is caught.
   */
  function InsertCreatingTable(s: State, key: int, value: string): (r: (State, Status))
    ensures r.0[Slot(key)].Present?
    ensures forall i :: 0 <= i < ShardCount && i != Slot(key) ==> r.0[i] == s[i]
  {
    Insert(CreateTable(s, ShardNumber(key)), key, value, OrIgnore)
  }

  /** `SELECT value FROM data WHERE key=?` on the routed shard. */
  function Get(s: State, key: int): (r: Result<Option<string>, StoreError>)
    ensures r.Err? <==> s[Slot(key)].Missing?
    ensures r.Err? ==> r.error == NoSuchTable(ShardNumber(key))
    ensures r.Ok? ==> (r.value.Some? <==> key in s[Slot(key)].rows)
    ensures r.Ok? && r.value.Some? ==> r.value.value == s[Slot(key)].rows[key]
  {
    var n := ShardNumber(key);
    match s[n - 1]
    case Missing => Err(NoSuchTable(n))
    case Present(rows) => Ok(if key in rows then Some(rows[key]) else None)
  }

  /**
   * `get_data(key)`: the stored value, or the sentinel when no row is found.
   * The source tests the fetched row, not the value, so a stored empty
   * string comes back as itself.
   */
  function GetData(s: State, key: int): (r: Result<string, StoreError>)
    ensures r.Err? <==> s[Slot(key)].Missing?
    ensures r.Ok? && key !in s[Slot(key)].rows ==> r.value == NotFound
    ensures r.Ok? && key in s[Slot(key)].rows ==> r.value == s[Slot(key)].rows[key]
    ensures r.Ok? && r.value != NotFound ==> key in s[Slot(key)].rows && s[Slot(key)].rows[key] == r.value
  {
    match Get(s, key)
    case Err(e) => Err(e)
    case Ok(None) => Ok(NotFound)
    case Ok(Some(v)) => Ok(v)
  }

  /** `delete_data(key)`: `DELETE FROM data WHERE key=?` on the routed shard. */
  function Delete(s: State, key: int): (r: (State, Status))
    ensures forall i :: 0 <= i < ShardCount && i != Slot(key) ==> r.0[i] == s[i]
    ensures r.1.Failed? ==> r.0 == s
  {
    var n := ShardNumber(key);
    match s[n - 1]
    case Missing => (s, Failed(NoSuchTable(n)))
    case Present(rows) => (s[n - 1 := Present(rows - {key})], Applied)
  }

  /** The rows of one shard's `SELECT *`, each exactly once, in any order. */
  ghost predicate ListsShard(rows: seq<Row>, n: ShardId, m: map<int, string>) {
    && (forall i :: 0 <= i < |rows| ==> rows[i].shard == n && rows[i].key in m && m[rows[i].key] == rows[i].value)
    && (forall k :: k in m ==> Row(n, k, m[k]) in rows)
    && (forall i, j :: 0 <= i < j < |rows| ==> rows[i].key != rows[j].key)
  }

  /** What showing shard n reports: its rows, or "no such table". */
  ghost predicate ReportsShard(r: Result<seq<Row>, StoreError>, n: ShardId, t: Table) {
    && (r.Err? <==> t.Missing?)
    && (r.Err? ==> r.error == NoSuchTable(n))
    && (r.Ok? ==> ListsShard(r.value, n, t.rows))
  }

  /** The rows of the first `count` shards, shard by shard in shard order. */
  ghost predicate ListsShards(rows: seq<Row>, s: State, count: nat)
    requires count <= ShardCount
  {
    && (forall i :: 0 <= i < |rows| ==>
          && rows[i].shard <= count
          && rows[i].key in RowsOf(s[rows[i].shard - 1])
          && RowsOf(s[rows[i].shard - 1])[rows[i].key] == rows[i].value)
    && (forall j, k :: 0 <= j < count && k in RowsOf(s[j]) ==> Row(j + 1, k, RowsOf(s[j])[k]) in rows)
    && (forall i, j :: 0 <= i < j < |rows| ==>
          rows[i].shard < rows[j].shard || (rows[i].shard == rows[j].shard && rows[i].key != rows[j].key))
  }

  /** The index of the first shard whose table is missing, or 3 if none is. */
  function FirstMissing(s: State): (f: nat)
    ensures f <= ShardCount
    ensures forall j :: 0 <= j < f ==> s[j].Present?
    ensures f < ShardCount ==> s[f].Missing?
  {
    FirstMissingFrom(s, 0)
  }

  /** The three ensures of FirstMissing determine it. */
  lemma FirstMissingUnique(s: State, f: nat)
    requires f <= ShardCount
    requires forall j :: 0 <= j < f ==> s[j].Present?
    requires f < ShardCount ==> s[f].Missing?
    ensures FirstMissing(s) == f
  {
  }

  function FirstMissingFrom(s: State, i: nat): (f: nat)
    requires i <= ShardCount
    ensures i <= f <= ShardCount
    ensures forall j :: i <= j < f ==> s[j].Present?
    ensures f < ShardCount ==> s[f].Missing?
    decreases ShardCount - i
  {
    if i == ShardCount || s[i].Missing? then i else FirstMissingFrom(s, i + 1)
  }

  // ---------------------------------------------------------------------
  // Routing invariant and the logical key space
  // ---------------------------------------------------------------------

  /** A key occurs in no shard other than its own. */
  lemma KeyOnlyInOwnShard(s: State, key: int, i: nat)
    requires Routed(s) && i < ShardCount && i != Slot(key)
    ensures key !in RowsOf(s[i])
  {
  }

  /** Under the routing invariant, looking in the routed shard is looking in the whole store. */
  lemma GetIsLookupInContents(s: State, key: int)
    requires Routed(s) && s[Slot(key)].Present?
    ensures Get(s, key) == Ok(if key in Contents(s) then Some(Contents(s)[key]) else None)
  {
  }

  /** One inserted row, in a shard the invariant already holds for, keeps it. */
  lemma InsertKeepsRouted(s: State, key: int, value: string, policy: InsertPolicy)
    requires Routed(s)
    ensures Routed(Insert(s, key, value, policy).0)
  {
  }

  /** Creating a table adds no rows, so the invariant is kept. */
  lemma CreateTableKeepsRouted(s: State, n: ShardId)
    requires Routed(s)
    ensures Routed(CreateTable(s, n))
  {
  }

  /** Removing a row keeps the invariant. */
  lemma DeleteKeepsRouted(s: State, key: int)
    requires Routed(s)
    ensures Routed(Delete(s, key).0)
  {
  }

  /**
   * Inserting into an existing table changes the logical key space by at most
   * the one key: replace always writes, the other policies write only a new key.
   */
  lemma InsertContents(s: State, key: int, value: string, policy: InsertPolicy)
    requires Routed(s) && s[Slot(key)].Present?
    ensures Contents(Insert(s, key, value, policy).0) ==
            if policy == OrReplace || key !in Contents(s) then Contents(s)[key := value] else Contents(s)
  {
  }

  /** Deleting from an existing table removes exactly the one key from the store. */
  lemma DeleteContents(s: State, key: int)
    requires Routed(s) && s[Slot(key)].Present?
    ensures Contents(Delete(s, key).0) == Contents(s) - {key}
  {
  }

  // ---------------------------------------------------------------------
  // Table creation
  // ---------------------------------------------------------------------

  /** `CREATE TABLE IF NOT EXISTS` is idempotent and keeps existing rows. */
  lemma CreateTableIdempotent(s: State, n: ShardId)
    ensures CreateTable(CreateTable(s, n), n) == CreateTable(s, n)
    ensures RowsOf(CreateTable(s, n)[n - 1]) == RowsOf(s[n - 1])
    ensures Contents(CreateTable(s, n)) == Contents(s)
  {
  }

  /** Repeating the start-up creation changes nothing, and it never loses a row. */
  lemma CreateAllIdempotent(s: State)
    ensures CreateAll(CreateAll(s)) == CreateAll(s)
    ensures Contents(CreateAll(s)) == Contents(s)
    ensures Routed(s) ==> Routed(CreateAll(s))
  {
  }

  /**
   * Without its table, a shard rejects every statement except creation and is
   * left as it was; only V2's insert creates the table.
   */
  lemma MissingTableRejects(s: State, key: int, value: string, policy: InsertPolicy)
    requires s[Slot(key)].Missing?
    ensures Insert(s, key, value, policy) == (s, Failed(NoSuchTable(ShardNumber(key))))
    ensures Get(s, key) == Err(NoSuchTable(ShardNumber(key)))
    ensures GetData(s, key) == Err(NoSuchTable(ShardNumber(key)))
    ensures Delete(s, key) == (s, Failed(NoSuchTable(ShardNumber(key))))
    ensures InsertCreatingTable(s, key, value).1 == Applied
    ensures Get(InsertCreatingTable(s, key, value).0, key) == Ok(Some(value))
  {
  }

  // ---------------------------------------------------------------------
  // Insert and get
  // ---------------------------------------------------------------------

  /** With `INSERT OR REPLACE`, a get after an insert returns the inserted value, whatever was there. */
  lemma ReplaceThenGet(s: State, key: int, value: string)
    requires s[Slot(key)].Present?
    ensures Insert(s, key, value, OrReplace).1 == Applied
    ensures Get(Insert(s, key, value, OrReplace).0, key) == Ok(Some(value))
    ensures GetData(Insert(s, key, value, OrReplace).0, key) == Ok(value)
  {
  }

  /** Two replacing inserts of one key leave one record, holding the second value. */
  lemma ReplaceTwice(s: State, key: int, v1: string, v2: string)
    ensures Insert(Insert(s, key, v1, OrReplace).0, key, v2, OrReplace).0 == Insert(s, key, v2, OrReplace).0
  {
    var i := Slot(key);
    if s[i].Present? {
      assert s[i].rows[key := v1][key := v2] == s[i].rows[key := v2];
    }
  }

  /** Any policy stores a key the shard does not hold yet. */
  lemma InsertNewKey(s: State, key: int, value: string, policy: InsertPolicy)
    requires s[Slot(key)].Present? && Get(s, key) == Ok(None)
    ensures Insert(s, key, value, policy).1 == Applied
    ensures Get(Insert(s, key, value, policy).0, key) == Ok(Some(value))
  {
  }

  /**
   * For a key already present, the ignoring insert reports `Ignored` and the
   * plain insert raises a duplicate-key error; neither changes any shard.
   */
  lemma InsertExistingKey(s: State, key: int, value: string, policy: InsertPolicy)
    requires policy != OrReplace && Get(s, key).Ok? && Get(s, key).value.Some?
    ensures Insert(s, key, value, policy).0 == s
    ensures Insert(s, key, value, policy).1 ==
            if policy == OrIgnore then Ignored else Failed(DuplicateKey(ShardNumber(key), key))
  {
  }

  /**
   * V2's insert: afterwards the table exists; a new key is stored, an existing
   * key keeps its old value.
   */
  lemma InsertCreatingTableThenGet(s: State, key: int, value: string)
    ensures var (r, st) := InsertCreatingTable(s, key, value);
            var old_rows := RowsOf(s[Slot(key)]);
            && st == (if key in old_rows then Ignored else Applied)
            && Get(r, key) == Ok(Some(if key in old_rows then old_rows[key] else value))
            && RowsOf(r[Slot(key)]) == (if key in old_rows then old_rows else old_rows[key := value])
  {
  }

  /** An insert is not observed by a get of any other key. */
  lemma InsertIsolation(s: State, key: int, value: string, policy: InsertPolicy, other: int)
    requires other != key
    ensures Get(Insert(s, key, value, policy).0, other) == Get(s, other)
    ensures Get(InsertCreatingTable(s, key, value).0, other) ==
            if Slot(other) == Slot(key) then Get(CreateTable(s, ShardNumber(key)), other) else Get(s, other)
  {
  }

  // ---------------------------------------------------------------------
  // Get
  // ---------------------------------------------------------------------

  /**
   * `get_data` answers the sentinel for a key with no row, and the stored
   * value (the empty string included) otherwise.
   */
  lemma GetDataSentinel(s: State, key: int)
    requires s[Slot(key)].Present?
    ensures key !in s[Slot(key)].rows ==> GetData(s, key) == Ok(NotFound)
    ensures key in s[Slot(key)].rows ==> GetData(s, key) == Ok(s[Slot(key)].rows[key])
    ensures key in s[Slot(key)].rows && s[Slot(key)].rows[key] == "" ==> GetData(s, key) == Ok("")
  {
  }

  /** A stored value equal to the sentinel reads the same as an absent key. */
  lemma SentinelIsAmbiguous(s: State, key: int)
    requires s[Slot(key)].Present? && key !in s[Slot(key)].rows
    ensures Insert(s, key, NotFound, OrReplace).0 != s
    ensures GetData(Insert(s, key, NotFound, OrReplace).0, key) == GetData(s, key)
  {
  }

  // ---------------------------------------------------------------------
  // Delete
  // ---------------------------------------------------------------------

  /** After a delete the key is gone; other keys read as before. */
  lemma DeleteThenGet(s: State, key: int, other: int)
    requires s[Slot(key)].Present? && other != key
    ensures Get(Delete(s, key).0, key) == Ok(None)
    ensures GetData(Delete(s, key).0, key) == Ok(NotFound)
    ensures Get(Delete(s, key).0, other) == Get(s, other)
  {
  }

  /** Deleting an absent key changes nothing, so deleting twice equals deleting once. */
  lemma DeleteIdempotent(s: State, key: int)
    ensures Get(s, key) == Ok(None) ==> Delete(s, key) == (s, Applied)
    ensures Delete(Delete(s, key).0, key).0 == Delete(s, key).0
  {
    var i := Slot(key);
    if s[i].Present? {
      if key !in s[i].rows {
        assert s[i].rows - {key} == s[i].rows;
        assert s[i := Present(s[i].rows - {key})] == s;
      }
      assert s[i].rows - {key} - {key} == s[i].rows - {key};
    }
  }

  // ---------------------------------------------------------------------
  // Scans
  // ---------------------------------------------------------------------

  /** A set of keys is empty or has a member (the scan loop picks one). */
  lemma EmptyOrHasMember(keys: set<int>)
    ensures keys == {} || exists k :: k in keys
  {
    if forall k :: k !in keys {
      assert keys == {};
    }
  }

  /** The keys a listing mentions. */
  function KeysOf(rows: seq<Row>): set<int> {
    set i | 0 <= i < |rows| :: rows[i].key
  }

  /** A listing without repeated keys mentions as many keys as it has rows. */
  lemma {:induction false} DistinctKeysCount(rows: seq<Row>)
    requires forall i, j :: 0 <= i < j < |rows| ==> rows[i].key != rows[j].key
    ensures |KeysOf(rows)| == |rows|
  {
    if rows != [] {
      var init := rows[..|rows| - 1];
      var last := rows[|rows| - 1];
      DistinctKeysCount(init);
      assert KeysOf(rows) == KeysOf(init) + {last.key} by {
        forall k ensures k in KeysOf(rows) <==> k in KeysOf(init) + {last.key} {
          if k in KeysOf(rows) {
            var i :| 0 <= i < |rows| && rows[i].key == k;
            if i < |rows| - 1 {
              assert init[i].key == k;
            }
          }
          if k in KeysOf(init) {
            var i :| 0 <= i < |init| && init[i].key == k;
            assert rows[i].key == k;
          }
        }
      }
      assert last.key !in KeysOf(init);
    }
  }

  /**
   * A shard listing reports every row exactly once: it has as many rows as
   * the shard holds records, so an empty shard is listed as no rows at all.
   */
  lemma ListingHasOneRowPerRecord(rows: seq<Row>, n: ShardId, m: map<int, string>)
    requires ListsShard(rows, n, m)
    ensures |rows| == |m|
    ensures m == map[] ==> rows == []
  {
    assert KeysOf(rows) == m.Keys by {
      forall k | k in m ensures k in KeysOf(rows) {
        var i :| 0 <= i < |rows| && rows[i] == Row(n, k, m[k]);
      }
    }
    DistinctKeysCount(rows);
  }

  /** Appending the listing of the next shard extends a listing of the first shards. */
  lemma ListsShardsExtend(rows: seq<Row>, more: seq<Row>, s: State, count: nat)
    requires count < ShardCount
    requires ListsShards(rows, s, count)
    requires ListsShard(more, count + 1, RowsOf(s[count]))
    ensures ListsShards(rows + more, s, count + 1)
  {
  }

  /**
   * A listing of all three shards of a routed store holds every record of the
   * store exactly once, each under the shard its key is routed to.
   */
  lemma ScanAllCoversContents(rows: seq<Row>, s: State)
    requires Routed(s) && ListsShards(rows, s, ShardCount)
    ensures forall k :: k in Contents(s) ==> Row(ShardNumber(k), k, Contents(s)[k]) in rows
    ensures forall i :: 0 <= i < |rows| ==>
              && rows[i].key in Contents(s)
              && Contents(s)[rows[i].key] == rows[i].value
              && rows[i].shard == ShardNumber(rows[i].key)
    ensures forall i, j :: 0 <= i < j < |rows| ==> rows[i].key != rows[j].key
  {
  }
}
