/**
 * load_to_duckdb: read the processed batch, return early when it is empty,
 * otherwise connect, CREATE TABLE IF NOT EXISTS, and insert the whole batch
 * with one INSERT ... SELECT ... ON CONFLICT (symbol, timestamp) DO NOTHING.
 */
module Load {
  import opened Wrappers
  import opened Table

  /** The database file: whether ohlcv_data exists, and its rows. */
  class Database {
    var hasTable: bool
    var table: Contents

    ghost predicate Valid()
      reads this
    {
      WellKeyed(table) && (!hasTable ==> table == map[])
    }

    /** A fresh database file, without the table. */
    constructor ()
      ensures Valid() && !hasTable && table == map[]
    {
      hasTable := false;
      table := map[];
    }

    /** CREATE TABLE IF NOT EXISTS: an existing table keeps every row. */
    method CreateTableIfNotExists()
      requires Valid()
      modifies this
      ensures Valid() && hasTable && table == old(table)
    {
      hasTable := true;
    }

    /**
     * INSERT INTO ohlcv_data SELECT * FROM staged ON CONFLICT DO NOTHING.
     * The statement fails as a whole, changing nothing, when the table is
     * missing or some staged row does not fit the table.
     */
    method InsertSelectIgnoringConflicts(staged: seq<Staged>) returns (ok: bool)
      requires Valid()
      modifies this
      ensures Valid() && hasTable == old(hasTable)
      ensures ok <==> old(hasTable) && AllWellFormed(staged)
      ensures table == if ok then InsertOrIgnoreAll(old(table), Present(staged)) else old(table)
    {
      ok := hasTable && AllWellFormed(staged);
      if ok {
        InsertOrIgnoreAllWellKeyed(table, Present(staged));
        table := InsertOrIgnoreAll(table, Present(staged));
      }
    }

    /** INSERT INTO ohlcv_data VALUES (row) ON CONFLICT DO NOTHING. */
    method InsertValuesIgnoringConflict(row: Staged) returns (ok: bool)
      requires Valid()
      modifies this
      ensures Valid() && hasTable == old(hasTable)
      ensures ok <==> old(hasTable) && row.Some?
      ensures table == if ok then InsertOrIgnore(old(table), row.value) else old(table)
    {
      ok := hasTable && row.Some?;
      if ok {
        table := InsertOrIgnore(table, row.value);
      }
    }
  }

  datatype LoadOutcome =
    | ReadFailed       // the processed file could not be read
    | NothingToLoad    // the batch is empty: return before connecting
    | LoadFailed       // connecting or the INSERT failed; the error is logged
    | Loaded(records: nat)

  /**
   * load_to_duckdb. `processed` is the batch read from the processed file
   * (None when reading fails); `connects` is whether the database file opens.
   */
  method LoadToDuckDB(db: Database, processed: Option<seq<Staged>>, connects: bool) returns (outcome: LoadOutcome)
    requires db.Valid()
    modifies db
    ensures db.Valid()
    ensures processed.None? ==> outcome == ReadFailed && unchanged(db)
    ensures processed == Some([]) ==> outcome == NothingToLoad && unchanged(db)
    ensures processed.Some? && processed.value != [] && !connects ==> outcome == LoadFailed && unchanged(db)
    ensures processed.Some? && processed.value != [] && connects ==>
      && db.hasTable
      && (AllWellFormed(processed.value) ==>
            outcome == Loaded(|processed.value|)
            && db.table == InsertOrIgnoreAll(old(db.table), Present(processed.value)))
      && (!AllWellFormed(processed.value) ==> outcome == LoadFailed && db.table == old(db.table))
  {
    if processed.None? {
      return ReadFailed;
    }
    var batch := processed.value;
    var recordCount := |batch|;
    if recordCount == 0 {
      return NothingToLoad;
    }
    if !connects {
      return LoadFailed;
    }
    db.CreateTableIfNotExists();
    var ok := db.InsertSelectIgnoringConflicts(batch);
    if ok {
      outcome := Loaded(recordCount);
    } else {
      outcome := LoadFailed;
    }
  }

  /** Three runs over overlapping batches: a repeated run adds nothing and the first write wins. */
  lemma OverlappingRuns(first: Row, again: Row, next: Row)
    requires KeyOf(again) == KeyOf(first) && again != first && KeyOf(next) != KeyOf(first)
    ensures var t1 := InsertOrIgnoreAll(map[], [first]);
      && t1 == map[KeyOf(first) := first]
      && InsertOrIgnoreAll(t1, [first]) == t1
      && InsertOrIgnoreAll(t1, [again, next]) == map[KeyOf(first) := first, KeyOf(next) := next]
      && |InsertOrIgnoreAll(t1, [again, next])| == 2
  {
    var t1 := map[KeyOf(first) := first];
    InsertOrIgnoreAllSingle(map[], first);
    InsertOrIgnoreAllSingle(t1, first);
    InsertEachIsInsertOrIgnoreAll(t1, [again, next]);
    assert [again, next][..1] == [again];
    assert [again][..0] == [];
  }
}
