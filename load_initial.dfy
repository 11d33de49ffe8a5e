/**
 * The row-by-row loader script: connect, CREATE TABLE IF NOT EXISTS, then one
 * INSERT ... VALUES ... ON CONFLICT (symbol, timestamp) DO NOTHING per CSV
 * row. The first failing row raises out of the loop: later rows are not
 * attempted and the commit is skipped. Each INSERT commits on its own, so
 * the rows before the failure stay in the table.
 */
module LoadInitial {
  import opened Wrappers
  import opened Table
  import opened Load

  datatype RowLoadOutcome =
    | ConnectFailed
    | StoppedAt(index: nat)    // the row at this index was refused
    | Committed(records: nat)

  /** The index of the first refused row, or |s| when every row fits. */
  function FirstMalformed(s: seq<Staged>): (n: nat)
    ensures n <= |s|
    ensures n < |s| ==> s[n].None?
    ensures forall j :: 0 <= j < n ==> s[j].Some?
  {
    if s == [] then 0
    else if s[0].None? then 0
    else 1 + FirstMalformed(s[1..])
  }

  method LoadRowByRow(db: Database, csvRows: seq<Staged>, connects: bool) returns (outcome: RowLoadOutcome)
    requires db.Valid()
    modifies db
    ensures db.Valid()
    ensures !connects ==> outcome == ConnectFailed && unchanged(db)
    ensures connects ==>
      var n := FirstMalformed(csvRows);
      && db.hasTable
      && db.table == InsertEach(old(db.table), Present(csvRows[..n]))
      && outcome == if n < |csvRows| then StoppedAt(n) else Committed(|csvRows|)
  {
    if !connects {
      return ConnectFailed;
    }
    var records := |csvRows|;
    db.CreateTableIfNotExists();
    ghost var start := db.table;
    var i := 0;
    while i < |csvRows|
      invariant 0 <= i <= |csvRows|
      invariant db.Valid() && db.hasTable
      invariant AllWellFormed(csvRows[..i])
      invariant db.table == InsertEach(start, Present(csvRows[..i]))
    {
      var ok := db.InsertValuesIgnoringConflict(csvRows[i]);
      if !ok {
        assert FirstMalformed(csvRows) == i;
        return StoppedAt(i);
      }
      assert Present(csvRows[..i + 1]) == Present(csvRows[..i]) + [csvRows[i].value];
      i := i + 1;
    }
    assert csvRows[..i] == csvRows;
    assert FirstMalformed(csvRows) == |csvRows|;
    outcome := Committed(records);
  }

  /** On a batch whose rows all fit, the row-by-row loader and the bulk load leave the same table. */
  lemma RowByRowMatchesBulk(t: Contents, staged: seq<Staged>)
    requires AllWellFormed(staged)
    ensures FirstMalformed(staged) == |staged|
    ensures InsertEach(t, Present(staged[..FirstMalformed(staged)])) == InsertOrIgnoreAll(t, Present(staged))
  {
    assert staged[..|staged|] == staged;
    InsertEachIsInsertOrIgnoreAll(t, Present(staged));
  }
}
