/**
 * The ohlcv_data table and the two ways rows reach it: one
 * INSERT ... SELECT ... ON CONFLICT (symbol, timestamp) DO NOTHING for a
 * whole batch, and one INSERT ... VALUES ... ON CONFLICT DO NOTHING per row.
 * The UNIQUE(symbol, timestamp) constraint makes the table a map from key to row.
 */
module Table {
  import opened Wrappers

  /** The unique key of the table. */
  datatype Key = Key(symbol: string, timestamp: int)

  /** One row, columns in table order; prices are abstract integers. */
  datatype Row = Row(timestamp: int, symbol: string, open: int, high: int, low: int, close: int, volume: int)

  /** A row as it is handed to the database: None is a row the table refuses (wrong arity or type). */
  type Staged = Option<Row>

  type Contents = map<Key, Row>

  function KeyOf(r: Row): Key {
    Key(r.symbol, r.timestamp)
  }

  /** Every stored row sits under its own (symbol, timestamp). */
  predicate WellKeyed(t: Contents) {
    forall k :: k in t ==> KeyOf(t[k]) == k
  }

  /** No two different rows share a (symbol, timestamp). */
  predicate UniqueKeys(rows: set<Row>) {
    forall r1, r2 :: r1 in rows && r2 in rows && KeyOf(r1) == KeyOf(r2) ==> r1 == r2
  }

  predicate DistinctKeys(b: seq<Row>) {
    forall i, j :: 0 <= i < j < |b| ==> KeyOf(b[i]) != KeyOf(b[j])
  }

  function BatchKeys(b: seq<Row>): set<Key> {
    set i | 0 <= i < |b| :: KeyOf(b[i])
  }

  /** Position of the first row of b with key k. */
  function FirstIndex(b: seq<Row>, k: Key): (i: nat)
    requires k in BatchKeys(b)
    ensures i < |b| && KeyOf(b[i]) == k
    ensures forall j :: 0 <= j < i ==> KeyOf(b[j]) != k
  {
    if KeyOf(b[0]) == k then 0
    else
      assert k in BatchKeys(b[1..]) by {
        var j :| 0 <= j < |b| && KeyOf(b[j]) == k;
        assert KeyOf(b[1..][j - 1]) == k;
      }
      FirstIndex(b[1..], k) + 1
  }

  /** One INSERT ... VALUES ... ON CONFLICT DO NOTHING. */
  function InsertOrIgnore(t: Contents, r: Row): Contents {
    if KeyOf(r) in t then t else t[KeyOf(r) := r]
  }

  /**
   * One INSERT ... SELECT * FROM batch ON CONFLICT DO NOTHING, set-based:
   * every key already present keeps its row, every other key of the batch
   * gets a row of the batch. Which row a key repeated inside the batch gets
   * is not visible in the source; the model takes the first one.
   */
  function InsertOrIgnoreAll(t: Contents, b: seq<Row>): Contents {
    map k | k in t.Keys + BatchKeys(b) :: if k in t then t[k] else b[FirstIndex(b, k)]
  }

  /** The row-by-row loader: InsertOrIgnore for each row, in batch order. */
  function InsertEach(t: Contents, b: seq<Row>): Contents
    decreases |b|
  {
    if b == [] then t else InsertOrIgnore(InsertEach(t, b[..|b| - 1]), b[|b| - 1])
  }

  predicate AllWellFormed(s: seq<Staged>) {
    forall i :: 0 <= i < |s| ==> s[i].Some?
  }

  function Present(s: seq<Staged>): (b: seq<Row>)
    requires AllWellFormed(s)
    ensures |b| == |s| && forall i :: 0 <= i < |s| ==> s[i] == Some(b[i])
  {
    seq(|s|, i requires 0 <= i < |s| => s[i].value)
  }

  // ---------------------------------------------------------------------
  // Properties of the bulk insert
  // ---------------------------------------------------------------------

  /** The UNIQUE constraint: a well-keyed table holds one row per key. */
  lemma WellKeyedIsUnique(t: Contents)
    requires WellKeyed(t)
    ensures UniqueKeys(t.Values)
  {
  }

  /** After a bulk load every row still sits under its own key. */
  lemma InsertOrIgnoreAllWellKeyed(t: Contents, b: seq<Row>)
    requires WellKeyed(t)
    ensures WellKeyed(InsertOrIgnoreAll(t, b))
    ensures UniqueKeys(InsertOrIgnoreAll(t, b).Values)
  {
  }

  /** First write wins: a row already in the table keeps its values. */
  lemma InsertOrIgnoreAllKeepsExisting(t: Contents, b: seq<Row>)
    ensures forall k :: k in t ==> k in InsertOrIgnoreAll(t, b) && InsertOrIgnoreAll(t, b)[k] == t[k]
  {
  }

  /** With distinct batch keys, every batch row whose key was absent is in the table afterwards. */
  lemma InsertOrIgnoreAllAddsNew(t: Contents, b: seq<Row>)
    requires DistinctKeys(b)
    ensures forall i :: 0 <= i < |b| && KeyOf(b[i]) !in t ==>
      KeyOf(b[i]) in InsertOrIgnoreAll(t, b) && InsertOrIgnoreAll(t, b)[KeyOf(b[i])] == b[i]
  {
  }

  /** Nothing else enters: the keys afterwards are the old keys plus the batch keys. */
  lemma InsertOrIgnoreAllKeys(t: Contents, b: seq<Row>)
    ensures InsertOrIgnoreAll(t, b).Keys == t.Keys + BatchKeys(b)
    ensures |InsertOrIgnoreAll(t, b)| <= |t| + |b|
  {
    var u := InsertOrIgnoreAll(t, b);
    assert u.Keys == t.Keys + BatchKeys(b);
    BatchKeysBound(b);
    assert |u| == |u.Keys| == |t.Keys + BatchKeys(b)|;
  }

  /** Loading the same batch twice leaves the table of loading it once. */
  lemma InsertOrIgnoreAllIdempotent(t: Contents, b: seq<Row>)
    ensures InsertOrIgnoreAll(InsertOrIgnoreAll(t, b), b) == InsertOrIgnoreAll(t, b)
  {
  }

  /** Loading b1 and then b2 leaves the table of loading b1 + b2 in one statement. */
  lemma InsertOrIgnoreAllConcat(t: Contents, b1: seq<Row>, b2: seq<Row>)
    ensures InsertOrIgnoreAll(InsertOrIgnoreAll(t, b1), b2) == InsertOrIgnoreAll(t, b1 + b2)
  {
    var lhs := InsertOrIgnoreAll(InsertOrIgnoreAll(t, b1), b2);
    var rhs := InsertOrIgnoreAll(t, b1 + b2);
    BatchKeysConcat(b1, b2);
    assert lhs.Keys == rhs.Keys;
    forall k | k in lhs ensures lhs[k] == rhs[k] {
      ConcatAt(t, b1, b2, k);
    }
  }

  /** InsertOrIgnoreAllConcat for one key. */
  lemma ConcatAt(t: Contents, b1: seq<Row>, b2: seq<Row>, k: Key)
    requires k in InsertOrIgnoreAll(InsertOrIgnoreAll(t, b1), b2)
    requires k in InsertOrIgnoreAll(t, b1 + b2)
    ensures InsertOrIgnoreAll(InsertOrIgnoreAll(t, b1), b2)[k] == InsertOrIgnoreAll(t, b1 + b2)[k]
  {
    if k !in t {
      FirstOfConcat(b1, b2, k);
    }
  }

  /** The first row with key k in b1 + b2 comes from b1 when b1 has one, else from b2. */
  lemma FirstOfConcat(b1: seq<Row>, b2: seq<Row>, k: Key)
    requires k in BatchKeys(b1) + BatchKeys(b2)
    ensures k in BatchKeys(b1 + b2)
    ensures (b1 + b2)[FirstIndex(b1 + b2, k)] ==
      if k in BatchKeys(b1) then b1[FirstIndex(b1, k)] else b2[FirstIndex(b2, k)]
  {
    var b := b1 + b2;
    if k in BatchKeys(b1) {
      var i := FirstIndex(b1, k);
      assert b[i] == b1[i];
      forall j | 0 <= j < i ensures KeyOf(b[j]) != k {
        assert b[j] == b1[j];
      }
      FirstIndexIs(b, k, i);
    } else {
      var i := FirstIndex(b2, k);
      assert b[|b1| + i] == b2[i];
      forall j | 0 <= j < |b1| + i ensures KeyOf(b[j]) != k {
        if j < |b1| {
          assert b[j] == b1[j];
          assert KeyOf(b1[j]) in BatchKeys(b1);
        } else {
          assert b[j] == b2[j - |b1|];
        }
      }
      FirstIndexIs(b, k, |b1| + i);
    }
  }

  // ---------------------------------------------------------------------
  // The row path agrees with the bulk path
  // ---------------------------------------------------------------------

  /** A single-row bulk insert is one INSERT ... VALUES. */
  lemma InsertOrIgnoreAllSingle(t: Contents, r: Row)
    ensures InsertOrIgnoreAll(t, [r]) == InsertOrIgnore(t, r)
  {
    BatchKeysSingle(r);
  }

  /** The row-by-row fold leaves the same table as the bulk statement. */
  lemma {:induction false} InsertEachIsInsertOrIgnoreAll(t: Contents, b: seq<Row>)
    ensures InsertEach(t, b) == InsertOrIgnoreAll(t, b)
    decreases |b|
  {
    if b == [] {
      assert BatchKeys(b) == {};
    } else {
      var p, r := b[..|b| - 1], b[|b| - 1];
      assert b == p + [r];
      InsertEachIsInsertOrIgnoreAll(t, p);
      InsertOrIgnoreAllSingle(InsertOrIgnoreAll(t, p), r);
      InsertOrIgnoreAllConcat(t, p, [r]);
    }
  }

  /** When a key occurs several times in a batch, the row path keeps its first occurrence. */
  lemma InsertEachKeepsFirstOccurrence(t: Contents, b: seq<Row>, i: nat)
    requires i < |b| && KeyOf(b[i]) !in t
    requires forall j :: 0 <= j < i ==> KeyOf(b[j]) != KeyOf(b[i])
    ensures KeyOf(b[i]) in InsertEach(t, b) && InsertEach(t, b)[KeyOf(b[i])] == b[i]
  {
    InsertEachIsInsertOrIgnoreAll(t, b);
    assert KeyOf(b[i]) in BatchKeys(b);
    FirstIndexIs(b, KeyOf(b[i]), i);
  }

  // ---------------------------------------------------------------------
  // Helpers
  // ---------------------------------------------------------------------

  lemma FirstIndexIs(b: seq<Row>, k: Key, i: nat)
    requires i < |b| && KeyOf(b[i]) == k
    requires forall j :: 0 <= j < i ==> KeyOf(b[j]) != k
    ensures k in BatchKeys(b) && FirstIndex(b, k) == i
  {
  }

  lemma BatchKeysConcat(b1: seq<Row>, b2: seq<Row>)
    ensures BatchKeys(b1 + b2) == BatchKeys(b1) + BatchKeys(b2)
  {
    var b := b1 + b2;
    forall k | k in BatchKeys(b) ensures k in BatchKeys(b1) + BatchKeys(b2) {
      var i :| 0 <= i < |b| && KeyOf(b[i]) == k;
      if i < |b1| {
        assert b[i] == b1[i];
      } else {
        assert b[i] == b2[i - |b1|];
      }
    }
    forall k | k in BatchKeys(b1) + BatchKeys(b2) ensures k in BatchKeys(b) {
      if k in BatchKeys(b1) {
        var i :| 0 <= i < |b1| && KeyOf(b1[i]) == k;
        assert b[i] == b1[i];
      } else {
        var i :| 0 <= i < |b2| && KeyOf(b2[i]) == k;
        assert b[|b1| + i] == b2[i];
      }
    }
  }

  lemma {:induction false} BatchKeysBound(b: seq<Row>)
    ensures |BatchKeys(b)| <= |b|
    decreases |b|
  {
    if b != [] {
      var p := b[..|b| - 1];
      assert b == p + [b[|b| - 1]];
      BatchKeysConcat(p, [b[|b| - 1]]);
      BatchKeysSingle(b[|b| - 1]);
      BatchKeysBound(p);
    }
  }

  lemma BatchKeysSingle(r: Row)
    ensures BatchKeys([r]) == {KeyOf(r)}
  {
    assert KeyOf([r][0]) in BatchKeys([r]);
  }
}
