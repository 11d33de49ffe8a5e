/**
 * df.ffill().bfill(): down each column, a missing cell takes the last
 * present value above it; a cell still missing then takes the first present
 * value below it. The fill runs over the whole frame, column by column, so
 * a value can be carried from one symbol's rows into the next symbol's.
 */
module Fill {
  import opened Frame

  /** ffill on one column, carrying `last` from the rows above. */
  function ForwardFill(last: Cell, col: seq<Cell>): seq<Cell>
    decreases |col|
  {
    if col == [] then []
    else
      var here := if col[0].Missing? then last else col[0];
      [here] + ForwardFill(here, col[1..])
  }

  /** bfill on one column, carrying `next` from the rows below. */
  function BackFill(next: Cell, col: seq<Cell>): seq<Cell>
    decreases |col|
  {
    if col == [] then []
    else
      var last := col[|col| - 1];
      var here := if last.Missing? then next else last;
      BackFill(here, col[..|col| - 1]) + [here]
  }

  /** Every cell from position i to the end is missing. */
  predicate MissingFrom(col: seq<Cell>, i: nat) {
    forall j :: i <= j < |col| ==> col[j].Missing?
  }

  /** Every cell up to and including position i is missing. */
  predicate MissingUpTo(col: seq<Cell>, i: nat) {
    forall j :: 0 <= j <= i && j < |col| ==> col[j].Missing?
  }

  /** ffill keeps the length and every present cell, and leaves a cell missing only when all above it are. */
  lemma {:induction false} ForwardFillSpec(last: Cell, col: seq<Cell>)
    ensures |ForwardFill(last, col)| == |col|
    ensures forall i :: 0 <= i < |col| && !col[i].Missing? ==> ForwardFill(last, col)[i] == col[i]
    ensures forall i :: 0 <= i < |col| ==>
      (ForwardFill(last, col)[i].Missing? <==> last.Missing? && MissingUpTo(col, i))
    decreases |col|
  {
    if col != [] {
      var here := if col[0].Missing? then last else col[0];
      var tail := col[1..];
      ForwardFillSpec(here, tail);
      var r := ForwardFill(last, col);
      assert r == [here] + ForwardFill(here, tail);
      forall i | 1 <= i < |col|
        ensures r[i] == ForwardFill(here, tail)[i - 1] && tail[i - 1] == col[i]
        ensures MissingUpTo(col, i) <==> col[0].Missing? && MissingUpTo(tail, i - 1)
      {
        if col[0].Missing? && MissingUpTo(tail, i - 1) {
          forall j | 0 < j <= i ensures col[j].Missing? {
            assert col[j] == tail[j - 1];
          }
        }
      }
    }
  }

  /** bfill keeps the length and every present cell, and leaves a cell missing only when all below it are. */
  lemma {:induction false} BackFillSpec(next: Cell, col: seq<Cell>)
    ensures |BackFill(next, col)| == |col|
    ensures forall i :: 0 <= i < |col| && !col[i].Missing? ==> BackFill(next, col)[i] == col[i]
    ensures forall i :: 0 <= i < |col| ==>
      (BackFill(next, col)[i].Missing? <==> next.Missing? && MissingFrom(col, i))
    decreases |col|
  {
    if col != [] {
      var n := |col|;
      var last := col[n - 1];
      var here := if last.Missing? then next else last;
      var init := col[..n - 1];
      BackFillSpec(here, init);
      var r := BackFill(next, col);
      var front := BackFill(here, init);
      assert r == front + [here];
      forall i | 0 <= i < n
        ensures !col[i].Missing? ==> r[i] == col[i]
        ensures r[i].Missing? <==> next.Missing? && MissingFrom(col, i)
      {
        if i < n - 1 {
          assert r[i] == front[i] && init[i] == col[i];
          MissingFromInit(col, i);
        }
      }
    }
  }

  /** Every cell from i on is missing exactly when the same holds without the last cell and the last cell is missing. */
  lemma MissingFromInit(col: seq<Cell>, i: nat)
    requires i < |col| - 1
    ensures MissingFrom(col, i) <==> MissingFrom(col[..|col| - 1], i) && col[|col| - 1].Missing?
  {
  }

  /** A missing cell takes what the fill left on the row above. */
  lemma {:induction false} ForwardFillCarries(last: Cell, col: seq<Cell>, i: nat)
    requires 0 < i < |col| && col[i].Missing?
    ensures |ForwardFill(last, col)| == |col|
    ensures ForwardFill(last, col)[i] == ForwardFill(last, col)[i - 1]
    decreases |col|
  {
    ForwardFillSpec(last, col);
    var here := if col[0].Missing? then last else col[0];
    ForwardFillSpec(here, col[1..]);
    if i > 1 {
      ForwardFillCarries(here, col[1..], i - 1);
    }
  }

  /** A missing cell takes what the fill left on the row below. */
  lemma {:induction false} BackFillCarries(next: Cell, col: seq<Cell>, i: nat)
    requires i + 1 < |col| && col[i].Missing?
    ensures |BackFill(next, col)| == |col|
    ensures BackFill(next, col)[i] == BackFill(next, col)[i + 1]
    decreases |col|
  {
    var n := |col|;
    var here := if col[n - 1].Missing? then next else col[n - 1];
    var init := col[..n - 1];
    BackFillLength(here, init);
    var front := BackFill(here, init);
    assert BackFill(next, col) == front + [here];
    if i + 2 < n {
      BackFillCarries(here, init, i);
    } else {
      assert init[n - 2] == col[i];
      BackFillLength(here, init[..n - 2]);
      assert front == BackFill(here, init[..n - 2]) + [here];
    }
  }

  lemma {:induction false} BackFillLength(next: Cell, col: seq<Cell>)
    ensures |BackFill(next, col)| == |col|
    decreases |col|
  {
    if col != [] {
      BackFillLength(if col[|col| - 1].Missing? then next else col[|col| - 1], col[..|col| - 1]);
    }
  }

  /** ffill then bfill on one column. */
  function FillCells(col: seq<Cell>): seq<Cell> {
    BackFill(Missing, ForwardFill(Missing, col))
  }

  /** The fill keeps the length and every present cell, and leaves a cell missing only when the whole column is. */
  lemma FillCellsSpec(col: seq<Cell>)
    ensures |FillCells(col)| == |col|
    ensures forall i :: 0 <= i < |col| && !col[i].Missing? ==> FillCells(col)[i] == col[i]
    ensures forall i :: 0 <= i < |col| ==> (FillCells(col)[i].Missing? <==> MissingFrom(col, 0))
  {
    var f := ForwardFill(Missing, col);
    ForwardFillSpec(Missing, col);
    BackFillSpec(Missing, f);
    var r := BackFill(Missing, f);
    var n := |col|;
    forall i | 0 <= i < n
      ensures r[i].Missing? <==> MissingFrom(col, 0)
    {
      if r[i].Missing? {
        assert f[n - 1].Missing?;
        assert MissingUpTo(col, n - 1);
      }
    }
  }

  function Column(rows: seq<Bar>, f: Field): (col: seq<Cell>)
    ensures |col| == |rows| && forall i :: 0 <= i < |rows| ==> col[i] == Get(rows[i], f)
  {
    seq(|rows|, i requires 0 <= i < |rows| => Get(rows[i], f))
  }

  function WithColumn(rows: seq<Bar>, f: Field, col: seq<Cell>): (r: seq<Bar>)
    requires |col| == |rows|
    ensures |r| == |rows| && forall i :: 0 <= i < |rows| ==> r[i] == Set(rows[i], f, col[i])
  {
    seq(|rows|, i requires 0 <= i < |rows| => Set(rows[i], f, col[i]))
  }

  function FillColumn(rows: seq<Bar>, f: Field): seq<Bar> {
    FillCellsSpec(Column(rows, f));
    WithColumn(rows, f, FillCells(Column(rows, f)))
  }

  /** Fill the listed columns one after the other. */
  function FillColumns(rows: seq<Bar>, fs: seq<Field>): seq<Bar>
    decreases |fs|
  {
    if fs == [] then rows else FillColumns(FillColumn(rows, fs[0]), fs[1..])
  }

  /** ffill().bfill() over every numeric column. */
  function FillFrame(rows: seq<Bar>): seq<Bar> {
    FillColumns(rows, NumericCols)
  }

  predicate ColumnHasValue(rows: seq<Bar>, f: Field) {
    exists i :: 0 <= i < |rows| && !Get(rows[i], f).Missing?
  }

  /** What filling the listed columns keeps and what it repairs. */
  lemma {:induction false} FillColumnsSpec(rows: seq<Bar>, fs: seq<Field>)
    ensures |FillColumns(rows, fs)| == |rows|
    ensures forall i :: 0 <= i < |rows| ==>
      FillColumns(rows, fs)[i].timestamp == rows[i].timestamp && FillColumns(rows, fs)[i].symbol == rows[i].symbol
    ensures forall i, f :: 0 <= i < |rows| && !Get(rows[i], f).Missing? ==> Get(FillColumns(rows, fs)[i], f) == Get(rows[i], f)
    ensures forall f :: f in fs && ColumnHasValue(rows, f) ==>
      forall i :: 0 <= i < |rows| ==> !Get(FillColumns(rows, fs)[i], f).Missing?
    decreases |fs|
  {
    if fs != [] {
      var next := FillColumn(rows, fs[0]);
      FillCellsSpec(Column(rows, fs[0]));
      FillColumnsSpec(next, fs[1..]);
      var r := FillColumns(next, fs[1..]);
      assert r == FillColumns(rows, fs);
      forall f | f in fs && ColumnHasValue(rows, f)
        ensures forall i :: 0 <= i < |rows| ==> !Get(r[i], f).Missing?
      {
        var w :| 0 <= w < |rows| && !Get(rows[w], f).Missing?;
        assert !Get(next[w], f).Missing?;
        assert ColumnHasValue(next, f);
        if f == fs[0] {
          forall i | 0 <= i < |rows| ensures !Get(r[i], f).Missing? {
            assert !Get(next[i], f).Missing?;
          }
        } else {
          assert f in fs[1..];
        }
      }
    }
  }

  /** The fill keeps the rows, their order, timestamps and symbols. */
  lemma FillFrameKeepsRows(rows: seq<Bar>)
    ensures |FillFrame(rows)| == |rows|
    ensures forall i :: 0 <= i < |rows| ==>
      FillFrame(rows)[i].timestamp == rows[i].timestamp && FillFrame(rows)[i].symbol == rows[i].symbol
  {
  }

  /** After the fill, each numeric column is exactly its own ffill-then-bfill. */
  lemma FillFrameColumn(rows: seq<Bar>, f: Field)
    ensures Column(FillFrame(rows), f) == FillCells(Column(rows, f))
  {
    var fs := NumericCols;
    var i: nat := match f
      case Open => 0 case High => 1 case Low => 2 case Close => 3 case Volume => 4;
    assert fs[i] == f && f !in fs[..i] && f !in fs[i + 1..];
    var before := FillColumns(rows, fs[..i]);
    var after := FillColumn(before, f);
    FillColumnsPrefix(rows, fs, i);
    FillColumnsOther(rows, fs[..i], f);
    FillColumnOwn(before, f);
    FillColumnsOther(after, fs[i + 1..], f);
  }

  lemma FillColumnOwn(rows: seq<Bar>, f: Field)
    ensures Column(FillColumn(rows, f), f) == FillCells(Column(rows, f))
  {
    FillCellsSpec(Column(rows, f));
  }

  /** Filling other columns leaves column f as it was. */
  lemma {:induction false} FillColumnsOther(rows: seq<Bar>, fs: seq<Field>, f: Field)
    requires f !in fs
    ensures Column(FillColumns(rows, fs), f) == Column(rows, f)
    decreases |fs|
  {
    if fs != [] {
      var next := FillColumn(rows, fs[0]);
      FillCellsSpec(Column(rows, fs[0]));
      assert Column(next, f) == Column(rows, f);
      FillColumnsOther(next, fs[1..], f);
    }
  }

  lemma {:induction false} FillColumnsPrefix(rows: seq<Bar>, fs: seq<Field>, i: nat)
    requires i < |fs|
    ensures FillColumns(rows, fs) == FillColumns(FillColumn(FillColumns(rows, fs[..i]), fs[i]), fs[i + 1..])
    decreases i
  {
    if i > 0 {
      FillColumnsPrefix(FillColumn(rows, fs[0]), fs[1..], i - 1);
      assert fs[1..][..i - 1] == fs[1..i];
      assert fs[..i][1..] == fs[1..i];
      assert fs[1..][i - 1] == fs[i];
      assert fs[1..][i..] == fs[i + 1..];
    } else {
      assert fs[..0] == [];
      assert fs[1..] == fs[i + 1..];
    }
  }

  /**
   * The fill does not look at symbols: a cell missing on a row takes the value
   * present on the row just above, even when that row belongs to another symbol.
   */
  lemma FillCrossesSymbols(rows: seq<Bar>, i: nat, f: Field)
    requires 0 < i < |rows| && rows[i - 1].symbol != rows[i].symbol
    requires !Get(rows[i - 1], f).Missing? && Get(rows[i], f).Missing?
    ensures |FillFrame(rows)| == |rows| && Get(FillFrame(rows)[i], f) == Get(rows[i - 1], f)
  {
    FillColumnsSpec(rows, NumericCols);
    FillFrameColumn(rows, f);
    var col := Column(rows, f);
    var ff := ForwardFill(Missing, col);
    ForwardFillSpec(Missing, col);
    ForwardFillCarries(Missing, col, i);
    BackFillSpec(Missing, ff);
    assert ff[i] == ff[i - 1] == col[i - 1];
    assert Column(FillFrame(rows), f)[i] == BackFill(Missing, ff)[i];
  }
}
