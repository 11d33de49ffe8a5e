/**
 * transform: rename the API's columns to canonical names, coerce the numeric
 * columns (unparsable text becomes Missing), keep rows at or after the
 * cutoff, select the canonical columns, sort and ffill/bfill when something
 * is missing, drop rows with a non-positive price when there is any
 * non-positive value, and cast volume to an integer.
 */
module Transform {
  import opened Wrappers
  import opened Frame
  import opened Ordering
  import opened Fill

  // ---------------------------------------------------------------------
  // Column names: rename, then select
  // ---------------------------------------------------------------------

  const FinalColumns: seq<string> := ["timestamp", "symbol", "open", "high", "low", "close", "volume"]

  /** The columns of a fetched frame: the payload fields, then the symbol tag. */
  const FetchedColumns: seq<string> := ["1. open", "2. high", "3. low", "4. close", "5. volume", "symbol"]

  /** The rename dictionary; other names pass through. */
  function CanonicalName(c: string): string {
    if c == "index" then "timestamp"
    else if c == "1. open" then "open"
    else if c == "2. high" then "high"
    else if c == "3. low" then "low"
    else if c == "4. close" then "close"
    else if c == "5. volume" then "volume"
    else c
  }

  /** reset_index puts the date index first as "index"; then every name is renamed. */
  function ResetAndRename(header: seq<string>): (cols: seq<string>)
    ensures |cols| == |header| + 1 && cols[0] == "timestamp"
    ensures forall i :: 0 <= i < |header| ==> cols[i + 1] == CanonicalName(header[i])
  {
    var h := ["index"] + header;
    seq(|h|, i requires 0 <= i < |h| => CanonicalName(h[i]))
  }

  /** df[wanted]: the position of each wanted column, or None (KeyError) when one is absent. */
  function SelectColumns(cols: seq<string>, wanted: seq<string>): (r: Option<seq<nat>>)
    ensures r.Some? <==> forall w :: w in wanted ==> w in cols
    ensures r.Some? ==> (|r.value| == |wanted| &&
      forall j :: 0 <= j < |wanted| ==> r.value[j] < |cols| && cols[r.value[j]] == wanted[j])
  {
    if wanted == [] then Some([])
    else if wanted[0] !in cols then None
    else
      match SelectColumns(cols, wanted[1..])
      case None => None
      case Some(rest) => Some([IndexOf(cols, wanted[0])] + rest)
  }

  /** Position of the first column named c. */
  function IndexOf(cols: seq<string>, c: string): (p: nat)
    requires c in cols
    ensures p < |cols| && cols[p] == c
  {
    if cols[0] == c then 0 else 1 + IndexOf(cols[1..], c)
  }

  /** The frame fetched from the API yields exactly the canonical columns, in order. */
  lemma FetchedFrameSelectsFinalColumns()
    ensures var cols := ResetAndRename(FetchedColumns);
      && SelectColumns(cols, FinalColumns).Some?
      && var p := SelectColumns(cols, FinalColumns).value;
         seq(|p|, j requires 0 <= j < |p| => cols[p[j]]) == FinalColumns
  {
    var cols := ResetAndRename(FetchedColumns);
    assert cols == ["timestamp", "open", "high", "low", "close", "volume", "symbol"];
    forall w | w in FinalColumns ensures w in cols { }
  }

  // ---------------------------------------------------------------------
  // Coercion: pd.to_numeric(errors='coerce') on each numeric column
  // ---------------------------------------------------------------------

  /** `parse` stands for pd.to_numeric on one string: None when it does not parse. */
  function ToNumeric(c: Cell, parse: string -> Option<int>): Cell {
    match c
    case Text(s) => (match parse(s) case Some(n) => Num(n) case None => Missing)
    case _ => c
  }

  /** A row with all five numeric cells coerced. */
  function CoerceRow(b: Bar, parse: string -> Option<int>): Bar {
    Bar(b.timestamp, b.symbol, ToNumeric(b.open, parse), ToNumeric(b.high, parse),
        ToNumeric(b.low, parse), ToNumeric(b.close, parse), ToNumeric(b.volume, parse))
  }

  /** A row with the listed fields coerced, first to last. */
  function CoerceFields(b: Bar, fs: seq<Field>, parse: string -> Option<int>): Bar
    decreases |fs|
  {
    if fs == [] then b
    else
      var before := CoerceFields(b, fs[..|fs| - 1], parse);
      var f := fs[|fs| - 1];
      Set(before, f, ToNumeric(Get(before, f), parse))
  }

  /** df[col] = pd.to_numeric(df[col], errors='coerce'). */
  function CoerceColumn(rows: seq<Bar>, f: Field, parse: string -> Option<int>): (r: seq<Bar>)
    ensures |r| == |rows|
  {
    seq(|rows|, i requires 0 <= i < |rows| => Set(rows[i], f, ToNumeric(Get(rows[i], f), parse)))
  }

  /** The loop over numeric_cols, overwriting one column per step. */
  method CoerceNumericColumns(rows: seq<Bar>, parse: string -> Option<int>) returns (out: seq<Bar>)
    ensures |out| == |rows|
    ensures forall i :: 0 <= i < |rows| ==> out[i] == CoerceRow(rows[i], parse)
  {
    out := rows;
    for k := 0 to |NumericCols|
      invariant |out| == |rows|
      invariant forall i :: 0 <= i < |rows| ==> out[i] == CoerceFields(rows[i], NumericCols[..k], parse)
    {
      assert NumericCols[..k + 1][..k] == NumericCols[..k];
      out := CoerceColumn(out, NumericCols[k], parse);
    }
    assert NumericCols[..5] == NumericCols;
    forall i | 0 <= i < |rows| ensures out[i] == CoerceRow(rows[i], parse) {
      CoerceAllFields(rows[i], parse);
    }
  }

  lemma CoerceAllFields(b: Bar, parse: string -> Option<int>)
    ensures CoerceFields(b, NumericCols, parse) == CoerceRow(b, parse)
  {
    var c := CoerceFields(b, NumericCols, parse);
    CoerceFieldsGet(b, NumericCols, parse);
    assert Get(c, Open) == c.open && Get(c, High) == c.high && Get(c, Low) == c.low;
    assert Get(c, Close) == c.close && Get(c, Volume) == c.volume;
  }

  /** Coercing the listed fields, in any order and even twice, coerces exactly those fields. */
  lemma {:induction false} CoerceFieldsGet(b: Bar, fs: seq<Field>, parse: string -> Option<int>)
    ensures CoerceFields(b, fs, parse).timestamp == b.timestamp && CoerceFields(b, fs, parse).symbol == b.symbol
    ensures forall f :: Get(CoerceFields(b, fs, parse), f) == if f in fs then ToNumeric(Get(b, f), parse) else Get(b, f)
    decreases |fs|
  {
    if fs != [] {
      var init := fs[..|fs| - 1];
      CoerceFieldsGet(b, init, parse);
      assert fs == init + [fs[|fs| - 1]];
    }
  }

  /** After coercion no cell holds text. */
  lemma CoerceRowIsNumeric(b: Bar, parse: string -> Option<int>, f: Field)
    ensures !Get(CoerceRow(b, parse), f).Text?
    ensures !Get(b, f).Text? ==> Get(CoerceRow(b, parse), f) == Get(b, f)
  {
  }

  // ---------------------------------------------------------------------
  // Row filters
  // ---------------------------------------------------------------------

  /** df[mask]: the rows satisfying `keep`, in their original order. */
  function Where(rows: seq<Bar>, keep: Bar -> bool): (r: seq<Bar>)
    ensures forall x :: x in r ==> keep(x)
    ensures forall i :: 0 <= i < |rows| && keep(rows[i]) ==> rows[i] in r
    ensures multiset(r) <= multiset(rows)
  {
    if rows == [] then []
    else
      assert rows == [rows[0]] + rows[1..];
      (if keep(rows[0]) then [rows[0]] else []) + Where(rows[1..], keep)
  }

  /** Filtering keeps relative order: it distributes over concatenation. */
  lemma {:induction false} WhereConcat(a: seq<Bar>, b: seq<Bar>, keep: Bar -> bool)
    ensures Where(a + b, keep) == Where(a, keep) + Where(b, keep)
    decreases |a|
  {
    if a != [] {
      assert (a + b)[1..] == a[1..] + b;
      WhereConcat(a[1..], b, keep);
    } else {
      assert a + b == b;
    }
  }

  /** Nothing is dropped when every row passes. */
  lemma {:induction false} WhereAllKept(rows: seq<Bar>, keep: Bar -> bool)
    requires forall i :: 0 <= i < |rows| ==> keep(rows[i])
    ensures Where(rows, keep) == rows
    decreases |rows|
  {
    if rows != [] {
      WhereAllKept(rows[1..], keep);
      assert rows == [rows[0]] + rows[1..];
    }
  }

  /** The mask df['timestamp'] >= cutoff. */
  function Since(cutoff: int): Bar -> bool {
    (b: Bar) => b.timestamp >= cutoff
  }

  /** df[df['timestamp'] >= cutoff]. */
  function KeepSince(rows: seq<Bar>, cutoff: int): seq<Bar> {
    Where(rows, Since(cutoff))
  }

  /** A kept row is at or after the cutoff, and every such row is kept. */
  lemma KeepSinceSpec(rows: seq<Bar>, cutoff: int)
    ensures forall x :: x in KeepSince(rows, cutoff) ==> x.timestamp >= cutoff
    ensures forall i :: 0 <= i < |rows| && rows[i].timestamp >= cutoff ==> rows[i] in KeepSince(rows, cutoff)
  {
  }

  predicate NonPositive(c: Cell) {
    c.Num? && c.n <= 0
  }

  predicate Positive(c: Cell) {
    c.Num? && c.n > 0
  }

  /** (df[numeric_cols] <= 0).any().any(); a Missing cell compares false. */
  predicate AnyNonPositive(rows: seq<Bar>) {
    exists i, f :: 0 <= i < |rows| && NonPositive(Get(rows[i], f))
  }

  predicate PricesPositive(b: Bar) {
    Positive(b.open) && Positive(b.high) && Positive(b.low) && Positive(b.close)
  }

  /** Drop rows whose open, high, low or close is not > 0, when any numeric value is <= 0. */
  function DropNonPositive(rows: seq<Bar>): seq<Bar> {
    if AnyNonPositive(rows) then Where(rows, PricesPositive) else rows
  }

  lemma DropNonPositiveSpec(rows: seq<Bar>)
    ensures AnyNonPositive(rows) ==> forall x :: x in DropNonPositive(rows) ==> PricesPositive(x)
    ensures forall i :: 0 <= i < |rows| && PricesPositive(rows[i]) ==> rows[i] in DropNonPositive(rows)
    ensures !AnyNonPositive(rows) ==> DropNonPositive(rows) == rows
  {
  }

  /** The output never holds a non-positive price; a non-positive volume alone does not drop a row. */
  lemma NoNonPositivePriceSurvives(rows: seq<Bar>)
    ensures forall x, f :: x in DropNonPositive(rows) && f != Volume ==> !NonPositive(Get(x, f))
    ensures forall i :: 0 <= i < |rows| && PricesPositive(rows[i]) && NonPositive(rows[i].volume) ==>
      rows[i] in DropNonPositive(rows)
  {
  }

  // ---------------------------------------------------------------------
  // Missing values
  // ---------------------------------------------------------------------

  predicate HasMissing(b: Bar) {
    exists f :: Get(b, f).Missing?
  }

  /** df.isnull().sum().sum() > 0 */
  predicate AnyMissing(rows: seq<Bar>) {
    exists i :: 0 <= i < |rows| && HasMissing(rows[i])
  }

  /** Sort by (symbol, timestamp) and ffill/bfill, only when some value is missing. */
  function FillMissing(rows: seq<Bar>): seq<Bar> {
    if AnyMissing(rows) then FillFrame(SortByKey(rows)) else rows
  }

  /**
   * The fill step keeps the row count; without a missing value it changes
   * nothing, not even the order; otherwise the rows are those of the input
   * sorted by (symbol, timestamp), every present value of the sorted rows is
   * kept, and a column with a present value anywhere has no missing value left.
   */
  lemma FillMissingSpec(rows: seq<Bar>)
    ensures |FillMissing(rows)| == |rows|
    ensures !AnyMissing(rows) ==> FillMissing(rows) == rows
    ensures AnyMissing(rows) ==>
      var sorted := SortByKey(rows);
      && SortedByKey(sorted) && multiset(sorted) == multiset(rows)
      && (forall i :: 0 <= i < |rows| ==>
            FillMissing(rows)[i].timestamp == sorted[i].timestamp && FillMissing(rows)[i].symbol == sorted[i].symbol)
      && (forall i, f :: 0 <= i < |rows| && !Get(sorted[i], f).Missing? ==> Get(FillMissing(rows)[i], f) == Get(sorted[i], f))
      && (forall f :: ColumnHasValue(rows, f) ==> forall i :: 0 <= i < |rows| ==> !Get(FillMissing(rows)[i], f).Missing?)
  {
    if AnyMissing(rows) {
      var sorted := SortByKey(rows);
      SortKeepsLength(rows);
      FillColumnsSpec(sorted, NumericCols);
      forall f | ColumnHasValue(rows, f) ensures ColumnHasValue(sorted, f) && f in NumericCols {
        var i :| 0 <= i < |rows| && !Get(rows[i], f).Missing?;
        assert rows[i] in multiset(sorted);
        var j :| 0 <= j < |sorted| && sorted[j] == rows[i];
        NumericColsCoverAllFields(f);
      }
    }
  }

  // ---------------------------------------------------------------------
  // The whole transform
  // ---------------------------------------------------------------------

  /** The raw frame as read back from the raw file: its column names and its rows. */
  datatype RawFrame = RawFrame(header: seq<string>, rows: seq<Bar>)

  datatype TransformError =
    | ReadFailed        // the raw file could not be read: transform returns None
    | MissingColumn     // a column the code indexes is absent: KeyError
    | VolumeNotFinite   // astype(int) on a volume column that still holds NaN

  predicate VolumesPresent(rows: seq<Bar>) {
    forall i :: 0 <= i < |rows| ==> rows[i].volume.Num?
  }

  /** df['volume'].astype(int): fails on a missing volume; values are integers already. */
  function CastVolume(rows: seq<Bar>): Result<seq<Bar>, TransformError> {
    if VolumesPresent(rows) then Success(rows) else Failure(VolumeNotFinite)
  }

  /** The validation steps after coercion. */
  function Clean(coerced: seq<Bar>, cutoff: int): Result<seq<Bar>, TransformError> {
    CastVolume(DropNonPositive(FillMissing(KeepSince(coerced, cutoff))))
  }

  function Pipeline(raw: Option<RawFrame>, cutoff: int, parse: string -> Option<int>): Result<seq<Bar>, TransformError> {
    match raw
    case None => Failure(ReadFailed)
    case Some(frame) =>
      if SelectColumns(ResetAndRename(frame.header), FinalColumns).None? then Failure(MissingColumn)
      else Clean(seq(|frame.rows|, i requires 0 <= i < |frame.rows| => CoerceRow(frame.rows[i], parse)), cutoff)
  }

  /** Rows at or after the cutoff stay so through the fill: it only reorders rows and fills cells. */
  lemma FillMissingRespectsCutoff(rows: seq<Bar>, cutoff: int)
    requires forall i :: 0 <= i < |rows| ==> rows[i].timestamp >= cutoff
    ensures forall x :: x in FillMissing(rows) ==> x.timestamp >= cutoff
  {
    if AnyMissing(rows) {
      var sorted := SortByKey(rows);
      var out := FillFrame(sorted);
      SortKeepsLength(rows);
      FillFrameKeepsRows(sorted);
      forall i | 0 <= i < |out| ensures out[i].timestamp >= cutoff {
        assert sorted[i] in multiset(rows);
      }
    }
  }

  lemma DropNonPositiveSubset(rows: seq<Bar>)
    ensures forall x :: x in DropNonPositive(rows) ==> x in rows
  {
    forall x | x in DropNonPositive(rows) ensures x in rows {
      assert x in multiset(DropNonPositive(rows));
    }
  }

  /** What a successful clean promises about every row it returns. */
  lemma CleanSpec(coerced: seq<Bar>, cutoff: int)
    ensures Clean(coerced, cutoff).Success? ==>
      var out := Clean(coerced, cutoff).value;
      && VolumesPresent(out)
      && (forall x :: x in out ==> x.timestamp >= cutoff)
      && (forall x, f :: x in out && f != Volume ==> !NonPositive(Get(x, f)))
  {
    var recent := KeepSince(coerced, cutoff);
    var filled := FillMissing(recent);
    KeepSinceSpec(coerced, cutoff);
    assert forall i :: 0 <= i < |recent| ==> recent[i] in recent;
    FillMissingRespectsCutoff(recent, cutoff);
    NoNonPositivePriceSurvives(filled);
    DropNonPositiveSubset(filled);
  }

  /**
   * transform(k_days): `raw` is the frame read from the raw file (None when
   * reading fails), `cutoff` is now minus k_days, `parse` is pd.to_numeric.
   */
  method Transform(raw: Option<RawFrame>, cutoff: int, parse: string -> Option<int>) returns (res: Result<seq<Bar>, TransformError>)
    ensures res == Pipeline(raw, cutoff, parse)
    ensures raw.None? <==> res == Failure(ReadFailed)
    ensures res.Success? ==>
      && VolumesPresent(res.value)
      && (forall x :: x in res.value ==> x.timestamp >= cutoff)
      && (forall x, f :: x in res.value && f != Volume ==> !NonPositive(Get(x, f)))
  {
    if raw.None? {
      return Failure(ReadFailed);
    }
    var frame := raw.value;
    var cols := ResetAndRename(frame.header);
    if SelectColumns(cols, FinalColumns).None? {
      return Failure(MissingColumn);
    }
    var coerced := CoerceNumericColumns(frame.rows, parse);
    assert coerced == seq(|frame.rows|, i requires 0 <= i < |frame.rows| => CoerceRow(frame.rows[i], parse));
    CleanSpec(coerced, cutoff);
    res := Clean(coerced, cutoff);
  }
}
