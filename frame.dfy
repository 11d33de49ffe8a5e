/**
 * Rows of the price frame as transform and extract see them. The five
 * numeric columns hold cells: text as the API returns it, a number after
 * coercion, or Missing (NaN) where coercion failed.
 */
module Frame {

  datatype Cell = Text(text: string) | Num(n: int) | Missing

  datatype Field = Open | High | Low | Close | Volume

  /** numeric_cols, in the order the coercion loop visits them. */
  const NumericCols: seq<Field> := [Open, High, Low, Close, Volume]

  datatype Bar = Bar(timestamp: int, symbol: string, open: Cell, high: Cell, low: Cell, close: Cell, volume: Cell)

  function Get(b: Bar, f: Field): Cell {
    match f
    case Open => b.open
    case High => b.high
    case Low => b.low
    case Close => b.close
    case Volume => b.volume
  }

  /** Overwrite one numeric cell of a row; nothing else of the row changes. */
  function Set(b: Bar, f: Field, c: Cell): (r: Bar)
    ensures Get(r, f) == c
    ensures forall g :: g != f ==> Get(r, g) == Get(b, g)
    ensures r.timestamp == b.timestamp && r.symbol == b.symbol
  {
    match f
    case Open => b.(open := c)
    case High => b.(high := c)
    case Low => b.(low := c)
    case Close => b.(close := c)
    case Volume => b.(volume := c)
  }

  lemma NumericColsCoverAllFields(f: Field)
    ensures f in NumericCols
  {
  }
}
