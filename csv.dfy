/**
 * A CSV table as the two generators read it with pandas: the header and,
 * per row, the cells that hold a value. A cell absent from a row's map is
 * missing (NaN).
 */
module Csv {
  import opened Wrappers

  datatype Table = Table(columns: seq<string>, rows: seq<map<string, string>>)

  /** The cell of one row under a column; None when it is missing. */
  function Cell(row: map<string, string>, column: string): Option<string> {
    if column in row then Some(row[column]) else None
  }

  /** `df[column]`: the column's cells, row by row. */
  function Column(rows: seq<map<string, string>>, column: string): seq<Option<string>> {
    seq(|rows|, i requires 0 <= i < |rows| => Cell(rows[i], column))
  }

  /** `[c for c in required if c not in columns]` */
  function MissingColumns(required: seq<string>, columns: seq<string>): (missing: seq<string>)
    ensures |missing| <= |required|
    ensures forall c :: c in missing <==> c in required && c !in columns
  {
    if required == [] then []
    else (if required[0] in columns then [] else [required[0]]) + MissingColumns(required[1..], columns)
  }
}
