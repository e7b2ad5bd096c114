/**
 * A CSV file as the loaders see it once it has been read: a header row and
 * data rows whose cells are present or missing. Reading the file is not
 * part of the model; the table is an input.
 */
module Tables {
  import opened Wrappers
  import opened Text
  import opened Ids

  /** One data row; `None` is a cell the reader reports as missing (NaN). */
  type Row = seq<Option<string>>

  datatype Table = Table(header: seq<string>, rows: seq<Row>)

  /** `_normalize_cols`: every header replaced by its cleaned form, in place and in order. */
  function NormalizeColumns(header: seq<string>): (cols: seq<string>)
    ensures |cols| == |header|
    ensures forall i :: 0 <= i < |cols| ==> cols[i] == Clean(header[i])
  {
    seq(|header|, i requires 0 <= i < |header| => Clean(header[i]))
  }

  /** Normalising an already normalised header row changes nothing. */
  lemma NormalizeColumnsIdempotent(header: seq<string>)
    ensures NormalizeColumns(NormalizeColumns(header)) == NormalizeColumns(header)
  {
    var cols := NormalizeColumns(header);
    forall i | 0 <= i < |cols| ensures Clean(cols[i]) == cols[i] {
      CleanIdempotent(header[i]);
    }
  }

  /** The position of the first column called `name`. */
  function ColumnIndex(cols: seq<string>, name: string): (r: Option<nat>)
    ensures r.None? <==> name !in cols
    ensures r.Some? ==> r.value < |cols| && cols[r.value] == name
    ensures r.Some? ==> forall j :: 0 <= j < r.value ==> cols[j] != name
  {
    if cols == [] then None
    else if cols[0] == name then Some(0)
    else
      match ColumnIndex(cols[1..], name)
      case None => None
      case Some(i) => Some(i + 1)
  }

  /**
   * The cell of `row` in column `name`; missing when there is no such
   * column or the row is shorter than the header.
   */
  function Cell(cols: seq<string>, row: Row, name: string): (r: Option<string>)
    ensures name !in cols ==> r.None?
    ensures r.Some? ==> exists i :: 0 <= i < |row| && i < |cols| && cols[i] == name && row[i] == r
    ensures ColumnIndex(cols, name).Some? ==>
              r == if ColumnIndex(cols, name).value < |row| then row[ColumnIndex(cols, name).value] else None
  {
    match ColumnIndex(cols, name)
    case None => None
    case Some(i) => if i < |row| then row[i] else None
  }

  /** The provider id column, as it reads once headers are cleaned. */
  const IdColumn := "provider_id"

  /** The provider id of a row: its id cell, when present and numeric, as an integer. */
  function RowId(cols: seq<string>, row: Row): (r: Option<nat>)
    ensures r.Some? <==> exists c :: Cell(cols, row, IdColumn) == Some(c) && c != [] && AllDigits(c)
    ensures r.Some? ==> exists c :: Cell(cols, row, IdColumn) == Some(c) && AllDigits(c) && r.value == DigitsValue(c)
  {
    match Cell(cols, row, IdColumn)
    case Some(c) => ParseId(c)
    case None => None
  }
}
