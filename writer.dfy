/**
 * The final step of a run: with no records nothing is written; otherwise the records
 * go to a CSV file of fixed name under a fixed five-column header, one row per record.
 * The file system is not modelled: whether the write succeeds is given.
 */
module Writer {
  import opened Wrappers
  import opened Catalogue

  const OutputFileName: string := "books_data_limited_output.csv"
  const Header: seq<string> := ["Name", "Price", "Rating", "Stock", "Description"]

  /** What the write step does: nothing (no data), writes the table to the named file, or hits an I/O error. */
  datatype SaveOutcome = NoData | Saved(fileName: string, table: seq<seq<string>>) | WriteFailed

  /** One CSV row, its cells in header order. */
  function RowOf(r: Record): (row: seq<string>)
    ensures |row| == |Header|
  {
    [r.name, r.price, r.rating, r.stock, r.description]
  }

  /** The data rows, one per record, in record order. */
  function Rows(records: seq<Record>): (rows: seq<seq<string>>)
    ensures |rows| == |records|
    ensures forall k :: 0 <= k < |records| ==> rows[k] == RowOf(records[k])
    decreases |records|
  {
    if records == [] then [] else [RowOf(records[0])] + Rows(records[1..])
  }

  /**
   * The value a record holds under a column name: the scraper builds each record as a
   * dictionary keyed by the header names, and the CSV writer looks each column up by name.
   */
  function FieldNamed(r: Record, column: string): string
  {
    if column == "Name" then r.name
    else if column == "Price" then r.price
    else if column == "Rating" then r.rating
    else if column == "Stock" then r.stock
    else if column == "Description" then r.description
    else ""
  }

  /** Reads a data row back into a record, column by column under the header. */
  function RecordOfRow(row: seq<string>): Record
    requires |row| == |Header|
  {
    Record(row[0], row[1], row[2], row[3], row[4])
  }

  function ReadRows(rows: seq<seq<string>>): (records: seq<Record>)
    requires forall k :: 0 <= k < |rows| ==> |rows[k]| == |Header|
    ensures |records| == |rows|
    decreases |rows|
  {
    if rows == [] then [] else [RecordOfRow(rows[0])] + ReadRows(rows[1..])
  }

  /** Reading the data rows back gives exactly the records written, in order: no field is lost or reordered. */
  lemma {:induction false} ReadRowsOfRows(records: seq<Record>)
    ensures ReadRows(Rows(records)) == records
    decreases |records|
  {
    if records != [] {
      assert Rows(records)[1..] == Rows(records[1..]);
      ReadRowsOfRows(records[1..]);
    }
  }

  /**
   * The write step: no file when there are no records, otherwise the header line followed
   * by one line per record under the fixed file name, unless the write fails.
   */
  function Save(records: seq<Record>, writeSucceeds: bool): (o: SaveOutcome)
    ensures o.NoData? <==> records == []
    ensures o.WriteFailed? <==> records != [] && !writeSucceeds
    ensures o.Saved? ==> o.fileName == OutputFileName
    ensures o.Saved? ==> |o.table| == |records| + 1 && o.table[0] == Header
    ensures o.Saved? ==> forall k :: 0 <= k < |records| ==> o.table[k + 1] == RowOf(records[k])
  {
    if records == [] then NoData
    else if !writeSucceeds then WriteFailed
    else Saved(OutputFileName, [Header] + Rows(records))
  }

  /** A saved table is the header followed by rows that read back to exactly the records saved. */
  lemma SavedTableReadsBack(records: seq<Record>, writeSucceeds: bool)
    requires Save(records, writeSucceeds).Saved?
    ensures var table := Save(records, writeSucceeds).table;
      table[0] == Header && ReadRows(table[1..]) == records
  {
    assert Save(records, writeSucceeds).table[1..] == Rows(records);
    ReadRowsOfRows(records);
  }

  /** Every cell of a saved data row holds the value its record has under that column's header name. */
  lemma SavedCellsByHeader(records: seq<Record>, writeSucceeds: bool)
    requires Save(records, writeSucceeds).Saved?
    ensures var table := Save(records, writeSucceeds).table;
      forall k, j :: 1 <= k < |table| && 0 <= j < |Header| ==> table[k][j] == FieldNamed(records[k - 1], Header[j])
  {
    var table := Save(records, writeSucceeds).table;
    forall k, j | 1 <= k < |table| && 0 <= j < |Header|
      ensures table[k][j] == FieldNamed(records[k - 1], Header[j])
    {
      assert table[k] == RowOf(records[k - 1]);
      CellByHeader(records[k - 1], j);
    }
  }

  /** Column `j` of a record's row is the record's value under the `j`-th header name. */
  lemma CellByHeader(r: Record, j: nat)
    requires j < |Header|
    ensures RowOf(r)[j] == FieldNamed(r, Header[j])
  {
    if j == 0 {
      assert Header[0] == "Name";
    } else if j == 1 {
      assert Header[1] == "Price";
    } else if j == 2 {
      assert Header[2] == "Rating";
    } else if j == 3 {
      assert Header[3] == "Stock";
    } else {
      assert Header[4] == "Description";
    }
  }
}
