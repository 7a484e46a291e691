/**
 * The CSV file sink: the rows written so far, in the order they were written.
 * Field quoting, the file on disk and write errors belong to the CSV library
 * and the operating system and are not part of this model.
 */
module Csv {
  type Row = seq<string>

  class Writer {
    /** The rows written so far. */
    var rows: seq<Row>

    /** Creating the output file: it starts empty. */
    constructor ()
      ensures rows == []
    {
      rows := [];
    }

    /** `w.Write(row)`: appends one row. */
    method Write(row: Row)
      modifies this
      ensures rows == old(rows) + [row]
    {
      rows := rows + [row];
    }
  }
}
