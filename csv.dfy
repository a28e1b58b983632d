/** The output CSV file, `{org}_repo_dependency_licensing.csv`, as the sequence
    of rows it holds; quoting and escaping belong to the CSV writer and are not
    modelled. */
module Csv {

  const HEADER: seq<string> := ["org", "repo", "dependency_name", "license"]

  class CsvFile {
    var rows: seq<seq<string>>

    /** A file that may already hold rows from an earlier run. */
    constructor (existing: seq<seq<string>>)
      ensures rows == existing
    {
      rows := existing;
    }

    /** initialize_csv: open for writing, which truncates, and write the header. */
    method Initialize()
      modifies this
      ensures rows == [HEADER]
    {
      rows := [];
      rows := rows + [HEADER];
    }

    /** Open for appending and write one row; nothing already written changes. */
    method AppendRow(row: seq<string>)
      modifies this
      ensures rows == old(rows) + [row]
    {
      rows := rows + [row];
    }
  }
}
