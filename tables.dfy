/**
 * A table as the pipeline sees it: a sequence of records, each a map from
 * column name to the text of a cell (what `pandas.DataFrame.from_records`
 * builds from the extractor's rows).
 */
module Tables {
  import opened Wrappers

  type Record = map<string, string>

  type Table = seq<Record>

  /** The column every merge joins on. */
  const TeamColumn: string := "Team"

  /** `row[column]` in a DataFrame built from records: NaN (None) where the record has no such key. */
  function Field(row: Record, column: string): (v: Option<string>)
    ensures v.Some? <==> column in row
    ensures v.Some? ==> v.value == row[column]
  {
    if column in row then Some(row[column]) else None
  }

  /** The join key of a row. */
  function TeamOf(row: Record): Option<string>
  {
    Field(row, TeamColumn)
  }
}
