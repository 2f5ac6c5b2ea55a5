/**
 * A trace row (`Row<fr>`): one field element per member. The C++ row is a
 * struct whose members are value-initialised by `Row{}`; here it is a map
 * from member name to value in which a missing member reads as zero.
 */
module Rows {
  import opened Fields

  type Row = map<string, Fr>

  /** `Row{}`: every member zero. */
  const EmptyRow: Row := map[]

  /** The member `row.{column}`. */
  function Cell(row: Row, column: string): Fr
  {
    if column in row then row[column] else 0
  }
}
