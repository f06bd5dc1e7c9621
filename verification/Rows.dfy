/** Picking columns out of rows, as the join and subquery executors do. */
module Rows {
  import opened Options
  import opened Values

  /** A column of a row; NULL where the row is absent.  Plans never name a
    * column beyond the row. */
  function Cell(row: Option<Row>, index: nat): Value {
    if row.Some? && index < |row.value| then row.value[index] else Null
  }

  /** An empty projection keeps the whole row. */
  function Projected(projection: seq<nat>, row: Row): Row {
    if projection == [] then row
    else seq(|projection|, i requires 0 <= i < |projection| => Cell(Some(row), projection[i]))
  }

  /** The values of named columns; `None` is a column that was not found. */
  function ColumnValues(row: Row, columns: seq<Option<nat>>): Row {
    seq(|columns|, i requires 0 <= i < |columns| =>
      if columns[i].None? then Null else Cell(Some(row), columns[i].value))
  }

  /** The parameter values of a correlated subquery for an outer row; a column
    * that was not found is an error. */
  function ParamValues(params: seq<Option<nat>>, row: Row): (values: Option<Row>)
    ensures params == [] ==> values == Some([])
  {
    if None in params then None
    else
      assert |ColumnValues(row, params)| == |params|;
      Some(ColumnValues(row, params))
  }
}
