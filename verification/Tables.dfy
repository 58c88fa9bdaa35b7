/** A table of the store: its column names and its rows. */
module Tables {
  import opened Values

  datatype Table = Table(columns: seq<string>, rows: seq<Row>)

  predicate Distinct(columns: seq<string>)
  {
    forall i, j :: 0 <= i < j < |columns| ==> columns[i] != columns[j]
  }

  /** What SQLite guarantees of every table: distinct column names, and one
      cell per column in every row. */
  predicate WellFormed(t: Table)
  {
    Distinct(t.columns) && forall i :: 0 <= i < |t.rows| ==> |t.rows[i]| == |t.columns|
  }

  /** `columns.index(c)`: the first position of `c`, or None where Python
      raises ValueError. */
  function ColumnIndex(columns: seq<string>, c: string): (r: Option<nat>)
    ensures r.Some? ==> r.value < |columns| && columns[r.value] == c
    ensures r.Some? ==> forall j :: 0 <= j < r.value ==> columns[j] != c
    ensures r.None? <==> c !in columns
  {
    if columns == [] then None
    else if columns[0] == c then Some(0)
    else match ColumnIndex(columns[1..], c)
      case None => None
      case Some(i) => Some(i + 1)
  }

  /** In a table with distinct column names, a column's index is its position. */
  lemma ColumnIndexOfPosition(columns: seq<string>, p: nat)
    requires Distinct(columns) && p < |columns|
    ensures ColumnIndex(columns, columns[p]) == Some(p)
  {
  }
}
