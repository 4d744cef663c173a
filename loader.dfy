/** The one-time cleaning pass applied when the table is loaded (`read_data`). */
module Loader {
  import opened Records

  /** A row whose completion year is positive. */
  predicate Completed(r: Record)
  {
    r.year > 0
  }

  /** A row whose latitude is positive (the dashboard's `read_data` test for a usable coordinate). */
  predicate HasLatitude(r: Record)
  {
    r.latitude > 0.0
  }

  /** A row that survives loading. */
  predicate Clean(r: Record)
  {
    Completed(r) && HasLatitude(r)
  }

  /**
   * The loaded dataset: the table's rows with completion year > 0, then, of those, the rows
   * with latitude > 0. The two masks are applied one after the other, as the dashboard's
   * `read_data` does.
   */
  function ReadData(table: seq<Record>): (df: seq<Record>)
    ensures forall x :: x in df <==> x in table && x.year > 0 && x.latitude > 0.0
    ensures df == Select(table, Clean)
  {
    var completed := Select(table, Completed);
    SelectOfSelect(table, Completed, HasLatitude, Clean);
    SelectMembers(table, Clean);
    Select(completed, HasLatitude)
  }

  /** The loaded dataset is the in-order subsequence of the table's clean rows: row k of it is the k-th clean row. */
  lemma ReadDataInOrder(table: seq<Record>)
    ensures |ReadData(table)| == |Positions(table, Clean)|
    ensures forall k :: 0 <= k < |ReadData(table)| ==> ReadData(table)[k] == table[Positions(table, Clean)[k]]
  {
    SelectIsSubsequence(table, Clean);
  }
}
