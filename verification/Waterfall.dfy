/** The run waterfall as a whole: the rows of a run's records and the keys marked critical among them. */
module Waterfall {
  import opened TaskRows
  import opened TaskRowLaws
  import opened TaskRowMeaning
  import opened PredecessorGraph
  import opened CriticalPath

  /** A task weighs as long as its work item took, from the first start to the last end of its records. */
  ghost predicate WeighsExtents(records: seq<Record>, rows: seq<Row>, g: Graph) {
    forall i :: 0 <= i < |rows| && IsFirst(rows, i) ==>
                  IsExtent(records, rows[i].workItemHash, g.Duration(KeyOf(rows[i])))
  }

  lemma TableWeighs(records: seq<Record>, rows: seq<Row>, connections: seq<Connection>)
    requires IsTable(records, rows)
    ensures WeighsExtents(records, rows, GraphOf(rows, connections))
  {
    hide IsTable, KeyOf, IsExtent, FirstDurations, PredsOf, IsFirst;
    forall i | 0 <= i < |rows| && IsFirst(rows, i)
      ensures IsExtent(records, rows[i].workItemHash, GraphOf(rows, connections).Duration(KeyOf(rows[i])))
    {
      FirstSpeaks(rows, i);
      RowDuration(records, rows, rows[i]);
    }
  }

  /** A task answers to the node that its first record names, and to its work item's hash when that is empty. */
  lemma RowKey(records: seq<Record>, rows: seq<Row>, row: Row, i: int)
    requires IsTable(records, rows) && row in rows && FirstRecord(records, row.workItemHash, i)
    ensures exists node :: NamesNode(records[i], node) && KeyOf(row).hash == if node != "" then node else row.workItemHash
  {
    RowNode(records, rows, row, i);
  }

  method Compute(records: seq<Record>, connections: seq<Connection>) returns (rows: seq<Row>, critical: set<Key>)
    ensures IsTable(records, rows)
    ensures MarksCritical(rows, connections, critical) && WeighsExtents(records, rows, GraphOf(rows, connections))
  {
    hide IsTable, MarksCritical, WeighsExtents;
    rows := BuildTaskRows(records);
    RowsAreNamed(records, rows);
    critical := ComputeCriticalPath(rows, connections);
    TableWeighs(records, rows, connections);
  }
}
