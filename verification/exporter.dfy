/**
 The grouped export (utils.py:7-78): one archive entry per distinct value of
 the group column, in first-occurrence order, each holding the header, the
 group's rows and the column widths, named after the sanitised key. Any
 failure aborts the whole export with one wrapped error and no archive.
 */
module Exporter {
  import opened Results
  import opened Cells
  import opened Grouping
  import opened Sheet
  import opened Names
  import opened Widths

  /** One spreadsheet document in the archive: its entry name, the header
      row, the data rows and the display width of every column. */
  datatype Entry = Entry(name: string, header: seq<string>, rows: seq<Row>, widths: seq<nat>) {
    /** One width per column and one cell per column in every row. */
    predicate WellFormed() {
      |widths| == |header| && forall i :: 0 <= i < |rows| ==> |rows[i]| == |header|
    }
  }

  /** The archive: its entries in the order they were written. */
  type Archive = seq<Entry>

  const ErrorPrefix: string := "Error processing file: "

  /** True when some cell of `rows` is one the writer refuses. */
  predicate HasUnwritable(rows: seq<Row>) {
    exists i, j :: 0 <= i < |rows| && 0 <= j < |rows[i]| && !Writable(rows[i][j])
  }

  /** The error of the first refused cell of a row, if any. */
  function RowError(row: Row): (r: Option<string>)
    ensures r.None? <==> forall j :: 0 <= j < |row| ==> Writable(row[j])
    ensures r.Some? ==> exists j :: 0 <= j < |row| && row[j].Other? && row[j].cause == r.value
  {
    if |row| == 0 then None
    else if !Writable(row[0]) then Some(row[0].cause)
    else
      var rest := RowError(row[1..]);
      assert forall j :: 1 <= j < |row| ==> row[j] == row[1..][j - 1];
      rest
  }

  /** The error of the first refused cell of a sequence of rows, if any. */
  function WriteError(rows: seq<Row>): (r: Option<string>)
    ensures r.None? <==> !HasUnwritable(rows)
    ensures r.Some? ==>
      exists i, j :: 0 <= i < |rows| && 0 <= j < |rows[i]| && rows[i][j].Other? && rows[i][j].cause == r.value
  {
    if |rows| == 0 then None
    else
      var first := RowError(rows[0]);
      var rest := WriteError(rows[1..]);
      assert forall i :: 1 <= i < |rows| ==> rows[i] == rows[1..][i - 1];
      if first.Some? then first
      else
        assert !HasUnwritable(rows) <==> !HasUnwritable(rows[1..]) by {
          if HasUnwritable(rows) {
            var i, j :| 0 <= i < |rows| && 0 <= j < |rows[i]| && !Writable(rows[i][j]);
            assert i != 0;
            assert !Writable(rows[1..][i - 1][j]);
          }
        }
        rest
  }

  /** Writing one group as a workbook: the header row, the rows, the column
      widths; fails with the writer's error if it refuses a cell. */
  function WriteWorkbook(header: seq<string>, value: Cell, group: seq<Row>): (r: Result<Entry>)
    requires forall i :: 0 <= i < |group| ==> |group[i]| == |header|
    ensures r.Success? <==> !HasUnwritable(group)
    ensures r.Success? ==>
      r.value == Entry(EntryName(value), header, group, ColumnWidths(header, group))
    ensures r.Failure? ==> Some(r.error) == WriteError(group)
  {
    match WriteError(group)
    case Some(cause) => Failure(cause)
    case None => Success(Entry(EntryName(value), header, group, ColumnWidths(header, group)))
  }

  /** The entry the export writes for key value `v`. */
  function EntryFor(t: Table, key: nat, v: Cell): (e: Entry)
    requires t.WellFormed() && key < |t.header|
    ensures e.WellFormed()
  {
    var g := GroupRows(t, key, v);
    GroupRowsComeFromTable(t, key, v);
    Entry(EntryName(v), t.header, g, ColumnWidths(t.header, g))
  }

  /** True when the group of `vs[k]` is the first of the groups of `vs` that
      holds a refused cell, and `e` is the error its write raises. */
  predicate FirstRefusedGroup(t: Table, key: nat, vs: seq<Cell>, k: int, e: string)
    requires t.WellFormed() && key < |t.header|
  {
    && 0 <= k < |vs|
    && WriteError(GroupRows(t, key, vs[k])) == Some(e)
    && forall k' :: 0 <= k' < k ==> !HasUnwritable(GroupRows(t, key, vs[k']))
  }

  /** True when no group of a value in `vs` holds a refused cell. */
  predicate GroupsWritable(t: Table, key: nat, vs: seq<Cell>)
    requires t.WellFormed() && key < |t.header|
  {
    forall k :: 0 <= k < |vs| ==> !HasUnwritable(GroupRows(t, key, vs[k]))
  }

  /** True when `a` holds, in order, the entry of each value in `vs`. */
  predicate EntriesFor(t: Table, key: nat, vs: seq<Cell>, a: Archive)
    requires t.WellFormed() && key < |t.header|
  {
    |a| == |vs| && forall k :: 0 <= k < |vs| ==> a[k] == EntryFor(t, key, vs[k])
  }

  /** Writes one entry per value of `vs`, in order, stopping at the first
      group the writer refuses and reporting that group's error. */
  function WriteEntries(t: Table, key: nat, vs: seq<Cell>): (r: Result<Archive>)
    requires t.WellFormed() && key < |t.header|
    ensures r.Success? <==> GroupsWritable(t, key, vs)
    ensures r.Success? ==> EntriesFor(t, key, vs, r.value)
    ensures r.Failure? ==> exists k :: FirstRefusedGroup(t, key, vs, k, r.error)
  {
    if |vs| == 0 then Success([])
    else
      WritableStep(t, key, vs);
      GroupRowsComeFromTable(t, key, vs[0]);
      match WriteWorkbook(t.header, vs[0], GroupRows(t, key, vs[0]))
      case Failure(e) =>
        assert FirstRefusedGroup(t, key, vs, 0, e);
        Failure(e)
      case Success(entry) =>
        match WriteEntries(t, key, vs[1..])
        case Failure(e) =>
          ghost var k :| FirstRefusedGroup(t, key, vs[1..], k, e);
          RefusedStep(t, key, vs, k, e);
          Failure(e)
        case Success(entries) =>
          EntriesStep(t, key, vs, entries);
          Success([entry] + entries)
  }

  /** All groups are writable exactly when the first is and all the others are. */
  lemma WritableStep(t: Table, key: nat, vs: seq<Cell>)
    requires t.WellFormed() && key < |t.header| && |vs| > 0
    ensures GroupsWritable(t, key, vs) <==>
      !HasUnwritable(GroupRows(t, key, vs[0])) && GroupsWritable(t, key, vs[1..])
  {
    assert forall k :: 1 <= k < |vs| ==> vs[k] == vs[1..][k - 1];
  }

  /** The first value's entry followed by the entries of the rest are the entries of all values. */
  lemma EntriesStep(t: Table, key: nat, vs: seq<Cell>, a: Archive)
    requires t.WellFormed() && key < |t.header| && |vs| > 0
    requires EntriesFor(t, key, vs[1..], a)
    ensures EntriesFor(t, key, vs, [EntryFor(t, key, vs[0])] + a)
  {
    var b := [EntryFor(t, key, vs[0])] + a;
    forall k | 1 <= k < |vs| ensures b[k] == EntryFor(t, key, vs[k]) {
      assert b[k] == a[k - 1] && vs[k] == vs[1..][k - 1];
    }
  }

  /** A first refused group among the rest, after a writable first group, is the first refused group of all. */
  lemma RefusedStep(t: Table, key: nat, vs: seq<Cell>, k: int, e: string)
    requires t.WellFormed() && key < |t.header| && |vs| > 0
    requires !HasUnwritable(GroupRows(t, key, vs[0]))
    requires FirstRefusedGroup(t, key, vs[1..], k, e)
    ensures FirstRefusedGroup(t, key, vs, k + 1, e)
  {
    assert forall k' :: 1 <= k' < |vs| ==> vs[k'] == vs[1..][k' - 1];
  }

  /** A refused cell lies in the table exactly when it lies in some group. */
  lemma UnwritableTableIffUnwritableGroup(t: Table, key: nat)
    requires t.WellFormed() && key < |t.header|
    ensures HasUnwritable(t.rows) <==>
      exists k :: 0 <= k < |GroupValues(t, key)| && HasUnwritable(GroupRows(t, key, GroupValues(t, key)[k]))
  {
    if HasUnwritable(t.rows) {
      UnwritableCellInItsGroup(t, key);
    }
    forall k | 0 <= k < |GroupValues(t, key)| && HasUnwritable(GroupRows(t, key, GroupValues(t, key)[k]))
      ensures HasUnwritable(t.rows)
    {
      UnwritableGroupCellInTable(t, key, GroupValues(t, key)[k]);
    }
  }

  lemma UnwritableCellInItsGroup(t: Table, key: nat)
    requires t.WellFormed() && key < |t.header| && HasUnwritable(t.rows)
    ensures exists k :: 0 <= k < |GroupValues(t, key)| && HasUnwritable(GroupRows(t, key, GroupValues(t, key)[k]))
  {
    var vs := GroupValues(t, key);
    var i, j :| 0 <= i < |t.rows| && 0 <= j < |t.rows[i]| && !Writable(t.rows[i][j]);
    GroupValuesCoverKeys(t, key);
    var k :| 0 <= k < |vs| && vs[k] == t.rows[i][key];
    GroupHoldsMatchingRow(t, key, i);
    var g := GroupRows(t, key, vs[k]);
    var m :| 0 <= m < |g| && g[m] == t.rows[i];
    assert !Writable(g[m][j]);
  }

  lemma UnwritableGroupCellInTable(t: Table, key: nat, v: Cell)
    requires t.WellFormed() && key < |t.header| && HasUnwritable(GroupRows(t, key, v))
    ensures HasUnwritable(t.rows)
  {
    GroupRowsComeFromTable(t, key, v);
    var g := GroupRows(t, key, v);
    var m, j :| 0 <= m < |g| && 0 <= j < |g[m]| && !Writable(g[m][j]);
    var i :| 0 <= i < |t.rows| && t.rows[i] == g[m];
    assert !Writable(t.rows[i][j]);
  }

  /** The export as a whole: find the group column, write one entry per
      distinct key value, and wrap any failure in a single error. */
  function ProcessExcelFile(t: Table, groupColumn: string): (r: Result<Archive>)
    requires t.WellFormed()
    ensures r.Success? <==> groupColumn in t.header && !HasUnwritable(t.rows)
    ensures r.Failure? ==> ErrorPrefix <= r.error
    ensures groupColumn !in t.header ==> r == Failure(ErrorPrefix + "'" + groupColumn + "'")
    ensures groupColumn in t.header && r.Failure? ==>
      exists i, j :: 0 <= i < |t.rows| && 0 <= j < |t.rows[i]| &&
        t.rows[i][j].Other? && t.rows[i][j].cause == r.error[|ErrorPrefix|..]
    ensures groupColumn in t.header && r.Failure? ==>
      var key := ColumnIndex(t.header, groupColumn).value;
      exists k :: FirstRefusedGroup(t, key, GroupValues(t, key), k, r.error[|ErrorPrefix|..])
    ensures r.Success? ==>
      var key := ColumnIndex(t.header, groupColumn).value;
      |r.value| == |GroupValues(t, key)| &&
      forall k :: 0 <= k < |r.value| ==> r.value[k] == EntryFor(t, key, GroupValues(t, key)[k])
    ensures r.Success? ==> forall k :: 0 <= k < |r.value| ==> r.value[k].WellFormed()
  {
    match ColumnIndex(t.header, groupColumn)
    case None => Failure(ErrorPrefix + "'" + groupColumn + "'")
    case Some(key) =>
      var vs := GroupValues(t, key);
      UnwritableTableIffUnwritableGroup(t, key);
      match WriteEntries(t, key, vs)
      case Failure(cause) =>
        ghost var k :| FirstRefusedGroup(t, key, vs, k, cause);
        assert (ErrorPrefix + cause)[|ErrorPrefix|..] == cause;
        GroupRowsComeFromTable(t, key, vs[k]);
        Failure(ErrorPrefix + cause)
      case Success(archive) => Success(archive)
  }

  /** All data rows of an archive, entry after entry. */
  function ArchiveRows(a: Archive): (rows: seq<Row>)
    ensures forall k, j :: 0 <= k < |a| && 0 <= j < |a[k].rows| ==> a[k].rows[j] in rows
    ensures forall row :: row in rows ==> exists k :: 0 <= k < |a| && row in a[k].rows
  {
    if |a| == 0 then [] else
      var rest := ArchiveRows(a[1..]);
      assert forall k :: 1 <= k < |a| ==> a[k] == a[1..][k - 1];
      a[0].rows + rest
  }

  /** The rows of entries that hold the groups of `vs` are those groups collected in order. */
  lemma {:induction false} ArchiveRowsCollect(t: Table, key: nat, a: Archive, vs: seq<Cell>)
    requires t.WellFormed() && key < |t.header|
    requires |a| == |vs| && forall k :: 0 <= k < |vs| ==> a[k].rows == GroupRows(t, key, vs[k])
    ensures ArchiveRows(a) == Collect(t.rows, KeyColumn(t, key), vs)
  {
    if |a| > 0 {
      ArchiveRowsCollect(t, key, a[1..], vs[1..]);
    }
  }

  /** The archive holds one entry per distinct key value, in first-occurrence
      order, each under the name derived from its key and with the table's
      header. */
  lemma ExportFollowsGroupValues(t: Table, groupColumn: string)
    requires t.WellFormed() && ProcessExcelFile(t, groupColumn).Success?
    ensures var a := ProcessExcelFile(t, groupColumn).value;
      var key := ColumnIndex(t.header, groupColumn).value;
      && |a| == |GroupValues(t, key)|
      && (forall k :: 0 <= k < |a| ==> a[k].name == EntryName(GroupValues(t, key)[k]))
      && (forall k :: 0 <= k < |a| ==> a[k].header == t.header)
  {
  }

  /** Every entry holds at least one row, and only rows whose key cell is the
      entry's key value. */
  lemma ExportEntriesMatchTheirKey(t: Table, groupColumn: string)
    requires t.WellFormed() && ProcessExcelFile(t, groupColumn).Success?
    ensures var a := ProcessExcelFile(t, groupColumn).value;
      var key := ColumnIndex(t.header, groupColumn).value;
      && |a| == |GroupValues(t, key)|
      && (forall k :: 0 <= k < |a| ==> |a[k].rows| > 0)
      && (forall k, m :: 0 <= k < |a| && 0 <= m < |a[k].rows| ==>
            |a[k].rows[m]| == |t.header| && a[k].rows[m][key] == GroupValues(t, key)[k])
  {
    var a := ProcessExcelFile(t, groupColumn).value;
    var key := ColumnIndex(t.header, groupColumn).value;
    var vs := GroupValues(t, key);
    assert |a| == |vs| && forall k :: 0 <= k < |a| ==> a[k] == EntryFor(t, key, vs[k]);
    forall k | 0 <= k < |a| ensures |a[k].rows| > 0 {
      GroupsNonEmpty(t.rows, KeyColumn(t, key));
      assert vs[k] in vs;
    }
    forall k | 0 <= k < |a| ensures forall m :: 0 <= m < |a[k].rows| ==> |a[k].rows[m]| == |t.header| && a[k].rows[m][key] == vs[k] {
      GroupRowsComeFromTable(t, key, vs[k]);
    }
  }

  /** Together the entries hold every row of the table exactly once. */
  lemma ExportPartitionsTable(t: Table, groupColumn: string)
    requires t.WellFormed() && ProcessExcelFile(t, groupColumn).Success?
    ensures multiset(ArchiveRows(ProcessExcelFile(t, groupColumn).value)) == multiset(t.rows)
    ensures |ArchiveRows(ProcessExcelFile(t, groupColumn).value)| == |t.rows|
  {
    var a := ProcessExcelFile(t, groupColumn).value;
    var key := ColumnIndex(t.header, groupColumn).value;
    assert ArchiveRows(a) == Collect(t.rows, KeyColumn(t, key), GroupValues(t, key)) by {
      ArchiveRowsCollect(t, key, a, GroupValues(t, key));
    }
    GroupsPartitionTable(t, key);
  }

  /** An empty table yields an empty archive. */
  lemma EmptyTableGivesEmptyArchive(t: Table, groupColumn: string)
    requires t.WellFormed() && |t.rows| == 0 && groupColumn in t.header
    ensures ProcessExcelFile(t, groupColumn) == Success([])
  {
  }
}
