/**
 The table the exporter reads: a fixed, ordered header and a sequence of rows
 of tagged cells, one cell per column. A group is the rows whose cell in the
 key column equals one key value.
 */
module Sheet {
  import opened Results
  import opened Cells
  import opened Grouping

  type Row = seq<Cell>

  datatype Table = Table(header: seq<string>, rows: seq<Row>) {
    /** Every row has one cell per column. */
    predicate WellFormed() {
      forall i :: 0 <= i < |rows| ==> |rows[i]| == |header|
    }
  }

  /** The position of the first column called `name`, if there is one. */
  function ColumnIndex(header: seq<string>, name: string): (r: Option<nat>)
    ensures r.None? <==> name !in header
    ensures r.Some? ==> r.value < |header| && header[r.value] == name
    ensures r.Some? ==> forall j :: 0 <= j < r.value ==> header[j] != name
  {
    if name in header then Some(FirstIndex(header, name)) else None
  }

  /** The key column: the cell of every row in column `key`. */
  function KeyColumn(t: Table, key: nat): (ks: seq<Cell>)
    requires t.WellFormed() && key < |t.header|
    ensures |ks| == |t.rows|
    ensures forall i :: 0 <= i < |t.rows| ==> ks[i] == t.rows[i][key]
  {
    seq(|t.rows|, i requires 0 <= i < |t.rows| => t.rows[i][key])
  }

  /** The distinct key values in order of first occurrence (utils.py:26). */
  function GroupValues(t: Table, key: nat): (vs: seq<Cell>)
    requires t.WellFormed() && key < |t.header|
    ensures NoDuplicates(vs)
    ensures |vs| <= |t.rows|
    ensures |vs| == 0 <==> |t.rows| == 0
  {
    Distinct(KeyColumn(t, key))
  }

  /** The group for `v`: the rows whose key cell equals `v` (utils.py:30). */
  function GroupRows(t: Table, key: nat, v: Cell): (g: seq<Row>)
    requires t.WellFormed() && key < |t.header|
    ensures |g| <= |t.rows|
  {
    Select(t.rows, KeyColumn(t, key), v)
  }

  /** A group has one row per occurrence of its value in the key column, and
      is empty exactly when the value does not occur there. */
  lemma GroupSizeIsCount(t: Table, key: nat, v: Cell)
    requires t.WellFormed() && key < |t.header|
    ensures |GroupRows(t, key, v)| == multiset(KeyColumn(t, key))[v]
    ensures |GroupRows(t, key, v)| == 0 <==> v !in KeyColumn(t, key)
  {
    SelectSizeIsCount(t.rows, KeyColumn(t, key), v);
    SelectEmptyIff(t.rows, KeyColumn(t, key), v);
  }

  /** The distinct key list has no duplicates, holds the key value of every
      row and nothing else. */
  lemma GroupValuesCoverKeys(t: Table, key: nat)
    requires t.WellFormed() && key < |t.header|
    ensures NoDuplicates(GroupValues(t, key))
    ensures forall i :: 0 <= i < |t.rows| ==> t.rows[i][key] in GroupValues(t, key)
    ensures forall v :: v in GroupValues(t, key) ==>
      exists i :: 0 <= i < |t.rows| && t.rows[i][key] == v
  {
  }

  /** The distinct key values come in the order of their first occurrence in
      the key column. */
  lemma GroupValuesInTableOrder(t: Table, key: nat)
    requires t.WellFormed() && key < |t.header|
    ensures InFirstOccurrenceOrder(GroupValues(t, key), KeyColumn(t, key))
  {
    DistinctInFirstOccurrenceOrder(KeyColumn(t, key));
  }

  /** A group is exactly the rows whose key cell equals its value, in their
      original order: the rows at the increasing positions of that value. */
  lemma GroupRowsAreMatchingRows(t: Table, key: nat, v: Cell)
    requires t.WellFormed() && key < |t.header|
    ensures forall j :: 0 <= j < |Positions(KeyColumn(t, key), v)| ==>
      Positions(KeyColumn(t, key), v)[j] < |t.rows|
    ensures GroupRows(t, key, v) == Pick(t.rows, Positions(KeyColumn(t, key), v))
  {
    SelectIsPick(t.rows, KeyColumn(t, key), v);
  }

  /** Every row whose key cell equals `v` is in the group of `v`. */
  lemma GroupHoldsMatchingRow(t: Table, key: nat, i: nat)
    requires t.WellFormed() && key < |t.header| && i < |t.rows|
    ensures t.rows[i] in GroupRows(t, key, t.rows[i][key])
  {
    SelectContains(t.rows, KeyColumn(t, key), i);
  }

  /** Every row of the group of `v` is a row of the table whose key cell is
      `v`. */
  lemma GroupRowsComeFromTable(t: Table, key: nat, v: Cell)
    requires t.WellFormed() && key < |t.header|
    ensures forall m :: 0 <= m < |GroupRows(t, key, v)| ==>
      GroupRows(t, key, v)[m] in t.rows && |GroupRows(t, key, v)[m]| == |t.header| &&
      GroupRows(t, key, v)[m][key] == v
  {
    var ks := KeyColumn(t, key);
    SelectIsPick(t.rows, ks, v);
    var p := Positions(ks, v);
    var g := GroupRows(t, key, v);
    forall m | 0 <= m < |g| ensures g[m] in t.rows && |g[m]| == |t.header| && g[m][key] == v {
      assert p[m] in p;
      assert g[m] == t.rows[p[m]];
    }
  }

  /** Partition: the groups of the distinct key values, in order, hold every
      row of the table exactly as often as the table does, so the group sizes
      add up to the row count. */
  lemma GroupsPartitionTable(t: Table, key: nat)
    requires t.WellFormed() && key < |t.header|
    ensures multiset(Collect(t.rows, KeyColumn(t, key), GroupValues(t, key))) == multiset(t.rows)
    ensures |Collect(t.rows, KeyColumn(t, key), GroupValues(t, key))| == |t.rows|
    ensures forall v :: v in GroupValues(t, key) ==> |GroupRows(t, key, v)| > 0
  {
    GroupsPartitionRows(t.rows, KeyColumn(t, key));
    GroupSizesSumToRowCount(t.rows, KeyColumn(t, key));
    GroupsNonEmpty(t.rows, KeyColumn(t, key));
  }
}
