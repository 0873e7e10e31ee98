/**
 Worked examples of the export: small tables described by their key
 column and their refused cells.
 */
module Scenarios {
  import opened Results
  import opened Cells
  import opened Grouping
  import opened Sheet
  import opened Names
  import opened Exporter

  const A: Cell := Text("A")
  const B: Cell := Text("B")

  /** A key column that starts a, b and holds nothing but a and b has the
      distinct list a, b. */
  lemma {:induction false} DistinctOfTwoValues<K(!new)>(ks: seq<K>, a: K, b: K)
    requires |ks| >= 2 && ks[0] == a && ks[1] == b && a != b
    requires forall i :: 0 <= i < |ks| ==> ks[i] == a || ks[i] == b
    ensures Distinct(ks) == [a, b]
  {
    var n := |ks| - 1;
    if n == 1 {
      assert ks[..1] == [a];
      assert ks[..1][..0] == [];
    } else {
      DistinctOfTwoValues(ks[..n], a, b);
    }
  }

  /** True when the table has five rows whose key cells read A, B, A, B, A. */
  predicate KeysReadABABA(t: Table, key: nat)
    requires t.WellFormed() && key < |t.header|
  {
    && |t.rows| == 5
    && t.rows[0][key] == A && t.rows[1][key] == B && t.rows[2][key] == A
    && t.rows[3][key] == B && t.rows[4][key] == A
  }

  /** Keys A, B, A, B, A form the groups A (three rows) and B (two rows), in
      that order. */
  lemma RegionGroups(t: Table, key: nat)
    requires t.WellFormed() && key < |t.header| && KeysReadABABA(t, key)
    ensures GroupValues(t, key) == [A, B]
    ensures |GroupRows(t, key, A)| == 3
    ensures |GroupRows(t, key, B)| == 2
  {
    var ks := KeyColumn(t, key);
    assert ks == [A, B, A, B, A];
    DistinctOfTwoValues(ks, A, B);
    SelectSizeIsCount(t.rows, ks, A);
    SelectSizeIsCount(t.rows, ks, B);
    assert multiset(ks)[A] == 3 && multiset(ks)[B] == 2;
  }

  /** Grouping by a column Region, wherever it stands, that reads A, B, A, B,
      A gives two entries, A.xlsx with three rows and B.xlsx with two, in
      that order. */
  lemma RegionScenario(t: Table, key: nat)
    requires t.WellFormed() && ColumnIndex(t.header, "Region") == Some(key)
    requires KeysReadABABA(t, key) && !HasUnwritable(t.rows)
    ensures var r := ProcessExcelFile(t, "Region");
      && r.Success?
      && |r.value| == 2
      && r.value[0].name == "A.xlsx" && |r.value[0].rows| == 3
      && r.value[1].name == "B.xlsx" && |r.value[1].rows| == 2
  {
    assert GroupValues(t, key) == [A, B] && |GroupRows(t, key, A)| == 3 && |GroupRows(t, key, B)| == 2 by {
      RegionGroups(t, key);
    }
    assert EntryName(A) == "A.xlsx" && EntryName(B) == "B.xlsx" by {
      assert Sanitize("A") == "A" && Sanitize("B") == "B";
    }
    var r := ProcessExcelFile(t, "Region");
    assert r.Success? && |r.value| == 2;
    assert r.value[0] == EntryFor(t, key, A) && r.value[1] == EntryFor(t, key, B);
  }

  /** A one-row table gives one entry holding that row under the header. */
  lemma SingleRowScenario(header: seq<string>, row: Row, groupColumn: string)
    requires |row| == |header| && groupColumn in header
    requires forall j :: 0 <= j < |row| ==> Writable(row[j])
    ensures var r := ProcessExcelFile(Table(header, [row]), groupColumn);
      r.Success? && |r.value| == 1 && r.value[0].rows == [row] && r.value[0].header == header
  {
    var t := Table(header, [row]);
    var key := ColumnIndex(header, groupColumn).value;
    assert GroupValues(t, key) == [row[key]] && GroupRows(t, key, row[key]) == [row] by {
      assert KeyColumn(t, key)[..0] == [];
      assert Distinct(KeyColumn(t, key)) == [row[key]];
      assert Select(t.rows, KeyColumn(t, key), row[key]) == [row];
    }
    assert !HasUnwritable(t.rows);
  }

  /** When exactly one cell of the table is refused, the export fails with
      that cell's error, wrapped, and produces no archive, whichever group the
      cell lies in and however many groups could have been written. */
  lemma OnlyRefusedCellIsReported(t: Table, groupColumn: string, i0: nat, j0: nat)
    requires t.WellFormed() && groupColumn in t.header
    requires i0 < |t.rows| && j0 < |t.rows[i0]| && t.rows[i0][j0].Other?
    requires forall i, j :: 0 <= i < |t.rows| && 0 <= j < |t.rows[i]| && (i != i0 || j != j0) ==>
      Writable(t.rows[i][j])
    ensures ProcessExcelFile(t, groupColumn) == Failure(ErrorPrefix + t.rows[i0][j0].cause)
  {
    assert !Writable(t.rows[i0][j0]);
    var r := ProcessExcelFile(t, groupColumn);
    var i, j :| 0 <= i < |t.rows| && 0 <= j < |t.rows[i]| &&
      t.rows[i][j].Other? && t.rows[i][j].cause == r.error[|ErrorPrefix|..];
    assert i == i0 && j == j0;
    assert r.error == r.error[..|ErrorPrefix|] + r.error[|ErrorPrefix|..];
  }

  /** A group column that is not in the header aborts with the wrapped key
      error. */
  lemma MissingColumnAborts(t: Table)
    requires t.WellFormed() && "Region" !in t.header
    ensures ProcessExcelFile(t, "Region") == Failure("Error processing file: 'Region'")
  {
  }
}
