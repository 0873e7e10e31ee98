/**
 Column widths of an exported sheet (utils.py:50-57): the longer of the
 longest cell text in the column and the header text, plus a padding of 2.
 */
module Widths {
  import opened Cells

  const Padding: nat := 2

  function Max(a: nat, b: nat): nat {
    if a < b then b else a
  }

  /** The length of the longest cell text in column `j`; 0 for no rows. */
  function MaxCellLength(rows: seq<seq<Cell>>, j: nat): (m: nat)
    requires forall i :: 0 <= i < |rows| ==> j < |rows[i]|
    ensures forall i :: 0 <= i < |rows| ==> |Render(rows[i][j])| <= m
    ensures |rows| == 0 ==> m == 0
    ensures |rows| > 0 ==> exists i :: 0 <= i < |rows| && m == |Render(rows[i][j])|
  {
    if |rows| == 0 then 0
    else
      var rest := MaxCellLength(rows[1..], j);
      assert forall i :: 1 <= i < |rows| ==> rows[i] == rows[1..][i - 1];
      Max(|Render(rows[0][j])|, rest)
  }

  /** The display width of column `j`: the least value at least header
      length + 2 and at least every cell length + 2. */
  function ColumnWidth(header: seq<string>, rows: seq<seq<Cell>>, j: nat): (w: nat)
    requires j < |header|
    requires forall i :: 0 <= i < |rows| ==> |rows[i]| == |header|
    ensures w >= |header[j]| + Padding
    ensures forall i :: 0 <= i < |rows| ==> w >= |Render(rows[i][j])| + Padding
    ensures w == |header[j]| + Padding ||
            exists i :: 0 <= i < |rows| && w == |Render(rows[i][j])| + Padding
  {
    Max(MaxCellLength(rows, j), |header[j]|) + Padding
  }

  /** The three properties of `ColumnWidth` single out one value: a width no
      smaller than the padded header and every padded cell, and equal to one
      of them, is the column width. */
  lemma ColumnWidthUnique(header: seq<string>, rows: seq<seq<Cell>>, j: nat, w: nat)
    requires j < |header|
    requires forall i :: 0 <= i < |rows| ==> |rows[i]| == |header|
    requires w >= |header[j]| + Padding
    requires forall i :: 0 <= i < |rows| ==> w >= |Render(rows[i][j])| + Padding
    requires w == |header[j]| + Padding || exists i :: 0 <= i < |rows| && w == |Render(rows[i][j])| + Padding
    ensures w == ColumnWidth(header, rows, j)
  {
    var c := ColumnWidth(header, rows, j);
    if w != |header[j]| + Padding {
      var i :| 0 <= i < |rows| && w == |Render(rows[i][j])| + Padding;
      assert c >= w;
    }
    if c != |header[j]| + Padding {
      var i :| 0 <= i < |rows| && c == |Render(rows[i][j])| + Padding;
      assert w >= c;
    }
  }

  /** The widths of all columns, in column order. */
  function ColumnWidths(header: seq<string>, rows: seq<seq<Cell>>): (ws: seq<nat>)
    requires forall i :: 0 <= i < |rows| ==> |rows[i]| == |header|
    ensures |ws| == |header|
    ensures forall j :: 0 <= j < |header| ==> ws[j] == ColumnWidth(header, rows, j)
  {
    seq(|header|, j requires 0 <= j < |header| => ColumnWidth(header, rows, j))
  }

  /** The scan for the longest cell text of column `j` in a group. */
  method LongestCell(rows: seq<seq<Cell>>, j: nat) returns (longest: nat)
    requires forall i :: 0 <= i < |rows| ==> j < |rows[i]|
    ensures forall i :: 0 <= i < |rows| ==> |Render(rows[i][j])| <= longest
    ensures longest == 0 || exists i :: 0 <= i < |rows| && longest == |Render(rows[i][j])|
  {
    longest := 0;
    var i := 0;
    while i < |rows|
      invariant 0 <= i <= |rows|
      invariant forall k :: 0 <= k < i ==> |Render(rows[k][j])| <= longest
      invariant longest == 0 || exists k :: 0 <= k < i && longest == |Render(rows[k][j])|
    {
      if |Render(rows[i][j])| > longest {
        longest := |Render(rows[i][j])|;
      }
      i := i + 1;
    }
  }

  /** The width loop as written: for each column, scan the group for the
      longest cell text, compare it with the header text, add the padding. */
  method ComputeWidths(header: seq<string>, rows: seq<seq<Cell>>) returns (ws: seq<nat>)
    requires forall i :: 0 <= i < |rows| ==> |rows[i]| == |header|
    ensures |ws| == |header|
    ensures forall j :: 0 <= j < |header| ==> ws[j] >= |header[j]| + Padding
    ensures forall j, i :: 0 <= j < |header| && 0 <= i < |rows| ==>
      ws[j] >= |Render(rows[i][j])| + Padding
    ensures forall j :: 0 <= j < |header| ==>
      ws[j] == |header[j]| + Padding || exists i :: 0 <= i < |rows| && ws[j] == |Render(rows[i][j])| + Padding
    ensures ws == ColumnWidths(header, rows)
  {
    ws := [];
    var j := 0;
    while j < |header|
      invariant 0 <= j <= |header|
      invariant |ws| == j
      invariant forall c :: 0 <= c < j ==> ws[c] == ColumnWidth(header, rows, c)
    {
      var longest := LongestCell(rows, j);
      var w := (if longest < |header[j]| then |header[j]| else longest) + Padding;
      ColumnWidthUnique(header, rows, j, w);
      ws := ws + [w];
      j := j + 1;
    }
  }
}
