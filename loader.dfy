/** The matrix loader after parsing: every row of the 2D RMSD table starts
    with the 1-based frame number of P, followed by the distances from that
    frame to every frame of Q. Loading keeps only the distances. */
module Loader {
  import opened Hausdorff

  /** `d[:, 1:]`: every row without its first field, the frame number. */
  function StripFirstColumn(table: Matrix): (d: Matrix)
    requires forall i :: 0 <= i < |table| ==> |table[i]| > 0
    ensures |d| == |table|
    ensures forall i :: 0 <= i < |d| ==> |d[i]| == |table[i]| - 1
    ensures forall i, j :: 0 <= i < |d| && 0 <= j < |d[i]| ==> d[i][j] == table[i][j + 1]
  {
    if |table| == 0 then []
    else
      assert forall i :: 1 <= i < |table| ==> table[i] == table[1..][i - 1];
      [table[0][1..]] + StripFirstColumn(table[1..])
  }

  /** Stripping a column from a table `w + 1` wide leaves `w` columns. */
  lemma StripFirstColumnShape(table: Matrix, w: nat)
    requires Rectangular(table, w + 1)
    ensures Rectangular(StripFirstColumn(table), w)
    ensures |table| > 0 && w > 0 ==> IsMatrix(StripFirstColumn(table))
  {
    var d := StripFirstColumn(table);
    if |table| > 0 {
      assert Width(d) == w;
    }
  }

  /** The table as the file lays it out: row `i` of the distances preceded
      by the frame number `first + i`. */
  function WithFrameNumbersFrom(d: Matrix, first: nat): (table: Matrix)
    ensures |table| == |d|
    ensures forall i :: 0 <= i < |d| ==> table[i] == [(first + i) as real] + d[i]
  {
    if |d| == 0 then []
    else
      var rest := WithFrameNumbersFrom(d[1..], first + 1);
      var table := [[first as real] + d[0]] + rest;
      assert forall i :: 1 <= i < |d| ==> table[i] == rest[i - 1] && d[i] == d[1..][i - 1];
      table
  }

  /** The table with frames numbered from 1, as in the file format. */
  function WithFrameNumbers(d: Matrix): (table: Matrix)
    ensures |table| == |d|
    ensures forall i :: 0 <= i < |d| ==> |table[i]| == |d[i]| + 1
    ensures forall i :: 0 <= i < |d| ==> table[i][0] == (i + 1) as real && table[i][1..] == d[i]
  {
    var t := WithFrameNumbersFrom(d, 1);
    assert forall i :: 0 <= i < |d| ==> t[i][1..] == d[i];
    t
  }

  /** Loading a table written with frame numbers gives back the distances. */
  lemma StripUndoesFrameNumbers(d: Matrix)
    ensures StripFirstColumn(WithFrameNumbers(d)) == d
  {
    var t := WithFrameNumbers(d);
    var s := StripFirstColumn(t);
    forall i | 0 <= i < |d|
      ensures s[i] == d[i]
    {
      assert |s[i]| == |d[i]|;
    }
  }

  /** A parsed table that the program can reduce: at least two rows and at
      least two fields per row. With a single row or a single field per
      row the parsed array is one-dimensional and `d[:, 1:]` fails. */
  predicate Reducible(table: Matrix) {
    |table| >= 2 && Width(table) >= 2 && Rectangular(table, Width(table))
  }

  /** Loading a parsed table and reducing it: the program's result. */
  function DistanceOfTable(table: Matrix): (h: real)
    requires Reducible(table)
    ensures IsMatrix(StripFirstColumn(table))
    ensures h == HausdorffSimple(StripFirstColumn(table))
    ensures exists i, j :: 0 <= i < |table| && 1 <= j < |table[i]| && h == table[i][j]
  {
    var d := StripFirstColumn(table);
    StripFirstColumnShape(table, Width(table) - 1);
    HausdorffIsEntry(d);
    var i, j :| 0 <= i < |d| && 0 <= j < |d[i]| && HausdorffSimple(d) == d[i][j];
    assert HausdorffSimple(d) == table[i][j + 1];
    HausdorffSimple(d)
  }

  /** The frame numbers never influence the result: the distance of a
      table written with frame numbers is that of its distances. */
  lemma FrameNumbersIgnored(d: Matrix)
    requires IsMatrix(d) && |d| >= 2
    ensures Reducible(WithFrameNumbers(d))
    ensures DistanceOfTable(WithFrameNumbers(d)) == HausdorffSimple(d)
  {
    var t := WithFrameNumbers(d);
    assert Width(t) == Width(d) + 1;
    StripUndoesFrameNumbers(d);
  }
}
