/** The Hausdorff reducer: from an Np×Nq matrix of distances between the
    frames of trajectory P (rows) and trajectory Q (columns), the two
    directed Hausdorff distances and their maximum. */
module Hausdorff {
  import opened SeqOrder

  type Matrix = seq<seq<real>>

  /** Every row has exactly `w` entries. */
  predicate Rectangular(d: Matrix, w: nat) {
    forall i :: 0 <= i < |d| ==> |d[i]| == w
  }

  /** The number of columns, read off the first row. */
  function Width(d: Matrix): nat {
    if |d| == 0 then 0 else |d[0]|
  }

  /** A rectangular matrix with at least one row and one column: the shape
      on which both axis minima and both maxima are defined. */
  predicate IsMatrix(d: Matrix) {
    |d| > 0 && Width(d) > 0 && Rectangular(d, Width(d))
  }

  /** `np.min(d, axis=1)`: the minimum of each row, in row order. */
  function RowMins(d: Matrix): (r: seq<real>)
    requires forall i :: 0 <= i < |d| ==> |d[i]| > 0
    ensures |r| == |d|
    ensures forall i :: 0 <= i < |d| ==> r[i] == Min(d[i])
  {
    if |d| == 0 then []
    else
      assert forall i :: 1 <= i < |d| ==> d[i] == d[1..][i - 1];
      [Min(d[0])] + RowMins(d[1..])
  }

  /** Column `j`: the distances from every frame of P to frame `j` of Q. */
  function Column(d: Matrix, j: nat): (c: seq<real>)
    requires forall i :: 0 <= i < |d| ==> j < |d[i]|
    ensures |c| == |d|
    ensures forall i :: 0 <= i < |d| ==> c[i] == d[i][j]
  {
    if |d| == 0 then []
    else
      assert forall i :: 1 <= i < |d| ==> d[i] == d[1..][i - 1];
      [d[0][j]] + Column(d[1..], j)
  }

  /** The minima of the first `n` columns, in column order. */
  function ColMinsUpTo(d: Matrix, n: nat): (r: seq<real>)
    requires |d| > 0
    requires forall i :: 0 <= i < |d| ==> n <= |d[i]|
    ensures |r| == n
    ensures forall j :: 0 <= j < n ==> r[j] == Min(Column(d, j))
  {
    if n == 0 then []
    else
      var front := ColMinsUpTo(d, n - 1);
      var r := front + [Min(Column(d, n - 1))];
      assert forall j :: 0 <= j < n - 1 ==> r[j] == front[j];
      r
  }

  /** `np.min(d, axis=0)`: the minimum of each column, in column order. */
  function ColMins(d: Matrix): (r: seq<real>)
    requires IsMatrix(d)
    ensures |r| == Width(d)
    ensures forall j :: 0 <= j < Width(d) ==> r[j] == Min(Column(d, j))
  {
    ColMinsUpTo(d, Width(d))
  }

  /** hPQ, the directed distance from P to Q: the largest row minimum. */
  function DirectedPQ(d: Matrix): (h: real)
    requires IsMatrix(d)
    ensures forall i :: 0 <= i < |d| ==> Min(d[i]) <= h
    ensures exists i :: 0 <= i < |d| && h == Min(d[i])
  {
    Max(RowMins(d))
  }

  /** hQP, the directed distance from Q to P: the largest column minimum. */
  function DirectedQP(d: Matrix): (h: real)
    requires IsMatrix(d)
    ensures forall j :: 0 <= j < Width(d) ==> Min(Column(d, j)) <= h
    ensures exists j :: 0 <= j < Width(d) && h == Min(Column(d, j))
  {
    Max(ColMins(d))
  }

  /** `Hausdorff_simple(d)`: the larger of the two directed distances,
      computed as `np.max([hPQ, hQP])`. */
  function HausdorffSimple(d: Matrix): (h: real)
    requires IsMatrix(d)
    ensures DirectedPQ(d) <= h && DirectedQP(d) <= h
    ensures h == DirectedPQ(d) || h == DirectedQP(d)
  {
    Max([DirectedPQ(d), DirectedQP(d)])
  }

  // ---------------------------------------------------------------------
  // Reference definitions of the directed distances: every frame of one
  // trajectory has a frame of the other within h, and some frame has no
  // frame of the other closer than h.

  /** `x` is the directed Hausdorff distance from P to Q. */
  ghost predicate IsDirectedPQ(d: Matrix, x: real) {
    && (forall i :: 0 <= i < |d| ==> SomeAtMost(d[i], x))
    && (exists i :: 0 <= i < |d| && AllAtLeast(d[i], x))
  }

  /** `x` is the directed Hausdorff distance from Q to P. */
  ghost predicate IsDirectedQP(d: Matrix, x: real)
    requires IsMatrix(d)
  {
    && (forall j :: 0 <= j < Width(d) ==> SomeAtMost(Column(d, j), x))
    && (exists j :: 0 <= j < Width(d) && AllAtLeast(Column(d, j), x))
  }

  /** hPQ itself meets the reference definition. */
  lemma DirectedPQMeetsDefinition(d: Matrix)
    requires IsMatrix(d)
    ensures IsDirectedPQ(d, DirectedPQ(d))
  {
    var h := DirectedPQ(d);
    var w :| 0 <= w < |d| && h == Min(d[w]);
    forall i | 0 <= i < |d|
      ensures SomeAtMost(d[i], h)
    {
      MinCharacterized(d[i], h);
    }
    MinCharacterized(d[w], h);
  }

  /** Only hPQ meets the reference definition. */
  lemma DefinitionDeterminesDirectedPQ(d: Matrix, x: real)
    requires IsMatrix(d) && IsDirectedPQ(d, x)
    ensures x == DirectedPQ(d)
  {
    var h := DirectedPQ(d);
    var w :| 0 <= w < |d| && h == Min(d[w]);
    var f :| 0 <= f < |d| && AllAtLeast(d[f], x);
    MinCharacterized(d[f], x);
    MinCharacterized(d[w], x);
  }

  /** hPQ is exactly the value the reference definition describes. */
  lemma DirectedPQMatchesDefinition(d: Matrix, x: real)
    requires IsMatrix(d)
    ensures IsDirectedPQ(d, x) <==> x == DirectedPQ(d)
  {
    DirectedPQMeetsDefinition(d);
    if IsDirectedPQ(d, x) {
      DefinitionDeterminesDirectedPQ(d, x);
    }
  }

  // ---------------------------------------------------------------------
  // Transposition swaps the roles of P and Q.

  /** The matrix with rows and columns exchanged. */
  function Transpose(d: Matrix): (t: Matrix)
    requires IsMatrix(d)
    ensures IsMatrix(t) && |t| == Width(d) && Width(t) == |d|
    ensures forall j, i :: 0 <= j < |t| && 0 <= i < |d| ==> t[j][i] == d[i][j]
  {
    seq(Width(d), j requires 0 <= j < Width(d) => Column(d, j))
  }

  /** Transposing twice gives back the matrix. */
  lemma TransposeInvolutive(d: Matrix)
    requires IsMatrix(d)
    ensures Transpose(Transpose(d)) == d
  {
    var tt := Transpose(Transpose(d));
    assert |tt| == |d|;
    forall i | 0 <= i < |d|
      ensures tt[i] == d[i]
    {
      assert |tt[i]| == Width(d) == |d[i]|;
    }
  }

  /** Row `j` of the transpose is column `j` of the matrix. */
  lemma RowOfTranspose(d: Matrix, j: nat)
    requires IsMatrix(d) && j < Width(d)
    ensures Transpose(d)[j] == Column(d, j)
  {
  }

  /** The row minima of the transpose are the column minima of the matrix. */
  lemma RowMinsOfTranspose(d: Matrix)
    requires IsMatrix(d)
    ensures RowMins(Transpose(d)) == ColMins(d)
  {
    var t := Transpose(d);
    var a, b := RowMins(t), ColMins(d);
    forall j | 0 <= j < Width(d)
      ensures a[j] == b[j]
    {
      RowOfTranspose(d, j);
    }
  }

  /** The column minima of the transpose are the row minima of the matrix:
      the row minima of the transpose of the transpose, which is the matrix. */
  lemma ColMinsOfTranspose(d: Matrix)
    requires IsMatrix(d)
    ensures ColMins(Transpose(d)) == RowMins(d)
  {
    RowMinsOfTranspose(Transpose(d));
    TransposeInvolutive(d);
  }

  /** Transposing the matrix exchanges hPQ and hQP. */
  lemma TransposeSwapsDirected(d: Matrix)
    requires IsMatrix(d)
    ensures DirectedPQ(Transpose(d)) == DirectedQP(d)
    ensures DirectedQP(Transpose(d)) == DirectedPQ(d)
  {
    RowMinsOfTranspose(d);
    ColMinsOfTranspose(d);
  }

  /** hQP is exactly the value the reference definition describes: the
      Q-to-P definition of the matrix is the P-to-Q one of its transpose. */
  lemma DirectedQPMatchesDefinition(d: Matrix, x: real)
    requires IsMatrix(d)
    ensures IsDirectedQP(d, x) <==> x == DirectedQP(d)
  {
    var t := Transpose(d);
    assert forall j :: 0 <= j < Width(d) ==> t[j] == Column(d, j);
    assert IsDirectedQP(d, x) <==> IsDirectedPQ(t, x);
    DirectedPQMatchesDefinition(t, x);
    TransposeSwapsDirected(d);
  }

  /** The Hausdorff distance is symmetric in P and Q. */
  lemma TransposeKeepsHausdorff(d: Matrix)
    requires IsMatrix(d)
    ensures HausdorffSimple(Transpose(d)) == HausdorffSimple(d)
  {
    TransposeSwapsDirected(d);
  }

  // ---------------------------------------------------------------------
  // Where the result lies.

  /** The result is one of the matrix's own entries. */
  lemma HausdorffIsEntry(d: Matrix)
    requires IsMatrix(d)
    ensures exists i, j :: 0 <= i < |d| && 0 <= j < |d[i]| && HausdorffSimple(d) == d[i][j]
  {
    var h := HausdorffSimple(d);
    if h == DirectedPQ(d) {
      var i :| 0 <= i < |d| && h == Min(d[i]);
      var j :| 0 <= j < |d[i]| && d[i][j] == Min(d[i]);
      assert h == d[i][j];
    } else {
      var j :| 0 <= j < Width(d) && h == Min(Column(d, j));
      var i :| 0 <= i < |d| && Column(d, j)[i] == Min(Column(d, j));
      assert h == d[i][j];
    }
  }

  /** The result lies between any lower and upper bound of the entries. */
  lemma HausdorffWithinBounds(d: Matrix, lo: real, hi: real)
    requires IsMatrix(d)
    requires forall i, j :: 0 <= i < |d| && 0 <= j < |d[i]| ==> lo <= d[i][j] <= hi
    ensures lo <= HausdorffSimple(d) <= hi
  {
    HausdorffIsEntry(d);
  }

  /** A matrix of true distances has a non-negative Hausdorff distance. */
  lemma HausdorffNonNegative(d: Matrix)
    requires IsMatrix(d)
    requires forall i, j :: 0 <= i < |d| && 0 <= j < |d[i]| ==> 0.0 <= d[i][j]
    ensures 0.0 <= HausdorffSimple(d)
  {
    HausdorffIsEntry(d);
  }

  /** `a` is pointwise at most `b`, and both have the same shape. */
  ghost predicate Below(a: Matrix, b: Matrix) {
    && IsMatrix(a) && IsMatrix(b) && |a| == |b| && Width(a) == Width(b)
    && forall i, j :: 0 <= i < |a| && 0 <= j < |a[i]| ==> a[i][j] <= b[i][j]
  }

  /** Raising entries pointwise cannot lower hPQ. */
  lemma DirectedPQMonotone(a: Matrix, b: Matrix)
    requires Below(a, b)
    ensures DirectedPQ(a) <= DirectedPQ(b)
  {
    var ra, rb := RowMins(a), RowMins(b);
    forall i | 0 <= i < |a|
      ensures ra[i] <= rb[i]
    {
      MinMonotone(a[i], b[i]);
    }
    MaxMonotone(ra, rb);
  }

  /** Raising entries pointwise cannot lower hQP. */
  lemma DirectedQPMonotone(a: Matrix, b: Matrix)
    requires Below(a, b)
    ensures DirectedQP(a) <= DirectedQP(b)
  {
    var ca, cb := ColMins(a), ColMins(b);
    forall j | 0 <= j < Width(a)
      ensures ca[j] <= cb[j]
    {
      var s, t := Column(a, j), Column(b, j);
      assert forall i :: 0 <= i < |s| ==> s[i] == a[i][j] <= b[i][j] == t[i];
      MinMonotone(s, t);
    }
    MaxMonotone(ca, cb);
  }

  /** Raising entries pointwise cannot lower the Hausdorff distance. */
  lemma HausdorffMonotone(a: Matrix, b: Matrix)
    requires Below(a, b)
    ensures HausdorffSimple(a) <= HausdorffSimple(b)
  {
    DirectedPQMonotone(a, b);
    DirectedQPMonotone(a, b);
  }

  // ---------------------------------------------------------------------
  // Degenerate and worked cases.

  /** A 1×1 matrix `[[v]]` yields `v`. */
  lemma SingleEntry(v: real)
    ensures IsMatrix([[v]]) && HausdorffSimple([[v]]) == v
  {
    HausdorffIsEntry([[v]]);
  }

  /** A matrix whose entries all equal `c` yields `c`. */
  lemma ConstantMatrix(d: Matrix, c: real)
    requires IsMatrix(d)
    requires forall i, j :: 0 <= i < |d| && 0 <= j < |d[i]| ==> d[i][j] == c
    ensures HausdorffSimple(d) == c
  {
    HausdorffIsEntry(d);
  }

  /** The two-by-three example matrix: two frames of P, three of Q. */
  const Example: Matrix := [[0.0, 2.0, 3.0], [1.0, 0.0, 4.0]]

  /** Both rows of the example have minimum 0. */
  lemma ExampleRowMins()
    ensures IsMatrix(Example) && RowMins(Example) == [0.0, 0.0]
  {
    MinIsLeastElement(Example[0], 0);
    MinIsLeastElement(Example[1], 1);
  }

  /** The three columns of the example. */
  lemma ExampleColumns()
    ensures IsMatrix(Example)
    ensures Column(Example, 0) == [0.0, 1.0]
    ensures Column(Example, 1) == [2.0, 0.0]
    ensures Column(Example, 2) == [3.0, 4.0]
  {
  }

  /** The column minima are the sequence `m` when each entry of `m` is the
      minimum of its column. */
  lemma ColMinsAre(d: Matrix, m: seq<real>)
    requires IsMatrix(d) && |m| == Width(d)
    requires forall j :: 0 <= j < |m| ==> m[j] == Min(Column(d, j))
    ensures ColMins(d) == m
  {
  }

  /** The columns of the example have minima 0, 0 and 3. */
  lemma ExampleColMins()
    ensures IsMatrix(Example) && ColMins(Example) == [0.0, 0.0, 3.0]
  {
    var m := [0.0, 0.0, 3.0];
    ExampleColumns();
    forall j | 0 <= j < 3
      ensures m[j] == Min(Column(Example, j))
    {
      if j == 0 {
        MinIsLeastElement([0.0, 1.0], 0);
      } else if j == 1 {
        MinIsLeastElement([2.0, 0.0], 1);
      } else {
        MinIsLeastElement([3.0, 4.0], 0);
      }
    }
    ColMinsAre(Example, m);
  }

  /** On the example, hPQ is the larger row minimum, 0. */
  lemma ExampleDirectedPQ()
    ensures IsMatrix(Example) && DirectedPQ(Example) == 0.0
  {
    ExampleRowMins();
    MaxIsGreatestElement([0.0, 0.0], 0);
  }

  /** On the example, hQP is the largest column minimum, 3. */
  lemma ExampleDirectedQP()
    ensures IsMatrix(Example) && DirectedQP(Example) == 3.0
  {
    ExampleColMins();
    MaxIsGreatestElement([0.0, 0.0, 3.0], 2);
  }

  /** On the example, hPQ = 0, hQP = 3 and the distance is 3. */
  lemma WorkedExample()
    ensures IsMatrix(Example)
    ensures DirectedPQ(Example) == 0.0
    ensures DirectedQP(Example) == 3.0
    ensures HausdorffSimple(Example) == 3.0
  {
    ExampleDirectedPQ();
    ExampleDirectedQP();
  }
}
