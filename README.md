# Hausdorff distance from a 2D RMSD table, in Dafny

This project models `hausdorff_simple.py` from hausdorff_cpptraj. The
program reads a table of distances between the frames of two trajectories, P
and Q. Row `i` of the table starts with the frame number of frame `i` of P.
The rest of the row gives the distances from that frame to every frame of Q.
The program drops the frame-number column and reduces the Np×Nq distance
matrix `d` to one number, the discrete Hausdorff distance:

- `hPQ`, the directed distance from P to Q, is the largest of the row minima;
- `hQP`, the directed distance from Q to P, is the largest of the column minima;
- the result is the larger of the two.

The model is written in three modules:

- `SeqOrder` (`seq_order.dfy`) defines `Min` and `Max` of a non-empty
  sequence of reals. These are the values `np.min` and `np.max` compute
  along one axis.
- `Hausdorff` (`hausdorff.dfy`) defines the matrix, the row and column
  minima, the two directed distances and `HausdorffSimple`. It also states
  the properties of these: a reference definition of each directed
  distance, symmetry under transposition, bounds, monotonicity and the
  worked cases.
- `Loader` (`loader.dfy`) defines the column strip `d[:, 1:]`, its inverse
  (writing a matrix with 1-based frame numbers, as in the file format), and
  the composition of loading and reducing.

Everything in the source is pure, and so is the model: only functions and
lemmas, no classes or loops. Distances are mathematical `real`s under their
total order. The source uses only comparisons (`min`, `max`), so nothing is
rounded.

## Model

| member | source | states |
|---|---|---|
| SeqOrder.Min | hausdorff_simple.py:33-34 | The minimum along an axis is one of the elements and is at most every element. |
| SeqOrder.Max | hausdorff_simple.py:33-35 | The maximum is one of the elements and is at least every element. |
| SeqOrder.MinCharacterized | hausdorff_simple.py:33-34 | Some element is at most `x` if and only if the minimum is at most `x`. Every element is at least `x` if and only if the minimum is. |
| SeqOrder.MinIsLeastElement | hausdorff_simple.py:33-34 | An element no larger than all others is the minimum. |
| SeqOrder.MaxIsGreatestElement | hausdorff_simple.py:33-35 | An element no smaller than all others is the maximum. |
| SeqOrder.MinMonotone | hausdorff_simple.py:33-34 | Raising elements pointwise never lowers the minimum. |
| SeqOrder.MaxMonotone | hausdorff_simple.py:33-35 | Raising elements pointwise never lowers the maximum. |
| Hausdorff.RowMins | hausdorff_simple.py:33 | `np.min(d, axis=1)` has one entry per row, and entry `i` is the minimum of row `i`. |
| Hausdorff.Column | hausdorff_simple.py:34 | Column `j` has one entry per row, and entry `i` is `d[i][j]`. |
| Hausdorff.ColMinsUpTo | hausdorff_simple.py:34 | The first `n` column minima, with entry `j` the minimum of column `j`. |
| Hausdorff.ColMins | hausdorff_simple.py:34 | `np.min(d, axis=0)` has one entry per column, and entry `j` is the minimum of column `j`. |
| Hausdorff.DirectedPQ | hausdorff_simple.py:33 | hPQ is at least every row minimum and equals the minimum of some row. |
| Hausdorff.DirectedQP | hausdorff_simple.py:34 | hQP is at least every column minimum and equals the minimum of some column. |
| Hausdorff.HausdorffSimple | hausdorff_simple.py:32-35 | The result is at least hPQ and at least hQP, and equals one of them. It needs at least one row and one column. |
| Hausdorff.DirectedPQMeetsDefinition | hausdorff_simple.py:33 | hPQ meets the reference definition: every frame of P has a frame of Q within hPQ, and some frame of P has no frame of Q closer than hPQ. |
| Hausdorff.DefinitionDeterminesDirectedPQ | hausdorff_simple.py:33 | Any value that meets the reference definition is hPQ. |
| Hausdorff.DirectedPQMatchesDefinition | hausdorff_simple.py:33 | `x` equals hPQ if and only if two things hold: every frame of P has a frame of Q within `x`, and some frame of P has no frame of Q closer than `x`. |
| Hausdorff.DirectedQPMatchesDefinition | hausdorff_simple.py:34 | The same if-and-only-if for hQP, with the roles of P and Q exchanged. |
| Hausdorff.Transpose | hausdorff_simple.py:33-34 | The transpose is a matrix with rows and columns exchanged: entry `(j, i)` is `d[i][j]`. |
| Hausdorff.TransposeInvolutive | hausdorff_simple.py:33-34 | Transposing twice gives back the matrix. |
| Hausdorff.RowOfTranspose | hausdorff_simple.py:33-34 | Row `j` of the transpose is column `j` of the matrix. |
| Hausdorff.RowMinsOfTranspose | hausdorff_simple.py:33-34 | The row minima of the transpose are the column minima of the matrix. |
| Hausdorff.ColMinsOfTranspose | hausdorff_simple.py:33-34 | The column minima of the transpose are the row minima of the matrix. |
| Hausdorff.TransposeSwapsDirected | hausdorff_simple.py:33-34 | Transposing exchanges hPQ and hQP. |
| Hausdorff.TransposeKeepsHausdorff | hausdorff_simple.py:33-35 | Transposing leaves the Hausdorff distance unchanged. |
| Hausdorff.HausdorffIsEntry | hausdorff_simple.py:33-35 | The result is one of the matrix's entries. |
| Hausdorff.HausdorffWithinBounds | hausdorff_simple.py:33-35 | The result lies between any lower and any upper bound of the entries, so between the smallest and the largest entry. |
| Hausdorff.HausdorffNonNegative | hausdorff_simple.py:33-35 | With all entries non-negative, as true distances are, the result is non-negative. |
| Hausdorff.DirectedPQMonotone | hausdorff_simple.py:33 | For two matrices of the same shape, raising entries pointwise never lowers hPQ. |
| Hausdorff.DirectedQPMonotone | hausdorff_simple.py:34 | For two matrices of the same shape, raising entries pointwise never lowers hQP. |
| Hausdorff.HausdorffMonotone | hausdorff_simple.py:33-35 | For two matrices of the same shape, raising entries pointwise never lowers the Hausdorff distance. |
| Hausdorff.SingleEntry | hausdorff_simple.py:33-35 | A 1×1 matrix `[[v]]` yields `v`. |
| Hausdorff.ConstantMatrix | hausdorff_simple.py:33-35 | A matrix whose entries all equal `c` yields `c`. |
| Hausdorff.ColMinsAre | hausdorff_simple.py:34 | A sequence whose entry `j` is the minimum of column `j`, for every column, is the column minima. |
| Hausdorff.ExampleRowMins | hausdorff_simple.py:33 | `[[0,2,3],[1,0,4]]` has row minima `[0, 0]`. |
| Hausdorff.ExampleColumns | hausdorff_simple.py:34 | The columns of `[[0,2,3],[1,0,4]]` are `[0,1]`, `[2,0]` and `[3,4]`. |
| Hausdorff.ExampleColMins | hausdorff_simple.py:34 | `[[0,2,3],[1,0,4]]` has column minima `[0, 0, 3]`. |
| Hausdorff.ExampleDirectedPQ | hausdorff_simple.py:33 | On `[[0,2,3],[1,0,4]]`, hPQ is 0. |
| Hausdorff.ExampleDirectedQP | hausdorff_simple.py:34 | On `[[0,2,3],[1,0,4]]`, hQP is 3. |
| Hausdorff.WorkedExample | hausdorff_simple.py:32-35 | On `[[0,2,3],[1,0,4]]`, hPQ = 0, hQP = 3 and the result is 3. |
| Loader.StripFirstColumn | hausdorff_simple.py:29 | The strip keeps the number of rows. Each row loses exactly one field. Each output entry `(i, j)` is input entry `(i, j + 1)`, so no value changes or moves. |
| Loader.StripFirstColumnShape | hausdorff_simple.py:29 | A table `w + 1` fields wide becomes `w` wide. With at least one row and `w >= 1` it is a valid distance matrix. |
| Loader.WithFrameNumbersFrom | hausdorff_simple.py:12-20 | Row `i` of the written table is the frame number `first + i` followed by row `i` of the distances. |
| Loader.WithFrameNumbers | hausdorff_simple.py:12-20 | Frames are numbered from 1. Row `i` starts with `i + 1` and continues with row `i` of the distances. |
| Loader.StripUndoesFrameNumbers | hausdorff_simple.py:12-29 | Stripping the first column undoes writing the frame numbers, giving back exactly the distances. |
| Loader.DistanceOfTable | hausdorff_simple.py:27-35 | Loading and then reducing a table that has at least two rows and two fields gives one of the table's distance entries. The frame-number column never contributes. |
| Loader.FrameNumbersIgnored | hausdorff_simple.py:12-35 | A distance matrix written with frame numbers and then loaded and reduced gives its own Hausdorff distance. |

## Left out

- Text parsing by `np.loadtxt` (hausdorff_simple.py:28) is not modelled. It covers reading numbers, skipping `#` comment lines and rejecting rows of unequal width. It is a library call, so the model starts from the parsed table, a rectangular `seq<seq<real>>`.
- numpy's squeezing of a one-row or one-column file into a 1-D array, which makes `d[:, 1:]` fail, is not modelled as numpy's shape rules. It is the precondition `Loader.Reducible`. That predicate also rules out a file that holds only the frame-number column: that is a one-column file, and it fails in the same way.
- Hausdorff.HausdorffSimple: an empty axis is a precondition (`IsMatrix`: at least one row and one column), not an error value. For an empty reduction numpy raises an exception that the program does not catch.
- The command-line layer (hausdorff_simple.py:37-51) is not modelled: argument parsing, file-not-found errors and printing the result are I/O.
- IEEE floating-point behaviour is not modelled. There is no NaN propagation and no infinities through `np.min`/`np.max`, because the model's values are reals with a total order.

## Notes on the reduction

- The result is non-negative only when every entry is (`Hausdorff.HausdorffNonNegative`). For arbitrary reals it is one of the entries (`Hausdorff.HausdorffIsEntry`).
- The reduction is monotone: raising entries pointwise never lowers hPQ, hQP or the result, because `min` and `max` are both monotone (`Hausdorff.HausdorffMonotone`).
