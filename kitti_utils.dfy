/**
 * parseMatrix of kitti/kitti_utils.cpp: a YAML sequence of rows * cols
 * numbers written cell by cell, by linear index, into a rows x cols matrix.
 * The YAML node is modelled by the sequence of its already converted
 * numbers.
 */
module KittiUtils {
  import opened OpenCvUtils

  lemma MulMonotone(a: nat, b: nat, k: nat)
    requires a <= b
    ensures a * k <= b * k
  {
    assert b * k == a * k + (b - a) * k;
  }

  /** Row r, column c of a matrix with `cols` columns has linear index
      r * cols + c, and that index determines them. */
  lemma DivModUnique(i: nat, cols: nat, r: nat, c: nat)
    requires c < cols && i == r * cols + c
    ensures i / cols == r && i % cols == c
  {
    var q, m := i / cols, i % cols;
    assert i == q * cols + m;
    if q < r {
      MulMonotone(q + 1, r, cols);
      assert false;
    } else if r < q {
      MulMonotone(r + 1, q, cols);
      assert false;
    }
  }

  /** Linear index i < rows * cols lies in row i / cols < rows, column
      i % cols < cols. */
  lemma LinearCell(i: nat, rows: nat, cols: nat)
    requires i < rows * cols
    ensures cols > 0 && i / cols < rows && i % cols < cols
    ensures i == (i / cols) * cols + i % cols
  {
    if cols == 0 {
      assert false;
    }
    var q := i / cols;
    assert i == q * cols + i % cols;
    if q >= rows {
      MulMonotone(rows, q, cols);
      assert false;
    }
  }

  /** parseMatrix: entry i of the input is written to the cell with linear
      index i, that is row i / cols, column i % cols. */
  method ParseMatrix(input: seq<real>, rows: nat, cols: nat) returns (matrix: array2<real>)
    requires |input| == rows * cols
    ensures fresh(matrix)
    ensures matrix.Length0 == rows && matrix.Length1 == cols
    ensures forall i :: 0 <= i < |input| ==> cols > 0 && matrix[i / cols, i % cols] == input[i]
    ensures forall r, c :: 0 <= r < rows && 0 <= c < cols ==> matrix[r, c] == CreateMat(rows, cols, input)[r][c]
  {
    matrix := new real[rows, cols];
    for i := 0 to |input|
      invariant forall r, c :: 0 <= r < rows && 0 <= c < cols && r * cols + c < i ==> matrix[r, c] == input[r * cols + c]
    {
      LinearCell(i, rows, cols);
      var row, col := i / cols, i % cols;
      matrix[row, col] := input[i];
      forall r, c | 0 <= r < rows && 0 <= c < cols && r * cols + c < i + 1
        ensures matrix[r, c] == input[r * cols + c]
      {
        if r * cols + c == i {
          DivModUnique(i, cols, r, c);
        } else if r == row && c == col {
          assert false;
        }
      }
    }
    LinearIndices(matrix, input, rows, cols);
    CellsFromLinear(matrix, input, rows, cols);
  }

  /** Every cell (r, c) holding entry r * cols + c means every entry i is
      in cell (i / cols, i % cols). */
  lemma LinearIndices(matrix: array2<real>, input: seq<real>, rows: nat, cols: nat)
    requires |input| == rows * cols && matrix.Length0 == rows && matrix.Length1 == cols
    requires forall r, c :: 0 <= r < rows && 0 <= c < cols && r * cols + c < |input| ==> matrix[r, c] == input[r * cols + c]
    ensures forall i :: 0 <= i < |input| ==> cols > 0 && matrix[i / cols, i % cols] == input[i]
  {
    forall i | 0 <= i < |input|
      ensures cols > 0 && matrix[i / cols, i % cols] == input[i]
    {
      LinearCell(i, rows, cols);
    }
  }

  /** A matrix whose cell with each linear index holds that input entry is
      the input laid out row by row. */
  lemma CellsFromLinear(matrix: array2<real>, input: seq<real>, rows: nat, cols: nat)
    requires |input| == rows * cols && matrix.Length0 == rows && matrix.Length1 == cols
    requires forall i :: 0 <= i < |input| ==> cols > 0 && matrix[i / cols, i % cols] == input[i]
    ensures forall r, c :: 0 <= r < rows && 0 <= c < cols ==> matrix[r, c] == CreateMat(rows, cols, input)[r][c]
  {
    var m := CreateMat(rows, cols, input);
    forall r, c | 0 <= r < rows && 0 <= c < cols
      ensures matrix[r, c] == m[r][c]
    {
      ToVectorAt(m, cols, r, c);
      var i := r * cols + c;
      DivModUnique(i, cols, r, c);
      assert matrix[i / cols, i % cols] == input[i];
    }
  }
}
