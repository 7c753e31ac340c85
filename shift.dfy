/**
 * The column shift that both alignment routines perform: every sample
 * `(row, col)` of the input moves to row `max + row - offset[col]` of the
 * same column of a taller matrix.
 */
module Shift {

  /**
   * `matrix` holds the samples of `input` shifted column by column: each
   * column's window `[max - offset[col], max - offset[col] + rows)` lies
   * inside the matrix, and every sample `(row, col)` sits at row
   * `max + row - offset[col]` of the same column.
   */
  ghost predicate Shifted<T>(input: array2<T>, offset: seq<int>, max: int, matrix: array2<T>)
    reads input, matrix
  {
    && |offset| == input.Length1 == matrix.Length1
    && (forall c :: 0 <= c < |offset| ==>
          0 <= max - offset[c] && max - offset[c] + input.Length0 <= matrix.Length0)
    && (forall row, col :: 0 <= row < input.Length0 && 0 <= col < input.Length1 ==>
          matrix[max + row - offset[col], col] == input[row, col])
  }

  /**
   * The shift of a column is rigid: every cell of the column's window holds
   * the sample of the row it is offset from, so the window is the image of
   * the column's rows, one row to one row.
   */
  lemma ShiftedWindow<T>(input: array2<T>, offset: seq<int>, max: int, matrix: array2<T>)
    requires Shifted(input, offset, max, matrix)
    ensures forall k, col :: 0 <= col < input.Length1 && max - offset[col] <= k < max - offset[col] + input.Length0 ==>
      matrix[k, col] == input[k - (max - offset[col]), col]
  {
    forall k, col | 0 <= col < input.Length1 && max - offset[col] <= k < max - offset[col] + input.Length0
      ensures matrix[k, col] == input[k - (max - offset[col]), col]
    {
      var row := k - (max - offset[col]);
      assert matrix[max + row - offset[col], col] == input[row, col];
    }
  }

  /**
   * Every column's sample at row `center + offset[col]` (its median row,
   * when the offset is the median minus `center`) sits on row
   * `newCenter = center + max` of the shifted matrix.
   */
  lemma MediansLand<T>(input: array2<T>, offset: seq<int>, max: int, matrix: array2<T>, center: int, newCenter: int)
    requires Shifted(input, offset, max, matrix)
    requires |offset| > 0 && newCenter == center + max
    requires forall c :: 0 <= c < |offset| ==> 0 <= center + offset[c] < input.Length0
    ensures 0 <= newCenter < matrix.Length0
    ensures forall c {:trigger matrix[newCenter, c]} :: 0 <= c < |offset| ==> matrix[newCenter, c] == input[center + offset[c], c]
  {
    assert 0 <= max - offset[0] && max - offset[0] + input.Length0 <= matrix.Length0;
    assert 0 <= center + offset[0] < input.Length0;
    forall c | 0 <= c < |offset|
      ensures matrix[newCenter, c] == input[center + offset[c], c]
    {
      var row := center + offset[c];
      assert 0 <= row < input.Length0;
      assert matrix[max + row - offset[c], c] == input[row, c];
    }
  }
}
