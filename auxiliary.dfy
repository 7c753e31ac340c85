/**
 * Helpers the sinogram code takes from the standard library and from the
 * project's auxiliary header: `std::abs`, `sgn`, `std::min_element`,
 * `std::max_element`, the column and row views of a dense matrix, and the
 * nominal center row that both alignment routines compute inline.
 */
module Auxiliary {

  function Abs(x: int): (a: nat)
    ensures a == x || a == -x
  {
    if x < 0 then -x else x
  }

  /** The sign function of the auxiliary header: -1, 0 or 1. */
  function Sgn(x: int): (s: int)
    ensures s == -1 <==> x < 0
    ensures s == 0 <==> x == 0
    ensures s == 1 <==> x > 0
  {
    if x < 0 then -1 else if x > 0 then 1 else 0
  }

  /** The value `std::min_element` points at: a member of `s` no larger than any other. */
  function MinElement(s: seq<int>): (m: int)
    requires |s| > 0
    ensures m in s
    ensures forall k :: 0 <= k < |s| ==> m <= s[k]
  {
    if |s| == 1 then s[0]
    else
      var rest := MinElement(s[1..]);
      if s[0] <= rest then s[0] else rest
  }

  /** The value `std::max_element` points at: a member of `s` no smaller than any other. */
  function MaxElement(s: seq<int>): (m: int)
    requires |s| > 0
    ensures m in s
    ensures forall k :: 0 <= k < |s| ==> s[k] <= m
  {
    if |s| == 1 then s[0]
    else
      var rest := MaxElement(s[1..]);
      if rest <= s[0] then s[0] else rest
  }

  /** Column `c` of a dense matrix, top to bottom. */
  function Column<T>(m: array2<T>, c: nat): (col: seq<T>)
    requires c < m.Length1
    reads m
    ensures |col| == m.Length0
    ensures forall i :: 0 <= i < m.Length0 ==> col[i] == m[i, c]
  {
    seq(m.Length0, i requires 0 <= i < m.Length0 reads m => m[i, c])
  }

  /** Row `r` of a dense matrix, left to right. */
  function Row<T>(m: array2<T>, r: nat): (row: seq<T>)
    requires r < m.Length0
    reads m
    ensures |row| == m.Length1
    ensures forall j :: 0 <= j < m.Length1 ==> row[j] == m[r, j]
  {
    seq(m.Length1, j requires 0 <= j < m.Length1 reads m => m[r, j])
  }

  //
  // Storage order: the column and row views are runs of the flat buffer
  //

  /** Multiplying by a natural number keeps the order of two naturals. */
  lemma {:induction false} MulMonotone(a: nat, b: nat, n: nat)
    requires a <= b
    ensures a * n <= b * n
  {
    if n > 0 {
      MulMonotone(a, b, n - 1);
      assert a * n == a * (n - 1) + a && b * n == b * (n - 1) + b;
    }
  }

  /** Offset `i` into block `k` of `n` blocks of `width` lies inside the `n` blocks. */
  lemma StrideBelow(k: nat, i: nat, n: nat, width: nat)
    requires k < n && i < width
    ensures k * width + i < n * width
  {
    MulMonotone(k + 1, n, width);
    assert (k + 1) * width == k * width + width;
  }

  /** The first `n` columns of a dense matrix, stored one after the other. */
  ghost function ColumnsBefore<T>(m: array2<T>, n: nat): (data: seq<T>)
    requires n <= m.Length1
    reads m
    ensures |data| == n * m.Length0
    decreases n
  {
    if n == 0 then []
    else
      assert (n - 1) * m.Length0 + m.Length0 == n * m.Length0;
      ColumnsBefore(m, n - 1) + Column(m, n - 1)
  }

  /**
   * The flat buffer of a dense matrix in column-major order, the storage
   * order of an `Eigen::MatrixXf`: all of column 0, then all of column 1, ...
   */
  ghost function ColumnMajor<T>(m: array2<T>): (data: seq<T>)
    reads m
    ensures |data| == m.Length0 * m.Length1
  {
    ColumnsBefore(m, m.Length1)
  }

  lemma {:induction false} ColumnsBeforeIndex<T>(m: array2<T>, n: nat, c: nat, i: nat)
    requires c < n <= m.Length1 && i < m.Length0
    ensures c * m.Length0 + i < |ColumnsBefore(m, n)|
    ensures ColumnsBefore(m, n)[c * m.Length0 + i] == m[i, c]
    decreases n
  {
    StrideBelow(c, i, n, m.Length0);
    if c < n - 1 {
      StrideBelow(c, i, n - 1, m.Length0);
      ColumnsBeforeIndex(m, n - 1, c, i);
    }
  }

  /** In column-major order sample `(i, c)` is at offset `c * rows + i`. */
  lemma ColumnMajorIndex<T>(m: array2<T>, c: nat, i: nat)
    requires c < m.Length1 && i < m.Length0
    ensures c * m.Length0 + i < |ColumnMajor(m)|
    ensures ColumnMajor(m)[c * m.Length0 + i] == m[i, c]
  {
    ColumnsBeforeIndex(m, m.Length1, c, i);
  }

  /**
   * Column `p` is the run of `rows` samples that starts `p * rows` samples
   * into the column-major buffer, the pointer `data() + p * rows()`.
   */
  lemma ColumnIsStorageRun<T>(m: array2<T>, p: nat)
    requires p < m.Length1
    ensures p * m.Length0 + m.Length0 <= |ColumnMajor(m)|
    ensures Column(m, p) == ColumnMajor(m)[p * m.Length0 .. p * m.Length0 + m.Length0]
  {
    MulMonotone(p + 1, m.Length1, m.Length0);
    assert p * m.Length0 + m.Length0 == (p + 1) * m.Length0;
    forall i | 0 <= i < m.Length0
      ensures Column(m, p)[i] == ColumnMajor(m)[p * m.Length0 + i]
    {
      ColumnMajorIndex(m, p, i);
    }
  }

  /** The first `n` rows of a dense matrix, stored one after the other. */
  ghost function RowsBefore<T>(m: array2<T>, n: nat): (data: seq<T>)
    requires n <= m.Length0
    reads m
    ensures |data| == n * m.Length1
    decreases n
  {
    if n == 0 then []
    else
      assert (n - 1) * m.Length1 + m.Length1 == n * m.Length1;
      RowsBefore(m, n - 1) + Row(m, n - 1)
  }

  /**
   * The flat buffer of a dense matrix in row-major order, the storage order
   * of a continuous `cv::Mat`: all of row 0, then all of row 1, ...
   */
  ghost function RowMajor<T>(m: array2<T>): (data: seq<T>)
    reads m
    ensures |data| == m.Length0 * m.Length1
  {
    RowsBefore(m, m.Length0)
  }

  lemma {:induction false} RowsBeforeIndex<T>(m: array2<T>, n: nat, r: nat, j: nat)
    requires r < n <= m.Length0 && j < m.Length1
    ensures r * m.Length1 + j < |RowsBefore(m, n)|
    ensures RowsBefore(m, n)[r * m.Length1 + j] == m[r, j]
    decreases n
  {
    StrideBelow(r, j, n, m.Length1);
    if r < n - 1 {
      StrideBelow(r, j, n - 1, m.Length1);
      RowsBeforeIndex(m, n - 1, r, j);
    }
  }

  /** In row-major order sample `(r, j)` is at offset `r * cols + j`. */
  lemma RowMajorIndex<T>(m: array2<T>, r: nat, j: nat)
    requires r < m.Length0 && j < m.Length1
    ensures r * m.Length1 + j < |RowMajor(m)|
    ensures RowMajor(m)[r * m.Length1 + j] == m[r, j]
  {
    RowsBeforeIndex(m, m.Length0, r, j);
  }

  /**
   * Row `p` is the run of `cols` samples that starts `p * cols` samples into
   * the row-major buffer, the pointer `ptr(p)` read for `cols` samples.
   */
  lemma RowIsStorageRun<T>(m: array2<T>, p: nat)
    requires p < m.Length0
    ensures p * m.Length1 + m.Length1 <= |RowMajor(m)|
    ensures Row(m, p) == RowMajor(m)[p * m.Length1 .. p * m.Length1 + m.Length1]
  {
    MulMonotone(p + 1, m.Length0, m.Length1);
    assert p * m.Length1 + m.Length1 == (p + 1) * m.Length1;
    forall j | 0 <= j < m.Length1
      ensures Row(m, p)[j] == RowMajor(m)[p * m.Length1 + j]
    {
      RowMajorIndex(m, p, j);
    }
  }

  /**
   * The nominal center row `floor((rows - 1) / 2.0)` of a sinogram with
   * `rows` rows: the lower of the two middle rows when `rows` is even.
   */
  function NominalCenter(rows: nat): (c: nat)
    requires rows > 0
    ensures c < rows
    ensures 2 * c <= rows - 1 <= 2 * c + 1
  {
    (rows - 1) / 2
  }

  /**
   * The sign check of the aligner holds exactly when the extreme offsets
   * straddle the center: one strictly below and the other at or above it,
   * or one at and the other strictly above it.
   */
  lemma SignCheckStraddles(min: int, max: int)
    requires min <= max
    ensures Sgn(min) != Sgn(max) <==> (min < 0 && 0 <= max) || (min == 0 && 0 < max)
  {
  }
}
