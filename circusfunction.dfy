/**
 * The legacy OpenCV version of the alignment step and of the circus
 * function. It differs from the Eigen/CUDA version in three ways that are
 * modelled as written: the weighted median for column index `p` is taken
 * over row `p` (a run of `cols` samples), there is no sign check on the
 * extreme offsets, the padding is `max + |min|`, and the target matrix is
 * zero-filled before the samples are copied in.
 */
module CircusFunction {
  import opened Auxiliary
  import opened Shift

  /**
   * One offset per column index `p`: the weighted median of row `p`
   * minus the nominal center row. Row `p` exists only because there are
   * no more columns than rows.
   */
  method ComputeOffsets<T>(input: array2<T>, median: seq<T> -> nat) returns (offset: seq<int>)
    requires input.Length0 > 0
    requires input.Length1 <= input.Length0
    ensures |offset| == input.Length1
    ensures forall p :: 0 <= p < input.Length1 ==>
      offset[p] == median(Row(input, p)) - NominalCenter(input.Length0)
    ensures offset == RowOffsets(input, median)
  {
    var center := NominalCenter(input.Length0);
    var buffer := new int[input.Length1];
    for p := 0 to input.Length1
      invariant forall q :: 0 <= q < p ==> buffer[q] == median(Row(input, q)) - center
    {
      buffer[p] := median(Row(input, p)) - center;
    }
    offset := buffer[..];
  }

  /** The offsets the legacy aligner computes: the weighted median of row `p` minus the nominal center. */
  ghost function RowOffsets<T>(input: array2<T>, median: seq<T> -> nat): seq<int>
    requires 0 < input.Length0 && input.Length1 <= input.Length0
    reads input
  {
    seq(input.Length1, p requires 0 <= p < input.Length1 reads input =>
      median(Row(input, p)) - NominalCenter(input.Length0))
  }

  /**
   * The padding `max + |min|`, taken without any sign check: it is never
   * negative and never less than the spread of the offsets, and it is the
   * spread exactly when `min` is negative.
   */
  function Padding(min: int, max: int): (padding: nat)
    requires min <= max
    ensures padding >= max - min
    ensures min < 0 ==> padding == max - min
    ensures min >= 0 ==> padding == max + min
  {
    max + Abs(min)
  }

  /**
   * Copies every sample `(i, j)` of `input` into a zero-filled matrix taller
   * by `padding` rows, at row `max + i - offset[j]` of column `j`; every
   * cell outside a column's shifted window stays zero.
   */
  method Place<T>(input: array2<T>, offset: seq<int>, max: int, padding: nat, zero: T) returns (aligned: array2<T>)
    requires |offset| == input.Length1
    requires forall c :: 0 <= c < |offset| ==> 0 <= max - offset[c] <= padding
    ensures fresh(aligned)
    ensures aligned.Length0 == input.Length0 + padding && aligned.Length1 == input.Length1
    ensures forall i, j :: 0 <= i < input.Length0 && 0 <= j < input.Length1 ==>
      aligned[max + i - offset[j], j] == input[i, j]
    ensures forall k, j ::
      (0 <= k < aligned.Length0 && 0 <= j < input.Length1 &&
       !(max - offset[j] <= k < max - offset[j] + input.Length0)) ==> aligned[k, j] == zero
    ensures Shifted(input, offset, max, aligned) && ZeroOutside(input, offset, max, aligned, zero)
  {
    aligned := new T[input.Length0 + padding, input.Length1]((_, _) => zero);
    for i := 0 to input.Length0
      invariant forall r, c :: 0 <= r < i && 0 <= c < input.Length1 ==>
        aligned[max + r - offset[c], c] == input[r, c]
      invariant forall k, c ::
        (0 <= k < aligned.Length0 && 0 <= c < input.Length1 &&
         !(max - offset[c] <= k < max - offset[c] + i)) ==> aligned[k, c] == zero
    {
      for j := 0 to input.Length1
        invariant forall r, c :: 0 <= r < i && 0 <= c < input.Length1 ==>
          aligned[max + r - offset[c], c] == input[r, c]
        invariant forall c :: 0 <= c < j ==> aligned[max + i - offset[c], c] == input[i, c]
        invariant forall k, c ::
          (0 <= k < aligned.Length0 && 0 <= c < input.Length1 &&
           !(max - offset[c] <= k < max - offset[c] + i) && !(c < j && k == max + i - offset[c])) ==>
          aligned[k, c] == zero
      {
        aligned[max + i - offset[j], j] := input[i, j];
      }
    }
  }

  /** Every cell of `matrix` outside the shifted window of its column holds `zero`. */
  ghost predicate ZeroOutside<T>(input: array2<T>, offset: seq<int>, max: int, matrix: array2<T>, zero: T)
    reads matrix
  {
    && |offset| == matrix.Length1
    && forall k, j ::
         (0 <= k < matrix.Length0 && 0 <= j < matrix.Length1 &&
          !(max - offset[j] <= k < max - offset[j] + input.Length0)) ==> matrix[k, j] == zero
  }

  /**
   * The legacy alignment once the offsets are known: pads by `max + |min|`,
   * moves every sample into the zero-filled matrix as `Shifted` says, and
   * reports `new_center` as the nominal center plus `max`, the row on which
   * every column's sample at `center + offset[col]` lands.
   */
  method AlignColumns<T>(input: array2<T>, offset: seq<int>, min: int, max: int, zero: T)
    returns (aligned: array2<T>, newCenter: nat)
    requires input.Length0 > 0 && |offset| == input.Length1 > 0
    requires forall c :: 0 <= c < |offset| ==> min <= offset[c] <= max
    requires forall c :: 0 <= c < |offset| ==> 0 <= NominalCenter(input.Length0) + offset[c] < input.Length0
    ensures fresh(aligned)
    ensures min <= max && aligned.Length0 == input.Length0 + Padding(min, max)
    ensures Shifted(input, offset, max, aligned) && ZeroOutside(input, offset, max, aligned, zero)
    ensures newCenter == NominalCenter(input.Length0) + max < aligned.Length0
    ensures forall c :: 0 <= c < |offset| ==>
      aligned[newCenter, c] == input[NominalCenter(input.Length0) + offset[c], c]
  {
    var center := NominalCenter(input.Length0);
    assert min <= offset[0] <= max && 0 <= center + offset[0];
    var padding := Padding(min, max);
    newCenter := center + max;
    aligned := Place(input, offset, max, padding, zero);
    MediansLand(input, offset, max, aligned, center, newCenter);
  }

  /**
   * Aligns the columns of a sinogram, the legacy way: the aligned matrix is
   * new, has `max + |min|` extra rows and the same columns, holds the
   * samples shifted as `Shifted` says, is zero everywhere else, and puts
   * the sample at row `median(row j)` of each column `j` on row `new_center`,
   * which is the nominal center plus `max`.
   */
  method AlignSinogram<T>(input: array2<T>, median: seq<T> -> nat, zero: T) returns (aligned: array2<T>, newCenter: nat)
    requires input.Length0 > 0 && input.Length1 > 0
    requires input.Length1 <= input.Length0
    requires forall p :: 0 <= p < input.Length1 ==> median(Row(input, p)) < input.Length1
    ensures fresh(aligned)
    ensures var offset := RowOffsets(input, median);
      var min, max := MinElement(offset), MaxElement(offset);
      && aligned.Length0 == input.Length0 + Padding(min, max)
      && newCenter == NominalCenter(input.Length0) + max
      && Shifted(input, offset, max, aligned)
      && ZeroOutside(input, offset, max, aligned, zero)
    ensures forall j :: 0 <= j < input.Length1 ==>
      newCenter < aligned.Length0 && aligned[newCenter, j] == input[median(Row(input, j)), j]
  {
    var offset := ComputeOffsets(input, median);
    var min := MinElement(offset);
    var max := MaxElement(offset);
    var center := NominalCenter(input.Length0);
    forall c | 0 <= c < |offset|
      ensures center + offset[c] == median(Row(input, c)) < input.Length0
    {
    }
    aligned, newCenter := AlignColumns(input, offset, min, max, zero);
    forall j | 0 <= j < input.Length1
      ensures newCenter < aligned.Length0 && aligned[newCenter, j] == input[median(Row(input, j)), j]
    {
      assert center + offset[j] == median(Row(input, j));
    }
  }

  /**
   * The legacy circus function: one output entry per row of the input,
   * entry `p` being the P-functional applied to row `p`, its length and
   * the functional's arguments.
   */
  method GetCircusFunction<T, A, R(0)>(input: array2<T>, pfunctional: (seq<T>, nat, A) -> R, arguments: A)
    returns (output: array<R>)
    ensures fresh(output)
    ensures output.Length == input.Length0
    ensures forall p :: 0 <= p < input.Length0 ==>
      output[p] == pfunctional(Row(input, p), input.Length1, arguments)
  {
    output := new R[input.Length0];
    for p := 0 to input.Length0
      invariant forall q :: 0 <= q < p ==> output[q] == pfunctional(Row(input, q), input.Length1, arguments)
    {
      output[p] := pfunctional(Row(input, p), input.Length1, arguments);
    }
  }
}
