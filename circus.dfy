/**
 * The Eigen/CUDA version of the orthonormal corrector's alignment step and
 * of the circus-function dispatch. A sinogram is a dense matrix whose rows
 * are sample positions along a projection line and whose columns are
 * projection angles; samples are only moved, so their type is generic.
 */
module Circus {
  import opened Wrappers
  import opened Auxiliary
  import opened Registry
  import opened Shift

  //
  // Column alignment (the first half of nearest_orthonormal_sinogram)
  //

  /** The aligned sinogram and the row that every column's weighted median now occupies. */
  datatype AlignedSinogram<T> = AlignedSinogram(matrix: array2<T>, newCenter: nat)

  /** The sign check on the extreme offsets failed: they do not straddle the center. */
  datatype AlignError = DegenerateAlignment

  /**
   * The signed displacement of each column's weighted median from the
   * nominal center row; `median` stands for the weighted-median search,
   * which returns an index into the samples it is given.
   */
  method ComputeOffsets<T>(input: array2<T>, median: seq<T> -> nat) returns (offset: seq<int>)
    requires input.Length0 > 0
    ensures |offset| == input.Length1
    ensures forall p :: 0 <= p < input.Length1 ==>
      offset[p] == median(Column(input, p)) - NominalCenter(input.Length0)
    ensures offset == ColumnOffsets(input, median)
  {
    var center := NominalCenter(input.Length0);
    var buffer := new int[input.Length1];
    for p := 0 to input.Length1
      invariant forall q :: 0 <= q < p ==> buffer[q] == median(Column(input, q)) - center
    {
      buffer[p] := median(Column(input, p)) - center;
    }
    offset := buffer[..];
  }

  /** The offsets the aligner computes: each column's weighted median minus the nominal center. */
  ghost function ColumnOffsets<T>(input: array2<T>, median: seq<T> -> nat): seq<int>
    requires input.Length0 > 0
    reads input
  {
    seq(input.Length1, p requires 0 <= p < input.Length1 reads input =>
      median(Column(input, p)) - NominalCenter(input.Length0))
  }

  /**
   * The padding `|max| + |min|`: never less than the spread of the offsets,
   * and exactly the spread when the extremes lie on either side of zero.
   */
  function Padding(min: int, max: int): (padding: nat)
    requires min <= max
    ensures padding >= max - min
    ensures min <= 0 <= max ==> padding == max - min
    ensures min > 0 ==> padding == max + min
    ensures max < 0 ==> padding == -max - min
  {
    Abs(max) + Abs(min)
  }

  /** Worked example: offsets `[-2, 0, 3]` give padding 5 and move the center down by 3. */
  lemma PaddingExample()
    ensures MinElement([-2, 0, 3]) == -2 && MaxElement([-2, 0, 3]) == 3
    ensures Padding(MinElement([-2, 0, 3]), MaxElement([-2, 0, 3])) == 5
  {
  }

  /**
   * Copies every sample `(row, col)` into a matrix taller by `padding` rows,
   * at row `max + row - offset[col]` of the same column; cells outside
   * a column's shifted window are left as allocated (the source leaves them
   * uninitialised).
   */
  method Place<T(0)>(input: array2<T>, offset: seq<int>, max: int, padding: nat) returns (aligned: array2<T>)
    requires |offset| == input.Length1
    requires forall c :: 0 <= c < |offset| ==> 0 <= max - offset[c] <= padding
    ensures fresh(aligned)
    ensures aligned.Length0 == input.Length0 + padding && aligned.Length1 == input.Length1
    ensures forall row, col :: 0 <= row < input.Length0 && 0 <= col < input.Length1 ==>
      aligned[max + row - offset[col], col] == input[row, col]
    ensures Shifted(input, offset, max, aligned)
  {
    aligned := new T[input.Length0 + padding, input.Length1];
    for col := 0 to input.Length1
      invariant forall r, c :: 0 <= r < input.Length0 && 0 <= c < col ==>
        aligned[max + r - offset[c], c] == input[r, c]
    {
      for row := 0 to input.Length0
        invariant forall r, c :: 0 <= r < input.Length0 && 0 <= c < col ==>
          aligned[max + r - offset[c], c] == input[r, c]
        invariant forall r :: 0 <= r < row ==> aligned[max + r - offset[col], col] == input[r, col]
      {
        aligned[max + row - offset[col], col] := input[row, col];
      }
    }
  }

  /**
   * The alignment once the offsets have passed the sign check: pads by
   * `|max| + |min|`, moves every sample as `Shifted` says, and reports
   * `new_center` as the nominal center plus `max`, the row on which every
   * column's sample at `center + offset[col]` (its weighted median) lands.
   */
  method AlignColumns<T(0)>(input: array2<T>, offset: seq<int>, min: int, max: int) returns (s: AlignedSinogram<T>)
    requires input.Length0 > 0 && |offset| == input.Length1 > 0
    requires forall c :: 0 <= c < |offset| ==> min <= offset[c] <= max
    requires forall c :: 0 <= c < |offset| ==> 0 <= NominalCenter(input.Length0) + offset[c] < input.Length0
    ensures fresh(s.matrix)
    ensures min <= max && s.matrix.Length0 == input.Length0 + Padding(min, max)
    ensures Shifted(input, offset, max, s.matrix)
    ensures s.newCenter == NominalCenter(input.Length0) + max < s.matrix.Length0
    ensures forall c :: 0 <= c < |offset| ==>
      s.matrix[s.newCenter, c] == input[NominalCenter(input.Length0) + offset[c], c]
  {
    var center := NominalCenter(input.Length0);
    assert min <= offset[0] <= max && 0 <= center + offset[0];
    var padding := Padding(min, max);
    var aligned := Place(input, offset, max, padding);
    s := AlignedSinogram(aligned, center + max);
    MediansLand(input, offset, max, aligned, center, s.newCenter);
  }

  /**
   * Aligns the columns of a sinogram on a common center. It fails when the
   * extreme offsets have the same sign (all-zero offsets included).
   * Otherwise the aligned matrix has `|max| + |min|` extra rows and the
   * same columns, holds the samples shifted as `Shifted` says, puts every
   * column's weighted-median sample on row `new_center`, and `new_center`
   * is the nominal center plus `max`.
   */
  method AlignSinogram<T(0)>(input: array2<T>, median: seq<T> -> nat) returns (r: Result<AlignedSinogram<T>, AlignError>)
    requires input.Length0 > 0 && input.Length1 > 0
    requires forall p :: 0 <= p < input.Length1 ==> median(Column(input, p)) < input.Length0
    ensures var offset := ColumnOffsets(input, median);
      var min, max := MinElement(offset), MaxElement(offset);
      && (r.Err? <==> Sgn(min) == Sgn(max))
      && (r.Ok? ==>
            && fresh(r.value.matrix)
            && r.value.matrix.Length0 == input.Length0 + Padding(min, max)
            && Shifted(input, offset, max, r.value.matrix)
            && r.value.newCenter == NominalCenter(input.Length0) + max)
    ensures r.Ok? ==> forall col :: 0 <= col < input.Length1 ==>
      r.value.newCenter < r.value.matrix.Length0 &&
      r.value.matrix[r.value.newCenter, col] == input[median(Column(input, col)), col]
  {
    var offset := ComputeOffsets(input, median);
    var min := MinElement(offset);
    var max := MaxElement(offset);
    if Sgn(min) == Sgn(max) {
      r := Err(DegenerateAlignment);
    } else {
      var center := NominalCenter(input.Length0);
      forall c | 0 <= c < |offset|
        ensures center + offset[c] == median(Column(input, c)) < input.Length0
      {
      }
      var aligned := AlignColumns(input, offset, min, max);
      forall col | 0 <= col < input.Length1
        ensures aligned.newCenter < aligned.matrix.Length0
        ensures aligned.matrix[aligned.newCenter, col] == input[median(Column(input, col)), col]
      {
        assert center + offset[col] == median(Column(input, col));
      }
      r := Ok(aligned);
    }
  }

  //
  // Circus-function dispatch (getCircusFunction)
  //

  /**
   * The device kernel a P-functional is traced with, and the arguments it
   * receives beyond the sinogram: only the Hermite kernel takes any, the
   * order and the alignment center.
   */
  datatype KernelCall = PFunctional1 | PFunctional2 | PFunctional3 | PFunctionalHermite(order: nat, center: nat)

  /** The P-functional a kernel traces. */
  function Traced(call: KernelCall): (f: PFunctional) {
    match call
    case PFunctional1 => P1
    case PFunctional2 => P2
    case PFunctional3 => P3
    case PFunctionalHermite(order, _) => Hermite(order)
  }

  /**
   * The switch on the P-functional: each variant has its own kernel, and a
   * Hermite functional must carry its alignment center, which the switch
   * dereferences.
   */
  function KernelFor(pfunctional: PFunctionalWrapper): (call: KernelCall)
    requires pfunctional.functional.Hermite? ==> pfunctional.center.Some?
  {
    match pfunctional.functional
    case P1 => PFunctional1
    case P2 => PFunctional2
    case P3 => PFunctional3
    case Hermite(order) => PFunctionalHermite(order, pfunctional.center.value)
  }

  /**
   * The dispatch is exhaustive and faithful: the kernel chosen traces the
   * requested functional, and it receives arguments exactly when that
   * functional is Hermite, namely its order and the wrapper's center.
   */
  lemma KernelForTraces(pfunctional: PFunctionalWrapper)
    requires pfunctional.functional.Hermite? ==> pfunctional.center.Some?
    ensures Traced(KernelFor(pfunctional)) == pfunctional.functional
    ensures KernelFor(pfunctional).PFunctionalHermite? <==> pfunctional.functional.Hermite?
    ensures KernelFor(pfunctional).PFunctionalHermite? ==>
      KernelFor(pfunctional).order == pfunctional.functional.order &&
      KernelFor(pfunctional).center == pfunctional.center.value
  {
  }

  /**
   * Stands for a device kernel launch: `kernel(call, column)` is the value
   * the chosen P-functional computes over one sinogram column, and the
   * launch fills one output cell per column with it.
   */
  method RunKernel<T, R>(call: KernelCall, input: array2<T>, output: array<R>, kernel: (KernelCall, seq<T>) -> R)
    requires output.Length == input.Length1
    modifies output
    ensures forall col :: 0 <= col < output.Length ==> output[col] == kernel(call, Column(input, col))
  {
    for col := 0 to output.Length
      invariant forall c :: 0 <= c < col ==> output[c] == kernel(call, Column(input, c))
    {
      output[col] := kernel(call, Column(input, col));
    }
  }

  /**
   * Traces every column of a sinogram with one P-functional: a freshly
   * allocated buffer with one cell per column, cell `col` holding the
   * value of the functional's kernel over column `col`.
   */
  method GetCircusFunction<T, R(0)>(input: array2<T>, pfunctional: PFunctionalWrapper, kernel: (KernelCall, seq<T>) -> R)
    returns (output: array<R>)
    requires pfunctional.functional.Hermite? ==> pfunctional.center.Some?
    ensures fresh(output)
    ensures output.Length == input.Length1
    ensures forall col :: 0 <= col < input.Length1 ==> output[col] == kernel(KernelFor(pfunctional), Column(input, col))
  {
    output := new R[input.Length1];
    RunKernel(KernelFor(pfunctional), input, output, kernel);
  }
}
