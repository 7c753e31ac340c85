# Trace-transform functional registry, sinogram alignment and circus functions

This project models three sequential pieces of the trace-transform program,
which turns an image into a feature matrix by reducing it first along
projection lines (T-functionals, giving a sinogram whose rows are sample
positions and whose columns are projection angles) and then along each
sinogram column (P-functionals, the "circus functions").

- **Functional registry** (`registry.dfy`, module `Registry`): the
  command-line parsers that resolve a T-functional token (`Radon`, `T1`..`T5`)
  and a P-functional token (`P1`..`P3`, `Hermite(order)`) into a closed
  variant or one of four validation errors, each with its own message; and
  the regime check that accepts a list of P-functionals that are all Hermite
  (orthonormal regime) or none Hermite, and rejects a mix.
- **Sinogram column alignment**, the first half of
  `nearest_orthonormal_sinogram`, in the Eigen/CUDA version (`circus.dfy`,
  module `Circus`) and the legacy OpenCV version (`circusfunction.dfy`,
  module `CircusFunction`): the nominal center row, the per-column offset of
  the weighted median from it, the padding and new center derived from the
  extreme offsets, and the copy of every sample into the taller matrix.
  The column shift itself is in `shift.dfy` (module `Shift`), shared by both
  versions. The proofs show that every write lands inside the matrix, that
  each column's window in the taller matrix is the rigid image of that
  column, and that every column's weighted-median sample ends on the new
  center row.
- **Circus-function dispatch** (`getCircusFunction`): the CUDA version
  allocates one output cell per sinogram column and switches exhaustively on
  the P-functional, giving only the Hermite kernel its order and center; the
  legacy version writes one output entry per input row.

Shared helpers are in `auxiliary.dfy` (sign, absolute value, the values
`std::min_element` / `std::max_element` find, the column and row views of a
dense matrix, the nominal center) and `wrappers.dfy` (`Option`, `Result`).

Modelling conventions:

- A thrown `validation_error`, and the sign `assert` of the Eigen aligner
  (the one failure the aligner detects about its data), is an `Err` value; the `rows > 0 && cols > 0` assertion at
  the top of the aligner is a precondition.
- The weighted-median search `findWeighedMedian` and the P-functional bodies
  are not part of this model. They are function parameters: `median` returns
  an index into the samples it is given, and `kernel(call, column)` /
  `pfunctional(row, length, arguments)` is the value a functional computes.
- Samples are only moved, so the element type is generic; the legacy target
  is filled with a caller-supplied `zero`.
- `src/circus.cpp:30-61` is the same P-token parser as `src/demo.cpp:59-90`,
  character for character; the single function `Registry.ParseP` models both,
  so every lemma about it holds for both copies.

Where what the algorithm calls for and what the code does differ, the model
follows the code:

- The Eigen aligner asserts `sgn(min) != sgn(max)`, which also rejects a
  sinogram whose columns are already aligned: with all offsets zero the
  alignment would need padding 0, but the assertion fails. `Circus.AlignSinogram`
  fails on it, and `Auxiliary.SignCheckStraddles` states exactly which extremes pass.
- The alignment calls for a zero-filled target (the legacy version's
  `cv::Mat::zeros`), but the Eigen target is left uninitialised, so `Circus.AlignSinogram` says nothing about cells outside
  each column's shifted window. Only the legacy version zero-fills.
- The legacy aligner takes the weighted median for column index `p` over row
  `p` (a run of `cols` samples) and applies it as the offset of column `p`;
  `CircusFunction.AlignSinogram` models this literally and therefore needs
  `cols <= rows` for those reads to exist. It has no sign check and pads by
  `max + |min|`.
- The legacy aligner asserts only `cols >= 0`, but with no columns it
  dereferences the result of `std::min_element` on an empty vector, which is
  undefined; the model requires at least one column.

## Model

| member | source | states |
|---|---|---|
| Registry.ParseTAccepts | src/demo.cpp:35-57 | a T token is accepted exactly when it is one of `"0"`..`"5"`; the stored name is `"T"` + token and the functional is the one that token selects; every other token fails with the unknown-T-functional error |
| Registry.ParseTRoundTrip | src/demo.cpp:37-50 | each of Radon, T1..T5 is selected by its digit token and stored under the name `"T"` + digit (`"T0"` for Radon) |
| Registry.ParseTRejectsPrefixed | src/demo.cpp:37-55 | an already-prefixed token such as `"T1"` is prefixed again (`"TT1"`) and rejected as unknown |
| Registry.MessagesDistinct | src/demo.cpp:51-88 | the five validation errors carry pairwise different messages |
| Registry.PrefixedName | src/demo.cpp:61-63 | the matched name is the token, or `"P"` + token exactly when the token starts with a digit, and never itself starts with a digit |
| Registry.ParsePAccepts | src/demo.cpp:59-90 | a P token is accepted exactly when it is one of `"1"`,`"2"`,`"3"`,`"P1"`,`"P2"`,`"P3"` or `'H'` followed by a non-empty digit string, whose decimal value is then the Hermite order; `"H"` alone fails with the missing-order error; `'H'` followed by anything else with the unparseable-order error; every other token (empty, `"4"`, `"h3"`, ...) with the unknown-P-functional error; an accepted token is stored under its prefixed name (the token itself, or `"P"` + token for a digit token) with no center |
| Registry.ParsePRoundTrip | src/demo.cpp:64-83 | every P-functional, Hermite of any order included, is selected by its canonical name (`"P1"`..`"P3"`, `"H"` + decimal order) and stored under that name |
| Registry.ParsePShortForm | src/demo.cpp:62-69 | the digit tokens `"1"`..`"3"` give exactly the result of `"P1"`..`"P3"`, stored under the prefixed name |
| Registry.ParsePExamples | src/demo.cpp:59-90 | `"H3"` is Hermite order 3, `"3"` is P3, `"H"` misses its order, `"Hx"` is unparseable, `"4"` and `"h3"` are unknown |
| Registry.ParsePLeadingZero | src/demo.cpp:61-79 | `"H03"` is accepted as Hermite order 3 and stored under the name `"H03"`, as written |
| Registry.DecimalRoundTrip | src/demo.cpp:76-78 | the decimal representation of a number is a digit string whose value is that number, so the order conversion accepts it and gives the number back |
| Registry.HermiteCountZero | src/demo.cpp:166-173 | the Hermite count is zero exactly when no entry is Hermite |
| Registry.HermiteCountAll | src/demo.cpp:166-175 | the Hermite count never exceeds the list length and equals it exactly when every entry is Hermite |
| Registry.CheckRegime | src/demo.cpp:165-179 | the regime is regular exactly when no entry is Hermite (the empty list included), orthonormal exactly when the list is non-empty and all Hermite, and otherwise the mixed-regimes error |
| Auxiliary.NominalCenter | src/circus.cpp:72-73 | the nominal center `floor((rows-1)/2)` is a row index with `2c <= rows-1 <= 2c+1` (the same formula as src/circusfunction.h:30) |
| Auxiliary.MinElement | src/circus.cpp:83 | the minimum offset is one of the offsets and no larger than any of them |
| Auxiliary.MaxElement | src/circus.cpp:84 | the maximum offset is one of the offsets and no smaller than any of them |
| Auxiliary.Abs | src/circus.cpp:86 | the absolute value is the number or its negation, and never negative |
| Auxiliary.Sgn | src/circus.cpp:85 | the sign is -1, 0 or 1 exactly as the number is negative, zero or positive |
| Auxiliary.SignCheckStraddles | src/circus.cpp:85 | the sign check passes exactly when the minimum is negative and the maximum non-negative, or the minimum is zero and the maximum positive; so all-zero and same-sign offsets are rejected |
| Auxiliary.ColumnMajorIndex | src/circus.cpp:68-69 | in the column-major buffer of the Eigen matrix, sample `(i, c)` is at offset `c * rows + i` |
| Auxiliary.ColumnIsStorageRun | src/circus.cpp:76-78 | the samples the median search reads, `rows` of them from `data() + p * rows()`, are exactly column `p` of the sinogram, top to bottom |
| Auxiliary.RowMajorIndex | src/circusfunction.h:33-35 | in the row-major buffer of a continuous `cv::Mat`, sample `(r, j)` is at offset `r * cols + j` |
| Auxiliary.RowIsStorageRun | src/circusfunction.h:33-35 | the samples the legacy median search reads, `cols` of them from `ptr(p)`, are exactly row `p` of the sinogram, left to right |
| Circus.ComputeOffsets | src/circus.cpp:74-80 | one offset per column, each the weighted median of that column minus the nominal center |
| Circus.Padding | src/circus.cpp:86 | the padding `|max| + |min|` is at least `max - min`, and exactly `max - min` when the extremes are on either side of zero |
| Circus.PaddingExample | src/circus.cpp:83-86 | offsets `[-2, 0, 3]` give minimum -2, maximum 3 and padding 5 |
| Circus.Place | src/circus.cpp:88-94 | the target has `rows + padding` rows and the same columns, and sample `(row, col)` is at row `max + row - offset[col]` of column `col`, an index shown in range for every write |
| Circus.AlignColumns | src/circus.cpp:83-94 | given offsets bounded by `min` and `max` whose median rows exist, the aligned matrix is new, `rows + |max| + |min|` by `cols`, is shifted as `Shift.Shifted` says, and every column's sample at `center + offset[col]` is on row `new_center` = nominal center + `max`, itself in range |
| Circus.AlignSinogram | src/circus.cpp:63-94 | fails exactly when the extreme offsets have the same sign; otherwise the aligned matrix is new, `rows + |max| + |min|` by `cols`, holds every sample at `max + row - offset[col]` (so, by `Shift.ShiftedWindow`, each column's window is the rigid image of that column), puts every column's weighted-median sample on row `new_center`, and `new_center` is the nominal center plus `max` |
| Shift.ShiftedWindow | src/circus.cpp:88-92 | in a shifted matrix, every cell of column `col`'s window `[max - offset[col], max - offset[col] + rows)` holds the sample of row `k - (max - offset[col])`, so the window is the rigid image of the column (the same holds for the legacy copy loop, src/circusfunction.h:49-54) |
| Shift.MediansLand | src/circus.cpp:87-92 | in a shifted matrix, when every column's row `center + offset[col]` exists, row `center + max` is in range and holds each column's sample from that row; with `offset = median - center` this is the median sample (the same for src/circusfunction.h:43-54) |
| Circus.KernelForTraces | src/circus.cpp:119-133 | the dispatch is exhaustive: the chosen kernel traces the requested P-functional, and it receives arguments exactly when the functional is Hermite, namely its order and the wrapper's center |
| Circus.RunKernel | src/circus.cpp:120-133 | a kernel launch fills output cell `col` with the functional's value over sinogram column `col`, for every column |
| Circus.GetCircusFunction | src/circus.cpp:109-136 | the output is a new buffer of length `cols` whose cell `col` is the dispatched kernel's value over column `col` |
| CircusFunction.ComputeOffsets | src/circusfunction.h:28-37 | one offset per column index `p`, each the weighted median of row `p` (a run of `cols` samples, which needs `cols <= rows`) minus the nominal center |
| CircusFunction.Padding | src/circusfunction.h:40-42 | the padding `max + |min|`, taken without a sign check, is non-negative and at least `max - min` in every sign case, exactly `max - min` when the minimum is negative |
| CircusFunction.Place | src/circusfunction.h:44-54 | the zero-filled target has `rows + padding` rows and the same columns, sample `(i, j)` is at row `max + i - offset[j]` of column `j`, and every cell outside a column's shifted window is zero |
| CircusFunction.AlignColumns | src/circusfunction.h:38-54 | given offsets bounded by `min` and `max` whose median rows exist, the aligned matrix is new, `rows + max + |min|` by `cols`, shifted as `Shift.Shifted` says and zero outside the shifted windows, and every column's sample at `center + offset[j]` is on row `new_center` = nominal center + `max`, itself in range |
| CircusFunction.AlignSinogram | src/circusfunction.h:23-54 | the aligned matrix is new, `rows + max + |min|` by `cols`, holds every sample at `max + i - offset[j]`, is zero everywhere else, and puts the sample at the row-median index of each column on row `new_center` = nominal center + `max` |
| CircusFunction.GetCircusFunction | src/circusfunction.h:67-95 | the output is new with one entry per input row, entry `p` being the P-functional of row `p`, the row length and the arguments |

## Left out

- The nearest-orthonormal projection (the full SVD and the product `U * I * V^T`, src/circus.cpp:96-100 and src/circusfunction.h:56-62): floating-point linear algebra done by Eigen and OpenCV.
- Host/device download and upload and the device buffer allocations (src/circus.cpp:67-69, 102-105, 117): CUDA I/O; the model works on host arrays and treats allocation as infallible.
- The bodies of the T- and P-functional kernels (src/kernels/functionals.hpp): foreign device code, modelled as uninterpreted function parameters. Their declared arities do not match the call sites in src/circus.cpp:122-131, so only the dispatch shape is modelled.
- `findWeighedMedian`, `sgn` and the transformer that assembles the feature matrix from all T x P pairs: not part of this model; the median is a parameter returning an index into its input, `sgn` is `Auxiliary.Sgn`.
- `main`'s option-parser wiring, help output, logging configuration, CUDA device enumeration, image reading and the transformer call (src/demo.cpp:97-163, 181-241): I/O and library glue. That the regime is decided before the image is read is the order of statements in `main`; `Registry.CheckRegime` takes only the P-functional list.
- Registry.ParseP: the conversion of the Hermite order accepts exactly non-empty decimal digit strings of any size; how `boost::lexical_cast<unsigned int>` treats a leading sign, surrounding whitespace or a value above 2^32 - 1 is library behaviour and is not modelled.
- Registry.CheckRegime: the counter is an `unsigned int`; its wrap-around after 2^32 entries is not modelled.
- Circus.ComputeOffsets, CircusFunction.ComputeOffsets: `median - center` is computed in unsigned arithmetic and converted to `int`; the model uses the mathematical difference, which is what the conversion yields for any realistic sinogram height.
- The `input.type() == CV_64FC1` assertion of the legacy circus function: element types are generic in the model.
