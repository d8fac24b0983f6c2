# dither — a verified model of the error-diffusion core

This project models the dithering engine of `dither`, a small Rust program that
turns luminance images into black-and-white images by error diffusion. The model
has four modules, one per concern of the program:

- `Bytes` (`bytes.dfy`) holds the unsigned 8-bit values and the saturating `as u8`
  cast from a float. The program uses that cast twice: `(p * 255.) as u8` to bucket
  luminances, and `(p * 256.) as u8` to produce the output bytes.
- `Filters` (`algs.dfy`) holds the kernel catalog of `src/algs.rs`: the `Filter`
  record, its `const fn new`, and the four constant kernels `ATKINSON`, `FS`, `JJN`
  and `STUCKI`. The lemmas give their exact weights, their sums, and the direction
  in which each one diffuses.
- `VecImage` (`vecimg.dfy`) holds the `VecImg` image of `src/vecimg.rs`:
  - `VecImg` is a class with the width, the height, an `array<real>` of samples and
    the threshold;
  - `bin_lum` is a method that counts into a fixed array, proved against the
    `Histogram` function;
  - the threshold fold, the row-major `Index`/`IndexMut` addressing and `quantize`;
  - `apply_filter` is a method with the source's nested loops, proved against the
    `Filtered` function, which gives the buffer after one per-pixel step.
- `Dithering` (`dither.dfy`) holds the scan of `dither_file` in `src/main.rs:15-21`.
  The loops over `x` and `y` are the methods `ScanGrid` and `ScanColumn`, which call
  `ApplyFilter`. `DitherImage` adds the unsigned-underflow checks on the two loop
  bounds and the final byte conversion. The properties of the whole scan are stated
  about two functions:
  - `ApplyAll`: the per-pixel step applied along a sequence of points;
  - `ScanOrder`: the sequence of points the loops visit.

Samples are `real`s. Every float operation of the core is exact in the model (see
"Left out").

Behaviour of the code worth noting:

- The threshold can exceed 1: for an empty image it is 127.5
  (`EmptyImageThreshold`). In general it lies between 0 and `32640 / (256 + n)`.
- Kernel weights do not always sum to the divisor:
  - Atkinson diffuses 6/8 of the error;
  - Floyd-Steinberg has a centre weight of 1, so its weights sum to 17 over a
    divisor of 16. The centre share is overwritten by the quantized value right
    after, so the error that reaches other pixels is exactly 16/16.
- Border pixels are not all left untouched:
  - only the columns left of `size/2` are guaranteed unchanged
    (`DitheredKeepsLeftColumns`);
  - the other border samples can receive diffused error from interior steps
    (`FilteredWindowCell`), but they are never quantized.
- Nothing rejects an image that is too small for the kernel; instead:
  - an image narrower than `size/2` (or, with a non-empty x range, shorter than
    `size/2`) makes the unsigned loop bound underflow, which is a panic in a debug
    build (`DitherImage` returns `UnderflowPanic`);
  - an image at least `size/2` wide but at most `2 * (size/2)` wide is left
    unchanged (`NarrowImageUnchanged`).

## Model

| member | source | states |
|---|---|---|
| Filters.NewFilter | src/algs.rs:9-16 | given a square matrix (the `[[f32; N]; N]` type), the filter is well formed: `size` is the side length and every row has `size` weights; name, divisor and matrix are stored as given |
| Filters.AtkinsonWeights | src/algs.rs:19-29 | Atkinson is 5x5 with divisor 8; every weight is 0 or 1; the weights sum to 6, so 3/4 of the error is diffused |
| Filters.FloydSteinbergWeights | src/algs.rs:31-35 | Floyd-Steinberg is 3x3 with divisor 16 and centre weight 1; all weights sum to 17; the weights other than the centre sum to the divisor |
| Filters.JjnWeights | src/algs.rs:37-47 | JJN is 5x5; its weights sum to its divisor 48 |
| Filters.StuckiWeights | src/algs.rs:49-59 | Stucki is 5x5; its weights sum to its divisor 42 |
| Filters.FiveByFiveForward | src/algs.rs:19-59 | in Atkinson, JJN and Stucki every non-zero weight sits strictly after the centre in x-outer, y-inner order |
| Filters.FloydSteinbergForward | src/algs.rs:31-35 | in Floyd-Steinberg every non-zero weight is after the centre, except the centre `[1][1]` itself |
| Filters.CatalogKernelsValid | src/algs.rs:19-59 | every catalog kernel is square with `size > 0`, has non-negative weights and a positive divisor, and diffuses only to the centre or to later pixels |
| VecImage.BinLum | src/vecimg.rs:21-27 | 256 buckets; bucket `k` is 1 plus the number of occurrences of `k` in the input; the result is the `Histogram` of the input |
| VecImage.HistogramTotal | src/vecimg.rs:22-24 | every bucket is at least 1, and the buckets sum to 256 plus the input length |
| VecImage.IndexOverCountBounds | src/vecimg.rs:55-58 | the fold of `i / bins[i]` over the first `n` buckets is between 0 and `n(n-1)/2` |
| VecImage.ThresholdBounds | src/vecimg.rs:54-59 | for `n` bucketed samples the threshold lies between 0 and `32640 / (256 + n)` |
| VecImage.EmptyImageThreshold | src/vecimg.rs:54-59 | with no samples, the threshold is 127.5 |
| VecImage.OffsetInBounds | src/vecimg.rs:73 | for `x < w` and `y < h` the index `x + y*w` is below `w*h` |
| VecImage.OffsetRoundTrip | src/vecimg.rs:73 | the column and the row come back from the index as `index % w` and `index / w` |
| VecImage.OffsetInjective | src/vecimg.rs:86 | distinct in-row coordinates have distinct indices |
| VecImage.VecImg.Get | src/vecimg.rs:70-74 | returns the sample at index `x + y*w` |
| VecImage.VecImg.Set | src/vecimg.rs:84-88 | the sample at index `x + y*w` becomes `v` and every other sample is unchanged |
| VecImage.Quantize | src/vecimg.rs:98-104 | the quantized value is 0 or 1, and it is 0 exactly when the sample is at most the threshold; quantized value plus error is the sample |
| VecImage.VecImg.FromLuminance | src/vecimg.rs:54-66 | the samples are stored as given; the threshold is the fold over the histogram of the samples scaled by 255 and cast to bytes |
| VecImage.WindowCellInBounds | src/vecimg.rs:112 | when the window fits, every cell `(at_x - n/2 + i, at_y - n/2 + j)` is inside the image and its index is below `w*h` |
| VecImage.VecImg.ApplyFilter | src/vecimg.rs:106-117 | the new buffer is `Filtered` of the old one; the error is taken from the centre before any write |
| VecImage.FilteredCentre | src/vecimg.rs:108-116 | after the step, the centre holds the quantized value, whatever the centre weight |
| VecImage.FilteredWindowCell | src/vecimg.rs:110-115 | after the step, every window cell other than the centre has gained exactly `matrix[i][j] * e / div` |
| VecImage.FilteredOutside | src/vecimg.rs:110-116 | after the step, every sample outside the window is unchanged; for a non-empty kernel the centre is inside the window |
| Bytes.SaturatingByteTruncates | src/main.rs:21 | the float-to-byte cast truncates inside `[0, 256)`, gives 0 below 0 and gives 255 from 256 up |
| Bytes.ScaleToBytes | src/main.rs:21 | the byte buffer has the sample buffer's length, and each byte is the cast of that sample times the factor |
| Dithering.ColumnPointsMembers | src/main.rs:16 | the inner loop visits exactly the rows `y0` up to `y1` of its column |
| Dithering.ColumnPointsIncreasing | src/main.rs:16 | the inner loop visits its points in increasing row order |
| Dithering.GridPointsMembers | src/main.rs:15-16 | the nested loops visit exactly the points of the rectangle `[x0, x1) x [y0, y1)` |
| Dithering.GridPointsIncreasing | src/main.rs:15-16 | the nested loops visit their points in strictly increasing x-outer, y-inner order, so no point twice |
| Dithering.ScanOrderExact | src/main.rs:15-16 | when the bounds do not underflow, a point is visited exactly when its window fits in the image, each point once and in scan order |
| Dithering.ScanAccessesInBounds | src/main.rs:15-17 | every window cell the step touches at a visited point has an index below `w*h` |
| Dithering.ApplyAllSnoc | src/main.rs:15-17 | one more point at the end of the visit order is one more per-pixel step |
| Dithering.ApplyAllAppend | src/main.rs:15-19 | the steps along two runs of points, one after the other, are the steps along their concatenation |
| Dithering.FilteredKeepsEarlier | src/main.rs:15-17 | with a forward-diffusing kernel, a step leaves the sample of every earlier visited point unchanged |
| Dithering.ApplyAllFinalises | src/main.rs:15-19 | along increasing interior points, every visited sample ends exactly 0 or 1 |
| Dithering.DitheredInteriorBinary | src/main.rs:15-19 | after the scan with a forward-diffusing kernel, every interior sample is exactly 0 or 1 |
| Dithering.ApplyAllKeepsLeftColumns | src/main.rs:15-17 | steps at interior points never change a sample in a column left of `size/2` |
| Dithering.DitheredKeepsLeftColumns | src/main.rs:15-17 | after the scan, every sample in a column left of `size/2` is unchanged |
| Dithering.NarrowImageUnchanged | src/main.rs:15 | an image between `size/2` and `2 * (size/2)` wide neither underflows nor changes |
| Dithering.BinaryBytes | src/main.rs:21 | the byte conversion maps 0 to 0 and 1 to 255 |
| Dithering.CatalogInteriorBytes | src/main.rs:15-21 | with any catalog kernel, every interior sample ends 0 or 1 and becomes byte 0 or 255 |
| Dithering.ColumnScanIsApplyAll | src/main.rs:16-18 | the inner loop over a column is the per-pixel step along that column's points, in order |
| Dithering.GridScanIsApplyAll | src/main.rs:15-19 | the nested loops are the per-pixel step along the grid's points, in order |
| Dithering.DitheredIsGridScan | src/main.rs:15-19 | the whole scan is the outer loop over all interior columns |
| Dithering.ScanColumn | src/main.rs:16-18 | the inner loop leaves the buffer equal to `ColumnScan` of the old buffer |
| Dithering.ScanGrid | src/main.rs:15-19 | the nested loops leave the buffer equal to `GridScan` of the old buffer |
| Dithering.DitherImage | src/main.rs:15-21 | it panics exactly when a loop bound underflows, and then nothing changes; otherwise the buffer becomes `Dithered` of the old one and the bytes are its samples times 256, cast |

## Left out

- The sRGB-to-linear conversion and the luminance weighting (`src/vecimg.rs:12-18`, `src/vecimg.rs:39-46`) use `powf`. `VecImage.VecImg.FromLuminance` takes the luminances as given reals.
- f32 arithmetic is modelled by exact reals: there is no rounding, no NaN and no infinity. `f.div != 0.0` is therefore a precondition wherever the step divides by the divisor.
- VecImage.BinLum: the counters are unbounded naturals; the source's `u32` counters would wrap only past about 4 billion samples.
- VecImage.VecImg.ApplyFilter: requires the whole window to lie inside the image (`WindowFits`). The source only needs `at_x - n/2 + i` and `at_y - n/2 + j` not to underflow and the index to stay below the buffer length, so it also accepts a window that wraps over a row edge. The scan never produces such a call.
- VecImage.VecImg.Get: the `usize`-to-`u32` casts of the `(usize, usize)` index impls (`src/vecimg.rs:77-82`, `src/vecimg.rs:90-94`) are not modelled; coordinates are unbounded naturals. The same holds for `VecImage.VecImg.Set`. Both require the offset `x + y*w` to lie inside the buffer, where the source's `Vec` indexing would panic (`src/vecimg.rs:73`, `src/vecimg.rs:86`); the scan never makes such an access (`ScanAccessesInBounds`).
- VecImage.Threshold is defined only for bins that have 256 buckets, all at least 1. Every histogram `bin_lum` builds has that shape (`HistogramTotal`).
- Dithering.DitherImage: an underflowing loop bound is modelled as the debug build's panic (`UnderflowPanic`); the release build's wrap-around is not modelled.
- Dithering.DitherImage: the scan uses the image's own `w` and `h`. In `dither_file` these come from `img.dimensions()`, the same values the image was built from. The source stores the height in the never-read `_h` field.
- The const generic `N` of `Filter<N>` is modelled by the `WellFormed` predicate: the matrix has `size` rows of `size` weights.
- All I/O of `src/main.rs` is not part of this model: `image::open`, `ImageBuffer::from_raw`, `save`, `println!`, `read_dir`, the output file name, and the kernel list in `main` (`src/main.rs:11-13`, `src/main.rs:22-42`).
