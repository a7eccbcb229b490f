# SNR measurement of a DICOM phantom image

`process_dicom_file` in `main.py` reads a DICOM image of a test phantom and
computes its signal-to-noise ratio (SNR). The steps are:

1. Rescale the raw samples to 8 bits (`convert_dtype`).
2. Binarise the 8-bit image with a fixed cut of 80.
3. Trace and fill the outer contours to get a phantom mask.
4. Erode the mask 5 times with a 3×3 kernel to get the signal region.
5. Dilate it 5 times and subtract the phantom to get a noise ring.
6. Gather the raw samples under each region.
7. Report each region's std, mean, min and max.
8. Report SNR = mean(signal) / mean(noise), but only when the noise std is
   non-zero.

Any exception along the way makes the function return `False` instead of
`True`.

This project models that measurement in Dafny. It is pure: each stage is a
function over grids and sequences. The modules follow the stages:

- `Grids`: the sample grid (`seq<seq<int>>`, row-major like a NumPy array),
  0/255 masks, and region predicates (subset, disjoint, empty).
- `Normalizer`: `convert_dtype`. It computes floor(255 · v / dtypeMax)
  exactly.
- `Segmenter`: the threshold step. A pixel becomes 255 exactly when its
  value is strictly above the cut.
- `Morphology`:
  - Erosion and dilation with the 3×3 ones kernel. Pixels outside the image
    do not take part, as with OpenCV's default border.
  - k iterations, where k = 0 copies the mask.
  - The saturating uint8 `cv.subtract`.
  - The builder of the inner, external and ring masks.
- `Statistics`:
  - Boolean-mask selection (`image_raw[mask == 255]`) in row-major order.
  - Minimum and maximum.
  - The exact integer quantities behind the float mean and std: count n,
    sum S, and spread Σ(n·x − S)². The spread is n³ times the population
    variance, so std > 0 exactly when spread > 0.
- `Pipeline`:
  - `Analyze` runs the stages in the source's order and returns either the
    analysis or the reason for failure.
  - `Process` models the function's `True`/`False` result once the file has
    been read and its tags found.
  - Lemmas characterise success and failure, and cover the boundary
    scenarios.

Some parts are inputs rather than computations:

- The phantom mask is an input: any 0/255 grid of the image's shape
  (contour filling is not modelled).
- `Config` holds the two constants, the cut (80) and the iteration count (5).
  `DefaultConfig` has the values `main.py` uses.

## Model

| member | source | states |
|---|---|---|
| Normalizer.RescaleSample | main.py:66-72 | each sample becomes the largest r with r·dtypeMax ≤ 255·v; it lies in [0, 255]; 0 maps to 0 and dtypeMax maps to 255 |
| Normalizer.ConvertDtype | main.py:66-72 | the grid keeps its shape; every sample is rescaled and lies in [0, 255] |
| Normalizer.RescaleMonotone | main.py:66-72 | rescaling preserves intensity order: a ≤ b implies rescale(a) ≤ rescale(b) |
| Normalizer.ConvertDtypeMonotone | main.py:66-72 | over a whole grid, a pixel no brighter than another stays no brighter after normalisation |
| Segmenter.Threshold | main.py:89 | the result has the input's shape, is 0/255, and a pixel is 255 exactly when its value is > cut |
| Segmenter.ForegroundOnRawScale | main.py:86-89 | after normalising and thresholding, a pixel is foreground exactly when outMax·v ≥ (cut+1)·dtypeMax on the raw scale |
| Pipeline.MasksOf | main.py:97-100 | the inner, external and ring masks derived from the phantom all have the raw image's shape |
| Pipeline.Binarize | main.py:86-89 | the binary image has the raw grid's shape and is a 0/255 mask |
| Pipeline.BinaryOnRawScale | main.py:86-89 | a pixel of the binary image is set exactly when 255·v ≥ (cut+1)·dtypeMax |
| Morphology.WindowMin | main.py:97-98 | the erosion value of a pixel is no larger than any image pixel of its 3×3 window |
| Morphology.WindowMax | main.py:97-99 | the dilation value of a pixel is no smaller than any image pixel of its 3×3 window |
| Morphology.BoxMinAttained | main.py:97-98 | the window minimum is the value of some pixel in the window |
| Morphology.BoxMaxAttained | main.py:97-99 | the window maximum is the value of some pixel in the window |
| Morphology.Erode | main.py:97-98 | one erosion keeps the shape and rectangularity, and no pixel gets brighter |
| Morphology.Dilate | main.py:97-99 | one dilation keeps the shape and rectangularity, and no pixel gets darker |
| Morphology.ErodeOfMask | main.py:97-98 | eroding a 0/255 mask gives a 0/255 mask; a pixel stays set exactly when its whole in-image 3×3 neighbourhood is set |
| Morphology.DilateOfMask | main.py:97-99 | dilating a 0/255 mask gives a 0/255 mask; a pixel is set exactly when some in-image pixel of its 3×3 neighbourhood is set |
| Morphology.ErodeN | main.py:98 | k erosions keep the shape, and no pixel gets brighter |
| Morphology.DilateN | main.py:99 | k dilations keep the shape, and no pixel gets darker |
| Morphology.ErodeNOfMask | main.py:98 | iterated erosion keeps a 0/255 mask a 0/255 mask |
| Morphology.DilateNOfMask | main.py:99 | iterated dilation keeps a 0/255 mask a 0/255 mask |
| Morphology.AllOnNearCompose | main.py:98 | erosion neighbourhoods compose: distance 1 after distance k′ is distance k′+1 |
| Morphology.AnyOnNearCompose | main.py:99 | dilation neighbourhoods compose: distance 1 after distance k′ is distance k′+1 |
| Morphology.ErodeNWindow | main.py:97-98 | after k erosions a pixel is set exactly when every image pixel within Chebyshev distance k is set |
| Morphology.DilateNWindow | main.py:97-99 | after k dilations a pixel is set exactly when some image pixel within Chebyshev distance k is set |
| Morphology.ErodeNEmpty | main.py:98 | a mask with an unset image pixel within distance k of every pixel is empty after k erosions |
| Morphology.ErodeShrinks | main.py:98 | one erosion of a mask selects a subset of the mask |
| Morphology.DilateGrows | main.py:99 | one dilation of a mask selects a superset of the mask |
| Morphology.ErodeNShrinks | main.py:98 | for i ≤ j, the region after j erosions is inside the region after i erosions |
| Morphology.DilateNGrows | main.py:99 | for i ≤ j, the region after i dilations is inside the region after j dilations |
| Morphology.SaturateU8 | main.py:100 | the result is in [0, 255]; in-range values are kept; values below 0 clamp to 0 and values above 255 clamp to 255 |
| Morphology.Subtract | main.py:100 | the shape is kept; on uint8 inputs no pixel exceeds the minuend's; on masks a pixel is set exactly when it is set in a and not in b |
| Morphology.BuildMasks | main.py:97-100 | the inner, external and ring masks all have the phantom's shape |
| Morphology.BuildMasksNest | main.py:97-100 | all three are 0/255 masks; inner ⊆ phantom ⊆ external; the ring is disjoint from the phantom and inside external; external = phantom ∪ ring |
| Statistics.Select | main.py:103 | `image_raw[mask == 255]` has one sample per listed set pixel |
| Statistics.RowPositions | main.py:103 | lists set pixels of one row, all of them in that row, in strictly increasing column order |
| Statistics.PositionsFrom | main.py:103 | lists set pixels in strictly increasing row-major order |
| Statistics.Positions | main.py:103 | every listed position is a set pixel, and the list is strictly increasing in row-major order |
| Statistics.PositionsExact | main.py:103 | a position is listed exactly when it is a set pixel, each once, in row-major order |
| Statistics.SelectExact | main.py:103 | the i-th selected sample is the raw value at the i-th set pixel; a value is selected exactly when it lies under some set pixel |
| Statistics.SelectCount | main.py:103 | the selection has one sample per set pixel (its length is the region's area), and it is empty exactly when the region is |
| Statistics.SelectInRange | main.py:103 | the samples selected from a grid with values in [lo, hi] lie in [lo, hi] |
| Statistics.Minimum | main.py:106 | np.min on a non-empty selection returns a member that bounds all samples from below |
| Statistics.Maximum | main.py:107 | np.max on a non-empty selection returns a member that bounds all samples from above |
| Statistics.Spread | main.py:104 | n³ times the population variance is non-negative |
| Statistics.SqDev | main.py:104 | the sum of squared scaled deviations is non-negative |
| Statistics.SqDevAtLeast | main.py:104 | the sum of squared deviations is at least each sample's own term |
| Statistics.SqDevZero | main.py:104 | the sum of squared deviations is zero when every sample's deviation is zero |
| Statistics.Sum | main.py:105 | non-negative samples have a non-negative sum |
| Statistics.Mean | main.py:105 | the mean taken count times gives the sum |
| Statistics.SumConst | main.py:105 | n equal samples v sum to n·v |
| Statistics.SumAtLeast | main.py:105 | non-negative samples sum to at least any one of them |
| Statistics.SumBetween | main.py:105 | samples in [lo, hi] sum to between n·lo and n·hi |
| Statistics.DistinctSpreadPositive | main.py:104 | two different samples give a positive spread, hence a positive std |
| Statistics.UniformSpreadZero | main.py:104 | equal samples give zero spread, hence a zero std |
| Statistics.SpreadPositiveIff | main.py:110 | on a non-empty selection, std > 0 holds exactly when min < max |
| Statistics.SpreadPositiveSumPositive | main.py:153-154 | a non-negative selection with std > 0 has a positive sum, so N_mean is a positive divisor |
| Statistics.SingletonSpread | main.py:104 | a single sample has zero std |
| Statistics.Measure | main.py:103-113 | fails exactly on an empty selection (np.min raises); otherwise count = length, min and max are members bounding the samples with min ≤ max, and spread > 0 holds exactly when min < max |
| Statistics.MeanBetween | main.py:105-107 | the mean lies between min and max: count·min ≤ sum ≤ count·max |
| Pipeline.Analyze | main.py:153-154 | when an SNR is produced, the noise minimum is below its maximum |
| Pipeline.SnrOf | main.py:154 | for non-empty selections with signal sum ≥ 0 and noise sum > 0, the exact quotient S_mean / N_mean has a positive divisor and a non-negative dividend |
| Pipeline.SnrIsMeanRatio | main.py:154 | the quotient times the noise mean equals the signal mean, i.e. SNR = S_mean / N_mean |
| Pipeline.SnrWellDefined | main.py:153-154 | on success both selections are non-empty, the signal sum is ≥ 0 and the noise sum > 0, so the SNR quotient is well defined with a positive divisor |
| Pipeline.SnrIsReported | main.py:153-154 | on success the reported SNR times the noise mean is the signal mean |
| Pipeline.SelectionVaries | main.py:110 | a non-empty selection has min < max exactly when two set pixels carry different raw values |
| Pipeline.AnalyzeFailures | main.py:103-113 | the outcome is EmptySignal exactly when the eroded region is empty. It is EmptyNoise exactly when the signal is non-empty and the ring is empty. It is SnrUndefined (the unbound `snr` at main.py:191, caught at main.py:205-209) exactly when both are non-empty and the ring is uniform. It is success exactly otherwise |
| Pipeline.Process | main.py:203-209 | once the file is read and both tags are found, the function returns True exactly when the eroded region and the ring are non-empty and the ring's raw values are not all equal |
| Pipeline.StatsWithinDtype | main.py:106-113 | the reported min and max are dtype samples, with signal min ≤ max and noise min < max |
| Pipeline.EmptyPhantomFails | main.py:94-106 | an empty phantom mask fails with EmptySignal, so the handler at main.py:205-209 returns False |
| Pipeline.ThinPhantomFails | main.py:98-106 | a phantom with an off image pixel within distance k of every pixel (such as a 10×10 square that does not touch the image border, for k = 5) is eroded away and fails with EmptySignal |
| Pipeline.FullPhantomFails | main.py:98-112 | a phantom covering the whole image survives erosion but has no ring, so it fails with EmptyNoise |
| Pipeline.UniformBackgroundUndefined | main.py:153-154 | a constant background around the phantom, with non-empty signal and ring, makes N_std zero, so the SNR label at main.py:191 fails with SnrUndefined |

## Left out

- DICOM reading (`dcmread`), the sequence and flip-angle tags, and the file name handling are I/O.
- Pipeline.Process: assumes that `dcmread`, `pixel_array` and both tag lookups (main.py:81-84) succeed. A missing Flip Angle or Sequence Name tag raises KeyError, and the handler then returns False whatever the pixels are.
- Contour tracing (`cv.findContours`) and contour filling (`binary_mask`, `main.py:74-78,91-94`) are left out. The phantom mask is an input: any 0/255 grid with the raw image's shape.
- Floating point is left out:
  - The mean, std and SNR are floats in the source. The model keeps the exact integers they come from (count, sum, spread), and the exact quotient for the SNR.
  - The square root inside `np.std` is not modelled; only its sign matters to the code.
  - Rounding of the float divisions is not modelled.
- `convert_dtype` is modelled only for unsigned dtypes, whose largest value is positive. The source would also accept a signed array, whose negative samples are not modelled.
- The pixel array is taken to be a single-frame, single-channel 2-D grid. Multi-frame or colour DICOM data is not modelled.
- Rendering is left out: the colour conversion, contour drawing, text placement (the `w, h` naming and the `text_size` reuse), `cv.imwrite`, console output, waiting for Enter, and the menu and file-dialog loop.
- Pipeline.Analyze: does not model exceptions raised after line 113 other than the unbound `snr` at line 191. A failed image write, for example, is not modelled.

## Notes on the source

- `convert_dtype` (main.py:66-72) truncates with `astype` and does not round. For these non-negative values truncation is the floor, which `RescaleSample` computes.
- The divisor in `convert_dtype` is `np.iinfo(dtype).max`, a positive type constant. The sample maximum of the image plays no part, so a zero divisor cannot arise.
- An empty region or a zero noise std leaves `process_dicom_file` through its handler (main.py:205-209), which returns `False`. These are the `Failure` values here.
