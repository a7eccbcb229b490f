/** The SNR measurement of process_dicom_file (main.py): normalise the raw
    pixel grid, threshold it, derive the inner, external and noise-ring masks
    from the phantom mask, select and summarise the signal and noise samples,
    and form SNR = mean(signal) / mean(noise) when the noise has a non-zero
    standard deviation. Every way the source leaves this path through an
    exception, which its handler turns into the return value False, is a
    Failure here. */
module Pipeline {
  import opened Grids
  import opened Normalizer
  import opened Segmenter
  import opened Morphology
  import opened Statistics

  /** The two constants the pipeline is built around: the threshold cut of
      cv.threshold and the iteration count of cv.erode / cv.dilate. */
  datatype Config = Config(threshold: int, iterations: nat)

  /** The values main.py uses. */
  const DefaultConfig: Config := Config(DefaultThreshold, DefaultIterations)

  /** Why process_dicom_file returns False:
      EmptySignal  - np.min on an empty signal selection raises ValueError;
      EmptyNoise   - np.min on an empty noise selection raises ValueError;
      SnrUndefined - N_std is 0, snr is never bound, and the SNR label
                     referring to it raises UnboundLocalError. */
  datatype Failure = EmptySignal | EmptyNoise | SnrUndefined

  /** An exact quotient num / den. */
  datatype Ratio = Ratio(num: int, den: int)

  /** snr = S_mean / N_mean with S_mean = S_sum / S_n and N_mean = N_sum / N_n,
      kept as the exact quotient (S_sum * N_n) / (N_sum * S_n). For two
      non-empty selections, the first with a non-negative sum and the second
      with a positive one, the divisor is positive and the dividend
      non-negative. */
  function SnrOf(signal: Stats, noise: Stats): (q: Ratio)
    ensures signal.count > 0 && noise.count > 0 && signal.sum >= 0 && noise.sum > 0 ==>
      q.den > 0 && q.num >= 0
  {
    if signal.count > 0 && noise.count > 0 && signal.sum >= 0 && noise.sum > 0 then
      QuotientSigns(signal.sum, signal.count, noise.sum, noise.count);
      Ratio(signal.sum * noise.count, noise.sum * signal.count)
    else
      Ratio(signal.sum * noise.count, noise.sum * signal.count)
  }

  /** The signs of the SNR quotient's dividend x * w and divisor z * y. */
  lemma {:induction false} QuotientSigns(x: int, y: int, z: int, w: int)
    requires x >= 0 && y > 0 && z > 0 && w > 0
    ensures x * w >= 0 && z * y > 0
  {
    assert z * y >= y by {
      assert z * y - y == (z - 1) * y;
    }
  }

  /** When both selections are non-empty, the signal sum is non-negative and
      the noise mean is positive, the quotient times the noise mean gives the
      signal mean. */
  lemma {:induction false} SnrIsMeanRatio(signal: Stats, noise: Stats)
    requires signal.count > 0 && noise.count > 0 && signal.sum >= 0 && noise.sum > 0
    ensures Mean(signal) == (SnrOf(signal, noise).num as real / SnrOf(signal, noise).den as real) * Mean(noise)
  {
    QuotientSigns(signal.sum, signal.count, noise.sum, noise.count);
    Quotient(signal.sum, signal.count, noise.sum, noise.count);
  }

  /** Everything the measurement computes on the way to the SNR. */
  datatype Analysis = Analysis(masks: Masks, signal: Stats, noise: Stats, snr: Ratio)

  datatype Outcome = Done(analysis: Analysis) | Failed(failure: Failure)

  /** What the pipeline may assume of its inputs: a rectangular grid of
      unsigned samples of a dtype whose largest value is dtypeMax, and a
      phantom mask of the same shape. */
  ghost predicate ValidInput(raw: Grid, dtypeMax: int, phantom: Grid) {
    0 < dtypeMax && Rect(raw) && InRange(raw, 0, dtypeMax) && SameShape(raw, phantom)
  }

  lemma {:induction false} PhantomRect(raw: Grid, dtypeMax: int, phantom: Grid)
    requires ValidInput(raw, dtypeMax, phantom)
    ensures Rect(phantom)
  {
    if |phantom| > 0 {
      assert |phantom[0]| == |raw[0]|;
    }
  }

  /** thresh = cv.threshold(convert_dtype(image_raw, uint8), cut, 255, 0):
      the binary image whose external contours, filled, become the phantom
      mask. */
  function Binarize(raw: Grid, dtypeMax: int, cfg: Config): (b: Grid)
    requires 0 < dtypeMax && InRange(raw, 0, dtypeMax)
    ensures SameShape(raw, b) && IsMask(b)
  {
    Threshold(ConvertDtype(raw, dtypeMax, U8Max), cfg.threshold)
  }

  /** The masks BuildMasks derives from the phantom under a configuration. */
  function MasksOf(raw: Grid, dtypeMax: int, phantom: Grid, cfg: Config): (m: Masks)
    requires ValidInput(raw, dtypeMax, phantom)
    ensures SameShape(raw, m.inner) && SameShape(raw, m.ring) && SameShape(raw, m.external)
  {
    PhantomRect(raw, dtypeMax, phantom);
    BuildMasks(phantom, cfg.iterations)
  }

  /** process_dicom_file from the pixel array to the SNR, in the source's
      order of evaluation: the signal statistics (whose np.min fails first on
      an empty selection), then the noise statistics, then the N_std > 0
      guard. */
  function Analyze(raw: Grid, dtypeMax: int, phantom: Grid, cfg: Config): (o: Outcome)
    requires ValidInput(raw, dtypeMax, phantom)
    ensures o.Done? ==> o.analysis.noise.min < o.analysis.noise.max
  {
    var masks := MasksOf(raw, dtypeMax, phantom, cfg);
    var signal := Measure(Select(raw, masks.inner));
    var noise := Measure(Select(raw, masks.ring));
    if signal.None? then Failed(EmptySignal)
    else if noise.None? then Failed(EmptyNoise)
    else if noise.value.spread == 0 then Failed(SnrUndefined)
    else
      Done(Analysis(masks, signal.value, noise.value, SnrOf(signal.value, noise.value)))
  }

  /** The return value of process_dicom_file for this pixel data, once the
      file has been read and its flip angle and sequence name tags looked up:
      True exactly when the eroded phantom and the noise ring are non-empty
      and the ring's raw samples are not all equal. */
  function Process(raw: Grid, dtypeMax: int, phantom: Grid, cfg: Config): (b: bool)
    requires ValidInput(raw, dtypeMax, phantom)
    ensures var m := MasksOf(raw, dtypeMax, phantom, cfg);
      b <==> !EmptyRegion(m.inner) && !EmptyRegion(m.ring) && Varies(raw, m.ring)
  {
    AnalyzeFailures(raw, dtypeMax, phantom, cfg);
    Analyze(raw, dtypeMax, phantom, cfg).Done?
  }

  /** Some two set pixels of the mask carry different raw samples. */
  ghost predicate Varies(raw: Grid, mask: Grid)
    requires SameShape(raw, mask)
  {
    exists r1, c1, r2, c2 :: IsOn(mask, r1, c1) && IsOn(mask, r2, c2) && raw[r1][c1] != raw[r2][c2]
  }

  /** A non-empty selection has min < max exactly when the raw samples under
      the mask are not all equal. */
  lemma {:induction false} SelectionVaries(raw: Grid, mask: Grid)
    requires SameShape(raw, mask) && |Select(raw, mask)| > 0
    ensures Minimum(Select(raw, mask)) < Maximum(Select(raw, mask)) <==> Varies(raw, mask)
  {
    var s := Select(raw, mask);
    var a, b := Minimum(s), Maximum(s);
    SelectExact(raw, mask, a);
    SelectExact(raw, mask, b);
    if Varies(raw, mask) {
      var r1, c1, r2, c2 :| IsOn(mask, r1, c1) && IsOn(mask, r2, c2) && raw[r1][c1] != raw[r2][c2];
      SelectExact(raw, mask, raw[r1][c1]);
      SelectExact(raw, mask, raw[r2][c2]);
      assert raw[r1][c1] in s && raw[r2][c2] in s;
    }
  }

  /** The three failures, each in terms of the masks and the raw samples:
      the signal region is empty; else the noise ring is empty; else every
      ring pixel carries the same raw sample. */
  lemma {:induction false} AnalyzeFailures(raw: Grid, dtypeMax: int, phantom: Grid, cfg: Config)
    requires ValidInput(raw, dtypeMax, phantom)
    ensures var o, m := Analyze(raw, dtypeMax, phantom, cfg), MasksOf(raw, dtypeMax, phantom, cfg);
      && (o == Failed(EmptySignal) <==> EmptyRegion(m.inner))
      && (o == Failed(EmptyNoise) <==> !EmptyRegion(m.inner) && EmptyRegion(m.ring))
      && (o == Failed(SnrUndefined) <==> !EmptyRegion(m.inner) && !EmptyRegion(m.ring) && !Varies(raw, m.ring))
      && (o.Done? <==> !EmptyRegion(m.inner) && !EmptyRegion(m.ring) && Varies(raw, m.ring))
  {
    var m := MasksOf(raw, dtypeMax, phantom, cfg);
    SelectCount(raw, m.inner);
    SelectCount(raw, m.ring);
    var noise := Select(raw, m.ring);
    if |noise| > 0 {
      SelectionVaries(raw, m.ring);
    }
  }

  /** Whenever an SNR is produced, both selections are non-empty, the signal
      sum is non-negative and the noise sum positive: the N_std > 0 guard
      keeps N_mean away from zero, and the quotient's divisor is positive. */
  lemma {:induction false} SnrWellDefined(raw: Grid, dtypeMax: int, phantom: Grid, cfg: Config)
    requires ValidInput(raw, dtypeMax, phantom)
    requires Analyze(raw, dtypeMax, phantom, cfg).Done?
    ensures var a := Analyze(raw, dtypeMax, phantom, cfg).analysis;
      && a.signal.count > 0 && a.noise.count > 0 && a.signal.sum >= 0 && a.noise.sum > 0
      && a.snr.den > 0 && a.snr.num >= 0
  {
    var a := Analyze(raw, dtypeMax, phantom, cfg).analysis;
    var m := MasksOf(raw, dtypeMax, phantom, cfg);
    var sig, noise := Select(raw, m.inner), Select(raw, m.ring);
    assert a.signal == Measure(sig).value && a.noise == Measure(noise).value;
    assert a.snr == SnrOf(a.signal, a.noise);
    SelectInRange(raw, m.inner, 0, dtypeMax);
    SelectInRange(raw, m.ring, 0, dtypeMax);
    SpreadPositiveSumPositive(noise);
  }

  /** On success the reported SNR is S_mean / N_mean: times the noise mean
      it gives the signal mean. */
  lemma {:induction false} SnrIsReported(raw: Grid, dtypeMax: int, phantom: Grid, cfg: Config, a: Analysis)
    requires ValidInput(raw, dtypeMax, phantom)
    requires Analyze(raw, dtypeMax, phantom, cfg) == Done(a)
    ensures a.signal.count > 0 && a.noise.count > 0 && a.snr.den > 0
    ensures Mean(a.signal) == (a.snr.num as real / a.snr.den as real) * Mean(a.noise)
  {
    SnrWellDefined(raw, dtypeMax, phantom, cfg);
    assert a.snr == SnrOf(a.signal, a.noise) by {
      var m := MasksOf(raw, dtypeMax, phantom, cfg);
      assert a.signal == Measure(Select(raw, m.inner)).value && a.noise == Measure(Select(raw, m.ring)).value;
    }
    AnalysisMeanRatio(a);
  }

  /** SnrIsMeanRatio for the statistics an analysis carries. */
  lemma {:induction false} AnalysisMeanRatio(a: Analysis)
    requires a.signal.count > 0 && a.noise.count > 0 && a.signal.sum >= 0 && a.noise.sum > 0
    requires a.snr == SnrOf(a.signal, a.noise)
    ensures a.snr.den > 0
    ensures Mean(a.signal) == (a.snr.num as real / a.snr.den as real) * Mean(a.noise)
  {
    SnrIsMeanRatio(a.signal, a.noise);
  }

  /** For positive y, z, w with z * y positive: with the quotient
      q = (x * w) / (z * y), x / y == q * (z / w). */
  lemma {:induction false} Quotient(x: int, y: int, z: int, w: int)
    requires y > 0 && z > 0 && w > 0 && z * y > 0
    ensures x as real / y as real == ((x * w) as real / (z * y) as real) * (z as real / w as real)
  {
    var xr, yr, zr, wr := x as real, y as real, z as real, w as real;
    assert (x * w) as real == xr * wr;
    assert (z * y) as real == zr * yr;
    assert (xr * wr) / (zr * yr) * (zr / wr) == xr / yr;
  }

  /** The binary image marks exactly the samples above the cut read back on
      the raw scale. */
  lemma {:induction false} BinaryOnRawScale(raw: Grid, dtypeMax: int, cfg: Config, r: int, c: int)
    requires 0 < dtypeMax && InRange(raw, 0, dtypeMax) && InBounds(raw, r, c)
    ensures IsOn(Binarize(raw, dtypeMax, cfg), r, c) <==> U8Max * raw[r][c] >= (cfg.threshold + 1) * dtypeMax
  {
    ForegroundOnRawScale(raw, dtypeMax, U8Max, cfg.threshold, r, c);
  }

  /** The reported minima and maxima are samples of the dtype, ordered. */
  lemma {:induction false} StatsWithinDtype(raw: Grid, dtypeMax: int, phantom: Grid, cfg: Config)
    requires ValidInput(raw, dtypeMax, phantom)
    requires Analyze(raw, dtypeMax, phantom, cfg).Done?
    ensures var a := Analyze(raw, dtypeMax, phantom, cfg).analysis;
      && 0 <= a.signal.min <= a.signal.max <= dtypeMax
      && 0 <= a.noise.min < a.noise.max <= dtypeMax
  {
    var a := Analyze(raw, dtypeMax, phantom, cfg).analysis;
    var m := MasksOf(raw, dtypeMax, phantom, cfg);
    var sig, noise := Select(raw, m.inner), Select(raw, m.ring);
    assert a.signal == Measure(sig).value && a.noise == Measure(noise).value;
    SelectInRange(raw, m.inner, 0, dtypeMax);
    SelectInRange(raw, m.ring, 0, dtypeMax);
  }

  /** No phantom found: the eroded mask is empty and np.min fails on the
      signal. */
  lemma {:induction false} EmptyPhantomFails(raw: Grid, dtypeMax: int, phantom: Grid, cfg: Config)
    requires ValidInput(raw, dtypeMax, phantom) && IsMask(phantom) && EmptyRegion(phantom)
    ensures Analyze(raw, dtypeMax, phantom, cfg) == Failed(EmptySignal)
  {
    PhantomRect(raw, dtypeMax, phantom);
    BuildMasksNest(phantom, cfg.iterations);
    AnalyzeFailures(raw, dtypeMax, phantom, cfg);
  }

  /** A phantom mask covering the whole image survives erosion (pixels
      outside the image do not erode), but leaves no noise ring, so np.min
      fails on the noise. */
  lemma {:induction false} FullPhantomFails(raw: Grid, dtypeMax: int, phantom: Grid, cfg: Config)
    requires ValidInput(raw, dtypeMax, phantom) && IsMask(phantom)
    requires |raw| > 0 && |raw[0]| > 0
    requires forall r, c :: InBounds(phantom, r, c) ==> phantom[r][c] == On
    ensures Analyze(raw, dtypeMax, phantom, cfg) == Failed(EmptyNoise)
  {
    PhantomRect(raw, dtypeMax, phantom);
    BuildMasksNest(phantom, cfg.iterations);
    var m := MasksOf(raw, dtypeMax, phantom, cfg);
    ErodeNWindow(phantom, cfg.iterations, 0, 0);
    assert IsOn(m.inner, 0, 0);
    AnalyzeFailures(raw, dtypeMax, phantom, cfg);
  }

  /** A phantom too thin to survive the erosion - every pixel has an image
      pixel outside the phantom within distance k, as a 10 x 10 square that
      does not touch the image border has for k = 5 - leaves no signal and
      np.min fails on it. */
  lemma {:induction false} ThinPhantomFails(raw: Grid, dtypeMax: int, phantom: Grid, cfg: Config)
    requires ValidInput(raw, dtypeMax, phantom) && IsMask(phantom)
    requires forall r, c :: InBounds(phantom, r, c) ==> !AllOnNear(phantom, r, c, cfg.iterations)
    ensures Analyze(raw, dtypeMax, phantom, cfg) == Failed(EmptySignal)
  {
    PhantomRect(raw, dtypeMax, phantom);
    ErodeNEmpty(phantom, cfg.iterations);
    assert MasksOf(raw, dtypeMax, phantom, cfg).inner == ErodeN(phantom, cfg.iterations);
    AnalyzeFailures(raw, dtypeMax, phantom, cfg);
  }

  /** A background of one constant value around the phantom makes N_std zero:
      once signal and ring are non-empty, the SNR is undefined. */
  lemma {:induction false} UniformBackgroundUndefined(raw: Grid, dtypeMax: int, phantom: Grid, cfg: Config, v: int)
    requires ValidInput(raw, dtypeMax, phantom) && IsMask(phantom)
    requires forall r, c :: InBounds(raw, r, c) && !IsOn(phantom, r, c) ==> raw[r][c] == v
    requires var m := MasksOf(raw, dtypeMax, phantom, cfg); !EmptyRegion(m.inner) && !EmptyRegion(m.ring)
    ensures Analyze(raw, dtypeMax, phantom, cfg) == Failed(SnrUndefined)
  {
    PhantomRect(raw, dtypeMax, phantom);
    BuildMasksNest(phantom, cfg.iterations);
    var m := MasksOf(raw, dtypeMax, phantom, cfg);
    UniformOffPhantom(raw, phantom, m.ring, v);
    AnalyzeFailures(raw, dtypeMax, phantom, cfg);
  }

  /** A mask disjoint from the phantom sees only the constant background. */
  lemma {:induction false} UniformOffPhantom(raw: Grid, phantom: Grid, mask: Grid, v: int)
    requires SameShape(raw, mask) && Disjoint(mask, phantom)
    requires forall r, c :: InBounds(raw, r, c) && !IsOn(phantom, r, c) ==> raw[r][c] == v
    ensures !Varies(raw, mask)
  {
    forall r, c | IsOn(mask, r, c) ensures raw[r][c] == v {
      assert !IsOn(phantom, r, c);
    }
  }
}
