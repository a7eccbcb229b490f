/** Intensity rescaling of the raw pixel grid into 8-bit range (convert_dtype
    in main.py). Each unsigned sample v of a dtype whose largest value is
    inMax becomes outMax * (v / inMax), truncated toward zero by astype. The
    samples are never negative, so truncation is the floor, and the model
    computes the exact integer floor. */
module Normalizer {
  import opened Grids

  /** floor(outMax * v / inMax): the largest r with r * inMax <= outMax * v. */
  function RescaleSample(v: int, inMax: int, outMax: nat): (r: int)
    requires 0 < inMax && 0 <= v <= inMax
    ensures 0 <= r <= outMax
    ensures r * inMax <= outMax * v < (r + 1) * inMax
    ensures v == 0 ==> r == 0
    ensures v == inMax ==> r == outMax
  {
    var r := (outMax * v) / inMax;
    assert r <= outMax by {
      MulLeqMonotone(v, inMax, outMax);
      DivMonotone(outMax * v, outMax * inMax, inMax);
    }
    r
  }

  /** convert_dtype: every sample rescaled, the shape kept. */
  function ConvertDtype(img: Grid, inMax: int, outMax: nat): (n: Grid)
    requires 0 < inMax && InRange(img, 0, inMax)
    ensures SameShape(img, n) && InRange(n, 0, outMax)
    ensures forall r, c :: InBounds(img, r, c) ==> n[r][c] == RescaleSample(img[r][c], inMax, outMax)
  {
    seq(|img|, r requires 0 <= r < |img| =>
      seq(|img[r]|, c requires 0 <= c < |img[r]| => RescaleSample(img[r][c], inMax, outMax)))
  }

  /** Rescaling keeps the ordering of intensities: a brighter raw sample never
      becomes a darker normalised one. */
  lemma {:induction false} RescaleMonotone(a: int, b: int, inMax: int, outMax: nat)
    requires 0 < inMax && 0 <= a <= b <= inMax
    ensures RescaleSample(a, inMax, outMax) <= RescaleSample(b, inMax, outMax)
  {
    var ra, rb := RescaleSample(a, inMax, outMax), RescaleSample(b, inMax, outMax);
    MulLeqMonotone(a, b, outMax);
    assert ra * inMax < (rb + 1) * inMax;
    MulLessCancel(ra, rb + 1, inMax);
  }

  /** The same, stated over the whole grid for any two pixels. */
  lemma {:induction false} ConvertDtypeMonotone(img: Grid, inMax: int, outMax: nat, p: Pos, q: Pos)
    requires 0 < inMax && InRange(img, 0, inMax)
    requires InBounds(img, p.r, p.c) && InBounds(img, q.r, q.c)
    requires img[p.r][p.c] <= img[q.r][q.c]
    ensures ConvertDtype(img, inMax, outMax)[p.r][p.c] <= ConvertDtype(img, inMax, outMax)[q.r][q.c]
  {
    RescaleMonotone(img[p.r][p.c], img[q.r][q.c], inMax, outMax);
  }

  lemma {:induction false} MulLeqMonotone(a: int, b: int, k: nat)
    requires a <= b
    ensures k * a <= k * b
  {
    assert k * b - k * a == k * (b - a);
  }

  lemma {:induction false} MulLessCancel(x: int, y: int, k: int)
    requires 0 < k && x * k < y * k
    ensures x < y
  {
    assert y * k - x * k == (y - x) * k;
  }

  lemma {:induction false} DivMonotone(x: int, y: int, k: int)
    requires 0 < k && x <= y
    ensures x / k <= y / k
  {
    var qx, qy := x / k, y / k;
    assert qx * k <= x && y < (qy + 1) * k;
    MulLessCancel(qx, qy + 1, k);
  }
}
