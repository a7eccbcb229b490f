/** The fixed global binary threshold applied to the normalised image
    (cv.threshold with type THRESH_BINARY and maximum value 255). */
module Segmenter {
  import opened Grids
  import opened Normalizer

  /** The cut value main.py passes to cv.threshold. */
  const DefaultThreshold: int := 80

  /** A pixel becomes 255 when it is strictly above the cut, 0 otherwise. */
  function Threshold(g: Grid, cut: int): (t: Grid)
    ensures SameShape(g, t) && IsMask(t)
    ensures forall r, c :: InBounds(g, r, c) ==> (IsOn(t, r, c) <==> g[r][c] > cut)
  {
    seq(|g|, r requires 0 <= r < |g| =>
      seq(|g[r]|, c requires 0 <= c < |g[r]| => if g[r][c] > cut then On else 0))
  }

  /** Normalising and then thresholding selects exactly the raw samples v with
      outMax * v >= (cut + 1) * inMax: the cut read back on the raw scale. For
      12-bit data in a uint16 container (inMax 65535) and cut 80, that is
      v >= 20817. */
  lemma {:induction false} ForegroundOnRawScale(img: Grid, inMax: int, outMax: nat, cut: int, r: int, c: int)
    requires 0 < inMax && InRange(img, 0, inMax) && InBounds(img, r, c)
    ensures IsOn(Threshold(ConvertDtype(img, inMax, outMax), cut), r, c)
        <==> outMax * img[r][c] >= (cut + 1) * inMax
  {
    var v := img[r][c];
    var n := RescaleSample(v, inMax, outMax);
    assert ConvertDtype(img, inMax, outMax)[r][c] == n;
    if n > cut {
      MulLeqMonotone(cut + 1, n, inMax);
      assert inMax * (cut + 1) <= inMax * n;
    } else {
      MulLeqMonotone(n + 1, cut + 1, inMax);
      assert inMax * (n + 1) <= inMax * (cut + 1);
    }
  }
}
