/** Two-dimensional sample grids and 0/255 masks, the values every stage of the
    SNR pipeline consumes and produces. A grid is stored row-major, as a NumPy
    array of shape (rows, columns) is: g[r][c] is the sample at row r, column c. */
module Grids {

  type Grid = seq<seq<int>>

  /** The value OpenCV writes for a set mask pixel: the maximum of uint8. */
  const On: int := 255
  const U8Max: int := 255

  /** A pixel position (row, column). */
  datatype Pos = Pos(r: int, c: int)

  /** Every row has the length of the first one. */
  ghost predicate Rect(g: Grid) {
    forall r :: 0 <= r < |g| ==> |g[r]| == |g[0]|
  }

  /** Two grids have the same number of rows and each row the same length. */
  ghost predicate SameShape(a: Grid, b: Grid) {
    |a| == |b| && forall r :: 0 <= r < |a| ==> |a[r]| == |b[r]|
  }

  predicate InBounds(g: Grid, r: int, c: int) {
    0 <= r < |g| && 0 <= c < |g[r]|
  }

  /** Pixel (r, c) belongs to the region a mask selects. */
  predicate IsOn(g: Grid, r: int, c: int) {
    InBounds(g, r, c) && g[r][c] == On
  }

  /** Every sample is 0 or 255, as every binary image OpenCV produces here. */
  ghost predicate IsMask(g: Grid) {
    forall r, c :: 0 <= r < |g| && 0 <= c < |g[r]| ==> g[r][c] == 0 || g[r][c] == On
  }

  /** Every sample lies in [lo, hi]. */
  ghost predicate InRange(g: Grid, lo: int, hi: int) {
    forall r, c :: 0 <= r < |g| && 0 <= c < |g[r]| ==> lo <= g[r][c] <= hi
  }

  /** Region inclusion: every pixel a selects, b selects too. */
  ghost predicate Subset(a: Grid, b: Grid) {
    forall r, c :: IsOn(a, r, c) ==> IsOn(b, r, c)
  }

  ghost predicate Disjoint(a: Grid, b: Grid) {
    forall r, c :: IsOn(a, r, c) ==> !IsOn(b, r, c)
  }

  ghost predicate EmptyRegion(g: Grid) {
    forall r, c :: !IsOn(g, r, c)
  }

  /** (r2, c2) lies within Chebyshev distance k of (r, c): inside the
      (2k+1) x (2k+1) square centred on (r, c). */
  predicate Near(r: int, c: int, r2: int, c2: int, k: int) {
    -k <= r - r2 <= k && -k <= c - c2 <= k
  }

  lemma {:induction false} SubsetTransitive(a: Grid, b: Grid, c: Grid)
    requires Subset(a, b) && Subset(b, c)
    ensures Subset(a, c)
  {
  }
}
