/** Erosion and dilation with the 3x3 all-ones kernel, the saturating uint8
    subtraction that yields the noise ring, and the composed mask builder.
    Neighbours outside the image do not take part in a window, which is what
    OpenCV's default border does for erode (border value +inf) and dilate
    (border value -inf). */
module Morphology {
  import opened Grids

  /** The iteration count main.py passes to cv.erode and cv.dilate. */
  const DefaultIterations: nat := 5

  function Min(a: int, b: int): int { if a <= b then a else b }
  function Max(a: int, b: int): int { if a <= b then b else a }

  /** All pixels within distance k of (r, c) that lie in the image are set. */
  ghost predicate AllOnNear(g: Grid, r: int, c: int, k: int) {
    forall r2, c2 {:trigger g[r2][c2]} :: InBounds(g, r2, c2) && Near(r, c, r2, c2, k) ==> g[r2][c2] == On
  }

  /** Some pixel within distance k of (r, c) that lies in the image is set. */
  ghost predicate AnyOnNear(g: Grid, r: int, c: int, k: int) {
    exists r2, c2 {:trigger g[r2][c2]} :: InBounds(g, r2, c2) && Near(r, c, r2, c2, k) && g[r2][c2] == On
  }

  /** Minimum of s[lo], ..., s[hi]. */
  function RangeMin(s: seq<int>, lo: int, hi: int): (m: int)
    requires 0 <= lo <= hi < |s|
    ensures forall i :: lo <= i <= hi ==> m <= s[i]
    decreases hi - lo
  {
    if lo == hi then s[lo] else Min(s[lo], RangeMin(s, lo + 1, hi))
  }

  /** Maximum of s[lo], ..., s[hi]. */
  function RangeMax(s: seq<int>, lo: int, hi: int): (m: int)
    requires 0 <= lo <= hi < |s|
    ensures forall i :: lo <= i <= hi ==> s[i] <= m
    decreases hi - lo
  {
    if lo == hi then s[lo] else Max(s[lo], RangeMax(s, lo + 1, hi))
  }

  /** The minimum is one of the values it is taken over. */
  lemma {:induction false} RangeMinAttained(s: seq<int>, lo: int, hi: int)
    requires 0 <= lo <= hi < |s|
    ensures exists i :: lo <= i <= hi && RangeMin(s, lo, hi) == s[i]
    decreases hi - lo
  {
    if lo < hi {
      RangeMinAttained(s, lo + 1, hi);
      var i :| lo + 1 <= i <= hi && RangeMin(s, lo + 1, hi) == s[i];
      if s[lo] > s[i] {
        assert RangeMin(s, lo, hi) == s[i];
      } else {
        assert RangeMin(s, lo, hi) == s[lo];
      }
    } else {
      assert RangeMin(s, lo, hi) == s[lo];
    }
  }

  /** The maximum is one of the values it is taken over. */
  lemma {:induction false} RangeMaxAttained(s: seq<int>, lo: int, hi: int)
    requires 0 <= lo <= hi < |s|
    ensures exists i :: lo <= i <= hi && RangeMax(s, lo, hi) == s[i]
    decreases hi - lo
  {
    if lo < hi {
      RangeMaxAttained(s, lo + 1, hi);
      var i :| lo + 1 <= i <= hi && RangeMax(s, lo + 1, hi) == s[i];
      if s[lo] < s[i] {
        assert RangeMax(s, lo, hi) == s[i];
      } else {
        assert RangeMax(s, lo, hi) == s[lo];
      }
    } else {
      assert RangeMax(s, lo, hi) == s[lo];
    }
  }

  /** Minimum over the box of rows r0..r1 and columns c0..c1. */
  function BoxMin(g: Grid, r0: int, r1: int, c0: int, c1: int): (m: int)
    requires Rect(g) && 0 <= r0 <= r1 < |g| && 0 <= c0 <= c1 < |g[0]|
    ensures forall r, c {:trigger g[r][c]} :: r0 <= r <= r1 && c0 <= c <= c1 ==> m <= g[r][c]
    decreases r1 - r0
  {
    if r0 == r1 then RangeMin(g[r0], c0, c1)
    else Min(RangeMin(g[r0], c0, c1), BoxMin(g, r0 + 1, r1, c0, c1))
  }

  /** Maximum over the box of rows r0..r1 and columns c0..c1. */
  function BoxMax(g: Grid, r0: int, r1: int, c0: int, c1: int): (m: int)
    requires Rect(g) && 0 <= r0 <= r1 < |g| && 0 <= c0 <= c1 < |g[0]|
    ensures forall r, c {:trigger g[r][c]} :: r0 <= r <= r1 && c0 <= c <= c1 ==> g[r][c] <= m
    decreases r1 - r0
  {
    if r0 == r1 then RangeMax(g[r0], c0, c1)
    else Max(RangeMax(g[r0], c0, c1), BoxMax(g, r0 + 1, r1, c0, c1))
  }

  lemma {:induction false} BoxMinAttained(g: Grid, r0: int, r1: int, c0: int, c1: int)
    requires Rect(g) && 0 <= r0 <= r1 < |g| && 0 <= c0 <= c1 < |g[0]|
    ensures exists r, c {:trigger g[r][c]} :: r0 <= r <= r1 && c0 <= c <= c1 && BoxMin(g, r0, r1, c0, c1) == g[r][c]
    decreases r1 - r0
  {
    RangeMinAttained(g[r0], c0, c1);
    if r0 < r1 {
      BoxMinAttained(g, r0 + 1, r1, c0, c1);
    }
  }

  lemma {:induction false} BoxMaxAttained(g: Grid, r0: int, r1: int, c0: int, c1: int)
    requires Rect(g) && 0 <= r0 <= r1 < |g| && 0 <= c0 <= c1 < |g[0]|
    ensures exists r, c {:trigger g[r][c]} :: r0 <= r <= r1 && c0 <= c <= c1 && BoxMax(g, r0, r1, c0, c1) == g[r][c]
    decreases r1 - r0
  {
    RangeMaxAttained(g[r0], c0, c1);
    if r0 < r1 {
      BoxMaxAttained(g, r0 + 1, r1, c0, c1);
    }
  }

  /** Minimum over the 3x3 window centred on (r, c), clipped to the image. */
  function WindowMin(g: Grid, r: int, c: int): (m: int)
    requires Rect(g) && InBounds(g, r, c)
    ensures forall r2, c2 {:trigger g[r2][c2]} :: InBounds(g, r2, c2) && Near(r, c, r2, c2, 1) ==> m <= g[r2][c2]
  {
    BoxMin(g, Max(0, r - 1), Min(|g| - 1, r + 1), Max(0, c - 1), Min(|g[0]| - 1, c + 1))
  }

  /** Maximum over the 3x3 window centred on (r, c), clipped to the image. */
  function WindowMax(g: Grid, r: int, c: int): (m: int)
    requires Rect(g) && InBounds(g, r, c)
    ensures forall r2, c2 {:trigger g[r2][c2]} :: InBounds(g, r2, c2) && Near(r, c, r2, c2, 1) ==> g[r2][c2] <= m
  {
    BoxMax(g, Max(0, r - 1), Min(|g| - 1, r + 1), Max(0, c - 1), Min(|g[0]| - 1, c + 1))
  }

  /** One erosion with the 3x3 ones kernel (cv.erode, one iteration): no
      pixel gets brighter. */
  function Erode(g: Grid): (e: Grid)
    requires Rect(g)
    ensures SameShape(g, e) && Rect(e)
    ensures forall r, c {:trigger e[r][c]} :: InBounds(g, r, c) ==> e[r][c] <= g[r][c]
  {
    seq(|g|, r requires 0 <= r < |g| =>
      seq(|g[r]|, c requires 0 <= c < |g[r]| => WindowMin(g, r, c)))
  }

  /** One dilation with the 3x3 ones kernel (cv.dilate, one iteration): no
      pixel gets darker. */
  function Dilate(g: Grid): (d: Grid)
    requires Rect(g)
    ensures SameShape(g, d) && Rect(d)
    ensures forall r, c {:trigger d[r][c]} :: InBounds(g, r, c) ==> g[r][c] <= d[r][c]
  {
    seq(|g|, r requires 0 <= r < |g| =>
      seq(|g[r]|, c requires 0 <= c < |g[r]| => WindowMax(g, r, c)))
  }

  /** On a 0/255 mask one erosion gives a 0/255 mask in which a pixel is set
      exactly when its whole 3x3 neighbourhood inside the image is set. */
  lemma {:induction false} ErodeOfMask(g: Grid)
    requires Rect(g) && IsMask(g)
    ensures IsMask(Erode(g))
    ensures forall r, c {:trigger Erode(g)[r][c]} :: InBounds(g, r, c) ==> (Erode(g)[r][c] == On <==> AllOnNear(g, r, c, 1))
  {
    var e := Erode(g);
    forall r, c | InBounds(g, r, c)
      ensures (e[r][c] == 0 || e[r][c] == On) && (e[r][c] == On <==> AllOnNear(g, r, c, 1))
    {
      BoxMinAttained(g, Max(0, r - 1), Min(|g| - 1, r + 1), Max(0, c - 1), Min(|g[0]| - 1, c + 1));
      assert e[r][c] == WindowMin(g, r, c);
    }
  }

  /** On a 0/255 mask one dilation gives a 0/255 mask in which a pixel is set
      exactly when some pixel of its 3x3 neighbourhood inside the image is set. */
  lemma {:induction false} DilateOfMask(g: Grid)
    requires Rect(g) && IsMask(g)
    ensures IsMask(Dilate(g))
    ensures forall r, c {:trigger Dilate(g)[r][c]} :: InBounds(g, r, c) ==> (Dilate(g)[r][c] == On <==> AnyOnNear(g, r, c, 1))
  {
    var d := Dilate(g);
    forall r, c | InBounds(g, r, c)
      ensures (d[r][c] == 0 || d[r][c] == On) && (d[r][c] == On <==> AnyOnNear(g, r, c, 1))
    {
      BoxMaxAttained(g, Max(0, r - 1), Min(|g| - 1, r + 1), Max(0, c - 1), Min(|g[0]| - 1, c + 1));
      assert d[r][c] == WindowMax(g, r, c);
    }
  }

  /** cv.erode(g, kernel, iterations=k): k erosions in sequence; k = 0 copies. */
  function ErodeN(g: Grid, k: nat): (e: Grid)
    requires Rect(g)
    ensures SameShape(g, e) && Rect(e)
    ensures forall r, c {:trigger e[r][c]} :: InBounds(g, r, c) ==> e[r][c] <= g[r][c]
  {
    if k == 0 then g else Erode(ErodeN(g, k - 1))
  }

  /** cv.dilate(g, kernel, iterations=k): k dilations in sequence; k = 0 copies. */
  function DilateN(g: Grid, k: nat): (d: Grid)
    requires Rect(g)
    ensures SameShape(g, d) && Rect(d)
    ensures forall r, c {:trigger d[r][c]} :: InBounds(g, r, c) ==> g[r][c] <= d[r][c]
  {
    if k == 0 then g else Dilate(DilateN(g, k - 1))
  }

  /** Iterated erosion of a 0/255 mask stays a 0/255 mask. */
  lemma {:induction false} ErodeNOfMask(g: Grid, k: nat)
    requires Rect(g) && IsMask(g)
    ensures IsMask(ErodeN(g, k))
  {
    if k > 0 {
      var k' := k - 1;
      ErodeNOfMask(g, k');
      ErodeOfMask(ErodeN(g, k'));
      assert ErodeN(g, k) == Erode(ErodeN(g, k'));
    }
  }

  /** Iterated dilation of a 0/255 mask stays a 0/255 mask. */
  lemma {:induction false} DilateNOfMask(g: Grid, k: nat)
    requires Rect(g) && IsMask(g)
    ensures IsMask(DilateN(g, k))
  {
    if k > 0 {
      var k' := k - 1;
      DilateNOfMask(g, k');
      DilateOfMask(DilateN(g, k'));
      assert DilateN(g, k) == Dilate(DilateN(g, k'));
    }
  }

  /** One step from a toward b, staying at a when they are equal. */
  function StepToward(a: int, b: int): int {
    if a < b then a + 1 else if b < a then a - 1 else a
  }

  /** If each neighbour of (r, c) in e is set exactly when its distance-k'
      neighbourhood in g is all set, then the 3x3 neighbourhood of (r, c) in e
      is all set exactly when the distance-(k'+1) neighbourhood in g is. */
  lemma {:induction false} AllOnNearCompose(g: Grid, e: Grid, r: int, c: int, k': nat)
    requires Rect(g) && SameShape(g, e) && InBounds(g, r, c)
    requires forall r2, c2 {:trigger e[r2][c2]} :: InBounds(g, r2, c2) && Near(r, c, r2, c2, 1) ==>
      (e[r2][c2] == On <==> AllOnNear(g, r2, c2, k'))
    ensures AllOnNear(e, r, c, 1) <==> AllOnNear(g, r, c, k' + 1)
  {
    if AllOnNear(e, r, c, 1) {
      forall r3, c3 | InBounds(g, r3, c3) && Near(r, c, r3, c3, k' + 1)
        ensures g[r3][c3] == On
      {
        var r2, c2 := StepToward(r, r3), StepToward(c, c3);
        assert InBounds(g, r2, c2) && Near(r, c, r2, c2, 1);
        assert e[r2][c2] == On;
        assert Near(r2, c2, r3, c3, k');
      }
    } else {
      var r2, c2 :| InBounds(e, r2, c2) && Near(r, c, r2, c2, 1) && e[r2][c2] != On;
      assert !AllOnNear(g, r2, c2, k');
      var r3, c3 :| InBounds(g, r3, c3) && Near(r2, c2, r3, c3, k') && g[r3][c3] != On;
      assert Near(r, c, r3, c3, k' + 1);
    }
  }

  /** The existential counterpart of AllOnNearCompose. */
  lemma {:induction false} AnyOnNearCompose(g: Grid, d: Grid, r: int, c: int, k': nat)
    requires Rect(g) && SameShape(g, d) && InBounds(g, r, c)
    requires forall r2, c2 {:trigger d[r2][c2]} :: InBounds(g, r2, c2) && Near(r, c, r2, c2, 1) ==>
      (d[r2][c2] == On <==> AnyOnNear(g, r2, c2, k'))
    ensures AnyOnNear(d, r, c, 1) <==> AnyOnNear(g, r, c, k' + 1)
  {
    if AnyOnNear(d, r, c, 1) {
      var r2, c2 :| InBounds(d, r2, c2) && Near(r, c, r2, c2, 1) && d[r2][c2] == On;
      assert AnyOnNear(g, r2, c2, k');
      var r3, c3 :| InBounds(g, r3, c3) && Near(r2, c2, r3, c3, k') && g[r3][c3] == On;
      assert Near(r, c, r3, c3, k' + 1);
    }
    if AnyOnNear(g, r, c, k' + 1) {
      var r3, c3 :| InBounds(g, r3, c3) && Near(r, c, r3, c3, k' + 1) && g[r3][c3] == On;
      var r2, c2 := StepToward(r, r3), StepToward(c, c3);
      assert InBounds(g, r2, c2) && Near(r, c, r2, c2, 1);
      assert Near(r2, c2, r3, c3, k');
      assert AnyOnNear(g, r2, c2, k');
      assert d[r2][c2] == On;
    }
  }

  /** k erosions equal one erosion by the (2k+1) x (2k+1) square, clipped to
      the image: a pixel survives exactly when every image pixel within
      distance k of it is set. */
  lemma {:induction false} ErodeNWindow(g: Grid, k: nat, r: int, c: int)
    requires Rect(g) && IsMask(g) && InBounds(g, r, c)
    ensures ErodeN(g, k)[r][c] == On <==> AllOnNear(g, r, c, k)
    decreases k, 0
  {
    if k > 0 {
      var k' := k - 1;
      var e := ErodeN(g, k');
      ErodeNOfMask(g, k');
      ErodeNWindowAround(g, k', r, c);
      AllOnNearCompose(g, e, r, c, k');
      ErodeOfMask(e);
      assert ErodeN(g, k) == Erode(e);
    }
  }

  /** ErodeNWindow at every image pixel of the 3x3 neighbourhood of (r, c). */
  lemma {:induction false} ErodeNWindowAround(g: Grid, k: nat, r: int, c: int)
    requires Rect(g) && IsMask(g)
    ensures forall r2, c2 {:trigger ErodeN(g, k)[r2][c2]} :: InBounds(g, r2, c2) && Near(r, c, r2, c2, 1) ==>
      (ErodeN(g, k)[r2][c2] == On <==> AllOnNear(g, r2, c2, k))
    decreases k, 1
  {
    forall r2, c2 | InBounds(g, r2, c2) && Near(r, c, r2, c2, 1)
      ensures ErodeN(g, k)[r2][c2] == On <==> AllOnNear(g, r2, c2, k)
    {
      ErodeNWindow(g, k, r2, c2);
    }
  }

  /** A mask in which every pixel has an unset image pixel within distance k
      is eroded away completely by k erosions. */
  lemma {:induction false} ErodeNEmpty(g: Grid, k: nat)
    requires Rect(g) && IsMask(g)
    requires forall r, c :: InBounds(g, r, c) ==> !AllOnNear(g, r, c, k)
    ensures EmptyRegion(ErodeN(g, k))
  {
    forall r, c ensures !IsOn(ErodeN(g, k), r, c) {
      if InBounds(g, r, c) {
        ErodeNWindow(g, k, r, c);
      }
    }
  }

  /** k dilations equal one dilation by the (2k+1) x (2k+1) square, clipped
      to the image: a pixel is set exactly when some image pixel within
      distance k of it is set. */
  lemma {:induction false} DilateNWindow(g: Grid, k: nat, r: int, c: int)
    requires Rect(g) && IsMask(g) && InBounds(g, r, c)
    ensures DilateN(g, k)[r][c] == On <==> AnyOnNear(g, r, c, k)
    decreases k, 0
  {
    if k > 0 {
      var k' := k - 1;
      var d := DilateN(g, k');
      DilateNOfMask(g, k');
      DilateNWindowAround(g, k', r, c);
      AnyOnNearCompose(g, d, r, c, k');
      DilateOfMask(d);
      assert DilateN(g, k) == Dilate(d);
    }
  }

  /** DilateNWindow at every image pixel of the 3x3 neighbourhood of (r, c). */
  lemma {:induction false} DilateNWindowAround(g: Grid, k: nat, r: int, c: int)
    requires Rect(g) && IsMask(g)
    ensures forall r2, c2 {:trigger DilateN(g, k)[r2][c2]} :: InBounds(g, r2, c2) && Near(r, c, r2, c2, 1) ==>
      (DilateN(g, k)[r2][c2] == On <==> AnyOnNear(g, r2, c2, k))
    decreases k, 1
  {
    forall r2, c2 | InBounds(g, r2, c2) && Near(r, c, r2, c2, 1)
      ensures DilateN(g, k)[r2][c2] == On <==> AnyOnNear(g, r2, c2, k)
    {
      DilateNWindow(g, k, r2, c2);
    }
  }

  /** One erosion removes pixels and never adds one. */
  lemma {:induction false} ErodeShrinks(e: Grid)
    requires Rect(e) && IsMask(e)
    ensures Subset(Erode(e), e)
  {
    forall r, c | IsOn(Erode(e), r, c) ensures IsOn(e, r, c) {
      assert Erode(e)[r][c] <= e[r][c];
    }
  }

  /** One dilation adds pixels and never removes one. */
  lemma {:induction false} DilateGrows(d: Grid)
    requires Rect(d) && IsMask(d)
    ensures Subset(d, Dilate(d))
  {
    DilateOfMask(d);
    forall r, c | IsOn(d, r, c) ensures IsOn(Dilate(d), r, c) {
      assert d[r][c] <= Dilate(d)[r][c];
    }
  }

  /** Every further erosion can only remove pixels: after j >= i iterations the
      region is inside the region after i iterations. */
  lemma {:induction false} ErodeNShrinks(g: Grid, i: nat, j: nat)
    requires Rect(g) && IsMask(g) && i <= j
    ensures Subset(ErodeN(g, j), ErodeN(g, i))
  {
    forall r, c | IsOn(ErodeN(g, j), r, c) ensures IsOn(ErodeN(g, i), r, c) {
      ErodeNWindow(g, j, r, c);
      ErodeNWindow(g, i, r, c);
    }
  }

  /** Every further dilation can only add pixels. */
  lemma {:induction false} DilateNGrows(g: Grid, i: nat, j: nat)
    requires Rect(g) && IsMask(g) && i <= j
    ensures Subset(DilateN(g, i), DilateN(g, j))
  {
    forall r, c | IsOn(DilateN(g, i), r, c) ensures IsOn(DilateN(g, j), r, c) {
      DilateNWindow(g, i, r, c);
      DilateNWindow(g, j, r, c);
      var r2, c2 :| InBounds(g, r2, c2) && Near(r, c, r2, c2, i) && g[r2][c2] == On;
      assert Near(r, c, r2, c2, j);
    }
  }

  /** Saturating uint8 subtraction: results below 0 become 0, above 255 become 255. */
  function SaturateU8(x: int): (y: int)
    ensures 0 <= y <= U8Max
    ensures 0 <= x <= U8Max ==> y == x
    ensures x < 0 ==> y == 0
    ensures U8Max < x ==> y == U8Max
  {
    if x < 0 then 0 else if U8Max < x then U8Max else x
  }

  /** cv.subtract(a, b) on two uint8 images of one shape. */
  function Subtract(a: Grid, b: Grid): (d: Grid)
    requires SameShape(a, b)
    ensures SameShape(a, d)
    ensures InRange(a, 0, U8Max) && InRange(b, 0, U8Max) ==>
      InRange(d, 0, U8Max) && forall r, c {:trigger d[r][c]} :: InBounds(a, r, c) ==> d[r][c] <= a[r][c]
    ensures IsMask(a) && IsMask(b) ==>
      IsMask(d) && forall r, c :: IsOn(d, r, c) <==> IsOn(a, r, c) && !IsOn(b, r, c)
  {
    seq(|a|, r requires 0 <= r < |a| =>
      seq(|a[r]|, c requires 0 <= c < |a[r]| => SaturateU8(a[r][c] - b[r][c])))
  }

  /** The three masks main.py derives from the phantom mask. */
  datatype Masks = Masks(inner: Grid, external: Grid, ring: Grid)

  /** inner = erode(phantom, k), external = dilate(phantom, k) and ring =
      external - phantom, all of the phantom's shape. */
  function BuildMasks(phantom: Grid, k: nat): (m: Masks)
    requires Rect(phantom)
    ensures SameShape(phantom, m.inner) && SameShape(phantom, m.external) && SameShape(phantom, m.ring)
  {
    var external := DilateN(phantom, k);
    Masks(ErodeN(phantom, k), external, Subtract(external, phantom))
  }

  /** The three masks of a 0/255 phantom are 0/255 masks that nest as
      inner <= phantom <= external; the ring lies outside the phantom and
      inside external, and external is the disjoint union of phantom and ring. */
  lemma {:induction false} BuildMasksNest(phantom: Grid, k: nat)
    requires Rect(phantom) && IsMask(phantom)
    ensures var m := BuildMasks(phantom, k);
      && IsMask(m.inner) && IsMask(m.external) && IsMask(m.ring)
      && Subset(m.inner, phantom) && Subset(phantom, m.external)
      && Disjoint(m.ring, phantom) && Subset(m.ring, m.external)
      && forall r, c :: IsOn(m.external, r, c) <==> IsOn(phantom, r, c) || IsOn(m.ring, r, c)
  {
    var m := BuildMasks(phantom, k);
    ErodeNOfMask(phantom, k);
    DilateNOfMask(phantom, k);
    ErodeNShrinks(phantom, 0, k);
    DilateNGrows(phantom, 0, k);
    assert m.inner == ErodeN(phantom, k) && m.external == DilateN(phantom, k);
    assert m.ring == Subtract(m.external, phantom);
  }
}
