/** Boolean-mask selection of raw samples (image_raw[mask == 255]) and the
    statistics main.py prints for a selection: standard deviation, mean,
    minimum and maximum. The mean and the standard deviation are floats in
    the source; the model keeps the exact integers they are computed from:
    the count n, the sum S and the spread, the sum of (n * x - S)^2 over the
    samples, which is n^3 times the population variance np.std squares. */
module Statistics {
  import opened Grids

  datatype Option<T> = None | Some(value: T)

  /** p comes strictly before q in row-major (C) order. */
  predicate Before(p: Pos, q: Pos) {
    p.r < q.r || (p.r == q.r && p.c < q.c)
  }

  ghost predicate Increasing(ps: seq<Pos>) {
    forall i, j :: 0 <= i < j < |ps| ==> Before(ps[i], ps[j])
  }

  /** The set pixels of row r from column c on, left to right. */
  function RowPositions(mask: Grid, r: int, c: nat): (ps: seq<Pos>)
    requires 0 <= r < |mask| && c <= |mask[r]|
    ensures forall i :: 0 <= i < |ps| ==> ps[i].r == r && c <= ps[i].c && IsOn(mask, ps[i].r, ps[i].c)
    ensures Increasing(ps)
    decreases |mask[r]| - c
  {
    if c == |mask[r]| then []
    else if mask[r][c] == On then [Pos(r, c)] + RowPositions(mask, r, c + 1)
    else RowPositions(mask, r, c + 1)
  }

  /** The set pixels of rows r, r + 1, ... in row-major order. */
  function PositionsFrom(mask: Grid, r: nat): (ps: seq<Pos>)
    requires r <= |mask|
    ensures forall i :: 0 <= i < |ps| ==> r <= ps[i].r && IsOn(mask, ps[i].r, ps[i].c)
    ensures Increasing(ps)
    decreases |mask| - r
  {
    if r == |mask| then []
    else
      var row := RowPositions(mask, r, 0);
      var rest := PositionsFrom(mask, r + 1);
      assert forall i, j :: 0 <= i < |row| && 0 <= j < |rest| ==> Before(row[i], rest[j]);
      row + rest
  }

  /** The pixels a boolean index mask == 255 visits, in the order NumPy visits them. */
  function Positions(mask: Grid): (ps: seq<Pos>)
    ensures forall i :: 0 <= i < |ps| ==> IsOn(mask, ps[i].r, ps[i].c)
    ensures Increasing(ps)
  {
    PositionsFrom(mask, 0)
  }

  /** image_raw[mask == 255]: the samples under the set pixels, row-major. */
  function Select(raw: Grid, mask: Grid): (s: seq<int>)
    requires SameShape(raw, mask)
    ensures |s| == |Positions(mask)|
  {
    var ps := Positions(mask);
    seq(|ps|, i requires 0 <= i < |ps| => raw[ps[i].r][ps[i].c])
  }

  lemma {:induction false} RowPositionsComplete(mask: Grid, r: int, c: nat, q: int)
    requires 0 <= r < |mask| && c <= q < |mask[r]| && mask[r][q] == On
    ensures Pos(r, q) in RowPositions(mask, r, c)
    decreases q - c
  {
    if c < q {
      var c' := c + 1;
      RowPositionsComplete(mask, r, c', q);
      assert Pos(r, q) in RowPositions(mask, r, c');
    }
  }

  lemma {:induction false} PositionsFromComplete(mask: Grid, r: nat, p: Pos)
    requires r <= p.r && IsOn(mask, p.r, p.c)
    ensures p in PositionsFrom(mask, r)
    decreases p.r - r
  {
    if r == p.r {
      RowPositionsComplete(mask, r, 0, p.c);
    } else {
      var r' := r + 1;
      PositionsFromComplete(mask, r', p);
      assert p in PositionsFrom(mask, r');
    }
    assert PositionsFrom(mask, r) == RowPositions(mask, r, 0) + PositionsFrom(mask, r + 1);
  }

  /** Positions lists exactly the set pixels, each once, in row-major order. */
  lemma {:induction false} PositionsExact(mask: Grid, p: Pos)
    ensures p in Positions(mask) <==> IsOn(mask, p.r, p.c)
    ensures Increasing(Positions(mask))
  {
    if IsOn(mask, p.r, p.c) {
      PositionsFromComplete(mask, 0, p);
    }
  }

  /** The set of pixels a mask selects. */
  ghost function OnSet(mask: Grid): set<Pos> {
    set r, c | 0 <= r < |mask| && 0 <= c < |mask[r]| && mask[r][c] == On :: Pos(r, c)
  }

  lemma {:induction false} IncreasingCard(ps: seq<Pos>)
    requires Increasing(ps)
    ensures |set p | p in ps| == |ps|
  {
    if |ps| > 0 {
      var tail := ps[1..];
      assert Increasing(tail);
      IncreasingCard(tail);
      assert ps[0] !in tail;
      assert (set p | p in ps) == {ps[0]} + (set p | p in tail);
    }
  }

  /** The selection holds one sample per set pixel: its length is the area
      of the mask's region, and it is empty exactly when the region is. */
  lemma {:induction false} SelectCount(raw: Grid, mask: Grid)
    requires SameShape(raw, mask)
    ensures |Select(raw, mask)| == |OnSet(mask)|
    ensures |Select(raw, mask)| == 0 <==> EmptyRegion(mask)
  {
    var ps := Positions(mask);
    forall p ensures p in ps <==> p in OnSet(mask) {
      PositionsExact(mask, p);
    }
    assert (set p | p in ps) == OnSet(mask);
    IncreasingCard(ps);
    if !EmptyRegion(mask) {
      var r, c :| IsOn(mask, r, c);
      assert Pos(r, c) in OnSet(mask);
    }
  }

  /** The i-th selected sample is the raw sample under the i-th set pixel in
      row-major order, and every value selected lies under some set pixel. */
  lemma {:induction false} SelectExact(raw: Grid, mask: Grid, x: int)
    requires SameShape(raw, mask)
    ensures forall i :: 0 <= i < |Select(raw, mask)| ==>
      Select(raw, mask)[i] == raw[Positions(mask)[i].r][Positions(mask)[i].c]
    ensures x in Select(raw, mask) <==> exists r, c :: IsOn(mask, r, c) && raw[r][c] == x
  {
    var s, ps := Select(raw, mask), Positions(mask);
    if x in s {
      var i :| 0 <= i < |s| && s[i] == x;
      assert IsOn(mask, ps[i].r, ps[i].c) && raw[ps[i].r][ps[i].c] == x;
    }
    if exists r, c :: IsOn(mask, r, c) && raw[r][c] == x {
      var r, c :| IsOn(mask, r, c) && raw[r][c] == x;
      PositionsExact(mask, Pos(r, c));
      var i :| 0 <= i < |ps| && ps[i] == Pos(r, c);
      assert s[i] == x;
    }
  }

  /** Sampling a grid whose samples lie in [lo, hi] gives samples in [lo, hi]. */
  lemma {:induction false} SelectInRange(raw: Grid, mask: Grid, lo: int, hi: int)
    requires SameShape(raw, mask) && InRange(raw, lo, hi)
    ensures forall i :: 0 <= i < |Select(raw, mask)| ==> lo <= Select(raw, mask)[i] <= hi
  {
    var s, ps := Select(raw, mask), Positions(mask);
    forall i | 0 <= i < |s| ensures lo <= s[i] <= hi {
      assert IsOn(mask, ps[i].r, ps[i].c);
    }
  }

  /** The sum np.mean divides by the count; non-negative samples have a
      non-negative sum. */
  function Sum(s: seq<int>): (r: int)
    ensures (forall i :: 0 <= i < |s| ==> s[i] >= 0) ==> r >= 0
  {
    if |s| == 0 then 0 else s[0] + Sum(s[1..])
  }

  /** np.min on a non-empty selection: a member no larger than any other. */
  function Minimum(s: seq<int>): (m: int)
    requires |s| > 0
    ensures m in s && forall i :: 0 <= i < |s| ==> m <= s[i]
  {
    if |s| == 1 then s[0]
    else
      var rest := Minimum(s[1..]);
      assert rest in s;
      if s[0] <= rest then s[0] else rest
  }

  /** np.max on a non-empty selection: a member no smaller than any other. */
  function Maximum(s: seq<int>): (m: int)
    requires |s| > 0
    ensures m in s && forall i :: 0 <= i < |s| ==> s[i] <= m
  {
    if |s| == 1 then s[0]
    else
      var rest := Maximum(s[1..]);
      assert rest in s;
      if rest <= s[0] then s[0] else rest
  }

  lemma {:induction false} SquareNonneg(d: int)
    ensures d * d >= 0
  {
    if d < 0 {
      assert d * d == (-d) * (-d);
    }
  }

  lemma {:induction false} SquarePositive(d: int)
    requires d != 0
    ensures d * d > 0
  {
    if d < 0 {
      assert d * d == (-d) * (-d);
    }
  }

  /** Sum over t of (n * x - S)^2. */
  function SqDev(t: seq<int>, n: int, total: int): (v: int)
    ensures v >= 0
  {
    if |t| == 0 then 0
    else
      var d := n * t[0] - total;
      SquareNonneg(d);
      d * d + SqDev(t[1..], n, total)
  }

  /** n^3 times the population variance of s, n = |s|: zero exactly when
      np.std(s) is zero. */
  function Spread(s: seq<int>): (v: int)
    ensures v >= 0
  {
    SqDev(s, |s|, Sum(s))
  }

  lemma {:induction false} SqDevAtLeast(t: seq<int>, n: int, total: int, i: int)
    requires 0 <= i < |t|
    ensures SqDev(t, n, total) >= (n * t[i] - total) * (n * t[i] - total)
    decreases |t|
  {
    assert SqDev(t, n, total) == (n * t[0] - total) * (n * t[0] - total) + SqDev(t[1..], n, total);
    if i > 0 {
      var tail, i' := t[1..], i - 1;
      SqDevAtLeast(tail, n, total, i');
      assert tail[i'] == t[i];
      SquareNonneg(n * t[0] - total);
    } else {
      assert SqDev(t[1..], n, total) >= 0;
    }
  }

  lemma {:induction false} SqDevZero(t: seq<int>, n: int, total: int)
    requires forall i :: 0 <= i < |t| ==> n * t[i] == total
    ensures SqDev(t, n, total) == 0
    decreases |t|
  {
    if |t| > 0 {
      var tail := t[1..];
      assert forall i :: 0 <= i < |tail| ==> tail[i] == t[i + 1];
      SqDevZero(tail, n, total);
      assert n * t[0] - total == 0;
    }
  }

  lemma {:induction false} MulSucc(n: int, x: int)
    ensures (n + 1) * x == n * x + x
  {
  }

  lemma {:induction false} SumConst(s: seq<int>, v: int)
    requires forall i :: 0 <= i < |s| ==> s[i] == v
    ensures Sum(s) == |s| * v
    decreases |s|
  {
    if |s| > 0 {
      var tail := s[1..];
      assert forall i :: 0 <= i < |tail| ==> tail[i] == s[i + 1];
      SumConst(tail, v);
      assert Sum(s) == s[0] + Sum(tail);
      MulSucc(|tail|, v);
    }
  }

  lemma {:induction false} SumAtLeast(s: seq<int>, i: int)
    requires forall j :: 0 <= j < |s| ==> s[j] >= 0
    requires 0 <= i < |s|
    ensures Sum(s) >= s[i] && Sum(s) >= 0
    decreases |s|
  {
    var tail := s[1..];
    assert forall j :: 0 <= j < |tail| ==> tail[j] == s[j + 1];
    if |tail| > 0 {
      SumAtLeast(tail, 0);
    } else {
      assert Sum(tail) == 0;
    }
    if i > 0 {
      var i' := i - 1;
      SumAtLeast(tail, i');
      assert tail[i'] == s[i];
    }
  }

  lemma {:induction false} ScaleStrict(n: int, a: int, b: int)
    requires 0 < n && a < b
    ensures n * a < n * b
  {
    assert n * b - n * a == n * (b - a);
  }

  lemma {:induction false} SumBetween(s: seq<int>, lo: int, hi: int)
    requires forall i :: 0 <= i < |s| ==> lo <= s[i] <= hi
    ensures |s| * lo <= Sum(s) <= |s| * hi
    decreases |s|
  {
    if |s| > 0 {
      var tail := s[1..];
      assert forall i :: 0 <= i < |tail| ==> tail[i] == s[i + 1];
      SumBetween(tail, lo, hi);
      assert Sum(s) == s[0] + Sum(tail);
      MulSucc(|tail|, lo);
      MulSucc(|tail|, hi);
    }
  }

  /** Two different samples make the spread positive. */
  lemma {:induction false} DistinctSpreadPositive(s: seq<int>, i: int, j: int)
    requires 0 <= i < |s| && 0 <= j < |s| && s[i] < s[j]
    ensures Spread(s) > 0
  {
    var n, total := |s|, Sum(s);
    var di, dj := n * s[i] - total, n * s[j] - total;
    ScaleStrict(n, s[i], s[j]);
    assert di < dj;
    if di != 0 {
      SqDevAtLeast(s, n, total, i);
      SquarePositive(di);
    } else {
      SqDevAtLeast(s, n, total, j);
      SquarePositive(dj);
    }
  }

  /** Equal samples have no spread. */
  lemma {:induction false} UniformSpreadZero(s: seq<int>, v: int)
    requires forall i :: 0 <= i < |s| ==> s[i] == v
    ensures Spread(s) == 0
  {
    var n, total := |s|, Sum(s);
    SumConst(s, v);
    assert total == n * v;
    SqDevZero(s, n, total);
  }

  /** The guard N_std > 0: a non-empty selection has a non-zero standard
      deviation exactly when its minimum is below its maximum, that is when
      not all samples are equal. */
  lemma {:induction false} SpreadPositiveIff(s: seq<int>)
    requires |s| > 0
    ensures Spread(s) > 0 <==> Minimum(s) < Maximum(s)
  {
    var a, b := Minimum(s), Maximum(s);
    if a < b {
      var i :| 0 <= i < |s| && s[i] == a;
      var j :| 0 <= j < |s| && s[j] == b;
      DistinctSpreadPositive(s, i, j);
    } else {
      UniformSpreadZero(s, a);
    }
  }

  /** A selection of non-negative samples whose standard deviation is non-zero
      has a positive sum, so its mean is a positive divisor. */
  lemma {:induction false} SpreadPositiveSumPositive(s: seq<int>)
    requires |s| > 0 && forall i :: 0 <= i < |s| ==> s[i] >= 0
    requires Spread(s) > 0
    ensures Sum(s) > 0
  {
    SpreadPositiveIff(s);
    var b := Maximum(s);
    var j :| 0 <= j < |s| && s[j] == b;
    SumAtLeast(s, j);
  }

  /** A single sample has no spread. */
  lemma {:induction false} SingletonSpread(x: int)
    ensures Spread([x]) == 0
  {
    SpreadPositiveIff([x]);
  }

  /** The exact quantities behind S_std, S_mean, S_min and S_max (or the N_
      ones): mean = sum / count and std = sqrt(spread / count^3). */
  datatype Stats = Stats(count: nat, sum: int, spread: int, min: int, max: int)

  /** np.mean of the samples a Stats summarises: the value that, taken
      count times, gives the sum. */
  function Mean(st: Stats): (r: real)
    requires st.count > 0
    ensures r * st.count as real == st.sum as real
  {
    st.sum as real / st.count as real
  }

  /** The four statistics of main.py lines 103-113; None where np.min raises on an
      empty selection. On success min and max are members of the selection,
      bound it, and the spread is positive exactly when min < max. */
  function Measure(s: seq<int>): (m: Option<Stats>)
    ensures m.None? <==> |s| == 0
    ensures m.Some? ==>
      && m.value.count == |s| > 0
      && m.value.min in s && m.value.max in s && m.value.min <= m.value.max
      && (forall i :: 0 <= i < |s| ==> m.value.min <= s[i] <= m.value.max)
      && m.value.spread >= 0
      && (m.value.spread > 0 <==> m.value.min < m.value.max)
  {
    if |s| == 0 then None
    else
      SpreadPositiveIff(s);
      Some(Stats(|s|, Sum(s), Spread(s), Minimum(s), Maximum(s)))
  }

  /** The mean lies between the minimum and the maximum: count * min <= sum
      <= count * max. */
  lemma {:induction false} MeanBetween(s: seq<int>)
    requires |s| > 0
    ensures var st := Measure(s).value;
      st.count * st.min <= st.sum <= st.count * st.max
  {
    SumBetween(s, Minimum(s), Maximum(s));
  }
}
