/**
  The DISCO two-sample energy statistic of eq_test.py (`energy`, lines 50-56),
  after Rizzo and Szekely, "DISCO analysis" (2010).

  Arithmetic is exact over `real`. Floating point enters only where the
  source divides by zero: numpy then yields nan or an infinity instead of
  raising, and `Stat` records which one.
 */
module EnergyStatistic {

  /** One observation: a vector of p coordinates. */
  type Row = seq<real>

  /** A sample: n observations, one per row (an ndarray of shape (n, p)). */
  type Sample = seq<Row>

  /** A float64 result: a finite value, an infinity, or nan. */
  datatype Stat = Value(v: real) | PosInf | NegInf | NaN

  /** Every row has the same width, as in a two-dimensional ndarray. */
  predicate Rectangular(s: Sample) {
    forall i, j :: 0 <= i < |s| && 0 <= j < |s| ==> |s[i]| == |s[j]|
  }

  /** Every row equals every other row: the sample has no dispersion. */
  predicate AllSame(s: Sample) {
    forall i, j :: 0 <= i < |s| && 0 <= j < |s| ==> s[i] == s[j]
  }

  function Abs(r: real): (a: real)
    ensures a >= 0.0 && (a == r || a == -r)
  {
    if r < 0.0 then -r else r
  }

  /** Minkowski distance of order 1, the sum of |a[k] - b[k]|.  On rows of
      equal width, the only ones `Energy` admits, no coordinate is dropped. */
  function L1(a: Row, b: Row): (d: real)
    ensures d >= 0.0
  {
    if |a| == 0 || |b| == 0 then 0.0 else Abs(a[0] - b[0]) + L1(a[1..], b[1..])
  }

  /** Sum of the distances from `a` to every row of `ys`. */
  function RowSum(a: Row, ys: Sample): (d: real)
    ensures d >= 0.0
  {
    if |ys| == 0 then 0.0 else L1(a, ys[0]) + RowSum(a, ys[1..])
  }

  /** np.sum(cdist(xs, ys)): the distance of every pair (i, j), all |xs| * |ys| of them. */
  function CrossSum(xs: Sample, ys: Sample): (d: real)
    ensures d >= 0.0
  {
    if |xs| == 0 then 0.0 else RowSum(xs[0], ys) + CrossSum(xs[1..], ys)
  }

  /** np.sum(pdist(xs)): the distance of every unordered pair i < j.  A sample
      of at most one row has no pair, so the sum is empty. */
  function PairSum(xs: Sample): (d: real)
    ensures d >= 0.0
    ensures |xs| <= 1 ==> d == 0.0
  {
    if |xs| == 0 then 0.0 else RowSum(xs[0], xs[1..]) + PairSum(xs[1..])
  }

  /** S1, the between-sample term (eq_test.py:53), from the cross sum, the two
      pdist sums and the sample sizes.  The pdist sums are divided by n*n and
      m*m, not by their numbers of pairs; the sizes are multiplied as Python
      integers before the float division.  Without dispersion S1 reduces to
      2 * cross / (n + m), so it has the sign of the cross sum. */
  function S1(cross: real, dx: real, dy: real, n: nat, m: nat): (s: real)
    requires n >= 1 && m >= 1
    ensures dx == 0.0 && dy == 0.0 ==> (s >= 0.0 <==> cross >= 0.0)
  {
    ProductPositive(n, m);
    var s := (2.0 * cross / (n * m) as real - dx / (n * n) as real - dy / (m * m) as real) * (n * m) as real / (n + m) as real;
    if dx == 0.0 && dy == 0.0 then
      DivCancel(2.0 * cross, (n * m) as real);
      assert s == 2.0 * cross / (n + m) as real;
      s
    else
      s
  }

  /** W1, the within-sample dispersion (eq_test.py:54). */
  function W1(dx: real, dy: real, n: nat, m: nat): (w: real)
    requires n >= 1 && m >= 1
    ensures dx >= 0.0 && dy >= 0.0 ==> w >= 0.0
  {
    0.5 * (dx / n as real + dy / m as real)
  }

  /** IEEE-754 division of a finite numerator by a non-negative denominator:
      division by +0 gives an infinity of the numerator's sign, and 0/0 gives nan. */
  function Divide(s: real, w: real): (r: Stat)
    ensures r.Value? <==> w != 0.0
    ensures r.Value? ==> r.v * w == s
  {
    if w != 0.0 then Value(s / w)
    else if s > 0.0 then PosInf
    else if s < 0.0 then NegInf
    else NaN
  }

  /** F1 = S1 / W1 (eq_test.py:50-56).  An empty sample makes numpy divide by
      the integer 0, which gives nan rather than an exception.  Samples of
      different widths are refused before the statistic is reached, hence the
      precondition.  F1 is a finite number as soon as one of the two samples
      has two distinct rows. */
  function Energy(x: Sample, y: Sample): (r: Stat)
    requires Rectangular(x + y)
    ensures |x| >= 1 && |y| >= 1 && (!AllSame(x) || !AllSame(y)) ==> r.Value?
  {
    if |x| == 0 || |y| == 0 then NaN
    else
      var dx, dy := PairSum(x), PairSum(y);
      WithinPositiveIff(x, y);
      Divide(S1(CrossSum(x, y), dx, dy, |x|, |y|), W1(dx, dy, |x|, |y|))
  }

  // ---------------------------------------------------------------- arithmetic

  lemma ProductPositive(n: nat, m: nat)
    requires n >= 1 && m >= 1
    ensures n * m >= 1 && n * n >= 1 && m * m >= 1
  {
  }

  lemma DivNonNegative(a: real, d: real)
    requires a >= 0.0 && d > 0.0
    ensures a / d >= 0.0 && (a / d == 0.0 <==> a == 0.0)
  {
  }

  lemma DivSub(a: real, b: real, d: real)
    requires d != 0.0
    ensures a / d - b / d == (a - b) / d
  {
  }

  lemma DivSelf(a: real)
    ensures a != 0.0 ==> a / a == 1.0
  {
  }

  lemma DivCancel(a: real, d: real)
    requires d != 0.0
    ensures a / d * d == a
  {
  }

  // ---------------------------------------------------------------- shapes

  /** Both parts of a rectangular stack are rectangular, and stacking them the
      other way round is rectangular too. */
  lemma RectangularParts(x: Sample, y: Sample)
    requires Rectangular(x + y)
    ensures Rectangular(x) && Rectangular(y) && Rectangular(y + x)
  {
    assert forall i :: 0 <= i < |x| ==> x[i] == (x + y)[i];
    assert forall i :: 0 <= i < |y| ==> y[i] == (x + y)[|x| + i];
    forall i, j | 0 <= i < |y + x| && 0 <= j < |y + x| ensures |(y + x)[i]| == |(y + x)[j]| {
      var i' := if i < |y| then |x| + i else i - |y|;
      var j' := if j < |y| then |x| + j else j - |y|;
      assert (y + x)[i] == (x + y)[i'] && (y + x)[j] == (x + y)[j'];
    }
  }

  lemma RectangularSelf(x: Sample)
    requires Rectangular(x)
    ensures Rectangular(x + x)
  {
    forall i, j | 0 <= i < |x + x| && 0 <= j < |x + x| ensures |(x + x)[i]| == |(x + x)[j]| {
      var i' := if i < |x| then i else i - |x|;
      var j' := if j < |x| then j else j - |x|;
      assert (x + x)[i] == x[i'] && (x + x)[j] == x[j'];
    }
  }

  // ---------------------------------------------------------------- distances

  lemma {:induction false} L1Symmetric(a: Row, b: Row)
    ensures L1(a, b) == L1(b, a)
  {
    if |a| != 0 && |b| != 0 {
      L1Symmetric(a[1..], b[1..]);
    }
  }

  /** On rows of equal width the distance vanishes exactly when the rows are equal. */
  lemma {:induction false} L1ZeroIff(a: Row, b: Row)
    requires |a| == |b|
    ensures L1(a, b) == 0.0 <==> a == b
  {
    if |a| != 0 {
      L1ZeroIff(a[1..], b[1..]);
      assert a == [a[0]] + a[1..] && b == [b[0]] + b[1..];
    }
  }

  lemma {:induction false} RowSumZeroIff(a: Row, ys: Sample)
    requires forall j :: 0 <= j < |ys| ==> |ys[j]| == |a|
    ensures RowSum(a, ys) == 0.0 <==> forall j :: 0 <= j < |ys| ==> ys[j] == a
  {
    if |ys| != 0 {
      RowSumZeroIff(a, ys[1..]);
      L1ZeroIff(a, ys[0]);
      if RowSum(a, ys) == 0.0 {
        forall j | 0 <= j < |ys| ensures ys[j] == a {
          if j > 0 { assert ys[j] == ys[1..][j - 1]; }
        }
      }
    }
  }

  // ---------------------------------------------------------------- the sums

  /** Adding a row `a` in front of `ys` adds the distances from `a` to every row of `xs`. */
  lemma {:induction false} CrossSumConsRight(xs: Sample, a: Row, ys: Sample)
    ensures CrossSum(xs, [a] + ys) == RowSum(a, xs) + CrossSum(xs, ys)
  {
    if |xs| != 0 {
      CrossSumConsRight(xs[1..], a, ys);
      L1Symmetric(xs[0], a);
      assert ([a] + ys)[0] == a && ([a] + ys)[1..] == ys;
    }
  }

  lemma {:induction false} CrossSumEmptyRight(xs: Sample)
    ensures CrossSum(xs, []) == 0.0
  {
    if |xs| != 0 {
      CrossSumEmptyRight(xs[1..]);
    }
  }

  /** The cross sum counts every pair (i, j) once, from either side. */
  lemma {:induction false} CrossSumSymmetric(xs: Sample, ys: Sample)
    ensures CrossSum(xs, ys) == CrossSum(ys, xs)
    decreases |ys|
  {
    if |ys| == 0 {
      CrossSumEmptyRight(xs);
    } else {
      CrossSumSymmetric(xs, ys[1..]);
      CrossSumConsRight(xs, ys[0], ys[1..]);
      assert [ys[0]] + ys[1..] == ys;
    }
  }

  /** Crossing a sample with itself counts each unordered pair twice and each
      diagonal pair, at distance zero, once. */
  lemma {:induction false} CrossSumSelf(xs: Sample)
    ensures CrossSum(xs, xs) == 2.0 * PairSum(xs)
  {
    if |xs| != 0 {
      var a, r := xs[0], xs[1..];
      assert xs == [a] + r;
      L1ZeroIff(a, a);
      CrossSumConsRight(r, a, r);
      CrossSumSelf(r);
    }
  }

  /** The pdist sum of a rectangular sample is zero exactly when all its rows agree. */
  lemma {:induction false} PairSumZeroIff(xs: Sample)
    requires Rectangular(xs)
    ensures PairSum(xs) == 0.0 <==> AllSame(xs)
  {
    if |xs| != 0 {
      var a, r := xs[0], xs[1..];
      assert forall j :: 0 <= j < |r| ==> r[j] == xs[j + 1];
      RowSumZeroIff(a, r);
      PairSumZeroIff(r);
      if PairSum(xs) == 0.0 {
        forall i, j | 0 <= i < |xs| && 0 <= j < |xs| ensures xs[i] == xs[j] {
          if i > 0 { assert xs[i] == r[i - 1]; }
          if j > 0 { assert xs[j] == r[j - 1]; }
        }
      } else {
        if AllSame(xs) {
          assert forall j :: 0 <= j < |r| ==> r[j] == xs[j + 1] == a;
          assert AllSame(r) by {
            forall i, j | 0 <= i < |r| && 0 <= j < |r| ensures r[i] == r[j] {
              assert r[i] == xs[i + 1] && r[j] == xs[j + 1];
            }
          }
          assert false;
        }
      }
    }
  }

  // ---------------------------------------------------------------- the statistic

  /** S1 is unchanged when the two samples trade places. */
  lemma S1Swap(cross: real, dx: real, dy: real, n: nat, m: nat)
    requires n >= 1 && m >= 1
    ensures S1(cross, dx, dy, n, m) == S1(cross, dy, dx, m, n)
  {
    assert n * m == m * n;
  }

  /** With the cross sum twice the pdist sum and equal sizes, S1 is dx / n. */
  lemma S1Self(dx: real, n: nat)
    requires n >= 1
    ensures S1(2.0 * dx, dx, dx, n, n) == dx / n as real
  {
    ProductPositive(n, n);
    var d := (n * n) as real;
    DivSub(2.0 * (2.0 * dx), dx, d);
    DivSub(2.0 * (2.0 * dx) - dx, dx, d);
    DivCancel(2.0 * dx, d);
    assert (n + n) as real == 2.0 * n as real;
  }

  /** W1 vanishes exactly when both pdist sums do. */
  lemma W1ZeroIff(dx: real, dy: real, n: nat, m: nat)
    requires dx >= 0.0 && dy >= 0.0 && n >= 1 && m >= 1
    ensures W1(dx, dy, n, m) == 0.0 <==> dx == 0.0 && dy == 0.0
  {
    DivNonNegative(dx, n as real);
    DivNonNegative(dy, m as real);
  }

  /** W1 is positive exactly when one of the samples has two distinct rows. */
  lemma WithinPositiveIff(x: Sample, y: Sample)
    requires |x| >= 1 && |y| >= 1 && Rectangular(x + y)
    ensures W1(PairSum(x), PairSum(y), |x|, |y|) > 0.0 <==> !AllSame(x) || !AllSame(y)
  {
    RectangularParts(x, y);
    PairSumZeroIff(x);
    PairSumZeroIff(y);
    W1ZeroIff(PairSum(x), PairSum(y), |x|, |y|);
  }

  /** energy(x, y) == energy(y, x). */
  lemma EnergySymmetric(x: Sample, y: Sample)
    requires Rectangular(x + y)
    ensures Rectangular(y + x) && Energy(x, y) == Energy(y, x)
  {
    RectangularParts(x, y);
    if |x| != 0 && |y| != 0 {
      CrossSumSymmetric(x, y);
      S1Swap(CrossSum(x, y), PairSum(x), PairSum(y), |x|, |y|);
    }
  }

  /** A sample compared with itself scores exactly 1 when it has two distinct
      rows (S1 = W1 = pdist sum / n), and 0/0 = nan when it has none. */
  lemma EnergySelf(x: Sample)
    requires |x| >= 1 && Rectangular(x)
    ensures Rectangular(x + x)
    ensures !AllSame(x) ==> Energy(x, x) == Value(1.0)
    ensures AllSame(x) ==> Energy(x, x) == NaN
  {
    RectangularSelf(x);
    CrossSumSelf(x);
    PairSumZeroIff(x);
    var dx, n := PairSum(x), |x|;
    S1Self(dx, n);
    var q := dx / n as real;
    assert W1(dx, dx, n, n) == q;
    DivNonNegative(dx, n as real);
    DivSelf(q);
    assert Energy(x, x) == Divide(q, q);
  }

  /** The statistic is never -inf: when W1 is zero both pdist sums vanish and
      S1 reduces to a non-negative multiple of the cross sum. */
  lemma EnergyNeverNegInf(x: Sample, y: Sample)
    requires Rectangular(x + y)
    ensures Energy(x, y) != NegInf
  {
    if |x| != 0 && |y| != 0 {
      W1ZeroIff(PairSum(x), PairSum(y), |x|, |y|);
    }
  }
}
