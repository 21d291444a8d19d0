/** Ordinary least squares over the reals: sums, the fit, and what makes it the best
    line. */
module LeastSquaresFits {

  // --------------------------------------------------------------------- products

  /** A product, named so that the sums below are reasoned about as sums. */
  function Times(u: real, v: real): real {
    u * v
  }

  lemma Spread(c: real, u: real, v: real)
    ensures Times(c, u + v) == Times(c, u) + Times(c, v)
    ensures Times(u + v, c) == Times(u, c) + Times(v, c)
  {
  }

  lemma Nought(c: real)
    ensures Times(c, 0.0) == 0.0 && Times(0.0, c) == 0.0
  {
  }

  lemma Positive(u: real, v: real)
    requires u > 0.0 && v > 0.0
    ensures Times(u, v) > 0.0
  {
  }

  lemma Square(d: real)
    ensures Times(d, d) >= 0.0 && (Times(d, d) == 0.0 <==> d == 0.0)
  {
    if d > 0.0 { Positive(d, d); }
    if d < 0.0 {
      Positive(-d, -d);
      assert Times(-d, -d) == Times(d, d);
    }
  }

  lemma NonNegative(u: real, v: real)
    requires u >= 0.0 && v >= 0.0
    ensures Times(u, v) >= 0.0
    ensures u > 0.0 ==> (Times(u, v) == 0.0 <==> v == 0.0)
  {
    if u > 0.0 && v > 0.0 { Positive(u, v); }
  }

  lemma SameSign(u: real, v: real)
    requires if u >= 0.0 then v >= 0.0 else v <= 0.0
    ensures Times(u, v) >= 0.0
  {
    if u >= 0.0 {
      NonNegative(u, v);
    } else {
      NonNegative(-u, -v);
      assert Times(-u, -v) == Times(u, v);
    }
  }

  lemma Scaling(u: real, v: real, d: real)
    requires d > 0.0
    ensures u < v <==> Times(u, d) < Times(v, d)
  {
    if u < v {
      Positive(v - u, d);
      assert Times(v - u, d) == Times(v, d) - Times(u, d);
    }
    if v < u {
      Positive(u - v, d);
      assert Times(u - v, d) == Times(u, d) - Times(v, d);
    }
  }

  lemma Quotient(num: real, den: real)
    requires den != 0.0
    ensures Times(num / den, den) == num
  {
  }

  // ------------------------------------------------------------------------- sums

  function Total(xs: seq<real>): real {
    if xs == [] then 0.0 else xs[0] + Total(xs[1..])
  }

  function Mean(xs: seq<real>): real
    requires xs != []
  {
    Total(xs) / |xs| as real
  }

  /** The sum of the offsets from `m`. */
  function Offsets(xs: seq<real>, m: real): real {
    if xs == [] then 0.0 else (xs[0] - m) + Offsets(xs[1..], m)
  }

  /** The sum of the products of the offsets from `p` and `q`. */
  function Cross(xs: seq<real>, ys: seq<real>, p: real, q: real): real
    requires |xs| == |ys|
  {
    if xs == [] then 0.0 else Times(xs[0] - p, ys[0] - q) + Cross(xs[1..], ys[1..], p, q)
  }

  /** How far a point is above the line `a + b*x`. */
  function Miss(x: real, y: real, a: real, b: real): real {
    y - (a + Times(b, x))
  }

  /** The squared error of that line. */
  function Error(xs: seq<real>, ys: seq<real>, a: real, b: real): real
    requires |xs| == |ys|
  {
    if xs == [] then 0.0
    else Times(Miss(xs[0], ys[0], a, b), Miss(xs[0], ys[0], a, b)) + Error(xs[1..], ys[1..], a, b)
  }

  predicate OnLine(xs: seq<real>, ys: seq<real>, a: real, b: real)
    requires |xs| == |ys|
  {
    forall i | 0 <= i < |xs| :: Miss(xs[i], ys[i], a, b) == 0.0
  }

  lemma {:induction false} OffsetsAre(xs: seq<real>, m: real)
    ensures Offsets(xs, m) == Total(xs) - Times(|xs| as real, m)
    decreases |xs|
  {
    if xs == [] {
      Nought(m);
    } else {
      OffsetsAre(xs[1..], m);
      Spread(m, |xs[1..]| as real, 1.0);
      assert Times(1.0, m) == m;
    }
  }

  lemma MeanBalances(xs: seq<real>)
    requires xs != []
    ensures Offsets(xs, Mean(xs)) == 0.0
  {
    OffsetsAre(xs, Mean(xs));
  }

  lemma {:induction false} SpreadNonNegative(xs: seq<real>, m: real)
    ensures Cross(xs, xs, m, m) >= 0.0
    ensures Cross(xs, xs, m, m) == 0.0 <==> forall i | 0 <= i < |xs| :: xs[i] == m
    decreases |xs|
  {
    hide Times;
    if xs != [] {
      SpreadNonNegative(xs[1..], m);
      Square(xs[0] - m);
      assert forall i | 0 < i < |xs| :: xs[i] == xs[1..][i - 1];
      if Cross(xs, xs, m, m) == 0.0 {
        forall i | 0 <= i < |xs| ensures xs[i] == m {
          if i > 0 { assert xs[i] == xs[1..][i - 1]; }
        }
      }
    }
  }

  lemma {:induction false} ErrorNonNegative(xs: seq<real>, ys: seq<real>, a: real, b: real)
    requires |xs| == |ys|
    ensures Error(xs, ys, a, b) >= 0.0
    ensures Error(xs, ys, a, b) == 0.0 <==> OnLine(xs, ys, a, b)
    decreases |xs|
  {
    hide Times, Miss;
    if xs != [] {
      ErrorNonNegative(xs[1..], ys[1..], a, b);
      Square(Miss(xs[0], ys[0], a, b));
      assert forall i | 0 < i < |xs| :: xs[i] == xs[1..][i - 1] && ys[i] == ys[1..][i - 1];
      assert forall i | 0 <= i < |xs[1..]| :: xs[1..][i] == xs[i + 1] && ys[1..][i] == ys[i + 1];
    }
  }

  // --------------------------------------------------------- the error of any line

  /** One point's squared miss, about any centre. */
  lemma Term(x: real, y: real, a: real, b: real, p: real, q: real)
    ensures var dx, dy, e := x - p, y - q, a + Times(b, p) - q;
            Times(Miss(x, y, a, b), Miss(x, y, a, b)) ==
            Times(dy, dy) - Times(2.0 * b, Times(dx, dy)) + Times(Times(b, b), Times(dx, dx)) + Times(e, e)
            - Times(2.0 * e, dy) + Times(Times(2.0 * b, e), dx)
  {
    var dx, dy, e := x - p, y - q, a + Times(b, p) - q;
    var v := b * dx;
    assert Miss(x, y, a, b) == dy - v - e;
    Expand(dy, v, e);
    assert v * v == Times(Times(b, b), Times(dx, dx));
    assert 2.0 * (dy * v) == Times(2.0 * b, Times(dx, dy));
    assert 2.0 * (e * v) == Times(Times(2.0 * b, e), dx);
  }

  lemma Expand(u: real, v: real, w: real)
    ensures Times(u - v - w, u - v - w) == u * u + v * v + w * w - 2.0 * (u * v) - 2.0 * (w * u) + 2.0 * (w * v)
  {
  }

  /** The error of any line about any centre. */
  lemma {:induction false} ErrorExpands(xs: seq<real>, ys: seq<real>, a: real, b: real, p: real, q: real)
    requires |xs| == |ys|
    ensures var e := a + Times(b, p) - q;
            Error(xs, ys, a, b) ==
            Cross(ys, ys, q, q) - Times(2.0 * b, Cross(xs, ys, p, q)) + Times(Times(b, b), Cross(xs, xs, p, p))
            + Times(|xs| as real, Times(e, e)) - Times(2.0 * e, Offsets(ys, q)) + Times(Times(2.0 * b, e), Offsets(xs, p))
    decreases |xs|
  {
    hide Times, Miss;
    var e := a + Times(b, p) - q;
    if xs == [] {
      Nought(2.0 * b);
      Nought(Times(b, b));
      Nought(Times(e, e));
      Nought(2.0 * e);
      Nought(Times(2.0 * b, e));
    } else {
      ErrorExpands(xs[1..], ys[1..], a, b, p, q);
      Term(xs[0], ys[0], a, b, p, q);
      var dx, dy, n := xs[0] - p, ys[0] - q, |xs[1..]| as real;
      Spread(2.0 * b, Times(dx, dy), Cross(xs[1..], ys[1..], p, q));
      Spread(Times(b, b), Times(dx, dx), Cross(xs[1..], xs[1..], p, p));
      Spread(Times(e, e), n, 1.0);
      One(Times(e, e));
      Spread(2.0 * e, dy, Offsets(ys[1..], q));
      Spread(Times(2.0 * b, e), dx, Offsets(xs[1..], p));
    }
  }

  lemma One(u: real)
    ensures Times(1.0, u) == u
  {
  }

  // ------------------------------------------------------------------------- the fit

  datatype Line = Line(intercept: real, slope: real)

  function Fit(xs: seq<real>, ys: seq<real>): Line
    requires |xs| == |ys| && xs != []
  {
    var p, q := Mean(xs), Mean(ys);
    var spread := Cross(xs, xs, p, p);
    var slope := if spread == 0.0 then 0.0 else Cross(xs, ys, p, q) / spread;
    Line(q - Times(slope, p), slope)
  }

  lemma {:induction false} NoSpreadNoCross(xs: seq<real>, ys: seq<real>, p: real, q: real)
    requires |xs| == |ys| && Cross(xs, xs, p, p) == 0.0
    ensures Cross(xs, ys, p, q) == 0.0
    decreases |xs|
  {
    hide Times;
    if xs != [] {
      SpreadNonNegative(xs[1..], p);
      Square(xs[0] - p);
      NoSpreadNoCross(xs[1..], ys[1..], p, q);
      Nought(ys[0] - q);
    }
  }

  /** The slope makes up the whole cross sum, even where there is no spread. */
  lemma SlopeTimesSpread(xs: seq<real>, ys: seq<real>)
    requires |xs| == |ys| && xs != []
    ensures Times(Fit(xs, ys).slope, Cross(xs, xs, Mean(xs), Mean(xs))) == Cross(xs, ys, Mean(xs), Mean(ys))
  {
    hide Times;
    var p, q := Mean(xs), Mean(ys);
    if Cross(xs, xs, p, p) == 0.0 {
      NoSpreadNoCross(xs, ys, p, q);
      Nought(0.0);
    } else {
      Quotient(Cross(xs, ys, p, q), Cross(xs, xs, p, p));
    }
  }

  lemma CompleteSquare(s: real, b: real, sxx: real, sxy: real)
    requires Times(s, sxx) == sxy
    ensures Times(Times(b, b), sxx) - Times(2.0 * b, sxy) ==
            Times(Times(b - s, b - s), sxx) - Times(Times(s, s), sxx)
  {
    assert (b - s) * (b - s) == b * b - 2.0 * b * s + s * s;
    assert ((b - s) * (b - s)) * sxx == b * b * sxx - 2.0 * b * (s * sxx) + s * s * sxx;
  }

  /** How the error of any line exceeds the best error: by how far its slope is off,
      weighed by the spread, and by how far its height at the mean is off. */
  lemma ErrorExcess(xs: seq<real>, ys: seq<real>, a: real, b: real)
    requires |xs| == |ys| && xs != []
    ensures var p, q, fit := Mean(xs), Mean(ys), Fit(xs, ys);
            var off, e := b - fit.slope, a + Times(b, p) - q;
            Error(xs, ys, a, b) ==
            Error(xs, ys, fit.intercept, fit.slope)
            + Times(Times(off, off), Cross(xs, xs, p, p)) + Times(|xs| as real, Times(e, e))
  {
    hide Times, Cross, Offsets, Error, Mean;
    var p, q, fit := Mean(xs), Mean(ys), Fit(xs, ys);
    SlopeTimesSpread(xs, ys);
    LineAboutMeans(xs, ys, a, b);
    LineAboutMeans(xs, ys, fit.intercept, fit.slope);
    CompleteSquare(fit.slope, b, Cross(xs, xs, p, p), Cross(xs, ys, p, q));
    CompleteSquare(fit.slope, fit.slope, Cross(xs, xs, p, p), Cross(xs, ys, p, q));
    Nought(0.0);
    Nought(Cross(xs, xs, p, p));
    Nought(|xs| as real);
  }

  lemma LineAboutMeans(xs: seq<real>, ys: seq<real>, a: real, b: real)
    requires |xs| == |ys| && xs != []
    ensures var p, q := Mean(xs), Mean(ys);
            var e := a + Times(b, p) - q;
            Error(xs, ys, a, b) ==
            Cross(ys, ys, q, q) - Times(2.0 * b, Cross(xs, ys, p, q)) + Times(Times(b, b), Cross(xs, xs, p, p))
            + Times(|xs| as real, Times(e, e))
  {
    hide Times, Cross, Offsets, Error, Mean;
    var p, q := Mean(xs), Mean(ys);
    var e := a + Times(b, p) - q;
    MeanBalances(xs);
    MeanBalances(ys);
    ErrorExpands(xs, ys, a, b, p, q);
    Nought(2.0 * e);
    Nought(Times(2.0 * b, e));
  }

  /** No line has a smaller squared error, whatever the points. */
  lemma FitIsBest(xs: seq<real>, ys: seq<real>, a: real, b: real)
    requires |xs| == |ys| && xs != []
    ensures var fit := Fit(xs, ys); Error(xs, ys, fit.intercept, fit.slope) <= Error(xs, ys, a, b)
  {
    hide Times, Cross, Error, Mean, Fit;
    var p, q, fit := Mean(xs), Mean(ys), Fit(xs, ys);
    var off, e := b - fit.slope, a + Times(b, p) - q;
    ErrorExcess(xs, ys, a, b);
    Square(off);
    Square(e);
    SpreadNonNegative(xs, p);
    NonNegative(Times(off, off), Cross(xs, xs, p, p));
    NonNegative(|xs| as real, Times(e, e));
  }

  /** Where two abscissas differ, a line as good as the fit is the fit. */
  lemma FitIsOnlyBest(xs: seq<real>, ys: seq<real>, a: real, b: real)
    requires |xs| == |ys| && exists i, j :: 0 <= i < |xs| && 0 <= j < |xs| && xs[i] != xs[j]
    ensures var fit := Fit(xs, ys);
            Error(xs, ys, a, b) <= Error(xs, ys, fit.intercept, fit.slope) <==> fit == Line(a, b)
  {
    hide Times, Cross, Error, Mean;
    var p, q, fit := Mean(xs), Mean(ys), Fit(xs, ys);
    var off, e := b - fit.slope, a + Times(b, p) - q;
    ErrorExcess(xs, ys, a, b);
    Square(off);
    Square(e);
    SpreadNonNegative(xs, p);
    var sxx := Cross(xs, xs, p, p);
    assert sxx > 0.0;
    Swap(sxx, Times(off, off));
    NonNegative(sxx, Times(off, off));
    NonNegative(|xs| as real, Times(e, e));
  }

  lemma Swap(u: real, v: real)
    ensures Times(u, v) == Times(v, u)
  {
  }

  /** The share of the variance the fit explains; absent when nothing varies. */
  datatype Share = Undefined | Share(value: real)

  function RSquared(xs: seq<real>, ys: seq<real>): Share
    requires |xs| == |ys| && xs != []
  {
    var q, fit := Mean(ys), Fit(xs, ys);
    var total := Cross(ys, ys, q, q);
    if total == 0.0 then Undefined else Share(1.0 - Error(xs, ys, fit.intercept, fit.slope) / total)
  }

  /** It is absent exactly when every observation is the same, else between zero and
      one, and one exactly when some line passes through every point. */
  lemma RSquaredRange(xs: seq<real>, ys: seq<real>)
    requires |xs| == |ys| && xs != []
    ensures RSquared(xs, ys).Undefined? <==> forall i | 0 <= i < |ys| :: ys[i] == ys[0]
    ensures RSquared(xs, ys).Share? ==> 0.0 <= RSquared(xs, ys).value <= 1.0
    ensures RSquared(xs, ys).Share? ==> (RSquared(xs, ys).value == 1.0 <==> exists a, b :: OnLine(xs, ys, a, b))
  {
    hide Times, Cross, Error, Mean, Fit, OnLine;
    var q, fit := Mean(ys), Fit(xs, ys);
    var total, left := Cross(ys, ys, q, q), Error(xs, ys, fit.intercept, fit.slope);
    SpreadNonNegative(ys, q);
    if forall i | 0 <= i < |ys| :: ys[i] == ys[0] { ConstantMean(ys, ys[0]); }
    FlatLine(xs, ys);
    FitIsBest(xs, ys, q, 0.0);
    ErrorNonNegative(xs, ys, fit.intercept, fit.slope);
    if total != 0.0 {
      ShareRange(left, total);
      forall a, b | OnLine(xs, ys, a, b) ensures left == 0.0 {
        ErrorNonNegative(xs, ys, a, b);
        FitIsBest(xs, ys, a, b);
      }
    }
  }

  lemma ShareRange(left: real, total: real)
    requires 0.0 <= left <= total && total > 0.0
    ensures 0.0 <= 1.0 - left / total <= 1.0 && (1.0 - left / total == 1.0 <==> left == 0.0)
  {
    hide Times;
    Quotient(left, total);
    Scaling(1.0, left / total, total);
    Scaling(left / total, 0.0, total);
    Scaling(0.0, left / total, total);
    Nought(total);
    One(total);
  }

  lemma {:induction false} ConstantTotal(xs: seq<real>, c: real)
    requires forall i | 0 <= i < |xs| :: xs[i] == c
    ensures Total(xs) == Times(|xs| as real, c)
    decreases |xs|
  {
    hide Times;
    if xs == [] {
      Nought(c);
    } else {
      assert forall i | 0 <= i < |xs[1..]| :: xs[1..][i] == xs[i + 1];
      ConstantTotal(xs[1..], c);
      Spread(c, |xs[1..]| as real, 1.0);
      One(c);
    }
  }

  lemma ConstantMean(xs: seq<real>, c: real)
    requires xs != [] && forall i | 0 <= i < |xs| :: xs[i] == c
    ensures Mean(xs) == c
  {
    ConstantTotal(xs, c);
  }

  /** The flat line at the mean leaves the whole variance. */
  lemma FlatLine(xs: seq<real>, ys: seq<real>)
    requires |xs| == |ys| && xs != []
    ensures Error(xs, ys, Mean(ys), 0.0) == Cross(ys, ys, Mean(ys), Mean(ys))
  {
    hide Times, Cross, Error, Mean;
    LineAboutMeans(xs, ys, Mean(ys), 0.0);
    Nought(Mean(xs));
    Nought(0.0);
    Nought(Cross(xs, ys, Mean(xs), Mean(ys)));
    Nought(Cross(xs, xs, Mean(xs), Mean(xs)));
    Nought(|xs| as real);
    assert 2.0 * 0.0 == 0.0;
  }

  /** No level line has a smaller squared error than the one at the mean. */
  lemma LevelIsBest(xs: seq<real>, ys: seq<real>, c: real)
    requires |xs| == |ys| && xs != []
    ensures Error(xs, ys, Mean(ys), 0.0) <= Error(xs, ys, c, 0.0)
  {
    hide Times, Cross, Error, Mean;
    var p, q, e := Mean(xs), Mean(ys), c - Mean(ys);
    FlatLine(xs, ys);
    LineAboutMeans(xs, ys, c, 0.0);
    Nought(p);
    Nought(0.0);
    Nought(Cross(xs, ys, p, q));
    Nought(Cross(xs, xs, p, p));
    assert 2.0 * 0.0 == 0.0;
    Square(e);
    NonNegative(|xs| as real, Times(e, e));
  }

  /** What is left unexplained is the fit's share of the error of the best level line. */
  lemma RSquaredExactly(xs: seq<real>, ys: seq<real>, c: real)
    requires |xs| == |ys| && xs != []
    ensures RSquared(xs, ys).Share? ==>
              && Times(1.0 - RSquared(xs, ys).value, Error(xs, ys, Mean(ys), 0.0)) ==
                 Error(xs, ys, Fit(xs, ys).intercept, Fit(xs, ys).slope)
              && 0.0 < Error(xs, ys, Mean(ys), 0.0) <= Error(xs, ys, c, 0.0)
  {
    hide Times, Cross, Error, Mean, Fit;
    var total, left := Cross(ys, ys, Mean(ys), Mean(ys)), Error(xs, ys, Fit(xs, ys).intercept, Fit(xs, ys).slope);
    FlatLine(xs, ys);
    LevelIsBest(xs, ys, c);
    SpreadNonNegative(ys, Mean(ys));
    if total != 0.0 { Quotient(left, total); }
  }

  /** Without two different abscissas the fit is level. */
  lemma NoSpreadFit(xs: seq<real>, ys: seq<real>)
    requires |xs| == |ys| && xs != [] && forall i | 0 <= i < |xs| :: xs[i] == xs[0]
    ensures Fit(xs, ys) == Line(Mean(ys), 0.0)
  {
    hide Times, Cross, Mean;
    ConstantMean(xs, xs[0]);
    SpreadNonNegative(xs, xs[0]);
    Nought(Mean(xs));
  }

  // ------------------------------------------------- the slope and consecutive slopes

  predicate Increasing(xs: seq<real>) {
    forall i, j | 0 <= i < j < |xs| :: xs[i] < xs[j]
  }

  predicate Rising(zs: seq<real>) {
    forall i, j | 0 <= i <= j < |zs| :: zs[i] <= zs[j]
  }

  /** Offsets from the mean weigh any constant nothing. */
  lemma {:induction false} CrossShift(xs: seq<real>, zs: seq<real>, p: real, c: real, d: real)
    requires |xs| == |zs|
    ensures Cross(xs, zs, p, c) == Cross(xs, zs, p, d) + Times(d - c, Offsets(xs, p))
    decreases |xs|
  {
    hide Times;
    if xs == [] {
      Nought(d - c);
    } else {
      CrossShift(xs[1..], zs[1..], p, c, d);
      var dx := xs[0] - p;
      Spread(dx, zs[0] - d, d - c);
      Swap(dx, d - c);
      Spread(d - c, dx, Offsets(xs[1..], p));
      assert (zs[0] - d) + (d - c) == zs[0] - c;
    }
  }

  /** The products that all have one sign add up to it. */
  lemma {:induction false} CrossOneSign(xs: seq<real>, zs: seq<real>, p: real, c: real)
    requires |xs| == |zs|
    requires forall i | 0 <= i < |xs| :: if xs[i] >= p then zs[i] >= c else zs[i] <= c
    ensures Cross(xs, zs, p, c) >= 0.0
    decreases |xs|
  {
    hide Times;
    if xs != [] {
      forall i | 0 <= i < |xs[1..]| ensures if xs[1..][i] >= p then zs[1..][i] >= c else zs[1..][i] <= c {
        assert if xs[i + 1] >= p then zs[i + 1] >= c else zs[i + 1] <= c;
      }
      CrossOneSign(xs[1..], zs[1..], p, c);
      SameSign(xs[0] - p, zs[0] - c);
    }
  }

  /** The first place where the abscissa reaches `p`, or the last place. */
  function Crossing(xs: seq<real>, p: real): (k: nat)
    requires xs != []
    ensures k < |xs|
    ensures forall i | 0 <= i < k :: xs[i] < p
    ensures xs[k] >= p || k == |xs| - 1
  {
    if xs[0] >= p || |xs| == 1 then 0
    else
      var k := Crossing(xs[1..], p);
      assert forall i | 0 < i <= k :: xs[i] == xs[1..][i - 1];
      k + 1
  }

  /** A rising sequence never varies against an increasing one. */
  lemma RisingTogether(xs: seq<real>, zs: seq<real>, c: real)
    requires |xs| == |zs| && xs != [] && Increasing(xs) && Rising(zs)
    ensures Cross(xs, zs, Mean(xs), c) >= 0.0
  {
    hide Times, Cross, Mean;
    var p := Mean(xs);
    var k := Crossing(xs, p);
    forall i | 0 <= i < |xs| ensures if xs[i] >= p then zs[i] >= zs[k] else zs[i] <= zs[k] {
      if i < k { assert xs[i] < p && zs[i] <= zs[k]; }
      if i > k { assert xs[k] < xs[i] && zs[k] <= zs[i]; }
    }
    CrossOneSign(xs, zs, p, zs[k]);
    MeanBalances(xs);
    CrossShift(xs, zs, p, c, zs[k]);
    Nought(zs[k] - c);
  }

  /** What is left of each ordinate after a line of slope `m` through the origin. */
  function Tilted(xs: seq<real>, ys: seq<real>, m: real): (zs: seq<real>)
    requires |xs| == |ys|
    ensures |zs| == |xs| && forall i | 0 <= i < |xs| :: zs[i] == ys[i] - Times(m, xs[i])
  {
    seq(|xs|, i requires 0 <= i < |xs| => ys[i] - Times(m, xs[i]))
  }

  lemma TiltedTerm(x: real, y: real, m: real, p: real, q: real)
    ensures Times(x - p, (y - Times(m, x)) - (q - Times(m, p))) ==
            Times(x - p, y - q) - Times(m, Times(x - p, x - p))
  {
    var dx, dy := x - p, y - q;
    assert (y - Times(m, x)) - (q - Times(m, p)) == dy - m * dx;
    assert dx * (dy - m * dx) == dx * dy - m * (dx * dx);
  }

  lemma {:induction false} CrossTilted(xs: seq<real>, ys: seq<real>, m: real, p: real, q: real)
    requires |xs| == |ys|
    ensures Cross(xs, Tilted(xs, ys, m), p, q - Times(m, p)) == Cross(xs, ys, p, q) - Times(m, Cross(xs, xs, p, p))
    decreases |xs|
  {
    hide Times;
    if xs == [] {
      Nought(m);
    } else {
      CrossTilted(xs[1..], ys[1..], m, p, q);
      forall i | 0 <= i < |xs| - 1 ensures Tilted(xs, ys, m)[1..][i] == Tilted(xs[1..], ys[1..], m)[i] {
        assert xs[1..][i] == xs[i + 1] && ys[1..][i] == ys[i + 1];
      }
      assert Tilted(xs, ys, m)[1..] == Tilted(xs[1..], ys[1..], m);
      TiltedTerm(xs[0], ys[0], m, p, q);
      Spread(m, Times(xs[0] - p, xs[0] - p), Cross(xs[1..], xs[1..], p, p));
    }
  }

  function Opposite(zs: seq<real>): (r: seq<real>)
    ensures |r| == |zs| && forall i | 0 <= i < |zs| :: r[i] == -zs[i]
  {
    seq(|zs|, i requires 0 <= i < |zs| => -zs[i])
  }

  lemma {:induction false} CrossOpposite(xs: seq<real>, zs: seq<real>, p: real, c: real)
    requires |xs| == |zs|
    ensures Cross(xs, Opposite(zs), p, -c) == -Cross(xs, zs, p, c)
    decreases |xs|
  {
    hide Times;
    if xs != [] {
      CrossOpposite(xs[1..], zs[1..], p, c);
      assert Opposite(zs)[1..] == Opposite(zs[1..]);
      OppositeTerm(xs[0] - p, zs[0] - c);
      assert -zs[0] - -c == -(zs[0] - c);
    }
  }

  lemma OppositeTerm(u: real, v: real)
    ensures Times(u, -v) == -Times(u, v)
  {
  }

  lemma SpreadPositive(xs: seq<real>)
    requires |xs| >= 2 && Increasing(xs)
    ensures Cross(xs, xs, Mean(xs), Mean(xs)) > 0.0
  {
    hide Times, Cross, Mean;
    SpreadNonNegative(xs, Mean(xs));
    assert xs[0] < xs[1];
  }

  lemma {:induction false} StepsRise(zs: seq<real>)
    requires forall i | 0 <= i < |zs| - 1 :: zs[i] <= zs[i + 1]
    ensures Rising(zs)
    decreases |zs|
  {
    if zs != [] {
      var front, last := zs[..|zs| - 1], |zs| - 1;
      forall i | 0 <= i < |front| - 1 ensures front[i] <= front[i + 1] { assert zs[i] <= zs[i + 1]; }
      StepsRise(front);
      forall i, j | 0 <= i <= j < |zs| ensures zs[i] <= zs[j] {
        if j < last {
          assert front[i] <= front[j];
        } else if i < last {
          assert front[i] <= front[last - 1] && zs[last - 1] <= zs[last - 1 + 1];
        }
      }
    }
  }

  /** If no consecutive slope is below `m`, the fitted slope is not below it. */
  lemma SlopeAtLeast(xs: seq<real>, ys: seq<real>, m: real)
    requires |xs| == |ys| >= 2 && Increasing(xs)
    requires forall i | 0 <= i < |xs| - 1 :: Times(m, xs[i + 1] - xs[i]) <= ys[i + 1] - ys[i]
    ensures m <= Fit(xs, ys).slope
  {
    hide Times, Cross, Mean, Rising, Increasing;
    var zs, p, q := Tilted(xs, ys, m), Mean(xs), Mean(ys);
    forall i | 0 <= i < |zs| - 1 ensures zs[i] <= zs[i + 1] { Spread(m, xs[i], xs[i + 1] - xs[i]); }
    StepsRise(zs);
    RisingTogether(xs, zs, q - Times(m, p));
    CrossTilted(xs, ys, m, p, q);
    SpreadPositive(xs);
    SlopeTimesSpread(xs, ys);
    Scaling(Fit(xs, ys).slope, m, Cross(xs, xs, p, p));
  }

  /** If no consecutive slope is above `m`, the fitted slope is not above it. */
  lemma SlopeAtMost(xs: seq<real>, ys: seq<real>, m: real)
    requires |xs| == |ys| >= 2 && Increasing(xs)
    requires forall i | 0 <= i < |xs| - 1 :: ys[i + 1] - ys[i] <= Times(m, xs[i + 1] - xs[i])
    ensures Fit(xs, ys).slope <= m
  {
    hide Times, Cross, Mean, Rising, Increasing;
    var ts, p, q := Tilted(xs, ys, m), Mean(xs), Mean(ys);
    var zs := Opposite(ts);
    forall i | 0 <= i < |zs| - 1 ensures zs[i] <= zs[i + 1] { Spread(m, xs[i], xs[i + 1] - xs[i]); }
    StepsRise(zs);
    RisingTogether(xs, zs, -(q - Times(m, p)));
    CrossOpposite(xs, ts, p, q - Times(m, p));
    CrossTilted(xs, ys, m, p, q);
    SpreadPositive(xs);
    SlopeTimesSpread(xs, ys);
    Scaling(m, Fit(xs, ys).slope, Cross(xs, xs, p, p));
  }

  /** The steepness from each point to the next. */
  function Steps(xs: seq<real>, ys: seq<real>): (r: seq<real>)
    requires |xs| == |ys| && Increasing(xs)
    ensures |r| == if xs == [] then 0 else |xs| - 1
    ensures forall i | 0 <= i < |r| :: r[i] == (ys[i + 1] - ys[i]) / (xs[i + 1] - xs[i])
  {
    if xs == [] then [] else seq(|xs| - 1, i requires 0 <= i < |xs| - 1 => (ys[i + 1] - ys[i]) / (xs[i + 1] - xs[i]))
  }

  /** The fitted slope lies between the smallest and the largest consecutive slope. */
  lemma SlopeBetween(xs: seq<real>, ys: seq<real>, low: real, high: real)
    requires |xs| == |ys| >= 2 && Increasing(xs)
    requires forall i | 0 <= i < |xs| - 1 :: low <= Steps(xs, ys)[i] <= high
    ensures low <= Fit(xs, ys).slope <= high
  {
    hide Times, Fit;
    forall i | 0 <= i < |xs| - 1
      ensures Times(low, xs[i + 1] - xs[i]) <= ys[i + 1] - ys[i] <= Times(high, xs[i + 1] - xs[i])
    {
      var d, s := xs[i + 1] - xs[i], Steps(xs, ys)[i];
      assert xs[i] < xs[i + 1];
      Quotient(ys[i + 1] - ys[i], d);
      Scaling(s, low, d);
      Scaling(high, s, d);
    }
    SlopeAtLeast(xs, ys, low);
    SlopeAtMost(xs, ys, high);
  }
}
