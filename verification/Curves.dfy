/** The curve estimators over exact reals: the power fit with its pair slopes, the
    exponential fit, and the choice among shapes. Logarithms, powers and roots are
    parameters known by their laws. */
module Curves {
  import opened LeastSquaresFits

  datatype Functions = Functions(
    log: real -> real,
    log2: real -> real,
    exp: real -> real,
    sqrt: real -> real,
    power: (real, real) -> real)

  ghost predicate IsLog(log: real -> real) {
    && (forall x, y | x > 0.0 && y > 0.0 :: log(Times(x, y)) == log(x) + log(y))
    && (forall x, y | 0.0 < x < y :: log(x) < log(y))
  }

  ghost predicate Lawful(f: Functions) {
    && IsLog(f.log) && IsLog(f.log2) && f.log2(2.0) == 1.0
    && (forall x | x > 0.0 :: f.exp(f.log(x)) == x)
    && (forall y :: f.exp(y) > 0.0 && f.log(f.exp(y)) == y)
    && (forall x, e | x > 0.0 :: f.power(x, e) > 0.0)
    && (forall x, e | x > 0.0 :: f.log(f.power(x, e)) == Times(e, f.log(x)))
    && (forall x, e | x > 0.0 :: f.log2(f.power(x, e)) == Times(e, f.log2(x)))
    && (forall x | x >= 0.0 :: f.sqrt(x) >= 0.0 && Times(f.sqrt(x), f.sqrt(x)) == x)
  }

  lemma LogOfQuotient(log: real -> real, x: real, y: real)
    requires IsLog(log) && x > 0.0 && y > 0.0
    ensures x / y > 0.0 && log(x / y) == log(x) - log(y)
  {
    hide Times;
    Quotient(x, y);
    Nought(y);
    Scaling(0.0, x / y, y);
    assert log(Times(x / y, y)) == log(x / y) + log(y);
  }

  lemma LogInjective(log: real -> real, x: real, y: real)
    requires IsLog(log) && x > 0.0 && y > 0.0
    ensures log(x) == log(y) <==> x == y
  {
    if x < y { assert log(x) < log(y); }
    if y < x { assert log(y) < log(x); }
  }

  datatype Refusal = Mismatched | TooFew | ZeroDivision | NoModels

  datatype Result<+T> = Ok(value: T) | Err(refusal: Refusal)

  type Points = seq<(real, real)>

  predicate Usable(size: int, value: real, anySize: bool) {
    (anySize || size > 0) && value > 0.0
  }

  /** The points a fit uses; only the power fit asks for a positive size. */
  function Kept(sizes: seq<int>, values: seq<real>, anySize: bool): (r: Points)
    requires |sizes| == |values|
    ensures |r| <= |sizes|
    ensures forall i | 0 <= i < |r| :: r[i].1 > 0.0 && (anySize || r[i].0 > 0.0)
  {
    if sizes == [] then []
    else
      var rest := Kept(sizes[1..], values[1..], anySize);
      if Usable(sizes[0], values[0], anySize) then [(sizes[0] as real, values[0])] + rest else rest
  }

  /** Points are used in the order given, each by itself: whether it is usable. */
  lemma {:induction false} KeptLeftToRight(sizes: seq<int>, values: seq<real>, more: seq<int>, others: seq<real>,
                                           anySize: bool, size: int, value: real)
    requires |sizes| == |values| && |more| == |others|
    ensures Kept([size], [value], anySize) ==
            if (anySize || size > 0) && value > 0.0 then [(size as real, value)] else []
    ensures Kept(sizes + more, values + others, anySize) ==
            Kept(sizes, values, anySize) + Kept(more, others, anySize)
    decreases |sizes|
  {
    assert [size][1..] == [] && [value][1..] == [];
    if sizes == [] {
      assert sizes + more == more && values + others == others;
    } else {
      assert (sizes + more)[1..] == sizes[1..] + more && (values + others)[1..] == values[1..] + others;
      KeptLeftToRight(sizes[1..], values[1..], more, others, anySize, size, value);
    }
  }

  predicate Ladder(sizes: seq<int>) {
    forall i, j | 0 <= i < j < |sizes| :: sizes[i] < sizes[j]
  }

  predicate Climbs(points: Points) {
    forall i, j | 0 <= i < j < |points| :: points[i].0 < points[j].0
  }

  lemma {:induction false} KeptAbove(sizes: seq<int>, values: seq<real>, anySize: bool, low: int)
    requires |sizes| == |values| && forall i | 0 <= i < |sizes| :: low < sizes[i]
    ensures forall i | 0 <= i < |Kept(sizes, values, anySize)| :: low as real < Kept(sizes, values, anySize)[i].0
    decreases |sizes|
  {
    if sizes != [] { KeptAbove(sizes[1..], values[1..], anySize, low); }
  }

  lemma {:induction false} KeptClimbs(sizes: seq<int>, values: seq<real>, anySize: bool)
    requires |sizes| == |values| && Ladder(sizes)
    ensures Climbs(Kept(sizes, values, anySize))
    decreases |sizes|
  {
    if sizes != [] {
      KeptClimbs(sizes[1..], values[1..], anySize);
      KeptAbove(sizes[1..], values[1..], anySize, sizes[0]);
    }
  }

  function Xs(points: Points): (r: seq<real>)
    ensures |r| == |points| && forall i | 0 <= i < |r| :: r[i] == points[i].0
  {
    seq(|points|, i requires 0 <= i < |points| => points[i].0)
  }

  function Ys(points: Points): (r: seq<real>)
    ensures |r| == |points| && forall i | 0 <= i < |r| :: r[i] == points[i].1
  {
    seq(|points|, i requires 0 <= i < |points| => points[i].1)
  }

  function Each(xs: seq<real>, g: real -> real): (r: seq<real>)
    ensures |r| == |xs| && forall i | 0 <= i < |r| :: r[i] == g(xs[i])
  {
    seq(|xs|, i requires 0 <= i < |xs| => g(xs[i]))
  }

  // --------------------------------------------------------------- the fit as reported

  datatype LeastSquares = LeastSquares(intercept: real, slope: real, residual: real, mean: real, span: real)

  function FitLeastSquares(f: Functions, xs: seq<real>, ys: seq<real>): Result<LeastSquares> {
    if |xs| != |ys| then Err(Mismatched)
    else if |xs| < 2 then Err(TooFew)
    else
      var fit := Fit(xs, ys);
      var residual := f.sqrt(Error(xs, ys, fit.intercept, fit.slope) / |xs| as real);
      Ok(LeastSquares(fit.intercept, fit.slope, residual, Mean(ys), Greatest(ys) - Least(ys)))
  }

  /** The residual reported is the least root-mean-square error of any line, the mean is
      where the observations balance, and the span is the widest gap between two of them.
      Without two different abscissas the line is level. */
  lemma ReportedFit(f: Functions, xs: seq<real>, ys: seq<real>, a: real, b: real)
    requires Lawful(f) && |xs| == |ys|
    ensures FitLeastSquares(f, xs, ys).Ok? <==> |xs| >= 2
    ensures FitLeastSquares(f, xs, ys).Ok? ==>
              var r := FitLeastSquares(f, xs, ys).value;
              && r.residual == f.sqrt(Error(xs, ys, r.intercept, r.slope) / |xs| as real)
              && 0.0 <= r.residual <= f.sqrt(Error(xs, ys, a, b) / |xs| as real)
              && Error(xs, ys, r.intercept, r.slope) <= Error(xs, ys, a, b)
              && ((forall i | 0 <= i < |xs| :: xs[i] == xs[0]) ==> r.slope == 0.0)
              && Offsets(ys, r.mean) == 0.0
              && (forall i, j | 0 <= i < |ys| && 0 <= j < |ys| :: ys[i] - ys[j] <= r.span)
              && (exists i, j :: 0 <= i < |ys| && 0 <= j < |ys| && ys[i] - ys[j] == r.span)
  {
    if |xs| >= 2 {
      var fit, n := Fit(xs, ys), |xs| as real;
      FitIsBest(xs, ys, a, b);
      MeanBalances(ys);
      if forall i | 0 <= i < |xs| :: xs[i] == xs[0] { NoSpreadFit(xs, ys); }
      ErrorNonNegative(xs, ys, fit.intercept, fit.slope);
      hide Error, Fit, Lawful, Mean, Offsets;
      var best, other := Error(xs, ys, fit.intercept, fit.slope), Error(xs, ys, a, b);
      RootOfMean(f, best, other, n);
      var i :| 0 <= i < |ys| && ys[i] == Greatest(ys);
      var j :| 0 <= j < |ys| && ys[j] == Least(ys);
      assert ys[i] - ys[j] == FitLeastSquares(f, xs, ys).value.span;
    }
  }

  /** Roots of means are in the order of the sums. */
  lemma RootOfMean(f: Functions, x: real, y: real, n: real)
    requires Lawful(f) && 0.0 <= x <= y && n > 0.0
    ensures 0.0 <= f.sqrt(x / n) <= f.sqrt(y / n)
  {
    QuotientOrder(x, 0.0, n);
    QuotientOrder(y, x, n);
    assert 0.0 / n == 0.0;
    RootOrder(f, y / n, x / n);
  }

  // -------------------------------------------------------------------- the power fit

  datatype PowerFit = PowerFit(exponent: real, rSquared: Share, coefficient: real, pairSlopes: seq<real>)

  /** The exponent between two points, if their sizes have a ratio to measure it by. */
  function PairSlope(f: Functions, p: (real, real), q: (real, real)): Result<real>
    requires p.0 > 0.0 && p.1 > 0.0
  {
    var d := f.log(q.0 / p.0);
    if d == 0.0 then Err(ZeroDivision) else Ok(f.log(q.1 / p.1) / d)
  }

  function SlopeAt(f: Functions, points: Points, i: nat): Result<real>
    requires i + 1 < |points| && points[i].0 > 0.0 && points[i].1 > 0.0
  {
    PairSlope(f, points[i], points[i + 1])
  }

  function PairSlopes(f: Functions, points: Points): (r: Result<seq<real>>)
    requires points != [] && forall i | 0 <= i < |points| :: points[i].0 > 0.0 && points[i].1 > 0.0
    ensures r.Err? <==> exists i :: 0 <= i < |points| - 1 && SlopeAt(f, points, i).Err?
    ensures r.Ok? ==> |r.value| == |points| - 1
    ensures r.Ok? ==> forall i | 0 <= i < |points| - 1 :: SlopeAt(f, points, i) == Ok(r.value[i])
  {
    if exists i :: 0 <= i < |points| - 1 && SlopeAt(f, points, i).Err? then Err(ZeroDivision)
    else Ok(seq(|points| - 1, i requires 0 <= i < |points| - 1 => SlopeAt(f, points, i).value))
  }

  function LogXs(f: Functions, points: Points): seq<real> {
    Each(Xs(points), f.log)
  }

  function LogYs(f: Functions, points: Points): seq<real> {
    Each(Ys(points), f.log)
  }

  function FitPower(f: Functions, sizes: seq<int>, values: seq<real>): Result<PowerFit> {
    if |sizes| != |values| then Err(Mismatched)
    else
      var points := Kept(sizes, values, false);
      if |points| < 2 then Err(TooFew)
      else
        var xs, ys := LogXs(f, points), LogYs(f, points);
        var fit := Fit(xs, ys);
        match PairSlopes(f, points)
        case Err(refusal) => Err(refusal)
        case Ok(slopes) => Ok(PowerFit(fit.slope, RSquared(xs, ys), f.exp(fit.intercept), slopes))
  }

  lemma LogsIncrease(f: Functions, points: Points)
    requires Lawful(f) && Climbs(points) && forall i | 0 <= i < |points| :: points[i].0 > 0.0
    ensures Increasing(LogXs(f, points))
  {
    var xs := LogXs(f, points);
    forall i, j | 0 <= i < j < |xs| ensures xs[i] < xs[j] {
      assert points[i].0 < points[j].0;
    }
  }

  /** Each pair slope is the steepness of the logarithms from one point to the next. */
  lemma PairSlopesAreSteps(f: Functions, points: Points)
    requires Lawful(f) && Climbs(points)
    requires forall i | 0 <= i < |points| :: points[i].0 > 0.0 && points[i].1 > 0.0
    requires |points| >= 2
    ensures Increasing(LogXs(f, points))
    ensures PairSlopes(f, points) == Ok(Steps(LogXs(f, points), LogYs(f, points)))
  {
    LogsIncrease(f, points);
    hide Increasing, Lawful, Climbs, SlopeAt, PairSlopes, Steps, LogXs, LogYs;
    var steps := Steps(LogXs(f, points), LogYs(f, points));
    forall i | 0 <= i < |points| - 1 ensures SlopeAt(f, points, i) == Ok(steps[i]) { StepIs(f, points, i); }
    SlopesAre(f, points, steps);
  }

  lemma StepIs(f: Functions, points: Points, i: nat)
    requires Lawful(f) && Climbs(points) && i + 1 < |points| && Increasing(LogXs(f, points))
    requires forall j | 0 <= j < |points| :: points[j].0 > 0.0 && points[j].1 > 0.0
    ensures SlopeAt(f, points, i) == Ok(Steps(LogXs(f, points), LogYs(f, points))[i])
  {
    hide Lawful, Climbs, Increasing, PairSlope;
    ClimbsAt(points, i);
    PairSlopeIs(f, points[i], points[i + 1]);
  }

  lemma SlopesAre(f: Functions, points: Points, steps: seq<real>)
    requires points != [] && |steps| == |points| - 1
    requires forall i | 0 <= i < |points| :: points[i].0 > 0.0 && points[i].1 > 0.0
    requires forall i | 0 <= i < |points| - 1 :: SlopeAt(f, points, i) == Ok(steps[i])
    ensures PairSlopes(f, points) == Ok(steps)
  {
    hide SlopeAt;
    assert PairSlopes(f, points).value == steps;
  }

  lemma ClimbsAt(points: Points, i: nat)
    requires Climbs(points) && i + 1 < |points|
    ensures points[i].0 < points[i + 1].0
  {
  }

  lemma PairSlopeIs(f: Functions, p: (real, real), q: (real, real))
    requires Lawful(f) && 0.0 < p.0 < q.0 && p.1 > 0.0 && q.1 > 0.0
    ensures f.log(q.0) - f.log(p.0) > 0.0
    ensures PairSlope(f, p, q) == Ok((f.log(q.1) - f.log(p.1)) / (f.log(q.0) - f.log(p.0)))
  {
    LogOfQuotient(f.log, q.0, p.0);
    LogOfQuotient(f.log, q.1, p.1);
    assert f.log(p.0) < f.log(q.0);
  }

  function Least(xs: seq<real>): (m: real)
    requires xs != []
    ensures m in xs && forall i | 0 <= i < |xs| :: m <= xs[i]
  {
    if |xs| == 1 then xs[0]
    else
      var m := Least(xs[1..]);
      assert forall i | 0 < i < |xs| :: xs[i] == xs[1..][i - 1];
      if xs[0] < m then xs[0] else m
  }

  function Greatest(xs: seq<real>): (m: real)
    requires xs != []
    ensures m in xs && forall i | 0 <= i < |xs| :: xs[i] <= m
  {
    if |xs| == 1 then xs[0]
    else
      var m := Greatest(xs[1..]);
      assert forall i | 0 < i < |xs| :: xs[i] == xs[1..][i - 1];
      if xs[0] > m then xs[0] else m
  }

  /** On a strictly increasing ladder the fitted exponent lies between the smallest and
      the largest pair slope, and the fit is refused only for want of two points. */
  lemma ExponentBetweenPairSlopes(f: Functions, sizes: seq<int>, values: seq<real>)
    requires Lawful(f) && |sizes| == |values| && Ladder(sizes)
    ensures var r := FitPower(f, sizes, values);
            && (r.Err? <==> |Kept(sizes, values, false)| < 2)
            && (r.Ok? ==> r.value.pairSlopes != [])
            && (r.Ok? ==> Least(r.value.pairSlopes) <= r.value.exponent <= Greatest(r.value.pairSlopes))
  {
    var points := Kept(sizes, values, false);
    KeptClimbs(sizes, values, false);
    if |points| >= 2 {
      PairSlopesAreSteps(f, points);
      hide Lawful, Ladder, Climbs, Fit;
      var xs, ys := LogXs(f, points), LogYs(f, points);
      var steps := Steps(xs, ys);
      SlopeBetween(xs, ys, Least(steps), Greatest(steps));
    }
  }

  /** The share of variance is absent exactly when the values used are all the same. */
  lemma PowerShareExactly(f: Functions, sizes: seq<int>, values: seq<real>)
    requires Lawful(f) && |sizes| == |values|
    ensures FitPower(f, sizes, values).Ok? ==>
              var ys, r := Ys(Kept(sizes, values, false)), FitPower(f, sizes, values).value.rSquared;
              && (r.Undefined? <==> forall i | 0 <= i < |ys| :: ys[i] == ys[0])
              && (r.Share? ==> 0.0 <= r.value <= 1.0)
  {
    var points := Kept(sizes, values, false);
    PowerShareIs(f, sizes, values);
    LawfulLogs(f);
    hide RSquared, Lawful, FitPower, IsLog;
    if FitPower(f, sizes, values).Ok? {
      var xs, logs, ys := LogXs(f, points), LogYs(f, points), Ys(points);
      RSquaredRange(xs, logs);
      forall i | 0 <= i < |ys| ensures logs[i] == logs[0] <==> ys[i] == ys[0] {
        LogInjective(f.log, ys[i], ys[0]);
      }
    }
  }

  lemma PowerShareIs(f: Functions, sizes: seq<int>, values: seq<real>)
    requires |sizes| == |values|
    ensures FitPower(f, sizes, values).Ok? ==>
              var points := Kept(sizes, values, false);
              |points| >= 2
              && FitPower(f, sizes, values).value.rSquared == RSquared(LogXs(f, points), LogYs(f, points))
  {
    hide RSquared, Fit, PairSlopes;
  }

  lemma LawfulLogs(f: Functions)
    requires Lawful(f)
    ensures IsLog(f.log) && IsLog(f.log2)
  {
  }

  /** In logarithms no line has a smaller squared error than the power law reported, and
      none but it as small. */
  lemma PowerFitIsOnlyBest(f: Functions, sizes: seq<int>, values: seq<real>, a: real, b: real)
    requires Lawful(f) && FitPower(f, sizes, values).Ok?
    ensures var points, r := Kept(sizes, values, false), FitPower(f, sizes, values).value;
            var xs, ys := LogXs(f, points), LogYs(f, points);
            && r.coefficient > 0.0
            && Error(xs, ys, f.log(r.coefficient), r.exponent) <= Error(xs, ys, a, b)
            && (Error(xs, ys, a, b) <= Error(xs, ys, f.log(r.coefficient), r.exponent) <==>
                  f.log(r.coefficient) == a && r.exponent == b)
  {
    var points := Kept(sizes, values, false);
    LogOfExp(f, Fit(LogXs(f, points), LogYs(f, points)).intercept);
    LogsDiffer(f, points);
    hide Lawful, Fit, Error, RSquared, PairSlopes, SlopeAt;
    FitIsBest(LogXs(f, points), LogYs(f, points), a, b);
    FitIsOnlyBest(LogXs(f, points), LogYs(f, points), a, b);
  }

  lemma LogOfExp(f: Functions, y: real)
    requires Lawful(f)
    ensures f.exp(y) > 0.0 && f.log(f.exp(y)) == y
  {
  }

  /** Whatever the ladder, each pair slope is the rise of the logarithms over their run. */
  lemma PairSlopesExactly(f: Functions, points: Points, i: nat)
    requires Lawful(f) && i + 1 < |points| && forall j | 0 <= j < |points| :: points[j].0 > 0.0 && points[j].1 > 0.0
    requires PairSlopes(f, points).Ok?
    ensures |PairSlopes(f, points).value| == |points| - 1
    ensures Times(PairSlopes(f, points).value[i], f.log(points[i + 1].0) - f.log(points[i].0)) ==
            f.log(points[i + 1].1) - f.log(points[i].1)
  {
    hide Times, Lawful, PairSlopes;
    assert SlopeAt(f, points, i) == Ok(PairSlopes(f, points).value[i]);
    SlopeRises(f, points[i], points[i + 1]);
  }

  /** The pair slopes of a power fit are those of the points it used. */
  lemma PowerSlopesAre(f: Functions, sizes: seq<int>, values: seq<real>)
    requires |sizes| == |values| && FitPower(f, sizes, values).Ok?
    ensures |Kept(sizes, values, false)| >= 2
    ensures PairSlopes(f, Kept(sizes, values, false)) == Ok(FitPower(f, sizes, values).value.pairSlopes)
  {
    hide Fit, RSquared, PairSlopes, Kept;
  }

  lemma SlopeRises(f: Functions, p: (real, real), q: (real, real))
    requires Lawful(f) && p.0 > 0.0 && p.1 > 0.0 && q.0 > 0.0 && q.1 > 0.0 && PairSlope(f, p, q).Ok?
    ensures Times(PairSlope(f, p, q).value, f.log(q.0) - f.log(p.0)) == f.log(q.1) - f.log(p.1)
  {
    hide Times;
    LawfulLogs(f);
    LogOfQuotient(f.log, q.0, p.0);
    LogOfQuotient(f.log, q.1, p.1);
    Quotient(f.log(q.1 / p.1), f.log(q.0 / p.0));
  }

  lemma LogsDiffer(f: Functions, points: Points)
    requires |points| >= 2 && (forall i | 0 <= i < |points| :: points[i].0 > 0.0 && points[i].1 > 0.0)
    requires PairSlopes(f, points).Ok? && Lawful(f)
    ensures LogXs(f, points)[0] != LogXs(f, points)[1]
  {
    hide Lawful, PairSlope;
    assert SlopeAt(f, points, 0).Ok?;
    SlopeRefused(f, points[0], points[1]);
    LawfulLogs(f);
    LogInjective(f.log, points[0].0, points[1].0);
  }

  lemma SlopeRefused(f: Functions, p: (real, real), q: (real, real))
    requires Lawful(f) && p.0 > 0.0 && p.1 > 0.0 && q.0 > 0.0
    ensures PairSlope(f, p, q).Err? <==> p.0 == q.0
  {
    LogOfQuotient(f.log, q.0, p.0);
    LogInjective(f.log, q.0, p.0);
  }

  /** A power fit is refused for unequal lengths, for fewer than two usable points, or for
      two usable points in a row of one size. */
  lemma PowerRefusedExactly(f: Functions, sizes: seq<int>, values: seq<real>)
    requires Lawful(f)
    ensures FitPower(f, sizes, values) == Err(Mismatched) <==> |sizes| != |values|
    ensures FitPower(f, sizes, values) == Err(TooFew) <==>
              |sizes| == |values| && |Kept(sizes, values, false)| < 2
    ensures FitPower(f, sizes, values) == Err(ZeroDivision) <==>
              && |sizes| == |values|
              && exists i | 0 <= i < |Kept(sizes, values, false)| - 1 ::
                   Kept(sizes, values, false)[i].0 == Kept(sizes, values, false)[i + 1].0
    ensures FitPower(f, sizes, values).Err? ==> FitPower(f, sizes, values).refusal != NoModels
  {
    if |sizes| == |values| {
      var points := Kept(sizes, values, false);
      hide Lawful, Fit, RSquared, PairSlope, Kept;
      forall i | 0 <= i < |points| - 1 ensures SlopeAt(f, points, i).Err? <==> points[i].0 == points[i + 1].0 {
        SlopeRefused(f, points[i], points[i + 1]);
      }
      if |points| >= 2 { SlopesRefused(f, points); }
    }
  }

  lemma SlopesRefused(f: Functions, points: Points)
    requires points != [] && forall i | 0 <= i < |points| :: points[i].0 > 0.0 && points[i].1 > 0.0
    ensures PairSlopes(f, points).Err? <==> exists i :: 0 <= i < |points| - 1 && SlopeAt(f, points, i).Err?
    ensures PairSlopes(f, points).Err? ==> PairSlopes(f, points) == Err(ZeroDivision)
  {
    hide SlopeAt;
  }

  /** A planted power law is recovered: its exponent, its coefficient, and a perfect
      share of the variance unless it is flat. */
  lemma PlantedPower(f: Functions, sizes: seq<int>, values: seq<real>, c: real, e: real)
    requires Lawful(f) && |sizes| == |values| >= 2 && Ladder(sizes) && c > 0.0
    requires forall i | 0 <= i < |sizes| :: sizes[i] > 0 && values[i] == Times(c, f.power(sizes[i] as real, e))
    ensures var r := FitPower(f, sizes, values);
            r.Ok? && r.value.exponent == e && r.value.coefficient == c
            && (r.value.rSquared.Share? ==> r.value.rSquared.value == 1.0)
  {
    hide Times, Lawful, Miss, Fit, RSquared, Ladder, Climbs, Increasing, PairSlopes, Least, Greatest;
    forall i | 0 <= i < |sizes|
      ensures values[i] > 0.0 && Miss(f.log(sizes[i] as real), f.log(values[i]), f.log(c), e) == 0.0
    {
      PowerPoint(f, sizes[i] as real, c, e);
    }
    AllKept(sizes, values, false);
    KeptClimbs(sizes, values, false);
    ExponentBetweenPairSlopes(f, sizes, values);
    var points := Kept(sizes, values, false);
    var xs, ys := LogXs(f, points), LogYs(f, points);
    LogsIncrease(f, points);
    assert OnLine(xs, ys, f.log(c), e);
    LineRecovered(xs, ys, f.log(c), e);
    ExpOfLog(f, c);
  }

  lemma ExpOfLog(f: Functions, c: real)
    requires Lawful(f) && c > 0.0
    ensures f.exp(f.log(c)) == c
  {
  }

  lemma LogOfProduct(log: real -> real, c: real, v: real)
    requires IsLog(log) && c > 0.0 && v > 0.0
    ensures Times(c, v) > 0.0 && log(Times(c, v)) == log(c) + log(v)
  {
    hide Times;
    Positive(c, v);
  }

  lemma PowerLaws(f: Functions, x: real, e: real)
    requires Lawful(f) && x > 0.0
    ensures f.power(x, e) > 0.0 && IsLog(f.log) && IsLog(f.log2)
    ensures f.log(f.power(x, e)) == Times(e, f.log(x)) && f.log2(f.power(x, e)) == Times(e, f.log2(x))
  {
    hide Times, IsLog;
  }

  lemma PowerPoint(f: Functions, x: real, c: real, e: real)
    requires Lawful(f) && x > 0.0 && c > 0.0
    ensures Times(c, f.power(x, e)) > 0.0
    ensures Miss(f.log(x), f.log(Times(c, f.power(x, e))), f.log(c), e) == 0.0
  {
    hide Times, Lawful, IsLog;
    PowerLaws(f, x, e);
    LogOfProduct(f.log, c, f.power(x, e));
  }

  lemma BasePoint(f: Functions, x: real, c: real, base: real)
    requires Lawful(f) && base > 0.0 && c > 0.0
    ensures Times(c, f.power(base, x)) > 0.0
    ensures Miss(x, f.log2(Times(c, f.power(base, x))), f.log2(c), f.log2(base)) == 0.0
  {
    hide Times, Lawful, IsLog;
    PowerLaws(f, base, x);
    LogOfProduct(f.log2, c, f.power(base, x));
    Swap(x, f.log2(base));
  }

  lemma LineRecovered(xs: seq<real>, ys: seq<real>, a: real, b: real)
    requires |xs| == |ys| >= 2 && Increasing(xs) && OnLine(xs, ys, a, b)
    ensures Fit(xs, ys) == Line(a, b)
    ensures RSquared(xs, ys).Share? ==> RSquared(xs, ys).value == 1.0
  {
    hide RSquared, Fit, Error, OnLine;
    ErrorNonNegative(xs, ys, a, b);
    ErrorNonNegative(xs, ys, Fit(xs, ys).intercept, Fit(xs, ys).slope);
    assert xs[0] != xs[1];
    FitIsOnlyBest(xs, ys, a, b);
    RSquaredRange(xs, ys);
  }

  lemma {:induction false} AllKept(sizes: seq<int>, values: seq<real>, anySize: bool)
    requires |sizes| == |values|
    requires forall i | 0 <= i < |sizes| :: (anySize || sizes[i] > 0) && values[i] > 0.0
    ensures |Kept(sizes, values, anySize)| == |sizes|
    ensures forall i | 0 <= i < |sizes| :: Kept(sizes, values, anySize)[i] == (sizes[i] as real, values[i])
    decreases |sizes|
  {
    if sizes != [] {
      forall i | 0 <= i < |sizes[1..]| ensures (anySize || sizes[1..][i] > 0) && values[1..][i] > 0.0 {
        assert (anySize || sizes[i + 1] > 0) && values[i + 1] > 0.0;
      }
      AllKept(sizes[1..], values[1..], anySize);
      var rest := Kept(sizes[1..], values[1..], anySize);
      forall i | 0 < i < |sizes| ensures rest[i - 1] == (sizes[i] as real, values[i]) {
        assert sizes[1..][i - 1] == sizes[i] && values[1..][i - 1] == values[i];
      }
    }
  }

  // -------------------------------------------------------------- the exponential fit

  datatype ExponentialFit = ExponentialFit(slope: real, rSquared: Share, coefficient: real)

  function FitExponential(f: Functions, sizes: seq<int>, values: seq<real>): Result<ExponentialFit> {
    if |sizes| != |values| then Err(Mismatched)
    else
      var points := Kept(sizes, values, true);
      if |points| < 2 then Err(TooFew)
      else
        var xs, ys := Xs(points), Each(Ys(points), f.log2);
        var fit := Fit(xs, ys);
        Ok(ExponentialFit(fit.slope, RSquared(xs, ys), f.power(2.0, fit.intercept)))
  }

  /** A planted base is recovered on any ladder: the slope is its doublings per unit. */
  lemma PlantedBase(f: Functions, sizes: seq<int>, values: seq<real>, c: real, base: real)
    requires Lawful(f) && |sizes| == |values| >= 2 && Ladder(sizes) && c > 0.0 && base > 0.0
    requires forall i | 0 <= i < |sizes| :: values[i] == Times(c, f.power(base, sizes[i] as real))
    ensures var r := FitExponential(f, sizes, values);
            r.Ok? && r.value.slope == f.log2(base) && r.value.coefficient == c
            && (r.value.rSquared.Share? ==> r.value.rSquared.value == 1.0)
  {
    hide Times, Lawful, Miss, Fit, RSquared, Ladder, Climbs;
    forall i | 0 <= i < |sizes|
      ensures values[i] > 0.0 && Miss(sizes[i] as real, f.log2(values[i]), f.log2(c), f.log2(base)) == 0.0
    {
      BasePoint(f, sizes[i] as real, c, base);
    }
    AllKept(sizes, values, true);
    KeptClimbs(sizes, values, true);
    var points := Kept(sizes, values, true);
    var xs, ys := Xs(points), Each(Ys(points), f.log2);
    XsIncrease(points);
    assert OnLine(xs, ys, f.log2(c), f.log2(base));
    LineRecovered(xs, ys, f.log2(c), f.log2(base));
    PowerOfTwo(f, c);
  }

  /** Against the sizes no line has a smaller squared error in base-two logarithms than the
      exponential reported. */
  lemma ExponentialFitIsBest(f: Functions, sizes: seq<int>, values: seq<real>, a: real, b: real)
    requires Lawful(f) && FitExponential(f, sizes, values).Ok?
    ensures var points, r := Kept(sizes, values, true), FitExponential(f, sizes, values).value;
            var xs, ys := Xs(points), Each(Ys(points), f.log2);
            && r.coefficient > 0.0
            && Error(xs, ys, f.log2(r.coefficient), r.slope) <= Error(xs, ys, a, b)
            && ((forall i | 0 <= i < |xs| :: xs[i] == xs[0]) ==> r.slope == 0.0)
  {
    var points := Kept(sizes, values, true);
    var xs, ys := Xs(points), Each(Ys(points), f.log2);
    TwoToThe(f, Fit(xs, ys).intercept);
    if forall i | 0 <= i < |xs| :: xs[i] == xs[0] { NoSpreadFit(xs, ys); }
    hide Lawful, Fit, Error, RSquared, Times, Mean;
    FitIsBest(xs, ys, a, b);
  }

  /** The share is absent exactly when the values used are all the same, else in range and
      what the line leaves of the variance subtracted. */
  lemma ExponentialShareExactly(f: Functions, sizes: seq<int>, values: seq<real>)
    requires Lawful(f) && FitExponential(f, sizes, values).Ok?
    ensures var points, r := Kept(sizes, values, true), FitExponential(f, sizes, values).value;
            var xs, ys := Xs(points), Each(Ys(points), f.log2);
            && (r.rSquared.Undefined? <==> forall i | 0 <= i < |points| :: points[i].1 == points[0].1)
            && (r.rSquared.Share? ==>
                  && 0.0 <= r.rSquared.value <= 1.0
                  && Times(1.0 - r.rSquared.value, Error(xs, ys, Mean(ys), 0.0)) ==
                     Error(xs, ys, f.log2(r.coefficient), r.slope))
  {
    var points := Kept(sizes, values, true);
    var xs, ys := Xs(points), Each(Ys(points), f.log2);
    TwoToThe(f, Fit(xs, ys).intercept);
    hide Fit, Error, RSquared, Times, Mean;
    RSquaredRange(xs, ys);
    RSquaredExactly(xs, ys, 0.0);
    SameLogs(f, points);
    hide Lawful;
  }

  lemma SameLogs(f: Functions, points: Points)
    requires Lawful(f) && forall i | 0 <= i < |points| :: points[i].1 > 0.0
    ensures var ys := Each(Ys(points), f.log2);
            (forall i | 0 <= i < |ys| :: ys[i] == ys[0]) <==> forall i | 0 <= i < |points| :: points[i].1 == points[0].1
  {
    LawfulLogs(f);
    hide Lawful, IsLog;
    var ys := Each(Ys(points), f.log2);
    forall i | 0 <= i < |points| ensures ys[i] == ys[0] <==> points[i].1 == points[0].1 {
      LogInjective(f.log2, points[i].1, points[0].1);
    }
  }

  lemma TwoToThe(f: Functions, y: real)
    requires Lawful(f)
    ensures f.power(2.0, y) > 0.0 && f.log2(f.power(2.0, y)) == y
  {
    assert Times(y, 1.0) == y;
    PowerLaws(f, 2.0, y);
  }

  lemma XsIncrease(points: Points)
    requires Climbs(points)
    ensures Increasing(Xs(points))
  {
  }

  lemma PowerOfTwo(f: Functions, c: real)
    requires Lawful(f) && c > 0.0
    ensures f.power(2.0, f.log2(c)) == c
  {
    assert f.log2(f.power(2.0, f.log2(c))) == Times(f.log2(c), 1.0);
    LogInjective(f.log2, f.power(2.0, f.log2(c)), c);
  }

  /** The doubling slope lies between the least and the greatest from point to point. */
  lemma DoublingSlopeBetween(f: Functions, sizes: seq<int>, values: seq<real>)
    requires Lawful(f) && Ladder(sizes) && FitExponential(f, sizes, values).Ok?
    ensures var points := Kept(sizes, values, true);
            var xs, ys := Xs(points), Each(Ys(points), f.log2);
            && Increasing(xs) && Steps(xs, ys) != []
            && Least(Steps(xs, ys)) <= FitExponential(f, sizes, values).value.slope <= Greatest(Steps(xs, ys))
  {
    hide Lawful;
    KeptClimbs(sizes, values, true);
    var points := Kept(sizes, values, true);
    var xs, ys := Xs(points), Each(Ys(points), f.log2);
    var steps := Steps(xs, ys);
    SlopeBetween(xs, ys, Least(steps), Greatest(steps));
  }

  // ------------------------------------------------------------ the choice of a shape

  datatype Model = Model(name: string, term: int -> real)

  datatype Choice = Choice(best: string, scores: map<string, real>)

  function Terms(m: Model, sizes: seq<int>): (r: seq<real>)
    ensures |r| == |sizes| && forall i | 0 <= i < |r| :: r[i] == m.term(sizes[i])
  {
    seq(|sizes|, i requires 0 <= i < |sizes| => m.term(sizes[i]))
  }

  /** The multiple of the shape used, with no intercept. */
  function Coefficient(ts: seq<real>, vs: seq<real>): real
    requires |ts| == |vs|
  {
    var squared := Cross(ts, ts, 0.0, 0.0);
    if squared == 0.0 then 0.0 else Cross(ts, vs, 0.0, 0.0) / squared
  }

  /** No multiple of the shape has a smaller squared error, whatever the points. */
  lemma CoefficientIsBest(ts: seq<real>, vs: seq<real>, c: real)
    requires |ts| == |vs|
    ensures Error(ts, vs, 0.0, Coefficient(ts, vs)) <= Error(ts, vs, 0.0, c)
  {
    hide Times, Cross, Error, Offsets;
    var b, tt, tv := Coefficient(ts, vs), Cross(ts, ts, 0.0, 0.0), Cross(ts, vs, 0.0, 0.0);
    if tt == 0.0 {
      NoSpreadNoCross(ts, vs, 0.0, 0.0);
      Nought(0.0);
    } else {
      Quotient(tv, tt);
    }
    MultipleExpands(ts, vs, b);
    MultipleExpands(ts, vs, c);
    CompleteSquare(b, b, tt, tv);
    CompleteSquare(b, c, tt, tv);
    Square(c - b);
    Nought(0.0);
    Nought(tt);
    SpreadNonNegative(ts, 0.0);
    NonNegative(Times(c - b, c - b), tt);
  }

  lemma MultipleExpands(ts: seq<real>, vs: seq<real>, c: real)
    requires |ts| == |vs|
    ensures Error(ts, vs, 0.0, c) ==
            Cross(vs, vs, 0.0, 0.0) - Times(2.0 * c, Cross(ts, vs, 0.0, 0.0))
            + Times(Times(c, c), Cross(ts, ts, 0.0, 0.0))
  {
    hide Times, Cross, Error, Offsets;
    ErrorExpands(ts, vs, 0.0, c, 0.0, 0.0);
    Nought(c);
    Nought(0.0);
    Nought(|ts| as real);
    Nought(Offsets(vs, 0.0));
    Nought(2.0 * c);
    Nought(Offsets(ts, 0.0));
    assert 2.0 * 0.0 == 0.0;
  }

  /** The squared error of a shape at its best multiple. */
  function ShapeError(m: Model, sizes: seq<int>, vs: seq<real>): real
    requires |sizes| == |vs|
  {
    Error(Terms(m, sizes), vs, 0.0, Coefficient(Terms(m, sizes), vs))
  }

  function Ratio(u: real, d: real): real
    requires d != 0.0
  {
    u / d
  }

  /** The root of the mean squared error, over the mean observation unless that is zero. */
  function Score(f: Functions, m: Model, sizes: seq<int>, vs: seq<real>): real
    requires |sizes| == |vs| && vs != []
  {
    var error := f.sqrt(Ratio(ShapeError(m, sizes, vs), |vs| as real));
    if Mean(vs) != 0.0 then Ratio(error, Mean(vs)) else error
  }

  /** A score, times the mean where that is not zero, is the root of the mean squared error
      of the shape. */
  lemma ScoreExactly(f: Functions, m: Model, sizes: seq<int>, vs: seq<real>)
    requires Lawful(f) && |sizes| == |vs| && vs != []
    ensures var u := if Mean(vs) == 0.0 then Score(f, m, sizes, vs) else Times(Score(f, m, sizes, vs), Mean(vs));
            u >= 0.0 && Times(Times(u, u), |vs| as real) == ShapeError(m, sizes, vs)
  {
    hide Mean, ShapeError, Times;
    var error, n := ShapeError(m, sizes, vs), |vs| as real;
    ShapeErrorNonNegative(m, sizes, vs);
    QuotientOrder(error, 0.0, n);
    assert 0.0 / n == 0.0;
    Quotient(error, n);
    RootSquares(f, error / n);
    hide Lawful;
    if Mean(vs) != 0.0 { Quotient(f.sqrt(Ratio(error, n)), Mean(vs)); }
  }

  lemma RootSquares(f: Functions, x: real)
    requires Lawful(f) && x >= 0.0
    ensures f.sqrt(x) >= 0.0 && Times(f.sqrt(x), f.sqrt(x)) == x
  {
    hide Times;
  }

  /** Each name's score; a name used twice keeps the later shape's. */
  function Scores(f: Functions, models: seq<Model>, sizes: seq<int>, vs: seq<real>): map<string, real>
    requires |sizes| == |vs| && vs != []
  {
    if models == [] then map[]
    else
      var last := models[|models| - 1];
      Scores(f, models[..|models| - 1], sizes, vs)[last.name := Score(f, last, sizes, vs)]
  }

  /** The shape a name stands for: the last one with the name at position `i`. */
  function Effective(models: seq<Model>, i: nat): (k: nat)
    requires i < |models|
    ensures i <= k < |models| && models[k].name == models[i].name
    ensures forall j | k < j < |models| :: models[j].name != models[i].name
  {
    LastNamed(models, models[i].name, |models|, i)
  }

  function LastNamed(models: seq<Model>, name: string, n: nat, i: nat): (k: nat)
    requires i < n <= |models| && models[i].name == name
    ensures i <= k < n && models[k].name == name
    ensures forall j | k < j < n :: models[j].name != name
  {
    if models[n - 1].name == name then n - 1 else LastNamed(models, name, n - 1, i)
  }

  lemma {:induction false} LastScored(f: Functions, models: seq<Model>, sizes: seq<int>, vs: seq<real>, k: nat)
    requires |sizes| == |vs| && vs != [] && k < |models|
    requires forall j | k < j < |models| :: models[j].name != models[k].name
    ensures models[k].name in Scores(f, models, sizes, vs)
    ensures Scores(f, models, sizes, vs)[models[k].name] == Score(f, models[k], sizes, vs)
    decreases |models|
  {
    hide Score;
    var front, last := models[..|models| - 1], |models| - 1;
    if k < last {
      assert front[k] == models[k] && models[last].name != models[k].name;
      forall j | k < j < |front| ensures front[j].name != front[k].name { assert front[j] == models[j]; }
      LastScored(f, front, sizes, vs, k);
    }
  }

  /** Every name is scored, as the last shape with that name. */
  lemma EveryNameScored(f: Functions, models: seq<Model>, sizes: seq<int>, vs: seq<real>)
    requires |sizes| == |vs| && vs != []
    ensures forall i | 0 <= i < |models| :: models[i].name in Scores(f, models, sizes, vs)
    ensures forall i | 0 <= i < |models| ::
              Scores(f, models, sizes, vs)[models[i].name] == Score(f, models[Effective(models, i)], sizes, vs)
  {
    hide Score, Scores;
    forall i | 0 <= i < |models|
      ensures models[i].name in Scores(f, models, sizes, vs)
      ensures Scores(f, models, sizes, vs)[models[i].name] == Score(f, models[Effective(models, i)], sizes, vs)
    {
      LastScored(f, models, sizes, vs, Effective(models, i));
    }
  }

  lemma NamesScored(f: Functions, models: seq<Model>, sizes: seq<int>, vs: seq<real>)
    requires |sizes| == |vs| && vs != []
    ensures forall i | 0 <= i < |models| :: models[i].name in Scores(f, models, sizes, vs)
  {
    hide Score, Scores, Effective;
    EveryNameScored(f, models, sizes, vs);
  }

  /** The name chosen is the earliest whose score no other is below. */
  predicate Chosen(scores: map<string, real>, models: seq<Model>, k: nat) {
    && k < |models| && (forall i | 0 <= i < |models| :: models[i].name in scores)
    && (forall i | 0 <= i < |models| :: scores[models[k].name] <= scores[models[i].name])
    && (forall i | 0 <= i < k :: scores[models[k].name] < scores[models[i].name])
  }

  /** Score every shape, then take the first and change to a later one only for less. */
  method SelectModel(f: Functions, sizes: seq<int>, values: seq<real>, models: seq<Model>)
    returns (r: Result<Choice>, ghost k: nat)
    ensures r == Err(Mismatched) <==> |sizes| != |values|
    ensures r == Err(TooFew) <==> |sizes| == |values| < 2
    ensures r == Err(NoModels) <==> |sizes| == |values| >= 2 && models == []
    ensures r.Err? ==> r.refusal != ZeroDivision
    ensures r.Ok? ==>
              && r.value.scores == Scores(f, models, sizes, values)
              && Chosen(r.value.scores, models, k) && r.value.best == models[k].name
  {
    hide Score;
    k := 0;
    if |sizes| != |values| { return Err(Mismatched), 0; }
    if |sizes| < 2 { return Err(TooFew), 0; }
    var scores: map<string, real> := map[];
    for i := 0 to |models|
      invariant scores == Scores(f, models[..i], sizes, values)
    {
      assert models[..i + 1][..i] == models[..i];
      scores := scores[models[i].name := Score(f, models[i], sizes, values)];
    }
    assert models[..|models|] == models;
    if models == [] { return Err(NoModels), 0; }
    NamesScored(f, models, sizes, values);
    var best := models[0].name;
    for i := 1 to |models|
      invariant k < i && best == models[k].name
      invariant forall j | 0 <= j < i :: scores[best] <= scores[models[j].name]
      invariant forall j | 0 <= j < k :: scores[best] < scores[models[j].name]
    {
      if scores[models[i].name] < scores[best] {
        best := models[i].name;
        k := i;
      }
    }
    return Ok(Choice(best, scores)), k;
  }

  /** Scores order the shapes by their errors, upside down where the mean is negative. */
  lemma ScoreOrder(f: Functions, a: Model, b: Model, sizes: seq<int>, vs: seq<real>)
    requires Lawful(f) && |sizes| == |vs| && vs != []
    ensures Score(f, a, sizes, vs) < Score(f, b, sizes, vs) <==>
              if Mean(vs) >= 0.0 then ShapeError(a, sizes, vs) < ShapeError(b, sizes, vs)
              else ShapeError(a, sizes, vs) > ShapeError(b, sizes, vs)
  {
    hide ShapeError, Mean, Lawful, Ratio;
    var x, y, n, m := ShapeError(a, sizes, vs), ShapeError(b, sizes, vs), |vs| as real, Mean(vs);
    ShapeErrorNonNegative(a, sizes, vs);
    ShapeErrorNonNegative(b, sizes, vs);
    RootMeanOrder(f, x, y, n);
    RootMeanOrder(f, y, x, n);
    if m != 0.0 { OverMeanOrder(f.sqrt(Ratio(x, n)), f.sqrt(Ratio(y, n)), m); }
  }

  lemma ShapeErrorNonNegative(m: Model, sizes: seq<int>, vs: seq<real>)
    requires |sizes| == |vs|
    ensures ShapeError(m, sizes, vs) >= 0.0
  {
    hide Coefficient;
    ErrorNonNegative(Terms(m, sizes), vs, 0.0, Coefficient(Terms(m, sizes), vs));
  }

  lemma RootMeanOrder(f: Functions, x: real, y: real, n: real)
    requires Lawful(f) && x >= 0.0 && y >= 0.0 && n > 0.0
    ensures f.sqrt(Ratio(x, n)) < f.sqrt(Ratio(y, n)) <==> x < y
  {
    hide Lawful;
    QuotientOrder(x, y, n);
    QuotientOrder(x, 0.0, n);
    QuotientOrder(y, 0.0, n);
    RootOrder(f, x / n, y / n);
  }

  lemma OverMeanOrder(u: real, v: real, m: real)
    requires m != 0.0
    ensures Ratio(u, m) < Ratio(v, m) <==> if m > 0.0 then u < v else v < u
  {
    if m > 0.0 {
      QuotientOrder(u, v, m);
    } else {
      QuotientOrder(v, u, -m);
      OppositeQuotient(u, m);
      OppositeQuotient(v, m);
    }
  }

  lemma OppositeQuotient(u: real, m: real)
    requires m != 0.0
    ensures u / -m == -(u / m)
  {
  }

  lemma QuotientOrder(u: real, v: real, d: real)
    requires d > 0.0
    ensures u < v <==> u / d < v / d
  {
    hide Times;
    Quotient(u, d);
    Quotient(v, d);
    Scaling(u / d, v / d, d);
  }

  lemma RootOrder(f: Functions, x: real, y: real)
    requires Lawful(f) && x >= 0.0 && y >= 0.0
    ensures f.sqrt(x) < f.sqrt(y) <==> x < y
  {
    SquareOrder(f.sqrt(x), f.sqrt(y));
  }

  lemma SquareOrder(u: real, v: real)
    requires u >= 0.0 && v >= 0.0
    ensures u < v <==> Times(u, u) < Times(v, v)
  {
    if u < v {
      Scaling(u, v, v);
      NonNegative(u, v - u);
      Spread(u, u, v - u);
      Swap(u, v);
    }
    if v < u {
      Scaling(v, u, u);
      NonNegative(v, u - v);
      Spread(v, v, u - v);
      Swap(u, v);
    }
  }

  /** The error of the shape that the name at position `i` stands for. */
  function NamedError(models: seq<Model>, i: nat, sizes: seq<int>, vs: seq<real>): real
    requires i < |models| && |sizes| == |vs|
  {
    ShapeError(models[Effective(models, i)], sizes, vs)
  }

  /** With a mean that is not negative the choice is the earliest name of least error,
      over every multiple of every named shape; with a negative mean it is the earliest
      of greatest error. */
  lemma ChosenShape(f: Functions, models: seq<Model>, sizes: seq<int>, vs: seq<real>, k: nat)
    requires Lawful(f) && |sizes| == |vs| && vs != [] && Chosen(Scores(f, models, sizes, vs), models, k)
    ensures Mean(vs) >= 0.0 ==>
              && (forall i, c | 0 <= i < |models| ::
                    NamedError(models, k, sizes, vs) <= Error(Terms(models[Effective(models, i)], sizes), vs, 0.0, c))
              && (forall i | 0 <= i < |models| :: NamedError(models, k, sizes, vs) <= NamedError(models, i, sizes, vs))
              && (forall i | 0 <= i < k :: NamedError(models, k, sizes, vs) < NamedError(models, i, sizes, vs))
    ensures Mean(vs) < 0.0 ==>
              && (forall i | 0 <= i < |models| :: NamedError(models, i, sizes, vs) <= NamedError(models, k, sizes, vs))
              && (forall i | 0 <= i < k :: NamedError(models, i, sizes, vs) < NamedError(models, k, sizes, vs))
  {
    EveryNameScored(f, models, sizes, vs);
    hide Lawful, Score, Scores, Mean, Error, Coefficient, ShapeError, Effective;
    forall i | 0 <= i < |models|
      ensures Mean(vs) >= 0.0 ==> NamedError(models, k, sizes, vs) <= NamedError(models, i, sizes, vs)
      ensures Mean(vs) < 0.0 ==> NamedError(models, i, sizes, vs) <= NamedError(models, k, sizes, vs)
    {
      ScoreOrder(f, models[Effective(models, i)], models[Effective(models, k)], sizes, vs);
    }
    forall i | 0 <= i < k
      ensures Mean(vs) >= 0.0 ==> NamedError(models, k, sizes, vs) < NamedError(models, i, sizes, vs)
      ensures Mean(vs) < 0.0 ==> NamedError(models, i, sizes, vs) < NamedError(models, k, sizes, vs)
    {
      ScoreOrder(f, models[Effective(models, k)], models[Effective(models, i)], sizes, vs);
    }
    forall i, c | 0 <= i < |models| && Mean(vs) >= 0.0
      ensures NamedError(models, k, sizes, vs) <= Error(Terms(models[Effective(models, i)], sizes), vs, 0.0, c)
    {
      NamedErrorIsBest(models, i, sizes, vs, c);
    }
  }

  lemma NamedErrorIsBest(models: seq<Model>, i: nat, sizes: seq<int>, vs: seq<real>, c: real)
    requires i < |models| && |sizes| == |vs|
    ensures NamedError(models, i, sizes, vs) <= Error(Terms(models[Effective(models, i)], sizes), vs, 0.0, c)
  {
    hide Error, Coefficient, Effective;
    CoefficientIsBest(Terms(models[Effective(models, i)], sizes), vs, c);
  }

  /** The choice has the least error exactly when the mean is not negative or every
      named shape has the same error. */
  lemma LeastErrorExactly(f: Functions, models: seq<Model>, sizes: seq<int>, vs: seq<real>, k: nat)
    requires Lawful(f) && |sizes| == |vs| && vs != [] && Chosen(Scores(f, models, sizes, vs), models, k)
    ensures (forall i | 0 <= i < |models| :: NamedError(models, k, sizes, vs) <= NamedError(models, i, sizes, vs)) <==>
              Mean(vs) >= 0.0
              || forall i, j | 0 <= i < |models| && 0 <= j < |models| ::
                   NamedError(models, i, sizes, vs) == NamedError(models, j, sizes, vs)
  {
    ChosenShape(f, models, sizes, vs, k);
    hide Lawful, Scores, Mean, Error, Coefficient, NamedError;
  }

  const CONSTANT := Model("constant", (size: int) => 1.0)
  const LINEAR := Model("linear", (size: int) => size as real)

  /** Falling observations that a line through the origin fits perfectly: the constant
      is chosen all the same. */
  lemma NegativeMeanPicksWorst(f: Functions, k: nat)
    requires Lawful(f)
    ensures Chosen(Scores(f, [CONSTANT, LINEAR], [1, 2], [-1.0, -2.0]), [CONSTANT, LINEAR], k) ==> k == 0
    ensures ShapeError(LINEAR, [1, 2], [-1.0, -2.0]) == 0.0 < ShapeError(CONSTANT, [1, 2], [-1.0, -2.0])
  {
    ConstantError();
    LinearError();
    FallingMean();
    hide Lawful, Scores, ShapeError, Mean;
    var models := [CONSTANT, LINEAR];
    assert models[0].name != models[1].name;
    if Chosen(Scores(f, models, [1, 2], [-1.0, -2.0]), models, k) {
      assert Effective(models, 0) == 0 && Effective(models, 1) == 1;
      ChosenShape(f, models, [1, 2], [-1.0, -2.0], k);
      assert NamedError(models, 0, [1, 2], [-1.0, -2.0]) <= NamedError(models, k, [1, 2], [-1.0, -2.0]);
    }
  }

  lemma ConstantError()
    ensures ShapeError(CONSTANT, [1, 2], [-1.0, -2.0]) == 0.5
  {
    hide Error, Coefficient;
    assert Terms(CONSTANT, [1, 2]) == [1.0, 1.0];
    TwoPoints([1.0, 1.0], [-1.0, -2.0], 1.0, 1.0, -1.0, -2.0);
  }

  lemma LinearError()
    ensures ShapeError(LINEAR, [1, 2], [-1.0, -2.0]) == 0.0
  {
    hide Error, Coefficient;
    assert Terms(LINEAR, [1, 2]) == [1.0, 2.0];
    TwoPoints([1.0, 2.0], [-1.0, -2.0], 1.0, 2.0, -1.0, -2.0);
  }

  lemma FallingMean()
    ensures Mean([-1.0, -2.0]) == -1.5
  {
    var vs := [-1.0, -2.0];
    assert vs[1..] == [-2.0] && vs[1..][1..] == [];
    assert Total(vs[1..]) == -2.0;
  }

  lemma TwoPoints(ts: seq<real>, vs: seq<real>, s: real, t: real, v: real, w: real)
    requires ts == [s, t] && vs == [v, w] && s * s + t * t != 0.0
    ensures var c := (s * v + t * w) / (s * s + t * t);
            Error(ts, vs, 0.0, Coefficient(ts, vs)) == (v - c * s) * (v - c * s) + (w - c * t) * (w - c * t)
  {
    assert ts[1..] == [t] && vs[1..] == [w] && ts[1..][1..] == [] && vs[1..][1..] == [];
    assert Cross(ts[1..], ts[1..], 0.0, 0.0) == t * t;
    assert Cross(ts[1..], vs[1..], 0.0, 0.0) == t * w;
    assert Cross(ts, ts, 0.0, 0.0) == s * s + t * t;
    assert Cross(ts, vs, 0.0, 0.0) == s * v + t * w;
    var c := (s * v + t * w) / (s * s + t * t);
    assert Coefficient(ts, vs) == c;
    assert Error(ts[1..], vs[1..], 0.0, c) == (w - c * t) * (w - c * t);
  }
}
