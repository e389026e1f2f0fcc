/** The forecast endpoint: the per-key sums of the y column, a straight line
    fitted by least squares to those sums against their positions 0..N-1,
    and that line read off at the next `periods` positions, with a label for
    each. */
module Forecast {
  import opened Common
  import opened Cells
  import opened Tables
  import opened GroupBy

  /** The JSON body of a forecast request; `periods` defaults to 5. */
  datatype ForecastRequest = ForecastRequest(xAxis: string, yAxis: string, periods: Option<int>)

  const DefaultPeriods: int := 5

  datatype ForecastResponse = ForecastResponse(labels: seq<string>, values: seq<real>)

  /** No frame in the session, a column the frame lacks (KeyError), no
      group to fit (the regression rejects zero samples), or no period to
      predict (the prediction rejects zero samples). `SameAxes`: x and y name
      the same column, so the sums are a series indexed by a level of that
      name and `reset_index` refuses to insert the column twice. */
  datatype ForecastError = NoSessionData | MissingColumn(name: string) | SameAxes | NoSamples | NoPeriods

  // ---------------------------------------------------------------------
  // Least squares

  /** `y = intercept + slope * x`. */
  datatype Line = Line(intercept: real, slope: real)

  function At(l: Line, i: int): real
  {
    l.intercept + l.slope * (i as real)
  }

  /** Sum of the positions 0..n-1. */
  function SumI(n: nat): int
  {
    if n == 0 then 0 else SumI(n - 1) + (n - 1)
  }

  /** Sum of the squared positions 0..n-1. */
  function SumII(n: nat): int
  {
    if n == 0 then 0 else SumII(n - 1) + (n - 1) * (n - 1)
  }

  function SumY(ys: seq<real>): real
  {
    if ys == [] then 0.0 else SumY(ys[..|ys| - 1]) + ys[|ys| - 1]
  }

  /** Sum of position times value. */
  function SumIY(ys: seq<real>): real
  {
    if ys == [] then 0.0
    else SumIY(ys[..|ys| - 1]) + ((|ys| - 1) as real) * ys[|ys| - 1]
  }

  /** `n * sum(i^2) - sum(i)^2` for the positions 0..n-1: the determinant of
      the normal equations. */
  function Spread(n: nat): int
  {
    n * SumII(n) - SumI(n) * SumI(n)
  }

  /** The least-squares slope from the sums over n points: the
      determinant `n * ii - i * i` is zero only for a single point, whose
      line is horizontal. */
  function Slope(n: real, i: real, ii: real, y: real, iy: real): real
  {
    if n * ii - i * i == 0.0 then 0.0 else (n * iy - i * y) / (n * ii - i * i)
  }

  /** The intercept that makes the residuals sum to zero. */
  function Intercept(n: real, i: real, y: real, slope: real): real
    requires n > 0.0
  {
    (y - slope * i) / n
  }

  /** The line `LinearRegression().fit` finds for the points (i, ys[i]):
      the closed-form least-squares solution. It satisfies the normal
      equations of least squares: its residuals sum to zero, and so do the
      residuals weighted by position. These two equations characterise the
      line that minimises the sum of squared residuals (see also `FitExact`). */
  function Fit(ys: seq<real>): (l: Line)
    requires |ys| > 0
    ensures Residuals(ys, l) == 0.0
    ensures WeightedResiduals(ys, l) == 0.0
    ensures |ys| == 1 ==> l == Line(ys[0], 0.0)
  {
    var n, i, ii := |ys| as real, SumI(|ys|) as real, SumII(|ys|) as real;
    var slope := Slope(n, i, ii, SumY(ys), SumIY(ys));
    NormalEquations(ys);
    Line(Intercept(n, i, SumY(ys), slope), slope)
  }

  /** Sum of the residuals `ys[i] - l(i)`. */
  function Residuals(ys: seq<real>, l: Line): real
  {
    if ys == [] then 0.0
    else Residuals(ys[..|ys| - 1], l) + (ys[|ys| - 1] - At(l, |ys| - 1))
  }

  /** Sum of the residuals weighted by their positions. */
  function WeightedResiduals(ys: seq<real>, l: Line): real
  {
    if ys == [] then 0.0
    else
      var n := |ys| - 1;
      WeightedResiduals(ys[..n], l) + (n as real) * (ys[n] - At(l, n))
  }

  lemma {:induction false} SumIClosed(n: nat)
    ensures 2 * SumI(n) == n * (n - 1)
  {
    if n > 0 { SumIClosed(n - 1); }
  }

  lemma {:induction false} SumIIClosed(n: nat)
    ensures 6 * SumII(n) == (n - 1) * n * (2 * n - 1)
  {
    if n > 0 {
      SumIIClosed(n - 1);
      assert (n - 2) * (n - 1) * (2 * n - 3) + 6 * ((n - 1) * (n - 1)) == (n - 1) * n * (2 * n - 1);
    }
  }

  lemma SpreadPolynomial(n: int, i: int, ii: int)
    requires 2 * i == n * (n - 1)
    requires 6 * ii == (n - 1) * n * (2 * n - 1)
    ensures 12 * (n * ii - i * i) == n * n * (n * n - 1)
  {
    assert 12 * (n * ii) == 2 * n * (6 * ii);
    assert 12 * (i * i) == 3 * (2 * i) * (2 * i);
    assert 2 * n * ((n - 1) * n * (2 * n - 1)) - 3 * (n * (n - 1)) * (n * (n - 1)) == n * n * (n * n - 1);
  }

  lemma SquarePositive(n: int)
    requires n >= 2
    ensures n * n * (n * n - 1) > 0
  {
    assert n * n >= 4;
  }

  /** The determinant is n^2 (n^2 - 1) / 12: zero for one point and
      positive from two points on, so the slope is then a true quotient. */
  lemma SpreadClosed(n: nat)
    ensures 12 * Spread(n) == n * n * (n * n - 1)
    ensures n >= 2 ==> Spread(n) > 0
    ensures n == 1 ==> Spread(n) == 0
  {
    SumIClosed(n);
    SumIIClosed(n);
    SpreadPolynomial(n, SumI(n), SumII(n));
    if n >= 2 {
      SquarePositive(n);
    }
  }

  lemma {:induction false} ResidualsLinear(ys: seq<real>, l: Line)
    ensures Residuals(ys, l) ==
      ResidualForm(|ys| as real, SumI(|ys|) as real, SumY(ys), l.intercept, l.slope)
  {
    if ys != [] {
      var n := |ys| - 1;
      ResidualsLinear(ys[..n], l);
      assert l.slope * (SumI(n + 1) as real) == l.slope * (SumI(n) as real) + l.slope * (n as real);
    }
  }

  lemma {:induction false} WeightedResidualsLinear(ys: seq<real>, l: Line)
    ensures WeightedResiduals(ys, l) ==
      WeightedForm(SumI(|ys|) as real, SumII(|ys|) as real, SumIY(ys), l.intercept, l.slope)
  {
    if ys != [] {
      var n := |ys| - 1;
      WeightedResidualsLinear(ys[..n], l);
      var a, b, r := l.intercept, l.slope, n as real;
      assert (SumII(n + 1) as real) == (SumII(n) as real) + r * r;
      assert r * (ys[n] - At(l, n)) == r * ys[n] - a * r - b * (r * r);
      assert b * (SumII(n + 1) as real) == b * (SumII(n) as real) + b * (r * r);
    }
  }

  /** The sum of the residuals of the line (a, b), from the sums. */
  function ResidualForm(n: real, i: real, y: real, a: real, b: real): real
  {
    y - n * a - b * i
  }

  /** The sum of the position-weighted residuals of (a, b), from the sums. */
  function WeightedForm(i: real, ii: real, iy: real, a: real, b: real): real
  {
    iy - a * i - b * ii
  }

  /** The determinant as a real number. */
  lemma SpreadReal(n: nat)
    ensures Spread(n) as real ==
      (n as real) * (SumII(n) as real) - (SumI(n) as real) * (SumI(n) as real)
  {
    var i, ii := SumI(n), SumII(n);
    CastProduct(n, ii);
    CastProduct(i, i);
    assert Spread(n) == n * ii - i * i;
  }

  lemma CastProduct(a: int, b: int)
    ensures (a * b) as real == (a as real) * (b as real)
  {
  }

  /** A vanishing determinant means a single point, at position 0. */
  lemma DegenerateSpread(ys: seq<real>)
    requires |ys| > 0
    requires (|ys| as real) * (SumII(|ys|) as real) - (SumI(|ys|) as real) * (SumI(|ys|) as real) == 0.0
    ensures SumI(|ys|) == 0 && SumIY(ys) == 0.0
  {
    SpreadReal(|ys|);
    SpreadClosed(|ys|);
    assert |ys| == 1;
    assert SumIY(ys) == SumIY([]) + 0.0 * ys[0];
  }

  /** From two points on the determinant is positive. */
  lemma PositiveSpread(n: nat)
    requires n >= 2
    ensures (n as real) * (SumII(n) as real) - (SumI(n) as real) * (SumI(n) as real) > 0.0
  {
    SpreadReal(n);
    SpreadClosed(n);
  }

  lemma ScaleZero(n: real, e: real)
    requires n > 0.0 && n * e == 0.0
    ensures e == 0.0
  {
  }

  lemma QuotientTimes(a: real, d: real)
    requires d != 0.0
    ensures (a / d) * d == a
  {
  }

  /** The normal equations in terms of the sums: the intercept balances the
      residuals and the slope balances the position-weighted residuals. */
  lemma NormalAlgebra(n: real, i: real, ii: real, y: real, iy: real)
    requires n > 0.0
    requires n * ii - i * i == 0.0 ==> i == 0.0 && iy == 0.0
    ensures var b := Slope(n, i, ii, y, iy);
      var a := Intercept(n, i, y, b);
      ResidualForm(n, i, y, a, b) == 0.0 && WeightedForm(i, ii, iy, a, b) == 0.0
  {
    var b := Slope(n, i, ii, y, iy);
    var a := Intercept(n, i, y, b);
    var den := n * ii - i * i;
    QuotientTimes(y - b * i, n);
    assert n * a == y - b * i;
    if den != 0.0 {
      QuotientTimes(n * iy - i * y, den);
      assert b * den == n * iy - i * y;
    }
    var e := iy - a * i - b * ii;
    assert n * e == n * iy - (n * a) * i - b * (n * ii);
    assert n * e == n * iy - (y - b * i) * i - b * (n * ii);
    assert n * e == (n * iy - i * y) - b * den;
    ScaleZero(n, e);
  }

  /** The sums of points on a line give back its slope and intercept. */
  lemma ExactAlgebra(n: real, i: real, ii: real, y: real, iy: real, a: real, b: real)
    requires n > 0.0 && n * ii - i * i > 0.0
    requires ResidualForm(n, i, y, a, b) == 0.0
    requires WeightedForm(i, ii, iy, a, b) == 0.0
    ensures Slope(n, i, ii, y, iy) == b
    ensures Intercept(n, i, y, b) == a
  {
    assert n * iy - i * y == b * (n * ii - i * i);
  }

  /** The normal equations hold for the closed-form line. */
  lemma NormalEquations(ys: seq<real>)
    requires |ys| > 0
    ensures var n, i, ii := |ys| as real, SumI(|ys|) as real, SumII(|ys|) as real;
      var b := Slope(n, i, ii, SumY(ys), SumIY(ys));
      var l := Line(Intercept(n, i, SumY(ys), b), b);
      Residuals(ys, l) == 0.0 && WeightedResiduals(ys, l) == 0.0
  {
    var n, i, ii := |ys| as real, SumI(|ys|) as real, SumII(|ys|) as real;
    var y, iy := SumY(ys), SumIY(ys);
    var b := Slope(n, i, ii, y, iy);
    var a := Intercept(n, i, y, b);
    ResidualsLinear(ys, Line(a, b));
    WeightedResidualsLinear(ys, Line(a, b));
    if n * ii - i * i == 0.0 {
      DegenerateSpread(ys);
    }
    NormalAlgebra(n, i, ii, y, iy);
  }

  /** Points that already lie on a line give back that line: from two
      points on, the intercept and slope themselves. */
  lemma FitExact(ys: seq<real>, l: Line)
    requires |ys| >= 2
    requires forall k | 0 <= k < |ys| :: ys[k] == At(l, k)
    ensures Fit(ys) == l
  {
    var n, i, ii := |ys| as real, SumI(|ys|) as real, SumII(|ys|) as real;
    OnLineResiduals(ys, l);
    ResidualsLinear(ys, l);
    WeightedResidualsLinear(ys, l);
    PositiveSpread(|ys|);
    ExactAlgebra(n, i, ii, SumY(ys), SumIY(ys), l.intercept, l.slope);
  }

  lemma {:induction false} OnLineResiduals(ys: seq<real>, l: Line)
    requires forall k | 0 <= k < |ys| :: ys[k] == At(l, k)
    ensures Residuals(ys, l) == 0.0 && WeightedResiduals(ys, l) == 0.0
  {
    if ys != [] {
      OnLineResiduals(ys[..|ys| - 1], l);
    }
  }

  // ---------------------------------------------------------------------
  // Labels

  predicate Integral(r: real)
  {
    r.Floor as real == r
  }

  /** The key column has an integer dtype: every cell an integral number. */
  predicate IntegerKeys(xs: seq<Cell>)
  {
    forall i | 0 <= i < |xs| :: xs[i].Num? && Integral(xs[i].x)
  }

  /** The labels of the future periods: the integers after the last key
      when the keys are integers, "Future 1", "Future 2", ... otherwise. */
  function FutureLabels(xs: seq<Cell>, last: Cell, periods: nat): (ls: seq<string>)
    ensures |ls| == periods
  {
    if IntegerKeys(xs) && last.Num? then
      seq(periods, j requires 0 <= j < periods => IntToString(last.x.Floor + 1 + j))
    else
      seq(periods, j requires 0 <= j < periods => "Future " + NatToString(j + 1))
  }

  /** One label per period. Integer labels read back as the consecutive
      integers after the last key; the others are "Future " followed by
      the period's number counted from 1. */
  lemma FutureLabelsSpec(xs: seq<Cell>, last: Cell, periods: nat)
    ensures var ls := FutureLabels(xs, last, periods);
      && |ls| == periods
      && (IntegerKeys(xs) && last.Num? ==>
            forall j | 0 <= j < periods :: ParseNumber(ls[j]) == Some((last.x.Floor + 1 + j) as real))
      && (!(IntegerKeys(xs) && last.Num?) ==>
            forall j | 0 <= j < periods :: |ls[j]| > 7 && ls[j][..7] == "Future " &&
              AllDigits(ls[j][7..]) && DigitsValue(ls[j][7..]) == j + 1)
  {
    var ls := FutureLabels(xs, last, periods);
    if IntegerKeys(xs) && last.Num? {
      forall j | 0 <= j < periods
        ensures ParseNumber(ls[j]) == Some((last.x.Floor + 1 + j) as real)
      {
        ParseIntToString(last.x.Floor + 1 + j);
      }
    } else {
      forall j | 0 <= j < periods
        ensures |ls[j]| > 7 && ls[j][..7] == "Future " && AllDigits(ls[j][7..]) && DigitsValue(ls[j][7..]) == j + 1
      {
        assert ls[j][7..] == NatToString(j + 1);
        DigitsRoundTrip(j + 1);
      }
    }
  }

  /** No two future periods share a label. */
  lemma FutureLabelsDistinct(xs: seq<Cell>, last: Cell, periods: nat)
    ensures Distinct(FutureLabels(xs, last, periods))
  {
    var ls := FutureLabels(xs, last, periods);
    FutureLabelsSpec(xs, last, periods);
    forall j, k | 0 <= j < k < periods ensures ls[j] != ls[k] {
      if IntegerKeys(xs) && last.Num? {
        assert ParseNumber(ls[j]) != ParseNumber(ls[k]);
      } else {
        assert DigitsValue(ls[j][7..]) != DigitsValue(ls[k][7..]);
      }
    }
  }

  // ---------------------------------------------------------------------
  // The endpoint

  /** The fitted line read off at the positions n..n+periods-1. */
  function Predictions(l: Line, n: nat, periods: nat): (vs: seq<real>)
    ensures |vs| == periods
  {
    seq(periods, j requires 0 <= j < periods => At(l, n + j))
  }

  function PeriodsOf(req: ForecastRequest): int
  {
    if req.periods.Some? then req.periods.value else DefaultPeriods
  }

  /** What the endpoint answers. */
  function ForecastData(stored: Option<Table>, req: ForecastRequest): Result<ForecastResponse, ForecastError>
    requires stored.Some? ==> WellFormed(stored.value)
  {
    match stored
    case None => Err(NoSessionData)
    case Some(t) => ForecastFrom(t, req)
  }

  /** The forecast from the session frame. Each error holds exactly when
      its cause does, checked in the handler's order: the y column, the x
      column, distinct axes, a group to fit, a period to predict. On success
      there is one distinct label and one value per period, and the values
      lie on the least-squares line of the per-key sums, continued past the
      last sum. */
  function ForecastFrom(t: Table, req: ForecastRequest): (r: Result<ForecastResponse, ForecastError>)
    requires WellFormed(t)
    ensures r == Err(MissingColumn(req.yAxis)) <==> !HasColumn(t, req.yAxis)
    ensures r == Err(MissingColumn(req.xAxis)) <==>
      !HasColumn(t, req.xAxis) && (HasColumn(t, req.yAxis) || req.xAxis == req.yAxis)
    ensures r == Err(SameAxes) <==> HasColumn(t, req.yAxis) && req.xAxis == req.yAxis
    ensures r == Err(NoSamples) <==>
      HasColumn(t, req.yAxis) && HasColumn(t, req.xAxis) && req.xAxis != req.yAxis &&
      forall i | 0 <= i < t.height :: XKeys(t, req.xAxis)[i].Missing?
    ensures r == Err(NoPeriods) <==>
      HasColumn(t, req.yAxis) && HasColumn(t, req.xAxis) && req.xAxis != req.yAxis &&
      PeriodsOf(req) <= 0 && exists i | 0 <= i < t.height :: !XKeys(t, req.xAxis)[i].Missing?
    ensures r.Ok? ==>
      && HasColumn(t, req.yAxis) && HasColumn(t, req.xAxis) && req.xAxis != req.yAxis
      && PeriodsOf(req) > 0
      && |r.value.labels| == |r.value.values| == PeriodsOf(req)
      && Distinct(r.value.labels)
      && var gs := Sums(t, req.xAxis, req.yAxis);
      && gs != []
      && r.value.labels == FutureLabels(XKeys(t, req.xAxis), gs[|gs| - 1].key, PeriodsOf(req))
      && forall j | 0 <= j < PeriodsOf(req) :: r.value.values[j] == At(Fit(Values(gs)), |gs| + j)
  {
    var x, y := req.xAxis, req.yAxis;
    if !HasColumn(t, y) then Err(MissingColumn(y))
    else if !HasColumn(t, x) then Err(MissingColumn(x))
    else if x == y then Err(SameAxes)
    else
      NoGroupsIff(XKeys(t, x), YValues(t, y));
      Extrapolate(XKeys(t, x), Sums(t, x, y), PeriodsOf(req))
  }

  /** The fit over the per-key sums `gs` (keys read from `xs`), then the
      prediction and labels for `periods` future periods: refused when there
      is no sum to fit or no period to predict; otherwise the labels are
      those of the future periods after the last key, no two alike, and
      value j is the fitted line read off at position N + j, N being the
      number of sums. */
  function Extrapolate(xs: seq<Cell>, gs: seq<Group>, periods: int): (r: Result<ForecastResponse, ForecastError>)
    ensures r == Err(NoSamples) <==> gs == []
    ensures r == Err(NoPeriods) <==> gs != [] && periods <= 0
    ensures r.Ok? ==>
      && gs != [] && periods > 0
      && r.value.labels == FutureLabels(xs, gs[|gs| - 1].key, periods)
      && Distinct(r.value.labels)
      && |r.value.values| == periods
      && forall j | 0 <= j < periods :: r.value.values[j] == At(Fit(Values(gs)), |gs| + j)
  {
    if gs == [] then Err(NoSamples)
    else if periods <= 0 then Err(NoPeriods)
    else
      FutureLabelsDistinct(xs, gs[|gs| - 1].key, periods);
      Ok(ForecastResponse(FutureLabels(xs, gs[|gs| - 1].key, periods),
                          Predictions(Fit(Values(gs)), |gs|, periods)))
  }

  /** The handler as written: a fresh frame from the session, the y column
      replaced in place by its numbers, then the sums, the fit and the
      labels. */
  method GetForecastData(stored: Option<Table>, req: ForecastRequest)
    returns (r: Result<ForecastResponse, ForecastError>)
    requires stored.Some? ==> WellFormed(stored.value)
    ensures r == ForecastData(stored, req)
  {
    if stored.None? {
      return Err(NoSessionData);
    }
    var x, y := req.xAxis, req.yAxis;
    var periods := if req.periods.Some? then req.periods.value else DefaultPeriods;
    assert periods == PeriodsOf(req);
    var df := new DataFrame(stored.value);
    ghost var d := df.Value();
    var yc := df.Get(y);
    if yc.None? {
      return Err(MissingColumn(y));
    }
    LookupHeight(d, y);
    var vs := ZeroFilled(yc.value);
    df.Assign(y, Nums(vs));
    var xc := df.Get(x);
    if xc.None? {
      return Err(MissingColumn(x));
    }
    if x == y {
      return Err(SameAxes);
    }
    assert xc.value == XKeys(d, x) && vs == YValues(d, y);
    var gs := GroupBySum(xc.value, vs);
    if gs == [] {
      return Err(NoSamples);
    }
    var line := Fit(Values(gs));
    if periods <= 0 {
      return Err(NoPeriods);
    }
    var values := Predictions(line, |gs|, periods);
    var labels := FutureLabels(xc.value, gs[|gs| - 1].key, periods);
    r := Ok(ForecastResponse(labels, values));
  }
}
