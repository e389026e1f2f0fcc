/** The chart endpoint: an optional drill-down filter on the session frame,
    then either the raw points of a scatter plot or the per-key sums of an
    aggregated chart (bar, line, pie) with their summary insights. */
module Charts {
  import opened Common
  import opened Cells
  import opened Tables
  import opened GroupBy

  /** The JSON body of a chart request. An empty `filterCol` (no or empty
      `filter_col`) or an absent `filterVal` (null) means no drill-down. */
  datatype ChartRequest = ChartRequest(
    xAxis: string, yAxis: string, chartType: string,
    filterCol: string, filterVal: Option<Cell>)

  datatype Point = Point(x: real, y: real)

  /** The "Correlation Coefficient" insight: 0 when no point is left,
      otherwise Pearson's coefficient of the points. */
  datatype Correlation = NoPoints | PearsonOf(points: seq<Point>)

  /** The insights of an aggregated chart, before number formatting. */
  datatype Insights = Insights(
    total: real, average: real,
    highestKey: Cell, highest: real,
    lowestKey: Cell, lowest: real,
    categories: nat)

  datatype ChartResponse =
    | Scatter(points: seq<Point>, correlation: Correlation)
    | Aggregated(groups: seq<Group>, insights: Insights)
      /** The "No data available for this selection." answer. */
    | NoData

  /** Requests the endpoint answers with an error: no frame in the session,
      a column that is not in the frame (KeyError), no group to take the
      largest of (`idxmax` of an empty series), or both axes naming one
      column where pandas then meets that column twice (`corr` of a
      two-column selection, or the pivot on it). */
  datatype ChartError = NoSessionData | MissingColumn(name: string) | NoGroups | SameAxes

  // ---------------------------------------------------------------------
  // Drill-down filter

  /** Whether row `i` of the filter column matches the filter value. When
      `coerce` converts the value to the column's dtype the comparison is
      `==` (a missing value equals nothing); when the conversion fails it
      compares the string forms. `coerce` stands for `astype(col_dtype)`;
      `render(column, cell)` is the text `astype(str)` gives for a cell of
      that column, and `render([v], v)` the text `str(v)` gives for the value
      on its own. */
  predicate Matches(cells: seq<Cell>, i: nat, val: Cell,
                    coerce: (seq<Cell>, Cell) -> Option<Cell>, render: (seq<Cell>, Cell) -> string)
    requires i < |cells|
  {
    match coerce(cells, val)
    case Some(typed) => !typed.Missing? && cells[i] == typed
    case None => render(cells, cells[i]) == render([val], val)
  }

  function MatchMask(cells: seq<Cell>, val: Cell,
                     coerce: (seq<Cell>, Cell) -> Option<Cell>, render: (seq<Cell>, Cell) -> string): (mask: seq<bool>)
    ensures |mask| == |cells|
    ensures forall i | 0 <= i < |cells| :: mask[i] == Matches(cells, i, val, coerce, render)
  {
    seq(|cells|, i requires 0 <= i < |cells| => Matches(cells, i, val, coerce, render))
  }

  predicate Filtering(req: ChartRequest)
  {
    req.filterCol != "" && req.filterVal.Some?
  }

  /** The frame after the drill-down filter. The filter keeps exactly the
      matching rows, in their order, with all their cells; it fails only on a
      filter column the frame lacks, and without a filter the frame is
      untouched. */
  function DrillDown(t: Table, req: ChartRequest,
                     coerce: (seq<Cell>, Cell) -> Option<Cell>, render: (seq<Cell>, Cell) -> string): (r: Result<Table, ChartError>)
    requires WellFormed(t)
    ensures r.Ok? ==> WellFormed(r.value) && Names(r.value.columns) == Names(t.columns)
    ensures r.Err? <==> Filtering(req) && !HasColumn(t, req.filterCol)
    ensures r.Err? ==> r.error == MissingColumn(req.filterCol)
    ensures !Filtering(req) ==> r == Ok(t)
    ensures Filtering(req) && HasColumn(t, req.filterCol) ==>
      var cells := Lookup(t, req.filterCol).value;
      && |cells| == t.height
      && exists keep: seq<nat> |
           && (forall k | 0 <= k < |keep| :: keep[k] < t.height)
           && (forall a, b | 0 <= a < b < |keep| :: keep[a] < keep[b])
           && (forall i | 0 <= i < t.height :: i in keep <==> Matches(cells, i, req.filterVal.value, coerce, render))
         :: r.value == TakeRows(t, keep)
  {
    if !Filtering(req) then Ok(t)
    else
      match Lookup(t, req.filterCol)
      case None => Err(MissingColumn(req.filterCol))
      case Some(cells) =>
        LookupHeight(t, req.filterCol);
        var keep := KeepWhere(MatchMask(cells, req.filterVal.value, coerce, render));
        MatchingRows(cells, req.filterVal.value, coerce, render);
        Ok(TakeRows(t, keep))
  }

  /** The kept positions are the matching rows, in ascending order. */
  lemma MatchingRows(cells: seq<Cell>, val: Cell,
                     coerce: (seq<Cell>, Cell) -> Option<Cell>, render: (seq<Cell>, Cell) -> string)
    ensures var keep := KeepWhere(MatchMask(cells, val, coerce, render));
      && (forall k | 0 <= k < |keep| :: keep[k] < |cells|)
      && (forall a, b | 0 <= a < b < |keep| :: keep[a] < keep[b])
      && (forall i | 0 <= i < |cells| :: i in keep <==> Matches(cells, i, val, coerce, render))
  {
    var mask := MatchMask(cells, val, coerce, render);
    var keep := KeepWhere(mask);
    assert forall i | 0 <= i < |cells| :: i in keep <==> mask[i];
  }

  // ---------------------------------------------------------------------
  // Scatter plots

  /** `df[[x, y]].dropna()` as points: the rows where both coerced axes hold
      numbers, in row order. */
  function Points(xs: seq<Cell>, ys: seq<Cell>): seq<Point>
    requires |xs| == |ys|
  {
    var keep := KeepWhere(BothNumbers(xs, ys));
    seq(|keep|, k requires 0 <= k < |keep| => Point(xs[keep[k]].x, ys[keep[k]].x))
  }

  /** The rows where both cells are numbers. */
  function BothNumbers(xs: seq<Cell>, ys: seq<Cell>): (mask: seq<bool>)
    requires |xs| == |ys|
    ensures |mask| == |xs|
    ensures forall i | 0 <= i < |xs| :: mask[i] == (xs[i].Num? && ys[i].Num?)
  {
    seq(|xs|, i requires 0 <= i < |xs| => xs[i].Num? && ys[i].Num?)
  }

  /** A point per row where both cells are numbers and no other, in row
      order, each carrying that row's two numbers. */
  lemma PointsSpec(xs: seq<Cell>, ys: seq<Cell>)
    requires |xs| == |ys|
    ensures var ps := Points(xs, ys);
      exists keep: seq<nat> |
        && |keep| == |ps|
        && (forall a, b | 0 <= a < b < |keep| :: keep[a] < keep[b])
        && (forall i | 0 <= i < |xs| :: i in keep <==> xs[i].Num? && ys[i].Num?)
        :: forall k | 0 <= k < |keep| :: keep[k] < |xs| && xs[keep[k]].Num? && ys[keep[k]].Num? &&
             ps[k] == Point(xs[keep[k]].x, ys[keep[k]].x)
  {
    var keep := KeepWhere(BothNumbers(xs, ys));
    assert forall i | 0 <= i < |xs| :: i in keep <==> xs[i].Num? && ys[i].Num?;
  }

  /** The scatter branch: both axes coerced to numbers (x first, so a
      missing x column is the one reported), then the points and, when there
      are any, their correlation. With both axes naming one column the
      answer is an error as soon as there is a point. A scatter plot has at
      most one point per row. */
  function ScatterChart(t: Table, x: string, y: string): (r: Result<ChartResponse, ChartError>)
    requires WellFormed(t)
    ensures !HasColumn(t, x) ==> r == Err(MissingColumn(x))
    ensures r.Err? && r.error.MissingColumn? <==> !HasColumn(t, x) || !HasColumn(t, y)
    ensures r == Err(SameAxes) <==>
      && HasColumn(t, x) && x == y
      && exists i | 0 <= i < t.height :: ToNumeric(Lookup(t, x).value)[i].Num?
    ensures r.Ok? ==>
      && HasColumn(t, x) && HasColumn(t, y)
      && r.value.Scatter?
      && r.value.points == Points(ToNumeric(Lookup(t, x).value), ToNumeric(Lookup(t, y).value))
      && |r.value.points| <= t.height
      && (r.value.correlation == NoPoints <==> r.value.points == [])
  {
    if !HasColumn(t, x) then Err(MissingColumn(x))
    else if !HasColumn(t, y) then Err(MissingColumn(y))
    else
      LookupHeight(t, x);
      LookupHeight(t, y);
      var xs := ToNumeric(Lookup(t, x).value);
      var ps := Points(xs, ToNumeric(Lookup(t, y).value));
      PointsSpec(xs, ToNumeric(Lookup(t, y).value));
      PointsNone(xs);
      if x == y && ps != [] then Err(SameAxes)
      else Ok(Scatter(ps, if ps == [] then NoPoints else PearsonOf(ps)))
  }

  /** A column paired with itself has a point exactly when it has a number. */
  lemma PointsNone(xs: seq<Cell>)
    ensures Points(xs, xs) == [] <==> forall i | 0 <= i < |xs| :: !xs[i].Num?
  {
    var keep := KeepWhere(BothNumbers(xs, xs));
    assert |Points(xs, xs)| == |keep|;
    if keep != [] {
      assert xs[keep[0]].Num?;
    }
    forall i | 0 <= i < |xs| && xs[i].Num? ensures keep != [] {
      assert i in keep;
    }
  }

  // ---------------------------------------------------------------------
  // Aggregated charts

  /** The position of the first largest value (`idxmax`). */
  function ArgMax(vs: seq<real>): (i: nat)
    requires |vs| > 0
    ensures i < |vs|
    ensures forall j | 0 <= j < |vs| :: vs[j] <= vs[i]
    ensures forall j | 0 <= j < i :: vs[j] < vs[i]
  {
    if |vs| == 1 then 0
    else
      var k := ArgMax(vs[..|vs| - 1]);
      if vs[|vs| - 1] > vs[k] then |vs| - 1 else k
  }

  /** The position of the first smallest value (`idxmin`). */
  function ArgMin(vs: seq<real>): (i: nat)
    requires |vs| > 0
    ensures i < |vs|
    ensures forall j | 0 <= j < |vs| :: vs[i] <= vs[j]
    ensures forall j | 0 <= j < i :: vs[i] < vs[j]
  {
    if |vs| == 1 then 0
    else
      var k := ArgMin(vs[..|vs| - 1]);
      if vs[|vs| - 1] < vs[k] then |vs| - 1 else k
  }

  /** The insights: the total, the mean, the key and value of the first
      group with the largest value and of the first with the smallest, and
      the number of distinct keys. */
  function Summarize(gs: seq<Group>): (ins: Insights)
    requires |gs| > 0
    ensures ins.total == Total(gs) && IsMean(ins.average, gs)
    ensures forall j | 0 <= j < |gs| :: ins.lowest <= gs[j].value <= ins.highest
    ensures exists i | 0 <= i < |gs| :: gs[i].key == ins.highestKey && gs[i].value == ins.highest
              && forall j | 0 <= j < i :: gs[j].value < ins.highest
    ensures exists i | 0 <= i < |gs| :: gs[i].key == ins.lowestKey && gs[i].value == ins.lowest
              && forall j | 0 <= j < i :: ins.lowest < gs[j].value
    ensures ins.categories == |KeySet(gs)|
  {
    var hi := ArgMax(Values(gs));
    var lo := ArgMin(Values(gs));
    GroupExtremes(gs, hi, lo);
    Insights(Total(gs), Mean(gs), gs[hi].key, gs[hi].value, gs[lo].key, gs[lo].value, |KeySet(gs)|)
  }

  /** The first largest and first smallest positions of the values, read
      on the groups. */
  lemma GroupExtremes(gs: seq<Group>, hi: nat, lo: nat)
    requires |gs| > 0 && hi == ArgMax(Values(gs)) && lo == ArgMin(Values(gs))
    ensures hi < |gs| && lo < |gs|
    ensures forall j | 0 <= j < |gs| :: gs[lo].value <= gs[j].value <= gs[hi].value
    ensures forall j | 0 <= j < hi :: gs[j].value < gs[hi].value
    ensures forall j | 0 <= j < lo :: gs[lo].value < gs[j].value
  {
    var vs := Values(gs);
    assert forall j | 0 <= j < |gs| :: vs[j] == gs[j].value;
  }

  /** The aggregated branch: y coerced first (a missing y column is an
      error), then the "no data" answer for an empty frame or a missing x
      column, then the pivot, which fails when both axes name one column,
      then the per-key sums and their insights. The answer is an error
      exactly when the y column is missing, the axes coincide on a non-empty
      frame, or no row has a key; it is "no data" exactly for an empty frame
      or a missing x column. */
  function Aggregate(t: Table, x: string, y: string): (r: Result<ChartResponse, ChartError>)
    requires WellFormed(t)
    ensures r == Err(MissingColumn(y)) <==> !HasColumn(t, y)
    ensures r == Ok(NoData) <==> HasColumn(t, y) && (t.height == 0 || !HasColumn(t, x))
    ensures r == Err(SameAxes) <==> HasColumn(t, y) && t.height > 0 && x == y
    ensures r == Err(NoGroups) <==>
      && HasColumn(t, y) && t.height > 0 && HasColumn(t, x) && x != y
      && forall i | 0 <= i < t.height :: XKeys(t, x)[i].Missing?
  {
    if !HasColumn(t, y) then Err(MissingColumn(y))
    else if t.height == 0 || !HasColumn(t, x) then Ok(NoData)
    else if x == y then Err(SameAxes)
    else
      var gs := GroupBySum(XKeys(t, x), YValues(t, y));
      NoGroupsIff(XKeys(t, x), YValues(t, y));
      if gs == [] then Err(NoGroups) else Ok(Aggregated(gs, Summarize(gs)))
  }

  /** `m` taken once per group gives the total. */
  predicate IsMean(m: real, gs: seq<Group>)
  {
    m * (|gs| as real) == Total(gs)
  }

  /** `mean()`: the value that, taken once per group, gives the total. */
  function Mean(gs: seq<Group>): (m: real)
    requires |gs| > 0
    ensures IsMean(m, gs)
  {
    Total(gs) / (|gs| as real)
  }

  /** When the aggregated branch answers with groups, they are the per-key
      sums of the coerced y values in ascending key order, their total is
      the sum of y over the rows with a key, and their count is the number
      of distinct keys (the other insights are those of `Summarize`). */
  lemma AggregateGroups(t: Table, x: string, y: string)
    requires WellFormed(t)
    ensures Aggregate(t, x, y).Ok? && Aggregate(t, x, y).value.Aggregated? ==>
      var xs, vs := XKeys(t, x), YValues(t, y);
      var gs := Aggregate(t, x, y).value.groups;
      && gs == GroupBySum(xs, vs)
      && Ordered(gs) && |gs| > 0
      && (forall i | 0 <= i < |gs| :: gs[i].value == RowSum(xs, vs, gs[i].key))
      && Aggregate(t, x, y).value.insights == Summarize(gs)
      && Summarize(gs).total == PresentSum(xs, vs)
      && Summarize(gs).categories == |gs| == |PresentKeys(xs)|
  {
    if HasColumn(t, y) && t.height > 0 && HasColumn(t, x) && x != y {
      var xs, vs := XKeys(t, x), YValues(t, y);
      var gs := GroupBySum(xs, vs);
      GroupBySumSpec(xs, vs);
      if gs != [] {
        OrderedCount(gs);
      }
    }
  }

  // ---------------------------------------------------------------------
  // The endpoint

  /** What the endpoint answers. */
  function ChartData(stored: Option<Table>, req: ChartRequest,
                     coerce: (seq<Cell>, Cell) -> Option<Cell>, render: (seq<Cell>, Cell) -> string): Result<ChartResponse, ChartError>
    requires stored.Some? ==> WellFormed(stored.value)
  {
    match stored
    case None => Err(NoSessionData)
    case Some(t) =>
      match DrillDown(t, req, coerce, render)
      case Err(e) => Err(e)
      case Ok(d) =>
        if req.chartType == "scatter" then ScatterChart(d, req.xAxis, req.yAxis)
        else Aggregate(d, req.xAxis, req.yAxis)
  }

  /** The scatter branch on the handler's frame: each axis is coerced in
      place, then both are read back. The frame is the handler's own copy and
      is dropped after the answer, so only the answer is specified. */
  method ScatterOn(df: DataFrame, x: string, y: string) returns (r: Result<ChartResponse, ChartError>)
    requires WellFormed(df.Value())
    modifies df
    ensures r == ScatterChart(old(df.Value()), x, y)
  {
    ghost var d := df.Value();
    var xc := df.Get(x);
    if xc.None? {
      return Err(MissingColumn(x));
    }
    LookupHeight(d, x);
    df.Assign(x, ToNumeric(xc.value));
    var yc := df.Get(y);
    if yc.None? {
      return Err(MissingColumn(y));
    }
    df.Assign(y, ToNumeric(yc.value));
    var xs := df.Get(x).value;
    var ys := df.Get(y).value;
    if x == y {
      ToNumericIdempotent(xc.value);
    }
    var ps := Points(xs, ys);
    if x == y && ps != [] {
      return Err(SameAxes);
    }
    r := Ok(Scatter(ps, if ps == [] then NoPoints else PearsonOf(ps)));
  }

  /** The aggregated branch on the handler's frame: the y column is
      replaced by its numbers before the emptiness check and the pivot. As
      for `ScatterOn`, only the answer is specified. */
  method AggregateOn(df: DataFrame, x: string, y: string) returns (r: Result<ChartResponse, ChartError>)
    requires WellFormed(df.Value())
    modifies df
    ensures r == Aggregate(old(df.Value()), x, y)
  {
    ghost var d := df.Value();
    var yc := df.Get(y);
    if yc.None? {
      return Err(MissingColumn(y));
    }
    LookupHeight(d, y);
    var vs := ZeroFilled(yc.value);
    df.Assign(y, Nums(vs));
    var xc := df.Get(x);
    if df.height == 0 || xc.None? {
      return Ok(NoData);
    }
    if x == y {
      return Err(SameAxes);
    }
    var gs := GroupBySum(xc.value, vs);
    if gs == [] {
      return Err(NoGroups);
    }
    r := Ok(Aggregated(gs, Summarize(gs)));
  }

  /** The handler as written: a fresh frame from the session, the filtered
      frame in its place, then the branch for the chart type. A scatter
      plot never has more points than the frame has rows. */
  method GetChartData(stored: Option<Table>, req: ChartRequest,
                      coerce: (seq<Cell>, Cell) -> Option<Cell>, render: (seq<Cell>, Cell) -> string)
    returns (r: Result<ChartResponse, ChartError>)
    requires stored.Some? ==> WellFormed(stored.value)
    ensures r == ChartData(stored, req, coerce, render)
    ensures r.Ok? && r.value.Scatter? ==> |r.value.points| <= stored.value.height
  {
    if stored.None? {
      return Err(NoSessionData);
    }
    var df := new DataFrame(stored.value);
    if req.filterCol != "" && req.filterVal.Some? {
      var cells := df.Get(req.filterCol);
      if cells.None? {
        return Err(MissingColumn(req.filterCol));
      }
      LookupHeight(df.Value(), req.filterCol);
      var keep := KeepWhere(MatchMask(cells.value, req.filterVal.value, coerce, render));
      df := new DataFrame(TakeRows(df.Value(), keep));
    }
    assert DrillDown(stored.value, req, coerce, render) == Ok(df.Value());
    if req.chartType == "scatter" {
      r := ScatterOn(df, req.xAxis, req.yAxis);
    } else {
      r := AggregateOn(df, req.xAxis, req.yAxis);
    }
  }
}
