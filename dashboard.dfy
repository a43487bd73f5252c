/** The "Tendência mensal" tab as the dashboard script runs it: statement by
    statement, assigning the loaded DataFrame's header and month column in
    place, and proved to produce what `Trend.TrendTab` specifies. */
module Dashboard {
  import opened Wrappers
  import opened Text
  import opened Frames
  import opened Trend

  /** The `for c in df.columns` scan with `break`: the first column whose
      name contains a month keyword, or `None`. */
  method DetectMonthColumn(names: seq<string>) returns (monthCol: Option<string>)
    ensures monthCol == MonthColumn(names)
    ensures monthCol.Some? ==> monthCol.value in names && IsMonthLike(monthCol.value)
  {
    monthCol := None;
    var i := 0;
    while i < |names|
      invariant 0 <= i <= |names|
      invariant forall j :: 0 <= j < i ==> !IsMonthLike(names[j])
    {
      if IsMonthLike(names[i]) {
        MonthColumnIsFirstMatch(names, i);
        monthCol := Some(names[i]);
        break;
      }
      i := i + 1;
    }
  }

  /** The tab body: "not found" for a missing or empty trend table; otherwise
      lower-case the header in place, find the month and metric columns, and
      either warn or coerce the month column in place and draw the chart,
      with the predictions table under it when that table is present and
      non-empty. The loaded DataFrame is left as `LeftBehind` describes. */
  method RenderTrendTab(df: DataFrame?, predictions: DataFrame?, parse: Cell -> Option<Date>)
    returns (view: TrendView)
    requires df != null ==> df.Valid() && DistinctNames(LowerNames(Names(df.columns)))
    modifies df
    ensures view == TrendTab(old(Snapshot(df)), old(Snapshot(predictions)), parse)
    ensures df != null && !view.NotFound? ==> df.Valid() && df.Value() == LeftBehind(old(df.Value()), parse)
    ensures df != null && view.NotFound? ==> df.Value() == old(df.Value())
  {
    if df == null || IsEmpty(df.Value()) {
      return NotFound;
    }
    ghost var loaded := df.Value();

    var cols := LowerNames(Names(df.columns));
    df.SetHeader(cols);
    assert df.columns == Normalise(loaded).columns;

    var monthCol := DetectMonthColumn(Names(df.columns));
    var eventsCol := MetricColumn(df.columns, monthCol);

    if monthCol.Some? && eventsCol.Some? {
      var names := Names(df.columns);
      var m := IndexOf(names, monthCol.value).value;
      df.SetColumn(monthCol.value, Coerced(df.columns[m], parse).values, false);
      assert df.Value() == CoerceColumn(Normalise(loaded), m, parse);
      var showPredictions := predictions != null && !IsEmpty(predictions.Value());
      view := Draw(df.Value(), m, IndexOf(names, eventsCol.value).value,
                   IndexOf(names, MovingAverageName), showPredictions);
    } else {
      view := Unresolved;
    }
  }
}
