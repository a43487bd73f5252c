/** The "Tendência mensal" tab as a function of its inputs: which columns the
    resolver picks, which rows survive date coercion, the order they are
    plotted in, and what the tab shows. */
module Trend {
  import opened Wrappers
  import opened Text
  import opened Frames

  /** One plotted point: the parsed month and the cell drawn against it. */
  datatype Point = Point(date: Date, value: Cell)

  /** The data of one `ax2.plot(x, y, label=...)` call. */
  datatype Line = Line(legend: string, points: seq<Point>)

  /** A row that survived `dropna`, with the date its month cell parsed to. */
  datatype DatedRow = DatedRow(date: Date, cells: seq<Cell>)

  /** What the tab shows: the "not found" info box, the warning that the
      columns could not be identified, or the chart (with the predictions
      table under it when `showPredictions`). `rows` is the filtered and
      sorted working table the lines are read from. */
  datatype TrendView =
    | NotFound
    | Unresolved
    | Chart(monthCol: string, metricCol: string, rows: seq<DatedRow>,
            primary: Line, overlay: Option<Line>, showPredictions: bool)

  /** The name the metric column is preferred by. */
  const EventsName := "events"

  /** The name of the precomputed moving-average column. */
  const MovingAverageName := "ma"

  /** The legend label of the moving-average overlay. */
  const MovingAverageLabel := "moving avg (6m)"

  // ---------------------------------------------------------------------------
  // Step 1: header normalisation

  /** `[c.lower() for c in df.columns]`: one lower-case name per column, in order. */
  function LowerNames(names: seq<string>): (r: seq<string>)
    ensures |r| == |names|
    ensures forall j :: 0 <= j < |r| ==> IsLowerCase(r[j]) && EqualIgnoringCase(r[j], names[j])
  {
    seq(|names|, j requires 0 <= j < |names| => Lower(names[j]))
  }

  /** The table after `df.columns = cols`: every column renamed to its
      lower-case spelling and nothing else changed (the number and order of
      columns, their cells and dtypes, the row count). */
  function Normalise(f: Frame): (g: Frame)
    ensures g.height == f.height && |g.columns| == |f.columns|
    ensures Rectangular(f) ==> Rectangular(g)
    ensures Names(g.columns) == LowerNames(Names(f.columns))
    ensures forall j :: 0 <= j < |g.columns| ==>
      g.columns[j].name == Lower(f.columns[j].name)
      && g.columns[j].isNumeric == f.columns[j].isNumeric
      && g.columns[j].values == f.columns[j].values
  {
    f.(columns := Relabel(f.columns, LowerNames(Names(f.columns))))
  }

  /** Normalising twice is normalising once. */
  lemma {:induction false} NormaliseIdempotent(f: Frame)
    ensures Normalise(Normalise(f)) == Normalise(f)
  {
    var g := Normalise(f);
    var h := Normalise(g);
    assert |h.columns| == |g.columns|;
    forall j | 0 <= j < |g.columns|
      ensures h.columns[j] == g.columns[j]
    {
      LowerIdempotent(f.columns[j].name);
    }
  }

  // ---------------------------------------------------------------------------
  // Step 2: the month column

  /** Position of the first month-like name, scanning left to right. */
  function FirstMonthLike(names: seq<string>): (r: Option<nat>)
    ensures r.Some? ==> r.value < |names| && IsMonthLike(names[r.value])
    ensures r.Some? ==> forall j :: 0 <= j < r.value ==> !IsMonthLike(names[j])
    ensures r.None? ==> forall j :: 0 <= j < |names| ==> !IsMonthLike(names[j])
  {
    if |names| == 0 then None
    else if IsMonthLike(names[0]) then Some(0)
    else match FirstMonthLike(names[1..])
      case None => None
      case Some(k) => Some(k + 1)
  }

  /** `month_col`: the name of the first month-like column, or `None`. */
  function MonthColumn(names: seq<string>): (r: Option<string>)
    ensures r.Some? ==> r.value in names && IsMonthLike(r.value)
    ensures r.None? <==> forall j :: 0 <= j < |names| ==> !IsMonthLike(names[j])
  {
    match FirstMonthLike(names)
    case None => None
    case Some(k) => Some(names[k])
  }

  /** The month column is the first column whose name contains a keyword:
      it contains one, no column before it does, and it is `None` exactly
      when no column name contains any keyword. */
  lemma MonthColumnIsFirstMatch(names: seq<string>, k: nat)
    requires k < |names| && IsMonthLike(names[k])
    requires forall j :: 0 <= j < k ==> !IsMonthLike(names[j])
    ensures MonthColumn(names) == Some(names[k])
  {
    var r := FirstMonthLike(names);
    assert r.Some?;
    assert !(r.value < k) && !(k < r.value);
  }

  /** With no keyword in any name, no month column is found. */
  lemma NoMonthLikeNoMonthColumn(names: seq<string>)
    requires forall j :: 0 <= j < |names| ==> !IsMonthLike(names[j])
    ensures MonthColumn(names) == None
  {
  }

  // ---------------------------------------------------------------------------
  // Step 3: the metric column

  /** `[c for c in df.columns if is_numeric_dtype(df[c])]`. */
  function NumericNames(cols: seq<Column>): (r: seq<string>)
    ensures forall n :: n in r <==> exists j :: 0 <= j < |cols| && cols[j].isNumeric && cols[j].name == n
  {
    if |cols| == 0 then []
    else (if cols[0].isNumeric then [cols[0].name] else []) + NumericNames(cols[1..])
  }

  /** `[c for c in names if c != month_col]`. */
  function Excluding(names: seq<string>, month: Option<string>): (r: seq<string>)
    ensures forall n :: n in r <==> n in names && Some(n) != month
  {
    if |names| == 0 then []
    else (if Some(names[0]) != month then [names[0]] else []) + Excluding(names[1..], month)
  }

  /** `events_col`: `events` when the header has it, whatever its dtype;
      otherwise the first surviving numeric name, or `None`. */
  function MetricColumn(cols: seq<Column>, month: Option<string>): (r: Option<string>)
    ensures EventsName in Names(cols) ==> r == Some(EventsName)
    ensures r.Some? ==> r.value in Names(cols)
  {
    if EventsName in Names(cols) then Some(EventsName)
    else
      var candidates := Excluding(NumericNames(cols), month);
      if |candidates| > 0 then
        assert candidates[0] in NumericNames(cols);
        NumericNamesAreNames(cols, candidates[0]);
        Some(candidates[0])
      else None
  }

  /** Every numeric name is a column name. */
  lemma {:induction false} NumericNamesAreNames(cols: seq<Column>, n: string)
    requires n in NumericNames(cols)
    ensures n in Names(cols)
  {
    if n == cols[0].name {
      assert Names(cols)[0] == n;
    } else {
      NumericNamesAreNames(cols[1..], n);
      var j :| 0 <= j < |cols| - 1 && Names(cols[1..])[j] == n;
      assert Names(cols)[j + 1] == n;
    }
  }

  /** A column that may serve as the metric when `events` is absent. */
  predicate IsCandidate(c: Column, month: Option<string>) {
    c.isNumeric && Some(c.name) != month
  }

  /** Reference definition: the position of the first numeric column, in
      column order, whose name is not the month column's. */
  function FirstCandidate(cols: seq<Column>, month: Option<string>): (r: Option<nat>)
    ensures r.Some? ==> r.value < |cols| && IsCandidate(cols[r.value], month)
    ensures r.Some? ==> forall j :: 0 <= j < r.value ==> !IsCandidate(cols[j], month)
    ensures r.None? ==> forall j :: 0 <= j < |cols| ==> !IsCandidate(cols[j], month)
  {
    if |cols| == 0 then None
    else if IsCandidate(cols[0], month) then Some(0)
    else match FirstCandidate(cols[1..], month)
      case None => None
      case Some(k) => Some(k + 1)
  }

  /** The two list comprehensions and `num_cols[0]` pick exactly the first
      candidate column, and nothing when there is none. */
  lemma {:induction false} CandidatesStartAtFirst(cols: seq<Column>, month: Option<string>)
    ensures var c := Excluding(NumericNames(cols), month);
      match FirstCandidate(cols, month)
      case None => c == []
      case Some(k) => |c| > 0 && c[0] == cols[k].name
  {
    if |cols| > 0 {
      CandidatesStartAtFirst(cols[1..], month);
      var head := if cols[0].isNumeric then [cols[0].name] else [];
      assert NumericNames(cols) == head + NumericNames(cols[1..]);
      ExcludingAppend(head, NumericNames(cols[1..]), month);
    }
  }

  /** Filtering a concatenation filters each part. */
  lemma {:induction false} ExcludingAppend(a: seq<string>, b: seq<string>, month: Option<string>)
    ensures Excluding(a + b, month) == Excluding(a, month) + Excluding(b, month)
  {
    if |a| > 0 {
      assert (a + b)[1..] == a[1..] + b;
      ExcludingAppend(a[1..], b, month);
    } else {
      assert a + b == b;
    }
  }

  /** Without an `events` column the metric is the first numeric column,
      in column order, that is not the month column; `None` if there is none. */
  lemma MetricIsFirstCandidate(cols: seq<Column>, month: Option<string>)
    requires EventsName !in Names(cols)
    ensures MetricColumn(cols, month) ==
      match FirstCandidate(cols, month)
      case None => None
      case Some(k) => Some(cols[k].name)
  {
    CandidatesStartAtFirst(cols, month);
  }

  /** Whenever both columns are resolved they are different columns: `events`
      never contains a month keyword, and the other candidates exclude the
      month column by name. */
  lemma MetricDiffersFromMonth(cols: seq<Column>)
    ensures var month := MonthColumn(Names(cols));
      var metric := MetricColumn(cols, month);
      month.Some? && metric.Some? ==> metric.value != month.value
  {
    var month := MonthColumn(Names(cols));
    if month.Some? && EventsName in Names(cols) {
      EventsNotMonthLike();
      assert IsMonthLike(month.value);
    } else if month.Some? {
      var c := Excluding(NumericNames(cols), month);
      if |c| > 0 {
        assert c[0] in c;
      }
    }
  }

  // ---------------------------------------------------------------------------
  // Step 5: date coercion, dropna and sort

  /** `pd.to_datetime(cell, errors='coerce')` given the parser: the parsed
      date when the cell parses, NaT otherwise. */
  function ToDatetime(c: Cell, parse: Cell -> Option<Date>): (r: Cell)
    ensures r.Stamp? <==> parse(c).Some?
    ensures r.Stamp? ==> Some(r.date) == parse(c)
    ensures !r.Stamp? ==> r == Missing
  {
    match parse(c)
    case Some(d) => Stamp(d)
    case None => Missing
  }

  /** `pd.to_datetime(column, errors='coerce')`: the coerced cells, with a
      non-numeric (datetime) dtype. */
  function Coerced(c: Column, parse: Cell -> Option<Date>): (r: Column)
    ensures r.name == c.name && !r.isNumeric && |r.values| == |c.values|
    ensures forall i :: 0 <= i < |c.values| ==>
      (r.values[i].Stamp? <==> parse(c.values[i]).Some?)
      && (r.values[i].Stamp? ==> Some(r.values[i].date) == parse(c.values[i]))
  {
    Column(c.name, false, seq(|c.values|, i requires 0 <= i < |c.values| => ToDatetime(c.values[i], parse)))
  }

  /** The table after `df[month_col] = pd.to_datetime(df[month_col], ...)`,
      where column `m` is the first one named `month_col`. */
  function CoerceColumn(f: Frame, m: nat, parse: Cell -> Option<Date>): (g: Frame)
    requires m < |f.columns|
    ensures g.height == f.height && |g.columns| == |f.columns| && Names(g.columns) == Names(f.columns)
    ensures Rectangular(f) ==> Rectangular(g)
  {
    f.(columns := f.columns[m := Coerced(f.columns[m], parse)])
  }

  /** `df.dropna(subset=[month_col])`: the rows whose month cell is a date. */
  function KeepDated(rows: seq<seq<Cell>>, m: nat): (r: seq<DatedRow>)
    ensures |r| <= |rows|
    ensures forall x :: x in r ==> x.cells in rows && m < |x.cells| && x.cells[m] == Stamp(x.date)
    ensures forall row: seq<Cell> :: m < |row| && row[m].Stamp? ==>
      multiset(r)[DatedRow(row[m].date, row)] == multiset(rows)[row]
  {
    if |rows| == 0 then []
    else
      var rest := KeepDated(rows[1..], m);
      assert rows == [rows[0]] + rows[1..];
      if m < |rows[0]| && rows[0][m].Stamp? then [DatedRow(rows[0][m].date, rows[0])] + rest
      else rest
  }

  /** Coercing column `m` changes, in each row, only the month cell: to the
      date it parses to, or to NaT. */
  lemma CoercedRow(f: Frame, m: nat, parse: Cell -> Option<Date>, i: nat)
    requires Rectangular(f) && m < |f.columns| && i < f.height
    ensures Row(CoerceColumn(f, m, parse), i) == Row(f, i)[m := ToDatetime(Row(f, i)[m], parse)]
  {
  }

  /** The rows `dropna` keeps after coercion are exactly the input rows whose
      month cell parses, each with that cell replaced by its date. */
  lemma KeptAreParsed(f: Frame, m: nat, parse: Cell -> Option<Date>, x: DatedRow)
    requires Rectangular(f) && m < |f.columns|
    ensures x in KeepDated(Rows(CoerceColumn(f, m, parse)), m) <==>
      exists i :: 0 <= i < f.height && parse(Row(f, i)[m]) == Some(x.date)
                  && x.cells == Row(f, i)[m := Stamp(x.date)]
  {
    var g := CoerceColumn(f, m, parse);
    var kept := KeepDated(Rows(g), m);
    if x in kept {
      var i :| 0 <= i < f.height && Rows(g)[i] == x.cells;
      CoercedRow(f, m, parse, i);
      assert parse(Row(f, i)[m]) == Some(x.date);
    }
    if exists i :: 0 <= i < f.height && parse(Row(f, i)[m]) == Some(x.date)
                   && x.cells == Row(f, i)[m := Stamp(x.date)] {
      var i :| 0 <= i < f.height && parse(Row(f, i)[m]) == Some(x.date)
               && x.cells == Row(f, i)[m := Stamp(x.date)];
      CoercedRow(f, m, parse, i);
      assert Rows(g)[i] == x.cells;
      assert multiset(kept)[DatedRow(x.cells[m].date, x.cells)] == multiset(Rows(g))[x.cells];
    }
  }

  /** Ordered non-decreasingly by date. */
  predicate SortedByDate(s: seq<DatedRow>) {
    forall i, j :: 0 <= i < j < |s| ==> s[i].date <= s[j].date
  }

  /** Places `x` into a sorted sequence after every row dated earlier. */
  function Insert(x: DatedRow, s: seq<DatedRow>): (r: seq<DatedRow>)
    requires SortedByDate(s)
    ensures SortedByDate(r)
    ensures multiset(r) == multiset(s) + multiset{x}
    ensures r[0] == x || (|s| > 0 && r[0] == s[0])
  {
    if |s| == 0 then [x]
    else if x.date <= s[0].date then [x] + s
    else
      var rest := Insert(x, s[1..]);
      assert s == [s[0]] + s[1..];
      assert s[0].date <= rest[0].date;
      [s[0]] + rest
  }

  /** `df.sort_values(month_col)`: the same rows, non-decreasing by date.
      The order among rows with equal dates is not specified. */
  function SortByDate(s: seq<DatedRow>): (r: seq<DatedRow>)
    ensures SortedByDate(r)
    ensures multiset(r) == multiset(s)
  {
    if |s| == 0 then []
    else
      assert s == [s[0]] + s[1..];
      Insert(s[0], SortByDate(s[1..]))
  }

  /** The points of one line: each row's date against its cell in column `j`. */
  function Points(rows: seq<DatedRow>, j: nat): (r: seq<Point>)
    requires forall x :: x in rows ==> j < |x.cells|
    ensures |r| == |rows|
    ensures forall i :: 0 <= i < |rows| ==> r[i].date == rows[i].date && r[i].value == rows[i].cells[j]
  {
    seq(|rows|, i requires 0 <= i < |rows| => Point(rows[i].date, rows[i].cells[j]))
  }

  // ---------------------------------------------------------------------------
  // Steps 4 to 6: the whole resolver on a normalised table

  /** Every row of a rectangular table has one cell per column, and so has
      every row that survives `dropna` and the sort. */
  lemma {:induction false} DatedRowsAreFull(g: Frame, m: nat, rows: seq<DatedRow>)
    requires Rectangular(g)
    requires multiset(rows) == multiset(KeepDated(Rows(g), m))
    ensures forall x :: x in rows ==> |x.cells| == |g.columns|
  {
    var kept := KeepDated(Rows(g), m);
    forall x | x in rows
      ensures |x.cells| == |g.columns|
    {
      assert x in multiset(kept);
      assert x.cells in Rows(g);
    }
  }

  /** Step 5 and 6 on the coerced table `g`, with the month column at `m`,
      the metric at `e` and the `ma` column, if any, at `ma`: drop the rows
      without a date, sort the rest by date, and read both lines from the
      same sorted rows. */
  function Draw(g: Frame, m: nat, e: nat, ma: Option<nat>, showPredictions: bool): (v: TrendView)
    requires Rectangular(g) && m < |g.columns| && e < |g.columns|
    requires ma.Some? ==> ma.value < |g.columns|
    ensures v.Chart? && v.showPredictions == showPredictions
    ensures v.monthCol == g.columns[m].name && v.metricCol == g.columns[e].name
    // the rows kept are exactly the rows whose month cell is a date, in
    // non-decreasing date order, and no more than there were
    ensures |v.rows| <= g.height
    ensures SortedByDate(v.rows)
    ensures multiset(v.rows) == multiset(KeepDated(Rows(g), m))
    // the primary line plots the metric cell of those rows, in that order
    ensures v.primary.legend == v.metricCol && |v.primary.points| == |v.rows|
    ensures forall i :: 0 <= i < |v.rows| ==>
      |v.rows[i].cells| == |g.columns| && v.primary.points[i] == Point(v.rows[i].date, v.rows[i].cells[e])
    // the overlay, when drawn, plots the `ma` cell of the same rows, in the same order
    ensures v.overlay.Some? <==> ma.Some?
    ensures ma.Some? ==>
      v.overlay.value.legend == MovingAverageLabel
      && |v.overlay.value.points| == |v.rows|
      && forall i :: 0 <= i < |v.rows| ==>
           v.overlay.value.points[i] == Point(v.rows[i].date, v.rows[i].cells[ma.value])
  {
    var kept := KeepDated(Rows(g), m);
    var rows := SortByDate(kept);
    DatedRowsAreFull(g, m, rows);
    Chart(g.columns[m].name, g.columns[e].name, rows,
          Line(g.columns[e].name, Points(rows, e)),
          if ma.Some? then Some(Line(MovingAverageLabel, Points(rows, ma.value))) else None,
          showPredictions)
  }

  /** The resolver on the lower-cased table `f`: the warning when either
      column is missing, otherwise the chart of the coerced table. */
  function Resolve(f: Frame, parse: Cell -> Option<Date>, showPredictions: bool): (v: TrendView)
    requires Rectangular(f)
    ensures var names := Names(f.columns);
      var month := MonthColumn(names);
      var metric := MetricColumn(f.columns, month);
      && (v.Chart? <==> month.Some? && metric.Some?)
      && (!v.Chart? ==> v == Unresolved)
      && (v.Chart? ==>
            && v.monthCol == month.value && v.metricCol == metric.value
            && v.monthCol != v.metricCol
            && v.showPredictions == showPredictions
            && (v.overlay.Some? <==> MovingAverageName in names)
            && var m := IndexOf(names, month.value).value;
               v == Draw(CoerceColumn(f, m, parse), m, IndexOf(names, metric.value).value,
                         IndexOf(names, MovingAverageName), showPredictions))
  {
    var names := Names(f.columns);
    var month := MonthColumn(names);
    var metric := MetricColumn(f.columns, month);
    if month.None? || metric.None? then Unresolved
    else
      MetricDiffersFromMonth(f.columns);
      var m := IndexOf(names, month.value).value;
      var e := IndexOf(names, metric.value).value;
      Draw(CoerceColumn(f, m, parse), m, e, IndexOf(names, MovingAverageName), showPredictions)
  }

  /** The table the loaded DataFrame is left holding: its header lower-cased
      and, when both columns were resolved, its month column coerced to dates. */
  function LeftBehind(f: Frame, parse: Cell -> Option<Date>): (r: Frame)
    requires Rectangular(f)
    ensures Rectangular(r) && r.height == f.height
    ensures Names(r.columns) == LowerNames(Names(f.columns))
    ensures forall j :: 0 <= j < |r.columns| && !IsMonthLike(r.columns[j].name) ==>
      r.columns[j] == Normalise(f).columns[j]
    ensures var names := Names(r.columns); var month := MonthColumn(names);
      forall j :: 0 <= j < |r.columns| ==>
        if month.Some? && MetricColumn(Normalise(f).columns, month).Some? && Some(j) == IndexOf(names, month.value)
        then r.columns[j] == Coerced(Normalise(f).columns[j], parse)
        else r.columns[j] == Normalise(f).columns[j]
  {
    var g := Normalise(f);
    var names := Names(g.columns);
    var month := MonthColumn(names);
    if month.Some? && MetricColumn(g.columns, month).Some? then
      CoerceColumn(g, IndexOf(names, month.value).value, parse)
    else g
  }

  // ---------------------------------------------------------------------------
  // The whole tab

  /** True when `load_csv` found the file and it is not `df.empty`. */
  predicate Present(f: Option<Frame>)
    ensures Present(f) ==> f.Some? && f.value.height > 0 && |f.value.columns| > 0
  {
    f.Some? && !IsEmpty(f.value)
  }

  /** The trend tab: "not found" for a missing or empty trend table, with no
      resolution attempted; otherwise the resolver on the lower-cased table,
      with the predictions table shown under a drawn chart only when it is
      present and non-empty. */
  function TrendTab(trend: Option<Frame>, predictions: Option<Frame>, parse: Cell -> Option<Date>): (v: TrendView)
    requires trend.Some? ==> Rectangular(trend.value) && DistinctNames(LowerNames(Names(trend.value.columns)))
    ensures v.NotFound? <==> !Present(trend)
    ensures v.Chart? ==> v.showPredictions == Present(predictions)
  {
    if !Present(trend) then NotFound
    else
      Resolve(Normalise(trend.value), parse, Present(predictions))
  }

  /** A table with no month-like column name, or with neither an `events`
      column nor a numeric column other than the month column, gets the
      warning and no chart. */
  lemma UnresolvedWithoutColumns(trend: Frame, predictions: Option<Frame>, parse: Cell -> Option<Date>)
    requires Rectangular(trend) && !IsEmpty(trend)
    requires DistinctNames(LowerNames(Names(trend.columns)))
    requires var names := LowerNames(Names(trend.columns));
      (forall j :: 0 <= j < |names| ==> !IsMonthLike(names[j]))
      || (EventsName !in names
          && forall j :: 0 <= j < |names| ==> trend.columns[j].isNumeric ==> Some(names[j]) == MonthColumn(names))
    ensures TrendTab(Some(trend), predictions, parse) == Unresolved
  {
    var g := Normalise(trend);
    var names := Names(g.columns);
    var month := MonthColumn(names);
    if forall j :: 0 <= j < |names| ==> !IsMonthLike(names[j]) {
      NoMonthLikeNoMonthColumn(names);
    } else {
      forall j | 0 <= j < |g.columns|
        ensures !IsCandidate(g.columns[j], month)
      {
        assert g.columns[j].name == names[j];
      }
      MetricIsFirstCandidate(g.columns, month);
      assert MetricColumn(g.columns, month) == None;
    }
    assert Resolve(g, parse, Present(predictions)) == Unresolved;
  }

  /** After lower-casing, a column `k` spelled `month` with no month-like
      name before it is the month column. */
  lemma MonthAfterLowering(trend: Frame, k: nat)
    requires k < |trend.columns| && Lower(trend.columns[k].name) == "month"
    requires forall j :: 0 <= j < k ==> !IsMonthLike(Lower(trend.columns[j].name))
    ensures MonthColumn(Names(Normalise(trend).columns)) == Some("month")
  {
    var names := Names(Normalise(trend).columns);
    assert IsMonthLike("month") by {
      assert Contains("month", "month");
      assert "month" in MonthKeywords;
    }
    assert names[k] == "month";
    assert forall j :: 0 <= j < k ==> !IsMonthLike(names[j]) by {
      forall j | 0 <= j < k
        ensures names[j] == Lower(trend.columns[j].name)
      {
      }
    }
    MonthColumnIsFirstMatch(names, k);
  }

  /** A table whose column `k` lower-cases to `month`, with no month-like
      name before it, and which has a column lower-casing to `events` plots
      `events` against `month`. */
  lemma MonthAndEvents(trend: Frame, predictions: Option<Frame>, parse: Cell -> Option<Date>, k: nat, e: nat)
    requires Rectangular(trend) && trend.height > 0
    requires DistinctNames(LowerNames(Names(trend.columns)))
    requires k < |trend.columns| && Lower(trend.columns[k].name) == "month"
    requires forall j :: 0 <= j < k ==> !IsMonthLike(Lower(trend.columns[j].name))
    requires e < |trend.columns| && Lower(trend.columns[e].name) == EventsName
    ensures var v := TrendTab(Some(trend), predictions, parse);
      v.Chart? && v.monthCol == "month" && v.metricCol == EventsName
  {
    var g := Normalise(trend);
    var names := Names(g.columns);
    MonthAfterLowering(trend, k);
    assert names[e] == EventsName;
    assert MetricColumn(g.columns, Some("month")) == Some(EventsName);
  }

  /** The first match wins even against a literal `month` column: in the
      header `updated, month, events` the column `updated` contains `date`
      and is taken as the month column. */
  lemma EarlierKeywordWins()
    ensures MonthColumn(["updated", "month", EventsName]) == Some("updated")
  {
    assert OccursAt("updated", "date", 2);
    ContainsIffOccurs("updated", "date");
    assert "date" in MonthKeywords;
    MonthColumnIsFirstMatch(["updated", "month", EventsName], 0);
  }
}
