/** The tabular data the dashboard reads: a pandas DataFrame loaded from a CSV
    file, seen as an ordered sequence of named columns of equal length. */
module Frames {
  import opened Wrappers

  /** A pandas `datetime64[ns]` value: nanoseconds since the epoch, totally ordered. */
  type Date = int

  /** One cell. `Missing` is pandas' NaN/NaT; `Stamp` is a parsed date. */
  datatype Cell = Text(text: string) | Number(value: real) | Stamp(date: Date) | Missing

  /** A named column. `isNumeric` stands for `pd.api.types.is_numeric_dtype`
      of the column's inferred dtype. */
  datatype Column = Column(name: string, isNumeric: bool, values: seq<Cell>)

  /** A table as a value: its columns, left to right, and its number of rows. */
  datatype Frame = Frame(columns: seq<Column>, height: nat)

  /** Every column holds one cell per row. */
  predicate Rectangular(f: Frame) {
    forall j :: 0 <= j < |f.columns| ==> |f.columns[j].values| == f.height
  }

  /** `DataFrame.empty`: true when either axis has length zero. */
  predicate IsEmpty(f: Frame) {
    f.height == 0 || |f.columns| == 0
  }

  /** `df.columns`, the header. */
  function Names(cols: seq<Column>): seq<string> {
    seq(|cols|, j requires 0 <= j < |cols| => cols[j].name)
  }

  /** The header with the column names replaced position by position. */
  function Relabel(cols: seq<Column>, names: seq<string>): seq<Column>
    requires |names| == |cols|
  {
    seq(|cols|, j requires 0 <= j < |cols| => cols[j].(name := names[j]))
  }

  /** No two columns share a name. */
  predicate DistinctNames(names: seq<string>) {
    forall i, j :: 0 <= i < j < |names| ==> names[i] != names[j]
  }

  /** The position of the column `df[name]` reads: the first one so named. */
  function IndexOf(names: seq<string>, name: string): (r: Option<nat>)
    ensures r.None? <==> name !in names
    ensures r.Some? ==> r.value < |names| && names[r.value] == name
    ensures r.Some? ==> forall j :: 0 <= j < r.value ==> names[j] != name
  {
    if |names| == 0 then None
    else if names[0] == name then Some(0)
    else match IndexOf(names[1..], name)
      case None => None
      case Some(k) => Some(k + 1)
  }

  /** Row `i`: the `i`-th cell of every column, left to right. */
  function Row(f: Frame, i: nat): seq<Cell>
    requires Rectangular(f) && i < f.height
  {
    seq(|f.columns|, j requires 0 <= j < |f.columns| => f.columns[j].values[i])
  }

  /** All rows, in their stored order. */
  function Rows(f: Frame): seq<seq<Cell>>
    requires Rectangular(f)
  {
    seq(f.height, i requires 0 <= i < f.height => Row(f, i))
  }

  /** A loaded DataFrame whose header and columns the dashboard assigns in place. */
  class DataFrame {
    var columns: seq<Column>
    var height: nat

    ghost predicate Valid()
      reads this
    {
      Rectangular(Frame(columns, height))
    }

    /** The table this object currently holds. */
    function Value(): Frame
      reads this
    {
      Frame(columns, height)
    }

    /** `pd.read_csv(...)`: the parsed file, given as a value. */
    constructor (f: Frame)
      requires Rectangular(f)
      ensures Valid() && Value() == f
    {
      columns := f.columns;
      height := f.height;
    }

    /** `df.columns = names`: renames the columns in place; cells and order stay. */
    method SetHeader(names: seq<string>)
      requires Valid() && |names| == |columns|
      modifies this
      ensures Valid() && height == old(height) && |columns| == |old(columns)|
      ensures Names(columns) == names
      ensures forall j :: 0 <= j < |columns| ==> columns[j] == old(columns[j]).(name := names[j])
    {
      columns := Relabel(columns, names);
    }

    /** `df[name] = col`: replaces the cells and dtype of the column `name`
        (the first so named), keeping its position and name. */
    method SetColumn(name: string, values: seq<Cell>, isNumeric: bool)
      requires Valid() && name in Names(columns) && |values| == height
      modifies this
      ensures Valid() && height == old(height)
      ensures var j := IndexOf(Names(old(columns)), name).value;
        columns == old(columns)[j := Column(name, isNumeric, values)]
    {
      var j := IndexOf(Names(columns), name).value;
      columns := columns[j := Column(name, isNumeric, values)];
    }
  }

  /** The table a possibly absent DataFrame holds (`load_csv` returns `None`
      when the file does not exist). */
  function Snapshot(df: DataFrame?): Option<Frame>
    reads df
  {
    if df == null then None else Some(df.Value())
  }
}
