/** The per-location pass of the cleaning stage (lines 56-75) and the whole
    stage: for each distinct location, in order of first appearance, take its
    rows, sort them by date, interpolate the three vaccination counts, set
    every cell still missing past the first two columns to 0, and append the
    block to the result. */
module Cleaning {
  import opened Frame
  import opened Selection
  import opened Interpolation
  import opened DateOrder

  const Location := "location"
  const Date := "date"

  /** The columns that are interpolated, in the order the source lists them. */
  const InterpColumns: seq<string> := ["people_fully_vaccinated", "people_vaccinated", Booster]

  /** `iloc[:, 2:]`: zero-filling starts at the third column. */
  const FillFrom: nat := 2

  /** `Series.unique()`: each distinct value once, in order of first appearance
      (a missing value counts as one value here). */
  function Unique(s: seq<Cell>): (u: seq<Cell>)
    ensures forall x :: x in u <==> x in s
    ensures forall i, j :: 0 <= i < j < |u| ==> u[i] != u[j]
  {
    if s == [] then []
    else
      var u := Unique(s[..|s| - 1]);
      assert s == s[..|s| - 1] + [s[|s| - 1]];
      if s[|s| - 1] in u then u else u + [s[|s| - 1]]
  }

  /** `df[names]` on a list of labels: the position of each, or the first
      label the table lacks. */
  function ColumnPositions(names: seq<string>, wanted: seq<string>): (r: Result<seq<nat>, CleanError>)
    ensures r.Success? <==> forall w :: w in wanted ==> w in names
    ensures r.Success? ==> |r.value| == |wanted|
    ensures r.Success? ==> forall i :: 0 <= i < |wanted| ==> r.value[i] < |names| && names[r.value[i]] == wanted[i]
    ensures r.Failure? ==> r.error.name in wanted && r.error.name !in names
  {
    if wanted == [] then Success([])
    else match IndexOf(names, wanted[0])
      case None => Failure(MissingColumn(wanted[0]))
      case Some(k) =>
        match ColumnPositions(names, wanted[1..])
        case Failure(e) => Failure(e)
        case Success(ks) =>
          assert forall w :: w in wanted ==> w == wanted[0] || w in wanted[1..];
          Success([k] + ks)
  }

  /** `df[targets] = df[targets].interpolate()`: each target column replaced
      by its interpolation, the other columns as they were. */
  function InterpolateColumns(rows: seq<Row>, width: nat, targets: seq<nat>): (r: seq<Row>)
    requires Rectangular(rows, width)
    ensures Rectangular(r, width) && |r| == |rows|
    ensures forall i, k :: 0 <= i < |rows| && 0 <= k < width && (k !in targets || !rows[i][k].Missing?) ==>
              r[i][k] == rows[i][k]
  {
    seq(|rows|, i requires 0 <= i < |rows| =>
      seq(width, k requires 0 <= k < width =>
        if k in targets then Interpolate(Column(rows, k))[i] else rows[i][k]))
  }

  /** `df.iloc[:, from:] = df.iloc[:, from:].fillna(0)`. */
  function FillMissing(rows: seq<Row>, from: nat): (r: seq<Row>)
    ensures |r| == |rows|
    ensures forall i :: 0 <= i < |rows| ==> |r[i]| == |rows[i]|
    ensures forall i, k :: 0 <= i < |rows| && from <= k < |rows[i]| ==> !r[i][k].Missing?
    ensures forall i, k :: 0 <= i < |rows| && 0 <= k < |rows[i]| && rows[i][k].Missing? && from <= k ==>
              r[i][k] == Num(0.0)
    ensures forall i, k :: 0 <= i < |rows| && 0 <= k < |rows[i]| && (k < from || !rows[i][k].Missing?) ==>
              r[i][k] == rows[i][k]
  {
    seq(|rows|, i requires 0 <= i < |rows| =>
      seq(|rows[i]|, k requires 0 <= k < |rows[i]| =>
        if from <= k && rows[i][k].Missing? then Num(0.0) else rows[i][k]))
  }

  /** Lines 70-74 for the rows of one location. */
  function ProcessGroup(group: seq<Row>, width: nat, di: nat, targets: seq<nat>): (r: seq<Row>)
    requires Rectangular(group, width)
    ensures Rectangular(r, width) && |r| == |group|
  {
    var sorted := SortByDate(group, di);
    RectangularPermutation(sorted, group, width);
    FillMissing(InterpolateColumns(sorted, width, targets), FillFrom)
  }

  /** The blocks of the given locations, one after the other. */
  function Blocks(rows: seq<Row>, width: nat, li: nat, di: nat, targets: seq<nat>, locations: seq<Cell>): (r: seq<Row>)
    requires Rectangular(rows, width)
    ensures Rectangular(r, width)
  {
    if locations == [] then []
    else
      Blocks(rows, width, li, di, targets, locations[..|locations| - 1])
        + ProcessGroup(Loc(rows, li, EqualTo(locations[|locations| - 1])), width, di, targets)
  }

  /** One more location appends its processed block. */
  lemma BlocksStep(rows: seq<Row>, width: nat, li: nat, di: nat, targets: seq<nat>, locations: seq<Cell>, n: nat)
    requires Rectangular(rows, width) && n < |locations|
    ensures Blocks(rows, width, li, di, targets, locations[..n + 1])
      == Blocks(rows, width, li, di, targets, locations[..n])
         + ProcessGroup(Loc(rows, li, EqualTo(locations[n])), width, di, targets)
  {
    assert locations[..n + 1][..n] == locations[..n];
  }

  /** Lines 56-75 as one value: the table the loop leaves in
      `covid_data_interp`. With no location to visit the result is the empty
      frame the loop starts from, without columns. */
  function PerLocation(data: Table): (r: Result<Table, CleanError>)
    requires WellFormed(data)
    ensures r.Failure? ==> r.error.name in [Location, Date] + InterpColumns && r.error.name !in data.columns
    ensures r.Success? ==> r.value == Table([], []) || r.value.columns == data.columns
  {
    match IndexOf(data.columns, Location)
    case None => Failure(MissingColumn(Location))
    case Some(li) =>
      var locations := Unique(Column(data.rows, li));
      if locations == [] then Success(Table([], []))
      else match IndexOf(data.columns, Date)
        case None => Failure(MissingColumn(Date))
        case Some(di) =>
          match ColumnPositions(data.columns, InterpColumns)
          case Failure(e) => Failure(e)
          case Success(targets) =>
            Success(Table(data.columns, Blocks(data.rows, |data.columns|, li, di, targets, locations)))
  }

  /** With `location` and `date` first and some location present, the loop's
      table holds the processed blocks of all locations. */
  lemma PerLocationBlocks(data: Table)
    requires WellFormed(data) && |data.columns| >= 2 && data.columns[0] == Location && data.columns[1] == Date
    requires PerLocation(data).Success? && Unique(Column(data.rows, 0)) != []
    ensures ColumnPositions(data.columns, InterpColumns).Success?
    ensures PerLocation(data).value.rows
      == Blocks(data.rows, |data.columns|, 0, 1, ColumnPositions(data.columns, InterpColumns).value, Unique(Column(data.rows, 0)))
  {
    assert IndexOf(data.columns, Location) == Some(0);
    assert IndexOf(data.columns, Date) == Some(1);
  }

  /** Lines 31-80: the whole cleaning stage as one value. A failure names a
      label looked up on the way, one the input lacks or the pattern
      removed; a success carries only input labels. */
  function Cleaned(raw: Table): (r: Result<Table, CleanError>)
    requires WellFormed(raw)
    ensures r.Failure? ==> r.error.name in [Continent, Booster, Location, Date] + InterpColumns
    ensures r.Failure? ==> r.error.name !in raw.columns || Excluded(r.error.name)
    ensures r.Success? ==> forall c :: c in r.value.columns ==> c in raw.columns
  {
    match SelectData(raw)
    case Failure(e) => Failure(e)
    case Success(data) =>
      SelectedColumns(raw);
      PerLocation(data)
  }

  /** The per-location loop of lines 62-75, growing the result one block at
      a time. */
  method InterpolateByLocation(data: Table) returns (r: Result<Table, CleanError>)
    requires WellFormed(data)
    ensures r == PerLocation(data)
  {
    var width := |data.columns|;
    var li := IndexOf(data.columns, Location);
    if li.None? {
      return Failure(MissingColumn(Location));
    }
    var locations := Unique(Column(data.rows, li.value));
    var interpRows: seq<Row> := [];
    var interpColumns: seq<string> := [];
    for n := 0 to |locations|
      invariant n == 0 ==> interpRows == [] && interpColumns == []
      invariant n > 0 ==> IndexOf(data.columns, Date).Some?
      invariant n > 0 ==> ColumnPositions(data.columns, InterpColumns).Success?
      invariant n > 0 ==> interpColumns == data.columns
      invariant n > 0 ==> interpRows == Blocks(data.rows, width, li.value, IndexOf(data.columns, Date).value,
                                               ColumnPositions(data.columns, InterpColumns).value, locations[..n])
    {
      var group := Loc(data.rows, li.value, EqualTo(locations[n]));
      var di := IndexOf(data.columns, Date);
      if di.None? {
        return Failure(MissingColumn(Date));
      }
      group := SortByDate(group, di.value);
      var targets := ColumnPositions(data.columns, InterpColumns);
      if targets.Failure? {
        return Failure(targets.error);
      }
      RectangularPermutation(group, Loc(data.rows, li.value, EqualTo(locations[n])), width);
      group := InterpolateColumns(group, width, targets.value);
      group := FillMissing(group, FillFrom);
      assert group == ProcessGroup(Loc(data.rows, li.value, EqualTo(locations[n])), width, di.value, targets.value);
      BlocksStep(data.rows, width, li.value, di.value, targets.value, locations, n);
      interpRows := interpRows + group;
      interpColumns := data.columns;
    }
    assert locations[..|locations|] == locations;
    return Success(Table(interpColumns, interpRows));
  }

  /** The cleaning stage: select rows and columns, then the per-location pass. */
  method Clean(raw: Table) returns (r: Result<Table, CleanError>)
    requires WellFormed(raw)
    ensures r == Cleaned(raw)
  {
    var selected := SelectData(raw);
    if selected.Failure? {
      return Failure(selected.error);
    }
    r := InterpolateByLocation(selected.value);
  }
}
