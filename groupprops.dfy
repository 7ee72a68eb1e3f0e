/** What lines 70-74 do to the rows of one location: which cells change, what
    they become, and what stays put. `Sorted` below is the location's rows
    after `sort_values`; the processed block lines up with it row by row. */
module GroupProperties {
  import opened Frame
  import opened Interpolation
  import opened DateOrder
  import opened Cleaning

  /** A cell the sort left present is never changed by interpolation or by
      the zero-fill. */
  lemma PresentCellsKept(group: seq<Row>, width: nat, di: nat, targets: seq<nat>, i: nat, k: nat)
    requires Rectangular(group, width) && i < |group| && k < width
    ensures var sorted := SortByDate(group, di);
      !sorted[i][k].Missing? ==> ProcessGroup(group, width, di, targets)[i][k] == sorted[i][k]
  {
    var sorted := SortByDate(group, di);
    RectangularPermutation(sorted, group, width);
    if k in targets {
      assert Column(sorted, k)[i] == sorted[i][k];
    }
  }

  /** Outside the interpolated columns a cell only changes from missing to 0,
      and only from the third column on. */
  lemma OtherColumnsOnlyFilled(group: seq<Row>, width: nat, di: nat, targets: seq<nat>, i: nat, k: nat)
    requires Rectangular(group, width) && i < |group| && k < width && k !in targets
    ensures var sorted := SortByDate(group, di);
      ProcessGroup(group, width, di, targets)[i][k]
        == if FillFrom <= k && sorted[i][k].Missing? then Num(0.0) else sorted[i][k]
  {
    var sorted := SortByDate(group, di);
    RectangularPermutation(sorted, group, width);
  }

  /** After the zero-fill no cell from the third column on is missing. */
  lemma NothingMissingPastTwo(group: seq<Row>, width: nat, di: nat, targets: seq<nat>)
    requires Rectangular(group, width)
    ensures var r := ProcessGroup(group, width, di, targets);
      forall i, k :: 0 <= i < |r| && FillFrom <= k < width ==> !r[i][k].Missing?
  {
  }

  /** In an interpolated column, a missing cell between two numbers of the
      date-sorted block, with only missing cells between them, gets the
      linear interpolation by row position. */
  lemma GroupInteriorGap(group: seq<Row>, width: nat, di: nat, targets: seq<nat>, k: nat, p: nat, i: nat, q: nat)
    requires Rectangular(group, width) && k < width && k in targets
    requires p < i < q < |group|
    requires var sorted := SortByDate(group, di);
      && sorted[p][k].Num? && sorted[q][k].Num?
      && forall j :: p < j < q ==> sorted[j][k].Missing?
    ensures var sorted := SortByDate(group, di);
      ProcessGroup(group, width, di, targets)[i][k] == Num(Lerp(sorted[p][k].x, sorted[q][k].x, p, q, i))
  {
    var sorted := SortByDate(group, di);
    RectangularPermutation(sorted, group, width);
    var col := Column(sorted, k);
    InteriorGap(col, p, i, q);
  }

  /** In an interpolated column from the third column on, a cell with no
      number before it in the date-sorted block ends up 0. */
  lemma GroupLeadingGap(group: seq<Row>, width: nat, di: nat, targets: seq<nat>, k: nat, i: nat)
    requires Rectangular(group, width) && FillFrom <= k < width && k in targets && i < |group|
    requires forall j :: 0 <= j < i ==> !SortByDate(group, di)[j][k].Num?
    requires SortByDate(group, di)[i][k].Missing?
    ensures ProcessGroup(group, width, di, targets)[i][k] == Num(0.0)
  {
    var sorted := SortByDate(group, di);
    RectangularPermutation(sorted, group, width);
    var col := Column(sorted, k);
    assert forall j :: 0 <= j < i ==> !col[j].Num?;
    StillMissing(col, i);
    assert InterpolateColumns(sorted, width, targets)[i][k] == Missing;
  }
}
