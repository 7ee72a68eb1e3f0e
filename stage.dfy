/** What the whole cleaning stage promises about its outcome and its columns:
    when it fails and with which missing label, which columns come out, and
    that `total_boosters` carries the filtered input's values. */
module StageProperties {
  import opened Frame
  import opened Selection
  import opened Cleaning

  /** The per-location pass fails exactly when a label it looks up is
      missing: `location` always, `date` and the two vaccination columns
      only once the loop runs, that is, when there is a row. With no row the
      result is the empty frame; otherwise it keeps the input's columns. */
  lemma PerLocationOutcome(data: Table)
    requires WellFormed(data)
    ensures var r := PerLocation(data);
      && (r.Success? <==>
            (Location in data.columns
             && (|data.rows| == 0 || (Date in data.columns && forall c :: c in InterpColumns ==> c in data.columns))))
      && (r.Failure? ==> r.error.name in [Location, Date] + InterpColumns && r.error.name !in data.columns)
      && (r.Success? && |data.rows| == 0 ==> r.value == Table([], []))
      && (r.Success? && |data.rows| > 0 ==> r.value.columns == data.columns && WellFormed(r.value))
  {
    match IndexOf(data.columns, Location)
    case None =>
    case Some(li) =>
      var locations := Unique(Column(data.rows, li));
      if |data.rows| > 0 {
        assert Column(data.rows, li)[0] in locations;
      }
  }

  /** The columns that leave the stage: none when the continent filter keeps
      no row; otherwise every input column the pattern does not exclude,
      then `total_boosters` once, last. */
  lemma CleanedColumns(raw: Table)
    requires WellFormed(raw) && Cleaned(raw).Success?
    ensures var kept := Loc(raw.rows, IndexOf(raw.columns, Continent).value, NotMissing);
      var cols := Cleaned(raw).value.columns;
      && (|kept| == 0 ==> Cleaned(raw).value == Table([], []))
      && (|kept| > 0 ==>
            && |cols| > 0 && cols[|cols| - 1] == Booster && Booster !in cols[..|cols| - 1]
            && forall c :: c != Booster ==> (c in cols <==> c in raw.columns && !Excluded(c)))
  {
    var data := SelectData(raw).value;
    assert Cleaned(raw) == PerLocation(data);
    assert |data.rows| == |Loc(raw.rows, IndexOf(raw.columns, Continent).value, NotMissing)|;
    PerLocationOutcome(data);
    if |data.rows| > 0 {
      assert Cleaned(raw).value.columns == data.columns;
      SelectedColumns(raw);
    }
  }

  /** Line 54: the restored `total_boosters` column is, row for row, the
      column of the continent-filtered input. */
  lemma BoosterValues(raw: Table)
    requires WellFormed(raw) && Distinct(raw.columns) && SelectData(raw).Success?
    ensures var kept := Loc(raw.rows, IndexOf(raw.columns, Continent).value, NotMissing);
      var t := SelectData(raw).value;
      && |t.columns| > 0 && t.columns[|t.columns| - 1] == Booster
      && Column(t.rows, |t.columns| - 1) == Column(kept, IndexOf(raw.columns, Booster).value)
  {
    SelectedColumns(raw);
    SelectedCells(raw);
  }
}
