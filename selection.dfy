/** The two whole-table steps that open the cleaning stage: drop the
    aggregate rows that have no continent, then drop every column whose name
    matches the exclusion pattern and put `total_boosters` back. */
module Selection {
  import opened Frame

  const Continent := "continent"
  const Booster := "total_boosters"

  /** The 23 keywords of the exclusion pattern. */
  const Keywords: seq<string> :=
    ["total", "excess", "aged", "extreme", "capita", "cardiovasc",
     "smokers", "tests", "index", "expectancy", "beds", "density",
     "handwashing", "diabetes", "median", "positive", "reproduction",
     "iso_code", "continent", "weekly", "per_million", "per_hundred", "smoothed"]

  /** The line continuations inside the pattern's string literal leave the
      next line's indentation between two bars: three more alternatives,
      runs of 16, 20 and 24 spaces. */
  const Blank16 := "                "
  const Blank20 := Blank16 + "    "
  const Blank24 := Blank20 + "    "

  /** The alternatives of the exclusion pattern, in the order written. */
  const Alternatives: seq<string> :=
    Keywords[..6] + [Blank16] + Keywords[6..12] + [Blank20] + Keywords[12..17] + [Blank24] + Keywords[17..]

  /** `pat` occurs somewhere in `s`. */
  predicate Occurs(pat: string, s: string)
    decreases |s|
  {
    |pat| <= |s| && (s[..|pat|] == pat || Occurs(pat, s[1..]))
  }

  /** A regular-expression search for a bar-separated list of literal
      alternatives succeeds when one of the alternatives occurs: there is
      a position in the name where one of them starts. */
  predicate Excluded(name: string)
    ensures Excluded(name) <==> exists a, i :: 0 <= a < |Alternatives| && OccursAtPos(Alternatives[a], name, i)
  {
    AlternativesAt(name);
    exists k :: 0 <= k < |Alternatives| && Occurs(Alternatives[k], name)
  }

  lemma AlternativesAt(name: string)
    ensures forall a :: 0 <= a < |Alternatives| ==>
              (Occurs(Alternatives[a], name) <==> exists i :: OccursAtPos(Alternatives[a], name, i))
  {
    forall a | 0 <= a < |Alternatives|
      ensures Occurs(Alternatives[a], name) <==> exists i :: OccursAtPos(Alternatives[a], name, i)
    {
      OccursAt(Alternatives[a], name);
    }
  }

  /** `pat` sits in `s` starting at position `i`. */
  predicate OccursAtPos(pat: string, s: string, i: int)
  {
    0 <= i && i + |pat| <= |s| && s[i..i + |pat|] == pat
  }

  /** The recursive search agrees with the positional reading of "contains". */
  lemma {:induction false} OccursAt(pat: string, s: string)
    ensures Occurs(pat, s) <==> exists i :: OccursAtPos(pat, s, i)
    decreases |s|
  {
    if |pat| <= |s| {
      if s[..|pat|] == pat {
        assert OccursAtPos(pat, s, 0);
      } else {
        assert |s| > 0;
        OccursAt(pat, s[1..]);
        if Occurs(pat, s[1..]) {
          var i :| OccursAtPos(pat, s[1..], i);
          assert s[i + 1..i + 1 + |pat|] == s[1..][i..i + |pat|];
          assert OccursAtPos(pat, s, i + 1);
        }
        if i :| OccursAtPos(pat, s, i) {
          assert i > 0;
          assert s[1..][i - 1..i - 1 + |pat|] == s[i..i + |pat|];
          assert OccursAtPos(pat, s[1..], i - 1);
        }
      }
    }
  }

  /** Whatever contains `p + q` contains `p`. */
  lemma {:induction false} OccursOfPrefix(p: string, q: string, s: string)
    requires Occurs(p + q, s)
    ensures Occurs(p, s)
    decreases |s|
  {
    if s[..|p + q|] == p + q {
      assert s[..|p|] == (p + q)[..|p|] == p;
    } else {
      OccursOfPrefix(p, q, s[1..]);
    }
  }

  /** Where each keyword sits among the alternatives: the three blank runs
      take slots 6, 13 and 19. */
  lemma AlternativesLayout()
    ensures |Alternatives| == |Keywords| + 3
    ensures Alternatives[6] == Blank16 && Alternatives[13] == Blank20 && Alternatives[19] == Blank24
    ensures forall a :: 0 <= a < |Alternatives| && a != 6 && a != 13 && a != 19 ==>
              Alternatives[a] == Keywords[if a < 6 then a else if a < 13 then a - 1 else if a < 19 then a - 2 else a - 3]
    ensures forall k :: 0 <= k < |Keywords| ==>
              Keywords[k] == Alternatives[if k < 6 then k else if k < 12 then k + 1 else if k < 17 then k + 2 else k + 3]
  {
  }

  /** Away from runs of 16 spaces, the pattern excludes exactly the names
      that contain one of the 23 keywords. */
  lemma ExcludedByKeywords(name: string)
    requires !Occurs(Blank16, name)
    ensures Excluded(name) <==> exists k :: 0 <= k < |Keywords| && Occurs(Keywords[k], name)
  {
    AlternativesLayout();
    if Excluded(name) {
      var a :| 0 <= a < |Alternatives| && Occurs(Alternatives[a], name);
      if a == 13 { OccursOfPrefix(Blank16, "    ", name); }
      if a == 19 {
        OccursOfPrefix(Blank20, "    ", name);
        OccursOfPrefix(Blank16, "    ", name);
      }
      var k := if a < 6 then a else if a < 13 then a - 1 else if a < 19 then a - 2 else a - 3;
      assert Occurs(Keywords[k], name);
    }
    if k :| 0 <= k < |Keywords| && Occurs(Keywords[k], name) {
      var a := if k < 6 then k else if k < 12 then k + 1 else if k < 17 then k + 2 else k + 3;
      assert Occurs(Alternatives[a], name);
    }
  }

  /** `total_boosters` contains "total", so the pattern always drops it. */
  lemma BoosterExcluded()
    ensures Excluded(Booster)
  {
    assert Booster[..5] == Alternatives[0];
  }

  /** The positions of the columns the pattern does not exclude, ascending. */
  function KeptIndices(names: seq<string>): (r: seq<nat>)
    ensures forall j :: 0 <= j < |r| ==> r[j] < |names| && !Excluded(names[r[j]])
    ensures forall k :: 0 <= k < |names| && !Excluded(names[k]) ==> k in r
    ensures forall i, j :: 0 <= i < j < |r| ==> r[i] < r[j]
  {
    if names == [] then []
    else
      var r := KeptIndices(names[..|names| - 1]);
      if Excluded(names[|names| - 1]) then r else r + [|names| - 1]
  }

  /** The cells of each row at the positions `keep`, in that order. */
  function Project(rows: seq<Row>, width: nat, keep: seq<nat>): (out: seq<Row>)
    requires Rectangular(rows, width)
    requires forall j :: 0 <= j < |keep| ==> keep[j] < width
    ensures |out| == |rows| && Rectangular(out, |keep|)
    ensures forall j :: 0 <= j < |keep| ==> Column(out, j) == Column(rows, keep[j])
  {
    var out := seq(|rows|, i requires 0 <= i < |rows| =>
                 seq(|keep|, j requires 0 <= j < |keep| => rows[i][keep[j]]));
    assert forall j :: 0 <= j < |keep| ==> Column(out, j) == Column(rows, keep[j]);
    out
  }

  /** The table without its excluded columns (columns.drop of the filtered
      names): the kept labels in their input order, each with its cells. */
  function DropExcluded(t: Table): (r: Table)
    requires WellFormed(t)
    ensures WellFormed(r) && |r.rows| == |t.rows|
    ensures var keep := KeptIndices(t.columns);
      && |r.columns| == |keep|
      && forall j :: 0 <= j < |keep| ==> r.columns[j] == t.columns[keep[j]] && Column(r.rows, j) == Column(t.rows, keep[j])
    ensures forall j :: 0 <= j < |r.columns| ==>
              && !Excluded(r.columns[j])
              && exists k :: 0 <= k < |t.columns| && t.columns[k] == r.columns[j] && Column(r.rows, j) == Column(t.rows, k)
  {
    var keep := KeptIndices(t.columns);
    Table(seq(|keep|, j requires 0 <= j < |keep| => t.columns[keep[j]]), Project(t.rows, |t.columns|, keep))
  }

  /** `df[[name]] = values`: overwrite the column called `name` where there is
      one, otherwise add it as the last column. */
  function AssignColumn(t: Table, name: string, values: seq<Cell>): (r: Table)
    requires WellFormed(t) && |values| == |t.rows|
    ensures WellFormed(r) && |r.rows| == |t.rows|
  {
    match IndexOf(t.columns, name)
    case Some(k) => Table(t.columns, SetColumn(t.rows, k, values))
    case None =>
      Table(t.columns + [name], seq(|t.rows|, i requires 0 <= i < |t.rows| => t.rows[i] + [values[i]]))
  }

  /** Lines 37-54: the continent filter, the column exclusion and the restored
      `total_boosters` column. Fails when `continent` or `total_boosters` is
      not a column of the input. */
  function SelectData(raw: Table): (r: Result<Table, CleanError>)
    requires WellFormed(raw)
    ensures r.Success? <==> Continent in raw.columns && Booster in raw.columns
    ensures r.Failure? ==> r.error.name in [Continent, Booster] && r.error.name !in raw.columns
    ensures r.Success? ==> WellFormed(r.value)
    ensures r.Success? ==> |r.value.rows| == |Loc(raw.rows, IndexOf(raw.columns, Continent).value, NotMissing)|
  {
    match IndexOf(raw.columns, Continent)
    case None => Failure(MissingColumn(Continent))
    case Some(ci) =>
      var kept := Table(raw.columns, Loc(raw.rows, ci, NotMissing));
      match IndexOf(kept.columns, Booster)
      case None => Failure(MissingColumn(Booster))
      case Some(bi) => Success(AssignColumn(DropExcluded(kept), Booster, Column(kept.rows, bi)))
  }

  /** Line 50: a column survives the drop exactly when the pattern does not
      exclude its name. */
  lemma DroppedColumns(t: Table)
    requires WellFormed(t)
    ensures forall c :: c in DropExcluded(t).columns <==> c in t.columns && !Excluded(c)
  {
    var keep := KeptIndices(t.columns);
    var cols := DropExcluded(t).columns;
    forall c | c in t.columns && !Excluded(c)
      ensures c in cols
    {
      var k :| 0 <= k < |t.columns| && t.columns[k] == c;
      var j :| 0 <= j < |keep| && keep[j] == k;
      assert cols[j] == c;
    }
  }

  /** Column side of lines 41-54: a column other than `total_boosters`
      survives exactly when its name is not excluded; `total_boosters` is
      there once, as the last column. */
  lemma SelectedColumns(raw: Table)
    requires WellFormed(raw) && SelectData(raw).Success?
    ensures var cols := SelectData(raw).value.columns;
      && |cols| > 0 && cols[|cols| - 1] == Booster && Booster !in cols[..|cols| - 1]
      && forall c :: c != Booster ==> (c in cols <==> c in raw.columns && !Excluded(c))
  {
    BoosterExcluded();
    var ci := IndexOf(raw.columns, Continent).value;
    var kept := Table(raw.columns, Loc(raw.rows, ci, NotMissing));
    var dropped := DropExcluded(kept);
    DroppedColumns(kept);
    var cols := SelectData(raw).value.columns;
    assert cols == dropped.columns + [Booster];
    assert cols[..|cols| - 1] == dropped.columns;
  }

  /** Header of lines 41-54: the labels the pattern keeps, in their input
      order, then `total_boosters`. */
  lemma SelectedHeader(raw: Table)
    requires WellFormed(raw) && SelectData(raw).Success?
    ensures var keep := KeptIndices(raw.columns);
      var cols := SelectData(raw).value.columns;
      && |cols| == |keep| + 1 && cols[|keep|] == Booster
      && forall j :: 0 <= j < |keep| ==> cols[j] == raw.columns[keep[j]]
  {
    BoosterExcluded();
    var ci := IndexOf(raw.columns, Continent).value;
    var kept := Table(raw.columns, Loc(raw.rows, ci, NotMissing));
    var dropped := DropExcluded(kept);
    assert SelectData(raw).value.columns == dropped.columns + [Booster];
  }

  /** The first two kept positions are the first two positions whose
      labels the pattern does not exclude. */
  lemma LeadingKept(names: seq<string>, i: nat, j: nat)
    requires i < j < |names|
    requires !Excluded(names[i]) && !Excluded(names[j])
    requires forall k :: 0 <= k < j && k != i ==> Excluded(names[k])
    ensures var keep := KeptIndices(names);
      |keep| >= 2 && keep[0] == i && keep[1] == j
  {
    var keep := KeptIndices(names);
    assert i in keep && j in keep;
    var tj :| 0 <= tj < |keep| && keep[tj] == j;
    assert keep[0] <= i && keep[0] < j;
    assert tj > 0 && keep[1] <= j && keep[1] > i;
    assert !Excluded(names[keep[1]]);
  }

  /** When the first two input labels the pattern keeps sit at `i` and `j`,
      they open the selected table, in that order: so `location` and `date`
      lead the selection exactly when they lead the kept input labels. */
  lemma SelectedLeading(raw: Table, i: nat, j: nat)
    requires WellFormed(raw) && SelectData(raw).Success?
    requires i < j < |raw.columns|
    requires !Excluded(raw.columns[i]) && !Excluded(raw.columns[j])
    requires forall k :: 0 <= k < j && k != i ==> Excluded(raw.columns[k])
    ensures var cols := SelectData(raw).value.columns;
      |cols| >= 3 && cols[0] == raw.columns[i] && cols[1] == raw.columns[j]
  {
    LeadingKept(raw.columns, i, j);
    SelectedHeader(raw);
  }

  /** Appending a new column leaves every old cell where it was. */
  lemma AppendedColumn(t: Table, name: string, values: seq<Cell>)
    requires WellFormed(t) && |values| == |t.rows| && name !in t.columns
    ensures var r := AssignColumn(t, name, values);
      && r.columns == t.columns + [name]
      && forall i :: 0 <= i < |t.rows| ==> r.rows[i] == t.rows[i] + [values[i]]
  {
  }

  /** One cell of the selected table, traced back to the filtered input. */
  lemma SelectedCell(kept: Table, bi: nat, i: nat, j: nat)
    requires WellFormed(kept) && Distinct(kept.columns)
    requires bi < |kept.columns| && kept.columns[bi] == Booster && Excluded(Booster)
    requires i < |kept.rows|
    requires j <= |KeptIndices(kept.columns)|
    ensures var t := AssignColumn(DropExcluded(kept), Booster, Column(kept.rows, bi));
      && j < |t.columns| && i < |t.rows|
      && t.columns[j] in kept.columns
      && t.rows[i][j] == kept.rows[i][IndexOf(kept.columns, t.columns[j]).value]
  {
    var dropped := DropExcluded(kept);
    var keep := KeptIndices(kept.columns);
    assert Booster !in dropped.columns;
    AppendedColumn(dropped, Booster, Column(kept.rows, bi));
    if j < |keep| {
      assert kept.columns[keep[j]] == dropped.columns[j];
      assert IndexOf(kept.columns, dropped.columns[j]).value == keep[j];
    } else {
      assert IndexOf(kept.columns, Booster).value == bi;
    }
  }

  /** Every cell of the selected table, traced back to the filtered input. */
  lemma SelectedCellsOf(kept: Table, bi: nat)
    requires WellFormed(kept) && Distinct(kept.columns)
    requires bi < |kept.columns| && kept.columns[bi] == Booster && Excluded(Booster)
    ensures var t := AssignColumn(DropExcluded(kept), Booster, Column(kept.rows, bi));
      forall i, j :: 0 <= i < |t.rows| && 0 <= j < |t.columns| ==>
        t.columns[j] in kept.columns
        && t.rows[i][j] == kept.rows[i][IndexOf(kept.columns, t.columns[j]).value]
  {
    var t := AssignColumn(DropExcluded(kept), Booster, Column(kept.rows, bi));
    assert Booster !in DropExcluded(kept).columns;
    assert |t.columns| == |KeptIndices(kept.columns)| + 1;
    forall i, j | 0 <= i < |t.rows| && 0 <= j < |t.columns|
      ensures t.columns[j] in kept.columns
        && t.rows[i][j] == kept.rows[i][IndexOf(kept.columns, t.columns[j]).value]
    {
      SelectedCell(kept, bi, i, j);
    }
  }

  /** Row side of lines 37-54: the rows are those the continent filter keeps,
      in order, and every cell is the filtered input's cell under the same
      column label; in particular `total_boosters` keeps its values. */
  lemma SelectedCells(raw: Table)
    requires WellFormed(raw) && Distinct(raw.columns) && SelectData(raw).Success?
    ensures var kept := Loc(raw.rows, IndexOf(raw.columns, Continent).value, NotMissing);
      var t := SelectData(raw).value;
      && |t.rows| == |kept|
      && (forall i, j :: 0 <= i < |t.rows| && 0 <= j < |t.columns| ==>
           t.columns[j] in raw.columns
           && t.rows[i][j] == kept[i][IndexOf(raw.columns, t.columns[j]).value])
  {
    BoosterExcluded();
    var ci := IndexOf(raw.columns, Continent).value;
    var kept := Table(raw.columns, Loc(raw.rows, ci, NotMissing));
    SelectedCellsOf(kept, IndexOf(raw.columns, Booster).value);
  }
}
