/** Where the rows of the cleaned table come from. A row is followed by its
    key, the pair of its location and date cells, which the per-location pass
    never changes while those two columns come first: the output holds
    exactly the keys of the input rows that have a continent and a location,
    each as often as it occurs there. */
module RowAccounting {
  import opened Frame
  import opened Selection
  import opened DateOrder
  import opened Cleaning
  import opened GroupProperties

  datatype RowKey = RowKey(location: Cell, date: Cell)

  /** The key of a row, reading a missing cell past its end. */
  function KeyOf(row: Row, li: nat, di: nat): RowKey
  {
    RowKey(if li < |row| then row[li] else Missing, if di < |row| then row[di] else Missing)
  }

  function Keys(rows: seq<Row>, li: nat, di: nat): seq<RowKey>
  {
    seq(|rows|, i requires 0 <= i < |rows| => KeyOf(rows[i], li, di))
  }

  lemma KeysAppend(a: seq<Row>, b: seq<Row>, li: nat, di: nat)
    ensures Keys(a + b, li, di) == Keys(a, li, di) + Keys(b, li, di)
  {
  }

  /** Taking the first row out of one of two equal multisets of rows and
      the same row out of the other leaves equal multisets. */
  lemma RemoveMatching(a: seq<Row>, b: seq<Row>, j: nat)
    requires multiset(a) == multiset(b) && a != [] && j < |b| && b[j] == a[0]
    ensures multiset(a[1..]) == multiset(b[..j] + b[j + 1..])
  {
    var x := a[0];
    var rest := b[..j] + b[j + 1..];
    assert a == [x] + a[1..];
    assert b == b[..j] + [x] + b[j + 1..];
    forall y: Row
      ensures multiset(a[1..])[y] == multiset(rest)[y]
    {
      assert multiset(a)[y] == multiset(a[1..])[y] + multiset([x])[y];
      assert multiset(b)[y] == multiset(b[..j])[y] + multiset([x])[y] + multiset(b[j + 1..])[y];
    }
  }

  /** Reordering rows reorders their keys. */
  lemma {:induction false} KeysPermutation(a: seq<Row>, b: seq<Row>, li: nat, di: nat)
    requires multiset(a) == multiset(b)
    ensures multiset(Keys(a, li, di)) == multiset(Keys(b, li, di))
    decreases |a|
  {
    if a == [] {
      assert |b| == |multiset(b)| == 0;
    } else {
      var x := a[0];
      assert x in multiset(b);
      var j :| 0 <= j < |b| && b[j] == x;
      var rest := b[..j] + b[j + 1..];
      RemoveMatching(a, b, j);
      KeysPermutation(a[1..], rest, li, di);
      var k := KeyOf(x, li, di);
      assert Keys(a, li, di) == [k] + Keys(a[1..], li, di);
      assert Keys(b, li, di) == Keys(b[..j], li, di) + [k] + Keys(b[j + 1..], li, di);
      assert Keys(rest, li, di) == Keys(b[..j], li, di) + Keys(b[j + 1..], li, di);
    }
  }

  /** The rows of the given locations, one location after the other, before
      any processing (the row side of lines 64-69). */
  function Groups(rows: seq<Row>, li: nat, locations: seq<Cell>): seq<Row>
  {
    if locations == [] then []
    else Groups(rows, li, locations[..|locations| - 1]) + Loc(rows, li, EqualTo(locations[|locations| - 1]))
  }

  /** The row has a location, and it is one of `locations`. */
  predicate LocatedIn(x: Row, li: nat, locations: seq<Cell>)
  {
    li < |x| && !x[li].Missing? && x[li] in locations
  }

  /** Adding the rows of one new location to the rows of the earlier ones. */
  lemma CountStep(rows: seq<Row>, before: seq<Row>, group: seq<Row>, li: nat, front: seq<Cell>, l: Cell)
    requires forall x: Row :: multiset(before)[x] == if LocatedIn(x, li, front) then multiset(rows)[x] else 0
    requires forall x: Row :: multiset(group)[x] == if Selects(EqualTo(l), x, li) then multiset(rows)[x] else 0
    requires l !in front
    ensures forall x: Row :: multiset(before + group)[x] == if LocatedIn(x, li, front + [l]) then multiset(rows)[x] else 0
  {
    forall x: Row
      ensures multiset(before + group)[x] == if LocatedIn(x, li, front + [l]) then multiset(rows)[x] else 0
    {
      assert multiset(before + group)[x] == multiset(before)[x] + multiset(group)[x];
      if li < |x| {
        assert x[li] in front + [l] <==> x[li] in front || x[li] == l;
      }
    }
  }

  /** Taking each of distinct locations' rows in turn yields every row whose
      location is one of them, as often as it occurs, and no other row. */
  lemma {:induction false} GroupsCount(rows: seq<Row>, li: nat, locations: seq<Cell>)
    requires forall i, j :: 0 <= i < j < |locations| ==> locations[i] != locations[j]
    ensures forall x: Row ::
              multiset(Groups(rows, li, locations))[x]
                == if LocatedIn(x, li, locations) then multiset(rows)[x] else 0
  {
    if locations != [] {
      var front := locations[..|locations| - 1];
      var l := locations[|locations| - 1];
      GroupsCount(rows, li, front);
      assert locations == front + [l];
      assert l !in front;
      assert Groups(rows, li, locations) == Groups(rows, li, front) + Loc(rows, li, EqualTo(l));
      CountStep(rows, Groups(rows, li, front), Loc(rows, li, EqualTo(l)), li, front, l);
    }
  }

  /** Lines 70-74 keep the key of every row of a location, up to the sort. */
  lemma GroupKeys(group: seq<Row>, width: nat, li: nat, di: nat, targets: seq<nat>)
    requires Rectangular(group, width)
    requires li < FillFrom && di < FillFrom && li < width && di < width
    requires li !in targets && di !in targets
    ensures multiset(Keys(ProcessGroup(group, width, di, targets), li, di)) == multiset(Keys(group, li, di))
  {
    var sorted := SortByDate(group, di);
    var r := ProcessGroup(group, width, di, targets);
    forall i | 0 <= i < |r|
      ensures KeyOf(r[i], li, di) == KeyOf(sorted[i], li, di)
    {
      OtherColumnsOnlyFilled(group, width, di, targets, i, li);
      OtherColumnsOnlyFilled(group, width, di, targets, i, di);
    }
    assert Keys(r, li, di) == Keys(sorted, li, di);
    KeysPermutation(sorted, group, li, di);
  }

  /** The processed blocks carry the keys of the unprocessed groups. */
  lemma {:induction false} BlocksKeys(rows: seq<Row>, width: nat, li: nat, di: nat, targets: seq<nat>, locations: seq<Cell>)
    requires Rectangular(rows, width)
    requires li < FillFrom && di < FillFrom && li < width && di < width
    requires li !in targets && di !in targets
    ensures multiset(Keys(Blocks(rows, width, li, di, targets, locations), li, di))
      == multiset(Keys(Groups(rows, li, locations), li, di))
  {
    if locations != [] {
      var front := locations[..|locations| - 1];
      var group := Loc(rows, li, EqualTo(locations[|locations| - 1]));
      BlocksKeys(rows, width, li, di, targets, front);
      GroupKeys(group, width, li, di, targets);
      KeysAppend(Blocks(rows, width, li, di, targets, front), ProcessGroup(group, width, di, targets), li, di);
      KeysAppend(Groups(rows, li, front), group, li, di);
    }
  }

  /** The interpolated columns sit after the location and date columns. */
  lemma TargetsPastKeys(data: Table)
    requires |data.columns| >= 2 && data.columns[0] == Location && data.columns[1] == Date
    requires ColumnPositions(data.columns, InterpColumns).Success?
    ensures 0 !in ColumnPositions(data.columns, InterpColumns).value
    ensures 1 !in ColumnPositions(data.columns, InterpColumns).value
  {
    var targets := ColumnPositions(data.columns, InterpColumns).value;
    forall t | 0 <= t < |targets|
      ensures targets[t] != 0 && targets[t] != 1
    {
      assert data.columns[targets[t]] == InterpColumns[t];
    }
  }

  /** `unique()` lists every location of the column, so taking each one's
      rows in turn yields exactly the rows with a location. */
  lemma GroupsArePresent(rows: seq<Row>, width: nat, li: nat)
    requires Rectangular(rows, width) && li < width
    ensures multiset(Groups(rows, li, Unique(Column(rows, li)))) == multiset(Loc(rows, li, NotMissing))
  {
    var col := Column(rows, li);
    var locations := Unique(col);
    GroupsCount(rows, li, locations);
    forall x: Row
      ensures multiset(Groups(rows, li, locations))[x] == multiset(Loc(rows, li, NotMissing))[x]
    {
      if x in rows {
        var i :| 0 <= i < |rows| && rows[i] == x;
        assert col[i] == x[li];
      }
    }
  }

  /** Lines 62-75 with location and date as the first two columns: the
      output holds exactly the keys of the input rows that have a location,
      each as often as it occurs; so it has as many rows as there are such
      input rows. */
  lemma PerLocationRows(data: Table)
    requires WellFormed(data) && |data.columns| >= 2 && data.columns[0] == Location && data.columns[1] == Date
    requires PerLocation(data).Success?
    ensures var out := PerLocation(data).value;
      var present := Loc(data.rows, 0, NotMissing);
      && multiset(Keys(out.rows, 0, 1)) == multiset(Keys(present, 0, 1))
      && |out.rows| == |present|
  {
    var out := PerLocation(data).value;
    var present := Loc(data.rows, 0, NotMissing);
    var col := Column(data.rows, 0);
    var locations := Unique(col);
    if locations != [] {
      var width := |data.columns|;
      var targets := ColumnPositions(data.columns, InterpColumns).value;
      PerLocationBlocks(data);
      TargetsPastKeys(data);
      BlocksKeys(data.rows, width, 0, 1, targets, locations);
      GroupsArePresent(data.rows, width, 0);
      KeysPermutation(Groups(data.rows, 0, locations), present, 0, 1);
    }
    assert |out.rows| == |Keys(out.rows, 0, 1)| == |multiset(Keys(out.rows, 0, 1))|;
    assert |present| == |Keys(present, 0, 1)| == |multiset(Keys(present, 0, 1))|;
  }

  /** Keeping the rows with a present location cell keeps the same keys in
      two tables whose rows have, position by position, the same keys. */
  lemma {:induction false} PresentKeys(a: seq<Row>, la: nat, da: nat, b: seq<Row>, lb: nat, db: nat)
    requires |a| == |b|
    requires forall i :: 0 <= i < |a| ==> KeyOf(a[i], la, da) == KeyOf(b[i], lb, db)
    ensures Keys(Loc(a, la, NotMissing), la, da) == Keys(Loc(b, lb, NotMissing), lb, db)
  {
    if a != [] {
      PresentKeys(a[1..], la, da, b[1..], lb, db);
      assert KeyOf(a[0], la, da) == KeyOf(b[0], lb, db);
      KeysAppend([a[0]], Loc(a[1..], la, NotMissing), la, da);
      KeysAppend([b[0]], Loc(b[1..], lb, NotMissing), lb, db);
    }
  }

  /** When every row has a location, keeping the rows with a location keeps
      them all. */
  lemma AllPresent(rows: seq<Row>, li: nat)
    requires forall x :: x in rows ==> Selects(NotMissing, x, li)
    ensures |Loc(rows, li, NotMissing)| == |rows|
  {
    var kept := Loc(rows, li, NotMissing);
    assert multiset(kept) == multiset(rows);
    assert |kept| == |multiset(kept)|;
  }

  /** The selection renames nothing: every column it leaves was an input
      column. */
  lemma SelectedFromInput(raw: Table)
    requires WellFormed(raw) && SelectData(raw).Success?
    ensures forall c :: c in SelectData(raw).value.columns ==> c in raw.columns
  {
    SelectedColumns(raw);
  }

  /** The rows with a location after the selection have the keys of the
      continent-filtered input rows with a location, in the same order. */
  lemma SelectedKeys(raw: Table)
    requires WellFormed(raw) && Distinct(raw.columns) && SelectData(raw).Success?
    requires var cols := SelectData(raw).value.columns;
      |cols| >= 2 && cols[0] == Location && cols[1] == Date
    requires Location in raw.columns && Date in raw.columns
    ensures var data := SelectData(raw).value;
      var kept := Loc(raw.rows, IndexOf(raw.columns, Continent).value, NotMissing);
      var li, di := IndexOf(raw.columns, Location).value, IndexOf(raw.columns, Date).value;
      Keys(Loc(data.rows, 0, NotMissing), 0, 1) == Keys(Loc(kept, li, NotMissing), li, di)
  {
    var data := SelectData(raw).value;
    var kept := Loc(raw.rows, IndexOf(raw.columns, Continent).value, NotMissing);
    var li, di := IndexOf(raw.columns, Location).value, IndexOf(raw.columns, Date).value;
    SelectedCells(raw);
    forall i | 0 <= i < |data.rows|
      ensures KeyOf(data.rows[i], 0, 1) == KeyOf(kept[i], li, di)
    {
    }
    PresentKeys(data.rows, 0, 1, kept, li, di);
  }

  /** Lines 31-80 with location and date as the first two columns that
      survive the selection: the cleaned rows carry exactly the keys of the
      input rows that have a continent and a location, each as often as it
      occurs; when every row with a continent has a location, no row is lost. */
  lemma CleanedRows(raw: Table)
    requires WellFormed(raw) && Distinct(raw.columns) && Cleaned(raw).Success?
    requires var cols := SelectData(raw).value.columns;
      |cols| >= 2 && cols[0] == Location && cols[1] == Date
    ensures Location in raw.columns && Date in raw.columns
    ensures var out := Cleaned(raw).value;
      var kept := Loc(raw.rows, IndexOf(raw.columns, Continent).value, NotMissing);
      var li, di := IndexOf(raw.columns, Location).value, IndexOf(raw.columns, Date).value;
      var present := Loc(kept, li, NotMissing);
      && multiset(Keys(out.rows, 0, 1)) == multiset(Keys(present, li, di))
      && |out.rows| == |present|
      && ((forall x :: x in kept ==> Selects(NotMissing, x, li)) ==> |out.rows| == |kept|)
  {
    var data := SelectData(raw).value;
    var kept := Loc(raw.rows, IndexOf(raw.columns, Continent).value, NotMissing);
    SelectedFromInput(raw);
    assert data.columns[0] in data.columns && data.columns[1] in data.columns;
    var li, di := IndexOf(raw.columns, Location).value, IndexOf(raw.columns, Date).value;
    SelectedKeys(raw);
    PerLocationRows(data);
    var present := Loc(data.rows, 0, NotMissing);
    assert |present| == |Keys(present, 0, 1)| == |Loc(kept, li, NotMissing)|;
    if forall x :: x in kept ==> Selects(NotMissing, x, li) {
      AllPresent(kept, li);
    }
  }

  /** Two row sequences with the same multiset of keys show each key on
      both sides. */
  lemma SameKeys(a: seq<Row>, la: nat, da: nat, b: seq<Row>, lb: nat, db: nat)
    requires multiset(Keys(a, la, da)) == multiset(Keys(b, lb, db))
    ensures forall i :: 0 <= i < |a| ==> exists t :: 0 <= t < |b| && KeyOf(b[t], lb, db) == KeyOf(a[i], la, da)
    ensures forall t :: 0 <= t < |b| ==> exists i :: 0 <= i < |a| && KeyOf(a[i], la, da) == KeyOf(b[t], lb, db)
  {
    var ka, kb := Keys(a, la, da), Keys(b, lb, db);
    forall i | 0 <= i < |a|
      ensures exists t :: 0 <= t < |b| && KeyOf(b[t], lb, db) == KeyOf(a[i], la, da)
    {
      assert ka[i] in multiset(kb);
    }
    forall t | 0 <= t < |b|
      ensures exists i :: 0 <= i < |a| && KeyOf(a[i], la, da) == KeyOf(b[t], lb, db)
    {
      assert kb[t] in multiset(ka);
    }
  }

  /** Rows whose keys are those of the rows of `raw` with cells present at
      `ci` and `li` take each key from such a row. */
  lemma KeysFromPresent(out: seq<Row>, raw: seq<Row>, ci: nat, li: nat, di: nat)
    requires multiset(Keys(out, 0, 1)) == multiset(Keys(Loc(Loc(raw, ci, NotMissing), li, NotMissing), li, di))
    ensures forall i :: 0 <= i < |out| ==>
              exists x :: x in raw && Selects(NotMissing, x, ci) && Selects(NotMissing, x, li)
                          && KeyOf(x, li, di) == KeyOf(out[i], 0, 1)
  {
    var kept := Loc(raw, ci, NotMissing);
    var present := Loc(kept, li, NotMissing);
    SameKeys(out, 0, 1, present, li, di);
    forall i | 0 <= i < |out|
      ensures exists x :: x in raw && Selects(NotMissing, x, ci) && Selects(NotMissing, x, li)
                          && KeyOf(x, li, di) == KeyOf(out[i], 0, 1)
    {
      var t :| 0 <= t < |present| && KeyOf(present[t], li, di) == KeyOf(out[i], 0, 1);
      assert present[t] in kept;
    }
  }

  /** ... and show the key of every such row. */
  lemma PresentKeysShown(out: seq<Row>, raw: seq<Row>, ci: nat, li: nat, di: nat)
    requires multiset(Keys(out, 0, 1)) == multiset(Keys(Loc(Loc(raw, ci, NotMissing), li, NotMissing), li, di))
    ensures forall x :: x in raw && Selects(NotMissing, x, ci) && Selects(NotMissing, x, li) ==>
              exists i :: 0 <= i < |out| && KeyOf(out[i], 0, 1) == KeyOf(x, li, di)
  {
    var kept := Loc(raw, ci, NotMissing);
    var present := Loc(kept, li, NotMissing);
    forall x | x in raw && Selects(NotMissing, x, ci) && Selects(NotMissing, x, li)
      ensures exists i :: 0 <= i < |out| && KeyOf(out[i], 0, 1) == KeyOf(x, li, di)
    {
      assert multiset(raw)[x] > 0;
      assert multiset(kept)[x] == multiset(raw)[x];
      assert multiset(present)[x] == multiset(kept)[x];
      assert x in present;
      var t :| 0 <= t < |present| && present[t] == x;
      SameKeys(out, 0, 1, present, li, di);
    }
  }

  /** Lines 37-39 seen from the output: every cleaned row has the key of an
      input row that has a continent and a location. */
  lemma CleanedRowOrigins(raw: Table)
    requires WellFormed(raw) && Distinct(raw.columns) && Cleaned(raw).Success?
    requires var cols := SelectData(raw).value.columns;
      |cols| >= 2 && cols[0] == Location && cols[1] == Date
    ensures Location in raw.columns && Date in raw.columns
    ensures var out := Cleaned(raw).value;
      var ci := IndexOf(raw.columns, Continent).value;
      var li, di := IndexOf(raw.columns, Location).value, IndexOf(raw.columns, Date).value;
      forall i :: 0 <= i < |out.rows| ==>
        exists x :: x in raw.rows && Selects(NotMissing, x, ci) && Selects(NotMissing, x, li)
                    && KeyOf(x, li, di) == KeyOf(out.rows[i], 0, 1)
  {
    CleanedRows(raw);
    var ci := IndexOf(raw.columns, Continent).value;
    var li, di := IndexOf(raw.columns, Location).value, IndexOf(raw.columns, Date).value;
    KeysFromPresent(Cleaned(raw).value.rows, raw.rows, ci, li, di);
  }

  /** Lines 37-39 and 64-75 together: the key of every input row that has a
      continent and a location is in the output. */
  lemma ContinentRowsKept(raw: Table)
    requires WellFormed(raw) && Distinct(raw.columns) && Cleaned(raw).Success?
    requires var cols := SelectData(raw).value.columns;
      |cols| >= 2 && cols[0] == Location && cols[1] == Date
    ensures Location in raw.columns && Date in raw.columns
    ensures var out := Cleaned(raw).value;
      var ci := IndexOf(raw.columns, Continent).value;
      var li, di := IndexOf(raw.columns, Location).value, IndexOf(raw.columns, Date).value;
      forall x :: x in raw.rows && Selects(NotMissing, x, ci) && Selects(NotMissing, x, li) ==>
        exists i :: 0 <= i < |out.rows| && KeyOf(out.rows[i], 0, 1) == KeyOf(x, li, di)
  {
    CleanedRows(raw);
    var ci := IndexOf(raw.columns, Continent).value;
    var li, di := IndexOf(raw.columns, Location).value, IndexOf(raw.columns, Date).value;
    PresentKeysShown(Cleaned(raw).value.rows, raw.rows, ci, li, di);
  }
}
