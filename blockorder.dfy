/** The shape of the concatenated result (line 75): one block per location,
    the blocks in the order in which their locations first appear in the
    input, each block in ascending date order, and nothing missing past the
    first two columns. */
module BlockOrder {
  import opened Frame
  import opened DateOrder
  import opened Cleaning
  import opened GroupProperties
  import opened RowAccounting

  /** Where `x` first occurs in `s`, or |s| when it does not occur. */
  function Position(s: seq<Cell>, x: Cell): (n: nat)
    ensures x in s ==> FirstAt(s, x, n)
    ensures x !in s ==> n == |s|
  {
    match IndexOf(s, x)
    case None => |s|
    case Some(n) => n
  }

  /** Appending leaves the first occurrence of what was already there. */
  lemma PositionInPrefix(a: seq<Cell>, b: seq<Cell>, x: Cell)
    requires x in a
    ensures Position(a + b, x) == Position(a, x)
  {
    var n, m := Position(a, x), Position(a + b, x);
    assert (a + b)[n] == x;
  }

  /** `unique()` lists the locations in the order of their first appearance. */
  lemma {:induction false} UniqueOrder(s: seq<Cell>, x: Cell, y: Cell)
    requires x in s && y in s
    ensures Position(Unique(s), x) < Position(Unique(s), y) <==> Position(s, x) < Position(s, y)
  {
    var front, z := s[..|s| - 1], s[|s| - 1];
    var u := Unique(front);
    assert s == front + [z];
    assert Unique(s) == if z in u then u else u + [z];
    if x in front && y in front {
      UniqueOrder(front, x, y);
      PositionInPrefix(front, [z], x);
      PositionInPrefix(front, [z], y);
      if z !in u {
        PositionInPrefix(u, [z], x);
        PositionInPrefix(u, [z], y);
      }
    } else if x in front {
      PositionInPrefix(front, [z], x);
      PositionInPrefix(u, [z], x);
    } else if y in front {
      PositionInPrefix(front, [z], y);
      PositionInPrefix(u, [z], y);
    }
  }

  /** One processed block: every row keeps the block's location, and the
      dates ascend. */
  lemma ProcessedBlock(rows: seq<Row>, width: nat, li: nat, di: nat, targets: seq<nat>, l: Cell)
    requires Rectangular(rows, width)
    requires li < FillFrom && di < FillFrom && li < width && di < width
    requires li !in targets && di !in targets
    ensures var p := ProcessGroup(Loc(rows, li, EqualTo(l)), width, di, targets);
      && (forall t :: 0 <= t < |p| ==> p[t][li] == l)
      && SortedByDate(p, di)
  {
    var group := Loc(rows, li, EqualTo(l));
    var sorted := SortByDate(group, di);
    var p := ProcessGroup(group, width, di, targets);
    forall t | 0 <= t < |p|
      ensures p[t][li] == l && DateOf(p[t], di) == DateOf(sorted[t], di)
    {
      OtherColumnsOnlyFilled(group, width, di, targets, t, li);
      OtherColumnsOnlyFilled(group, width, di, targets, t, di);
      assert sorted[t] in group;
    }
  }

  /** Rows grouped by the location in column `li`: every location is one of
      `locations`, the groups follow the order of `locations`, and within a
      location the dates in column `di` ascend. */
  predicate GroupedInOrder(b: seq<Row>, li: nat, di: nat, locations: seq<Cell>)
  {
    && (forall i :: 0 <= i < |b| ==> li < |b[i]| && b[i][li] in locations)
    && (forall i, j :: 0 <= i < j < |b| ==>
          && Position(locations, b[i][li]) <= Position(locations, b[j][li])
          && (b[i][li] == b[j][li] ==> KeyLe(DateOf(b[i], di), DateOf(b[j], di))))
  }

  /** Appending the date-sorted rows of a new location to rows grouped in
      order keeps them grouped in order. */
  lemma AppendGroup(before: seq<Row>, p: seq<Row>, li: nat, di: nat, front: seq<Cell>, l: Cell)
    requires GroupedInOrder(before, li, di, front) && l !in front
    requires forall t :: 0 <= t < |p| ==> li < |p[t]| && p[t][li] == l
    requires SortedByDate(p, di)
    ensures GroupedInOrder(before + p, li, di, front + [l])
  {
    var locations := front + [l];
    var b := before + p;
    assert Position(locations, l) == |front|;
    forall i | 0 <= i < |b|
      ensures li < |b[i]| && b[i][li] in locations
      ensures i < |before| ==> Position(locations, b[i][li]) == Position(front, b[i][li]) < |front|
      ensures i >= |before| ==> b[i][li] == l
    {
      if i < |before| {
        assert b[i] == before[i];
        PositionInPrefix(front, [l], b[i][li]);
      } else {
        assert b[i] == p[i - |before|];
      }
    }
    forall i, j | 0 <= i < j < |b|
      ensures Position(locations, b[i][li]) <= Position(locations, b[j][li])
      ensures b[i][li] == b[j][li] ==> KeyLe(DateOf(b[i], di), DateOf(b[j], di))
    {
      if j < |before| {
        assert b[i] == before[i] && b[j] == before[j];
      } else if i >= |before| {
        assert b[i] == p[i - |before|] && b[j] == p[j - |before|];
      }
    }
  }

  /** The concatenated blocks of distinct locations are grouped in the order
      of `locations`, each in ascending date order. */
  lemma {:induction false} BlocksOrdered(rows: seq<Row>, width: nat, li: nat, di: nat, targets: seq<nat>, locations: seq<Cell>)
    requires Rectangular(rows, width)
    requires li < FillFrom && di < FillFrom && li < width && di < width
    requires li !in targets && di !in targets
    requires forall i, j :: 0 <= i < j < |locations| ==> locations[i] != locations[j]
    ensures GroupedInOrder(Blocks(rows, width, li, di, targets, locations), li, di, locations)
  {
    if locations != [] {
      var front, l := locations[..|locations| - 1], locations[|locations| - 1];
      assert locations == front + [l];
      BlocksOrdered(rows, width, li, di, targets, front);
      ProcessedBlock(rows, width, li, di, targets, l);
      AppendGroup(Blocks(rows, width, li, di, targets, front),
                  ProcessGroup(Loc(rows, li, EqualTo(l)), width, di, targets), li, di, front, l);
    }
  }

  /** Rows grouped in the order of `unique()` over an input column follow
      the first appearances in that column. */
  lemma FirstAppearanceOrder(b: seq<Row>, col: seq<Cell>)
    requires GroupedInOrder(b, 0, 1, Unique(col))
    ensures forall i :: 0 <= i < |b| ==> KeyOf(b[i], 0, 1).location in col
    ensures forall i, j :: 0 <= i < j < |b| ==>
              Position(col, KeyOf(b[i], 0, 1).location) <= Position(col, KeyOf(b[j], 0, 1).location)
    ensures forall i, j :: 0 <= i < j < |b| && KeyOf(b[i], 0, 1).location == KeyOf(b[j], 0, 1).location ==>
              KeyLe(DateOf(b[i], 1), DateOf(b[j], 1))
  {
    forall i, j | 0 <= i < j < |b|
      ensures Position(col, b[i][0]) <= Position(col, b[j][0])
    {
      var a, c := b[i][0], b[j][0];
      if a != c && Position(col, c) < Position(col, a) {
        UniqueOrder(col, c, a);
      }
    }
  }

  /** Lines 62-75 with location and date as the first two columns: going
      down the output, the first appearance in the input of each row's
      location never moves back, so each location's rows form one block and
      the blocks come in order of first appearance; within one location the
      dates ascend. */
  lemma PerLocationOrdered(data: Table)
    requires WellFormed(data) && |data.columns| >= 2 && data.columns[0] == Location && data.columns[1] == Date
    requires PerLocation(data).Success?
    ensures var out := PerLocation(data).value;
      var col := Column(data.rows, 0);
      && (forall i :: 0 <= i < |out.rows| ==> KeyOf(out.rows[i], 0, 1).location in col)
      && (forall i, j :: 0 <= i < j < |out.rows| ==>
            Position(col, KeyOf(out.rows[i], 0, 1).location) <= Position(col, KeyOf(out.rows[j], 0, 1).location))
      && (forall i, j :: 0 <= i < j < |out.rows| && KeyOf(out.rows[i], 0, 1).location == KeyOf(out.rows[j], 0, 1).location ==>
            KeyLe(DateOf(out.rows[i], 1), DateOf(out.rows[j], 1)))
  {
    var out := PerLocation(data).value;
    var col := Column(data.rows, 0);
    var locations := Unique(col);
    if locations != [] {
      var width := |data.columns|;
      var targets := ColumnPositions(data.columns, InterpColumns).value;
      PerLocationBlocks(data);
      TargetsPastKeys(data);
      BlocksOrdered(data.rows, width, 0, 1, targets, locations);
    }
    FirstAppearanceOrder(out.rows, col);
  }

  /** No cell from column `from` on is missing. */
  predicate FilledFrom(b: seq<Row>, from: nat)
  {
    forall i, k :: 0 <= i < |b| && from <= k < |b[i]| ==> !b[i][k].Missing?
  }

  lemma AppendFilled(a: seq<Row>, c: seq<Row>, from: nat)
    requires FilledFrom(a, from) && FilledFrom(c, from)
    ensures FilledFrom(a + c, from)
  {
    var b: seq<Row> := a + c;
    forall i, k | 0 <= i < |b| && from <= k < |b[i]|
      ensures !b[i][k].Missing?
    {
      if i < |a| {
        assert b[i] == a[i];
      } else {
        assert b[i] == c[i - |a|];
      }
    }
  }

  /** The zero-fill of every block leaves nothing missing past the first two
      columns. */
  lemma {:induction false} BlocksFilled(rows: seq<Row>, width: nat, li: nat, di: nat, targets: seq<nat>, locations: seq<Cell>)
    requires Rectangular(rows, width)
    ensures FilledFrom(Blocks(rows, width, li, di, targets, locations), FillFrom)
  {
    if locations != [] {
      var front, l := locations[..|locations| - 1], locations[|locations| - 1];
      var group := Loc(rows, li, EqualTo(l));
      BlocksFilled(rows, width, li, di, targets, front);
      NothingMissingPastTwo(group, width, di, targets);
      AppendFilled(Blocks(rows, width, li, di, targets, front), ProcessGroup(group, width, di, targets), FillFrom);
    }
  }

  /** Line 74 over the whole result: no cell past the first two columns is
      missing. */
  lemma PerLocationFilled(data: Table)
    requires WellFormed(data) && PerLocation(data).Success?
    ensures FilledFrom(PerLocation(data).value.rows, FillFrom)
  {
    var li := IndexOf(data.columns, Location).value;
    var locations := Unique(Column(data.rows, li));
    if locations != [] {
      var targets := ColumnPositions(data.columns, InterpColumns).value;
      BlocksFilled(data.rows, |data.columns|, li, IndexOf(data.columns, Date).value, targets, locations);
    }
  }
}
