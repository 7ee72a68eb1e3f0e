/** Ordering the rows of one location by date, as `sort_values` does with
    its defaults: ascending, dates that are not a parsed day (NaT) last,
    rows with equal dates in their original order. */
module DateOrder {
  import opened Frame

  /** The sort key of a date cell: its day, or None for a missing date. */
  function DateKey(c: Cell): Option<int>
  {
    if c.Day? then Some(c.d) else None
  }

  /** Ascending by day, with missing dates after every day. */
  predicate KeyLe(a: Option<int>, b: Option<int>)
  {
    match a
    case Some(x) => b.None? || x <= b.value
    case None => b.None?
  }

  /** The date key of column `k` of a row (None where the row is too short). */
  function DateOf(row: Row, k: nat): Option<int>
  {
    if k < |row| then DateKey(row[k]) else None
  }

  predicate SortedByDate(rows: seq<Row>, k: nat)
  {
    forall i, j :: 0 <= i < j < |rows| ==> KeyLe(DateOf(rows[i], k), DateOf(rows[j], k))
  }

  /** Puts `row` in front of the first row whose date is not earlier. */
  function Insert(row: Row, rows: seq<Row>, k: nat): (r: seq<Row>)
    ensures multiset(r) == multiset(rows) + multiset{row} && |r| == |rows| + 1
    ensures forall x :: x in r <==> x in rows || x == row
    ensures forall w :: Rectangular(rows, w) && |row| == w ==> Rectangular(r, w)
  {
    if rows == [] then [row]
    else if KeyLe(DateOf(row, k), DateOf(rows[0], k)) then [row] + rows
    else
      var rest := Insert(row, rows[1..], k);
      assert rows == [rows[0]] + rows[1..];
      assert forall w :: Rectangular(rows, w) ==> Rectangular(rows[1..], w);
      [rows[0]] + rest
  }

  /** Inserting into a sorted run keeps it sorted. */
  lemma {:induction false} InsertSorted(row: Row, rows: seq<Row>, k: nat)
    requires SortedByDate(rows, k)
    ensures SortedByDate(Insert(row, rows, k), k)
  {
    if rows != [] && !KeyLe(DateOf(row, k), DateOf(rows[0], k)) {
      InsertSorted(row, rows[1..], k);
      var rest := Insert(row, rows[1..], k);
      forall x | x in rest
        ensures KeyLe(DateOf(rows[0], k), DateOf(x, k))
      {
        if x != row {
          var j :| 0 <= j < |rows[1..]| && rows[1..][j] == x;
          assert rows[j + 1] == x;
        }
      }
      assert Insert(row, rows, k) == [rows[0]] + rest;
    }
  }

  /** `sort_values` on the date column: a permutation of the rows in
      ascending date order. */
  function SortByDate(rows: seq<Row>, k: nat): (r: seq<Row>)
    ensures multiset(r) == multiset(rows) && |r| == |rows|
    ensures forall x :: x in r <==> x in rows
    ensures forall w :: Rectangular(rows, w) ==> Rectangular(r, w)
    ensures SortedByDate(r, k)
  {
    if rows == [] then []
    else
      assert rows == [rows[0]] + rows[1..];
      InsertSorted(rows[0], SortByDate(rows[1..], k), k);
      Insert(rows[0], SortByDate(rows[1..], k), k)
  }

  /** The rows whose date key is `d`, in their order. */
  function WithDate(rows: seq<Row>, k: nat, d: Option<int>): seq<Row>
  {
    if rows == [] then []
    else (if DateOf(rows[0], k) == d then [rows[0]] else []) + WithDate(rows[1..], k, d)
  }

  lemma WithDateCons(x: Row, rows: seq<Row>, k: nat, d: Option<int>)
    ensures WithDate([x] + rows, k, d) == (if DateOf(x, k) == d then [x] else []) + WithDate(rows, k, d)
  {
    assert ([x] + rows)[1..] == rows;
  }

  /** The rows with date key `d` among `[row]`. */
  function Own(row: Row, k: nat, d: Option<int>): seq<Row>
  {
    if DateOf(row, k) == d then [row] else []
  }

  /** Passing over a row with another date does not disturb the order of
      the rows with `row`'s date. */
  lemma PassOver(x: Row, row: Row, rest: seq<Row>, tail: seq<Row>, k: nat, d: Option<int>)
    requires DateOf(x, k) != DateOf(row, k)
    requires WithDate(rest, k, d) == Own(row, k, d) + WithDate(tail, k, d)
    ensures WithDate([x] + rest, k, d) == Own(row, k, d) + WithDate([x] + tail, k, d)
  {
    WithDateCons(x, rest, k, d);
    WithDateCons(x, tail, k, d);
    assert Own(x, k, d) == [] || Own(row, k, d) == [];
  }

  /** Insertion goes in front of every row with the same date: the rows it
      passes over are strictly earlier. */
  lemma {:induction false} InsertStable(row: Row, rows: seq<Row>, k: nat, d: Option<int>)
    ensures WithDate(Insert(row, rows, k), k, d) == Own(row, k, d) + WithDate(rows, k, d)
  {
    if rows == [] || KeyLe(DateOf(row, k), DateOf(rows[0], k)) {
      assert Insert(row, rows, k) == [row] + rows;
      WithDateCons(row, rows, k, d);
    } else {
      var tail := rows[1..];
      assert rows == [rows[0]] + tail;
      assert Insert(row, rows, k) == [rows[0]] + Insert(row, tail, k);
      InsertStable(row, tail, k, d);
      PassOver(rows[0], row, Insert(row, tail, k), tail, k, d);
    }
  }

  /** The sort is stable: for every date key, the rows with that key keep
      their relative input order. */
  lemma {:induction false} SortStable(rows: seq<Row>, k: nat, d: Option<int>)
    ensures WithDate(SortByDate(rows, k), k, d) == WithDate(rows, k, d)
  {
    if rows != [] {
      SortStable(rows[1..], k, d);
      InsertStable(rows[0], SortByDate(rows[1..], k), k, d);
    }
  }
}
