/** The in-memory table the cleaning step works on: named columns over
    rectangular rows of cells, as a data frame read from a CSV file holds them. */
module Frame {

  datatype Option<T> = None | Some(value: T)

  datatype Result<T, E> = Success(value: T) | Failure(error: E)

  /** One cell of the table. `Missing` is a not-a-number / not-a-time value;
      `Day` is a parsed date (a day number); `Num` an exact number. */
  datatype Cell = Missing | Num(x: real) | Day(d: int) | Text(s: string)

  type Row = seq<Cell>

  /** Why the cleaning stage fails: a label lookup on a column the table
      does not have (a KeyError). */
  datatype CleanError = MissingColumn(name: string)

  datatype Table = Table(columns: seq<string>, rows: seq<Row>)

  /** Every row has exactly `width` cells. */
  predicate Rectangular(rows: seq<Row>, width: nat)
  {
    forall i :: 0 <= i < |rows| ==> |rows[i]| == width
  }

  predicate WellFormed(t: Table)
  {
    Rectangular(t.rows, |t.columns|)
  }

  /** No label occurs twice (the CSV reader makes duplicate headers unique). */
  predicate Distinct(names: seq<string>)
  {
    forall i, j :: 0 <= i < j < |names| ==> names[i] != names[j]
  }

  /** A boolean mask over one column: `df[c].notna()`, or `df[c] == v`,
      under which a missing cell equals nothing, not even a missing cell. */
  datatype Mask = NotMissing | EqualTo(v: Cell)

  predicate Selects(m: Mask, row: Row, k: nat)
  {
    k < |row| &&
    match m
    case NotMissing => !row[k].Missing?
    case EqualTo(v) => !v.Missing? && row[k] == v
  }

  /** `df.loc[mask, :]`: the rows the mask selects on column `k`, in their
      original order; each selected row keeps its multiplicity, no other
      row appears. */
  function Loc(rows: seq<Row>, k: nat, m: Mask): (r: seq<Row>)
    ensures forall x :: multiset(r)[x] == if Selects(m, x, k) then multiset(rows)[x] else 0
    ensures forall i :: 0 <= i < |r| ==> Selects(m, r[i], k) && r[i] in rows
    ensures |r| <= |rows|
  {
    if rows == [] then []
    else
      var rest := Loc(rows[1..], k, m);
      assert rows == [rows[0]] + rows[1..];
      if Selects(m, rows[0], k) then [rows[0]] + rest else rest
  }

  /** Every position moved one further on. */
  function Shift(idx: seq<nat>): (r: seq<nat>)
    ensures |r| == |idx| && forall t :: 0 <= t < |idx| ==> r[t] == idx[t] + 1
  {
    seq(|idx|, t requires 0 <= t < |idx| => idx[t] + 1)
  }

  /** The input positions of the rows `Loc` keeps, front to back. */
  function LocIndices(rows: seq<Row>, k: nat, m: Mask): seq<nat>
  {
    if rows == [] then []
    else
      var rest := Shift(LocIndices(rows[1..], k, m));
      if Selects(m, rows[0], k) then [0] + rest else rest
  }

  /** Shifting ascending positions below `bound`, perhaps behind a 0,
      gives ascending positions below `bound + 1`. */
  lemma ShiftAscending(rest: seq<nat>, bound: nat, front: bool)
    requires forall t :: 0 <= t < |rest| ==> rest[t] < bound
    requires forall s, t :: 0 <= s < t < |rest| ==> rest[s] < rest[t]
    ensures var idx := if front then [0] + Shift(rest) else Shift(rest);
      && (forall t :: 0 <= t < |idx| ==> idx[t] < bound + 1)
      && (forall s, t :: 0 <= s < t < |idx| ==> idx[s] < idx[t])
  {
    var idx := if front then [0] + Shift(rest) else Shift(rest);
    if front {
      forall s, t | 0 <= s < t < |idx|
        ensures idx[s] < idx[t]
      {
        assert idx[t] == Shift(rest)[t - 1];
        if s > 0 {
          assert idx[s] == Shift(rest)[s - 1];
        }
      }
    }
  }

  /** Which positions the shifted list holds. */
  lemma ShiftMembers(rest: seq<nat>, front: bool)
    ensures var idx := if front then [0] + Shift(rest) else Shift(rest);
      && (0 in idx <==> front)
      && forall i: nat :: i > 0 ==> (i in idx <==> i - 1 in rest)
  {
    var sh := Shift(rest);
    assert 0 !in sh;
    forall i: nat | i > 0
      ensures i in sh <==> i - 1 in rest
    {
      if i - 1 in rest {
        var t :| 0 <= t < |rest| && rest[t] == i - 1;
        assert sh[t] == i;
      }
    }
  }

  /** The kept positions are ascending and name exactly the selected rows. */
  lemma {:induction false} LocIndicesSelected(rows: seq<Row>, k: nat, m: Mask)
    ensures var idx := LocIndices(rows, k, m);
      && (forall t :: 0 <= t < |idx| ==> idx[t] < |rows|)
      && (forall s, t :: 0 <= s < t < |idx| ==> idx[s] < idx[t])
      && (forall i :: 0 <= i < |rows| ==> (i in idx <==> Selects(m, rows[i], k)))
  {
    if rows != [] {
      var tail := rows[1..];
      var rest := LocIndices(tail, k, m);
      var front := Selects(m, rows[0], k);
      LocIndicesSelected(tail, k, m);
      assert LocIndices(rows, k, m) == if front then [0] + Shift(rest) else Shift(rest);
      ShiftAscending(rest, |tail|, front);
      ShiftMembers(rest, front);
      forall i | 1 <= i < |rows|
        ensures Selects(m, rows[i], k) == Selects(m, tail[i - 1], k)
      {
        assert tail[i - 1] == rows[i];
      }
    }
  }

  lemma LocStep(rows: seq<Row>, k: nat, m: Mask)
    requires rows != []
    ensures Loc(rows, k, m) == if Selects(m, rows[0], k) then [rows[0]] + Loc(rows[1..], k, m) else Loc(rows[1..], k, m)
  {
  }

  /** Positions into the tail, shifted by one, are positions into the rows. */
  lemma ShiftPositions(rows: seq<Row>, rest: seq<nat>, kept: seq<Row>, front: bool)
    requires rows != [] && |rest| == |kept|
    requires forall t :: 0 <= t < |rest| ==> rest[t] < |rows| - 1 && kept[t] == rows[1..][rest[t]]
    ensures var idx := if front then [0] + Shift(rest) else Shift(rest);
      var out := if front then [rows[0]] + kept else kept;
      |idx| == |out| && forall t :: 0 <= t < |idx| ==> idx[t] < |rows| && out[t] == rows[idx[t]]
  {
  }

  /** The kept rows are the rows at the kept positions. */
  lemma {:induction false} LocIndicesRows(rows: seq<Row>, k: nat, m: Mask)
    ensures var idx := LocIndices(rows, k, m);
      && |idx| == |Loc(rows, k, m)|
      && forall t :: 0 <= t < |idx| ==> idx[t] < |rows| && Loc(rows, k, m)[t] == rows[idx[t]]
  {
    if rows != [] {
      LocIndicesRows(rows[1..], k, m);
      LocStep(rows, k, m);
      ShiftPositions(rows, LocIndices(rows[1..], k, m), Loc(rows[1..], k, m), Selects(m, rows[0], k));
    }
  }

  /** `df.loc[mask, :]` keeps the selected rows in their input order: the
      result is the rows at the positions the mask selects, ascending. */
  lemma LocInOrder(rows: seq<Row>, k: nat, m: Mask)
    ensures var idx := LocIndices(rows, k, m);
      && |idx| == |Loc(rows, k, m)|
      && (forall t :: 0 <= t < |idx| ==> idx[t] < |rows| && Loc(rows, k, m)[t] == rows[idx[t]])
      && (forall s, t :: 0 <= s < t < |idx| ==> idx[s] < idx[t])
      && (forall i :: 0 <= i < |rows| ==> (i in idx <==> Selects(m, rows[i], k)))
  {
    LocIndicesSelected(rows, k, m);
    LocIndicesRows(rows, k, m);
  }

  /** `n` is the position where `x` first occurs in `s`. */
  predicate FirstAt<T(==)>(s: seq<T>, x: T, n: nat)
  {
    n < |s| && s[n] == x && forall m :: 0 <= m < n ==> s[m] != x
  }

  /** Where `x` first occurs in `s`, if anywhere: the label lookup `df[name]`
      on the list of column names, and a value's first appearance in a
      column. */
  function IndexOf<T(==)>(s: seq<T>, x: T): (r: Option<nat>)
    ensures r.None? <==> x !in s
    ensures r.Some? ==> r.value < |s| && s[r.value] == x
    ensures r.Some? ==> forall j :: 0 <= j < r.value ==> s[j] != x
  {
    if s == [] then None
    else if s[0] == x then Some(0)
    else match IndexOf(s[1..], x)
      case None => None
      case Some(k) => Some(k + 1)
  }

  /** The cells of column `k`, top to bottom. */
  function Column(rows: seq<Row>, k: nat): (col: seq<Cell>)
    requires forall i :: 0 <= i < |rows| ==> k < |rows[i]|
    ensures |col| == |rows|
  {
    seq(|rows|, i requires 0 <= i < |rows| => rows[i][k])
  }

  /** The rows with column `k` overwritten by `col`. */
  function SetColumn(rows: seq<Row>, k: nat, col: seq<Cell>): (r: seq<Row>)
    requires forall i :: 0 <= i < |rows| ==> k < |rows[i]|
    requires |col| == |rows|
    ensures |r| == |rows|
    ensures forall i :: 0 <= i < |rows| ==> |r[i]| == |rows[i]|
    ensures forall i, j :: 0 <= i < |rows| && 0 <= j < |rows[i]| ==>
              r[i][j] == if j == k then col[i] else rows[i][j]
  {
    seq(|rows|, i requires 0 <= i < |rows| => rows[i][k := col[i]])
  }

  /** A permutation of rectangular rows is rectangular. */
  lemma RectangularPermutation(a: seq<Row>, b: seq<Row>, width: nat)
    requires multiset(a) == multiset(b) && Rectangular(b, width)
    ensures Rectangular(a, width)
  {
    forall i | 0 <= i < |a|
      ensures |a[i]| == width
    {
      assert a[i] in multiset(b);
    }
  }
}
