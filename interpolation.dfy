/** Linear interpolation of one column by row position, as the data-frame
    library's default `interpolate()` does it: a missing cell between two
    numbers gets the value on the straight line through them, a missing
    cell after the last number takes that number, and a missing cell before
    the first number stays missing. Only numbers count as known values. */
module Interpolation {
  import opened Frame

  /** The nearest position before `i` that holds a number. */
  function PrevKnown(col: seq<Cell>, i: nat): (r: Option<nat>)
    requires i <= |col|
    ensures r.Some? ==> r.value < i && col[r.value].Num?
    ensures r.Some? ==> forall j :: r.value < j < i ==> !col[j].Num?
    ensures r.None? ==> forall j :: 0 <= j < i ==> !col[j].Num?
  {
    if i == 0 then None
    else if col[i - 1].Num? then Some(i - 1)
    else PrevKnown(col, i - 1)
  }

  /** The nearest position after `i` that holds a number. */
  function NextKnown(col: seq<Cell>, i: nat): (r: Option<nat>)
    requires i < |col|
    ensures r.Some? ==> i < r.value < |col| && col[r.value].Num?
    ensures r.Some? ==> forall j :: i < j < r.value ==> !col[j].Num?
    ensures r.None? ==> forall j :: i < j < |col| ==> !col[j].Num?
    decreases |col| - i
  {
    if i + 1 == |col| then None
    else if col[i + 1].Num? then Some(i + 1)
    else NextKnown(col, i + 1)
  }

  /** The value at position `i` on the line through (p, a) and (q, b). */
  function Lerp(a: real, b: real, p: nat, q: nat, i: nat): real
    requires p < q
  {
    a + (b - a) * ((i - p) as real / (q - p) as real)
  }

  function InterpolateAt(col: seq<Cell>, i: nat): Cell
    requires i < |col|
  {
    if !col[i].Missing? then col[i]
    else match PrevKnown(col, i)
      case None => Missing
      case Some(p) =>
        match NextKnown(col, i)
        case None => col[p]
        case Some(q) => Num(Lerp(col[p].x, col[q].x, p, q, i))
  }

  /** `Series.interpolate()` with its defaults (linear, forward). Cells that
      are present are never changed. */
  function Interpolate(col: seq<Cell>): (r: seq<Cell>)
    ensures |r| == |col|
    ensures forall i :: 0 <= i < |col| && !col[i].Missing? ==> r[i] == col[i]
  {
    seq(|col|, i requires 0 <= i < |col| => InterpolateAt(col, i))
  }

  lemma ProductNonNegative(x: real, y: real)
    requires 0.0 <= x && 0.0 <= y
    ensures 0.0 <= x * y
  {
  }

  /** The position of `i` along the segment from p to q, as a fraction. */
  lemma FractionInUnit(p: nat, q: nat, i: nat)
    requires p <= i <= q && p < q
    ensures 0.0 <= (i - p) as real / (q - p) as real <= 1.0
  {
    var n, m := (i - p) as real, (q - p) as real;
    var t := n / m;
    assert t * m == n;
  }

  /** Between its two end points the line stays within their values. */
  lemma LerpBetween(a: real, b: real, p: nat, q: nat, i: nat)
    requires p <= i <= q && p < q
    ensures a <= b ==> a <= Lerp(a, b, p, q, i) <= b
    ensures b <= a ==> b <= Lerp(a, b, p, q, i) <= a
  {
    var t := (i - p) as real / (q - p) as real;
    FractionInUnit(p, q, i);
    var d := b - a;
    assert d - d * t == d * (1.0 - t);
    if a <= b {
      ProductNonNegative(d, t);
      ProductNonNegative(d, 1.0 - t);
    } else {
      ProductNonNegative(-d, t);
      ProductNonNegative(-d, 1.0 - t);
    }
  }

  /** On a rising line a later position never gets a smaller value. */
  lemma LerpMonotone(a: real, b: real, p: nat, q: nat, i: nat, j: nat)
    requires p < q && i <= j && a <= b
    ensures Lerp(a, b, p, q, i) <= Lerp(a, b, p, q, j)
  {
    var s := (i - p) as real / (q - p) as real;
    var t := (j - p) as real / (q - p) as real;
    assert s <= t;
    assert (b - a) * t - (b - a) * s == (b - a) * (t - s);
  }

  /** A missing cell between two numbers with only missing cells around it
      gets the linear interpolation by position between those two numbers. */
  lemma InteriorGap(col: seq<Cell>, p: nat, i: nat, q: nat)
    requires p < i < q < |col|
    requires col[p].Num? && col[q].Num?
    requires forall j :: p < j < q ==> col[j].Missing?
    ensures Interpolate(col)[i] == Num(Lerp(col[p].x, col[q].x, p, q, i))
  {
    var prev := PrevKnown(col, i);
    var next := NextKnown(col, i);
    assert prev == Some(p);
    assert next == Some(q);
  }

  /** A missing cell after the last number takes that number. */
  lemma TrailingGap(col: seq<Cell>, p: nat, i: nat)
    requires p < i < |col|
    requires col[p].Num? && col[i].Missing?
    requires forall j :: p < j < |col| ==> !col[j].Num?
    ensures Interpolate(col)[i] == col[p]
  {
    var prev := PrevKnown(col, i);
    assert prev == Some(p);
  }

  /** What interpolation leaves missing: exactly the missing cells with no
      number before them. */
  lemma StillMissing(col: seq<Cell>, i: nat)
    requires i < |col|
    ensures Interpolate(col)[i].Missing? <==>
      col[i].Missing? && forall j :: 0 <= j < i ==> !col[j].Num?
  {
    var prev := PrevKnown(col, i);
    if col[i].Missing? && prev.Some? {
      assert col[prev.value].Num?;
    }
  }

  /** Interpolating twice changes nothing more. */
  lemma {:induction false} InterpolateIdempotent(col: seq<Cell>)
    ensures Interpolate(Interpolate(col)) == Interpolate(col)
  {
    var r := Interpolate(col);
    forall i | 0 <= i < |col|
      ensures Interpolate(r)[i] == r[i]
    {
      if r[i].Missing? {
        StillMissing(col, i);
        forall j | 0 <= j < i
          ensures !r[j].Num?
        {
          if col[j].Missing? {
            StillMissing(col, j);
          }
        }
        StillMissing(r, i);
      }
    }
  }

  /** Numbers never decrease down the column (a cumulative count). */
  predicate NonDecreasing(col: seq<Cell>)
  {
    forall i, j :: 0 <= i < j < |col| && col[i].Num? && col[j].Num? ==> col[i].x <= col[j].x
  }

  /** An interpolated number is at most every number at or after it. */
  lemma BelowLaterKnown(col: seq<Cell>, i: nat, k: nat)
    requires NonDecreasing(col)
    requires i <= k < |col| && col[k].Num? && Interpolate(col)[i].Num?
    ensures Interpolate(col)[i].x <= col[k].x
  {
    if col[i].Missing? {
      var p := PrevKnown(col, i).value;
      var q := NextKnown(col, i).value;
      LerpBetween(col[p].x, col[q].x, p, q, i);
    }
  }

  /** An interpolated number is at least every number at or before it. */
  lemma AboveEarlierKnown(col: seq<Cell>, k: nat, j: nat)
    requires NonDecreasing(col)
    requires k <= j < |col| && col[k].Num? && Interpolate(col)[j].Num?
    ensures col[k].x <= Interpolate(col)[j].x
  {
    if col[j].Missing? {
      var p := PrevKnown(col, j).value;
      match NextKnown(col, j)
      case None =>
      case Some(q) => LerpBetween(col[p].x, col[q].x, p, q, j);
    }
  }

  /** Interpolation keeps a cumulative column cumulative. */
  lemma InterpolateMonotone(col: seq<Cell>)
    requires NonDecreasing(col)
    ensures NonDecreasing(Interpolate(col))
  {
    var r := Interpolate(col);
    forall i, j | 0 <= i < j < |r| && r[i].Num? && r[j].Num?
      ensures r[i].x <= r[j].x
    {
      if col[i].Num? {
        AboveEarlierKnown(col, i, j);
      } else {
        var next := NextKnown(col, i);
        if next.Some? && next.value <= j {
          BelowLaterKnown(col, i, next.value);
          AboveEarlierKnown(col, next.value, j);
        } else {
          // no number in [i, j]: both cells lie in the same gap
          var p := PrevKnown(col, i).value;
          assert PrevKnown(col, j) == Some(p) by {
            var pj := PrevKnown(col, j).value;
            assert pj < i;
          }
          if next.Some? {
            assert NextKnown(col, j) == next;
            LerpMonotone(col[p].x, col[next.value].x, p, next.value, i, j);
          } else {
            assert NextKnown(col, j).None?;
          }
        }
      }
    }
  }

  /** A worked case: 100, missing, 300 becomes 100, 200, 300. */
  lemma MiddleOfThree()
    ensures Interpolate([Num(100.0), Missing, Num(300.0)]) == [Num(100.0), Num(200.0), Num(300.0)]
  {
    var col := [Num(100.0), Missing, Num(300.0)];
    InteriorGap(col, 0, 1, 2);
    assert Lerp(100.0, 300.0, 0, 2, 1) == 200.0;
  }
}
