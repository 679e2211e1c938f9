/** The one-dimensional striding of `fetch_rectangle`: a coordinate walks from
    the rectangle's low edge to its high edge, each step ending at the next zone
    boundary (a multiple of the zone's side) or at the high edge, whichever comes
    first. The same walk is used for columns (side 1280) and rows (side 600). */
module Striding {
  import opened TileGeometry

  /** The half-open coordinate range [lo, hi). */
  datatype Span = Span(lo: int, hi: int)

  /** The first coordinate of the zone cell holding x: x with its in-cell offset removed. */
  function CellStart(x: int, side: int): int
    requires side > 0
  {
    x - x % side
  }

  /** One step of the walk: the next boundary after x, clamped to [lo, hi]. */
  function NextBoundary(x: int, side: int, lo: int, hi: int): (n: int)
    requires side > 0
    ensures lo <= x < hi ==> x < n <= hi
    ensures lo <= x < hi ==> n <= CellStart(x, side) + side
    ensures lo <= x < hi && n < hi ==> n == CellStart(x, side) + side
  {
    var n := x + side - x % side;
    Clamp(n, lo, hi)
  }

  /** The steps of the walk from x to hi; lo is the clamp's lower bound, the walk's start. */
  function Strides(x: int, side: int, lo: int, hi: int): (s: seq<Span>)
    requires side > 0 && lo <= x
    ensures x < hi <==> |s| > 0
    decreases hi - x
  {
    if x >= hi then []
    else
      var n := NextBoundary(x, side, lo, hi);
      [Span(x, n)] + Strides(n, side, lo, hi)
  }

  /** The steps are non-empty, lie in [x, hi) in increasing order, each inside
      one cell, and run from x to hi. */
  lemma {:induction false} StridesShape(x: int, side: int, lo: int, hi: int)
    requires side > 0 && lo <= x
    ensures var s := Strides(x, side, lo, hi);
      && (forall i :: 0 <= i < |s| ==> x <= s[i].lo < s[i].hi <= hi)
      && (forall i :: 0 <= i < |s| ==> s[i].hi <= CellStart(s[i].lo, side) + side)
      && (forall i, j :: 0 <= i < j < |s| ==> s[i].hi <= s[j].lo)
      && (|s| > 0 ==> s[0].lo == x && s[|s| - 1].hi == hi)
    decreases hi - x
  {
    if x < hi {
      var n := NextBoundary(x, side, lo, hi);
      StridesShape(n, side, lo, hi);
      var s := Strides(x, side, lo, hi);
      var rest := Strides(n, side, lo, hi);
      assert forall i :: 0 < i < |s| ==> s[i] == rest[i - 1];
    }
  }

  /** Consecutive steps meet: each step starts where the previous one ended. */
  lemma {:induction false} StridesConsecutive(x: int, side: int, lo: int, hi: int, i: int)
    requires side > 0 && lo <= x
    requires 0 <= i < |Strides(x, side, lo, hi)| - 1
    ensures Strides(x, side, lo, hi)[i].hi == Strides(x, side, lo, hi)[i + 1].lo
    decreases hi - x
  {
    var n := NextBoundary(x, side, lo, hi);
    if i > 0 {
      StridesConsecutive(n, side, lo, hi, i - 1);
    }
  }

  /** Every coordinate of [x, hi) lies in some step of the walk; StridesShape orders the steps, so no two share it. */
  lemma {:induction false} StridesCover(x: int, side: int, lo: int, hi: int, p: int)
    requires side > 0 && lo <= x <= p < hi
    ensures exists i :: (0 <= i < |Strides(x, side, lo, hi)| &&
      Strides(x, side, lo, hi)[i].lo <= p < Strides(x, side, lo, hi)[i].hi)
    decreases hi - x
  {
    var s := Strides(x, side, lo, hi);
    var n := NextBoundary(x, side, lo, hi);
    if p < n {
      assert s[0] == Span(x, n);
    } else {
      StridesCover(n, side, lo, hi, p);
      var rest := Strides(n, side, lo, hi);
      var i :| 0 <= i < |rest| && rest[i].lo <= p < rest[i].hi;
      assert s[i + 1] == rest[i];
    }
  }

  lemma CellStartIsMultiple(v: int, side: int)
    requires side > 0
    ensures CellStart(v, side) == (v / side) * side
  {
  }

  /** Each step stays inside one cell of the given side, so no step crosses a zone boundary. */
  lemma StepWithinCell(x: int, side: int, lo: int, hi: int, i: int, p: int)
    requires side > 0 && lo <= x
    requires 0 <= i < |Strides(x, side, lo, hi)|
    requires Strides(x, side, lo, hi)[i].lo <= p < Strides(x, side, lo, hi)[i].hi
    ensures p / side == Strides(x, side, lo, hi)[i].lo / side
  {
    var sp := Strides(x, side, lo, hi)[i];
    StridesShape(x, side, lo, hi);
    CellStartIsMultiple(sp.lo, side);
    DivIsUnique(p, side, sp.lo / side);
  }
}
