/** The correlation score surface that `cv.matchTemplate` produces, taken as
    given input, together with the two OpenCV operations the scripts apply to
    it: `cv.minMaxLoc` (its maximum and where it is) and zeroing a rectangle.

    Ties: `cv.minMaxLoc` scans row by row, left to right, and only replaces
    its running maximum on a strictly greater value, so the location it
    reports is the FIRST maximal cell in row-major order. That is the
    convention modelled here. */
module ScoreGrid {

  type Grid = seq<seq<real>>

  /** A cell position: `x` is the column, `y` the row, as OpenCV's `Point`. */
  datatype Loc = Loc(x: nat, y: nat)

  /** What `cv.matchTemplate` returns: a non-empty rectangle of scores. */
  predicate WellFormed(g: Grid) {
    |g| > 0 && |g[0]| > 0 && forall y :: 0 <= y < |g| ==> |g[y]| == |g[0]|
  }

  function Cols(g: Grid): nat
    requires |g| > 0
  {
    |g[0]|
  }

  predicate InGrid(g: Grid, p: Loc) {
    p.y < |g| && p.x < |g[p.y]|
  }

  function At(g: Grid, p: Loc): real
    requires InGrid(g, p)
  {
    g[p.y][p.x]
  }

  /** Row-major order on cells. */
  predicate Before(x: nat, y: nat, p: Loc) {
    y < p.y || (y == p.y && x < p.x)
  }

  /** `p` holds a maximal score and every cell before it in row-major order
      scores strictly less. */
  ghost predicate IsFirstMax(g: Grid, p: Loc) {
    && InGrid(g, p)
    && (forall y, x :: 0 <= y < |g| && 0 <= x < |g[y]| ==> g[y][x] <= g[p.y][p.x])
    && (forall y, x :: 0 <= y < |g| && 0 <= x < |g[y]| && Before(x, y, p) ==> g[y][x] < g[p.y][p.x])
  }

  /** The tie rule fixes the location: a grid has one first maximum. */
  lemma FirstMaxUnique(g: Grid, p: Loc, q: Loc)
    requires IsFirstMax(g, p) && IsFirstMax(g, q)
    ensures p == q
  {
    assert g[q.y][q.x] <= g[p.y][p.x] && g[p.y][p.x] <= g[q.y][q.x];
  }

  /** Index of the first maximum of a non-empty row. */
  function RowMax(row: seq<real>): (x: nat)
    requires |row| > 0
    ensures x < |row|
    ensures forall i :: 0 <= i < |row| ==> row[i] <= row[x]
    ensures forall i :: 0 <= i < x ==> row[i] < row[x]
  {
    if |row| == 1 then 0
    else
      var x := RowMax(row[..|row| - 1]);
      if row[|row| - 1] > row[x] then |row| - 1 else x
  }

  /** The location `cv.minMaxLoc` reports as `maxLoc`. */
  function GridMax(g: Grid): (p: Loc)
    requires WellFormed(g)
    ensures IsFirstMax(g, p)
  {
    if |g| == 1 then Loc(RowMax(g[0]), 0)
    else
      var p := GridMax(g[..|g| - 1]);
      var x := RowMax(g[|g| - 1]);
      if g[|g| - 1][x] > g[p.y][p.x] then Loc(x, |g| - 1) else p
  }

  /** The value `cv.minMaxLoc` reports as `maxVal`. */
  function MaxVal(g: Grid): real
    requires WellFormed(g)
  {
    At(g, GridMax(g))
  }

  /** Whether the cells strictly before `(x, y)` in row-major order have their
      first maximum at `p`. */
  ghost predicate IsFirstMaxBefore(g: Grid, p: Loc, x: nat, y: nat) {
    && InGrid(g, p) && Before(p.x, p.y, Loc(x, y))
    && (forall y', x' :: 0 <= y' < |g| && 0 <= x' < |g[y']| && Before(x', y', Loc(x, y))
          ==> g[y'][x'] <= g[p.y][p.x])
    && (forall y', x' :: 0 <= y' < |g| && 0 <= x' < |g[y']| && Before(x', y', p)
          ==> g[y'][x'] < g[p.y][p.x])
  }

  /** `cv.minMaxLoc` on the maximum side: one row-major scan that moves the
      running maximum only on a strictly greater score. */
  method MinMaxLoc(g: Grid) returns (maxVal: real, maxLoc: Loc)
    requires WellFormed(g)
    ensures maxLoc == GridMax(g)
    ensures maxVal == g[maxLoc.y][maxLoc.x]
  {
    maxLoc := Loc(0, 0);
    maxVal := g[0][0];
    var y := 0;
    while y < |g|
      invariant 0 <= y <= |g|
      invariant y == 0 ==> maxLoc == Loc(0, 0)
      invariant y > 0 ==> IsFirstMaxBefore(g, maxLoc, 0, y)
      invariant maxVal == g[maxLoc.y][maxLoc.x]
    {
      var x := if y == 0 then 1 else 0;
      while x < |g[y]|
        invariant 0 < x <= |g[y]| || (y > 0 && x == 0)
        invariant IsFirstMaxBefore(g, maxLoc, x, y) || (y > 0 && x == 0 && IsFirstMaxBefore(g, maxLoc, 0, y))
        invariant maxVal == g[maxLoc.y][maxLoc.x]
      {
        if g[y][x] > maxVal {
          maxLoc := Loc(x, y);
          maxVal := g[y][x];
        }
        x := x + 1;
      }
      y := y + 1;
    }
    FirstMaxUnique(g, maxLoc, GridMax(g));
  }

  /** The grid with every cell of columns `[x0, x1)` and rows `[y0, y1)` set
      to zero; the rectangle may reach past the grid. */
  function ZeroRect(g: Grid, x0: nat, y0: nat, x1: nat, y1: nat): (g': Grid)
    ensures |g'| == |g|
    ensures forall y :: 0 <= y < |g| ==> |g'[y]| == |g[y]|
    ensures forall y, x :: 0 <= y < |g| && 0 <= x < |g[y]| && x0 <= x < x1 && y0 <= y < y1
              ==> g'[y][x] == 0.0
    ensures forall y, x :: 0 <= y < |g| && 0 <= x < |g[y]| && !(x0 <= x < x1 && y0 <= y < y1)
              ==> g'[y][x] == g[y][x]
  {
    seq(|g|, y requires 0 <= y < |g| =>
      seq(|g[y]|, x requires 0 <= x < |g[y]| =>
        if x0 <= x < x1 && y0 <= y < y1 then 0.0 else g[y][x]))
  }

  lemma ZeroRectWellFormed(g: Grid, x0: nat, y0: nat, x1: nat, y1: nat)
    requires WellFormed(g)
    ensures WellFormed(ZeroRect(g, x0, y0, x1, y1))
  {
  }

  /** Number of non-zero scores in a row. */
  function RowNonZero(row: seq<real>): nat {
    if |row| == 0 then 0
    else RowNonZero(row[..|row| - 1]) + (if row[|row| - 1] != 0.0 then 1 else 0)
  }

  /** Number of non-zero scores in the grid. */
  function NonZero(g: Grid): nat {
    if |g| == 0 then 0 else NonZero(g[..|g| - 1]) + RowNonZero(g[|g| - 1])
  }

  /** Number of cells in the grid. */
  function CellCount(g: Grid): nat {
    if |g| == 0 then 0 else CellCount(g[..|g| - 1]) + |g[|g| - 1]|
  }

  lemma {:induction false} RowNonZeroBound(row: seq<real>)
    ensures RowNonZero(row) <= |row|
  {
    if |row| > 0 {
      RowNonZeroBound(row[..|row| - 1]);
    }
  }

  lemma {:induction false} NonZeroBound(g: Grid)
    ensures NonZero(g) <= CellCount(g)
  {
    if |g| > 0 {
      NonZeroBound(g[..|g| - 1]);
      RowNonZeroBound(g[|g| - 1]);
    }
  }

  lemma {:induction false} CellCountRect(g: Grid)
    requires WellFormed(g)
    ensures CellCount(g) == |g| * Cols(g)
  {
    if |g| > 1 {
      CellCountRect(g[..|g| - 1]);
    }
  }

  /** `b` arises from `a` by zeroing some cells. */
  ghost predicate RowZeroedFrom(a: seq<real>, b: seq<real>) {
    |a| == |b| && forall i :: 0 <= i < |a| ==> b[i] == a[i] || b[i] == 0.0
  }

  ghost predicate ZeroedFrom(a: Grid, b: Grid) {
    |a| == |b| && forall y :: 0 <= y < |a| ==> RowZeroedFrom(a[y], b[y])
  }

  /** Zeroing never adds a non-zero score, and removes one when it changes anything. */
  lemma {:induction false} RowZeroedDecreases(a: seq<real>, b: seq<real>)
    requires RowZeroedFrom(a, b)
    ensures RowNonZero(b) <= RowNonZero(a)
    ensures b != a ==> RowNonZero(b) < RowNonZero(a)
  {
    if |a| > 0 {
      var n := |a| - 1;
      RowZeroedDecreases(a[..n], b[..n]);
      if b != a && b[..n] == a[..n] {
        assert a == a[..n] + [a[n]] && b == b[..n] + [b[n]];
      }
    }
  }

  lemma {:induction false} ZeroedDecreases(a: Grid, b: Grid)
    requires ZeroedFrom(a, b)
    ensures NonZero(b) <= NonZero(a)
    ensures b != a ==> NonZero(b) < NonZero(a)
  {
    if |a| > 0 {
      var n := |a| - 1;
      ZeroedDecreases(a[..n], b[..n]);
      RowZeroedDecreases(a[n], b[n]);
      if b != a && b[..n] == a[..n] {
        assert a == a[..n] + [a[n]] && b == b[..n] + [b[n]];
      }
    }
  }

  lemma ZeroRectZeroes(g: Grid, x0: nat, y0: nat, x1: nat, y1: nat)
    ensures ZeroedFrom(g, ZeroRect(g, x0, y0, x1, y1))
  {
  }
}
