/**
 * The "diagonal" line of tilesExt: N + 1 evenly spaced points between the two
 * locations, N being their Chebyshev distance, each snapped to the nearest cell
 * axis by axis.
 *
 * `lerp` is computed on Dafny's exact `real`s, so the model is the
 * double-precision original without its rounding error.
 */
module Diagonal {
  import opened Grid

  /** `lerp`: the point a fraction `t` of the way from `start` to `end`. */
  function Lerp(start: real, end: real, t: real): (r: real)
    ensures t == 0.0 ==> r == start
    ensures t == 1.0 ==> r == end
    ensures r - start == t * (end - start)
  {
    start * (1.0 - t) + t * end
  }

  /** `Math.round`: the nearest integer, a half going up (towards +infinity). */
  function Round(x: real): (r: int)
    ensures r as real - 0.5 <= x < r as real + 0.5
  {
    (x + 0.5).Floor
  }

  /** The number of steps of the diagonal line: the Chebyshev distance. */
  function Steps(l1: Location, l2: Location): (n: nat)
    ensures n == Abs(l2.col - l1.col) || n == Abs(l2.row - l1.row)
    ensures Abs(l2.col - l1.col) <= n && Abs(l2.row - l1.row) <= n
  {
    Max(Abs(l2.col - l1.col), Abs(l2.row - l1.row))
  }

  /** One coordinate of step `step` out of `n`: `Math.round(lerp(a, b, step / n))`. */
  function AxisAt(a: int, b: int, step: int, n: nat): int
    requires n > 0
  {
    Round(Lerp(a as real, b as real, step as real / n as real))
  }

  /** The cell emitted for step `step` of the loop. */
  function DiagonalPoint(l1: Location, l2: Location, step: int): Location
    requires Steps(l1, l2) > 0
  {
    var n := Steps(l1, l2);
    Location(AxisAt(l1.col, l2.col, step, n), AxisAt(l1.row, l2.row, step, n), l1.tileMap)
  }

  /** What `diagonalLine(l1, l2, exclusive)` returns: the cells of steps
      0..N, or 1..N-1 when the endpoints are excluded. */
  function DiagonalCells(l1: Location, l2: Location, exclusive: bool): (r: seq<Location>)
    ensures Steps(l1, l2) == 0 ==> |r| == (if exclusive then 0 else 1)
    ensures Steps(l1, l2) > 0 ==> |r| == (if exclusive then Steps(l1, l2) - 1 else Steps(l1, l2) + 1)
  {
    var n := Steps(l1, l2);
    if n <= 0 then
      (if exclusive then [] else [l1])
    else
      var first := if exclusive then 1 else 0;
      seq(n + 1 - 2 * first, k requires 0 <= k < n + 1 - 2 * first => DiagonalPoint(l1, l2, first + k))
  }

  /** `diagonalLine`: the loop over `step` that pushes one cell per step. */
  method DiagonalLine(l1: Location, l2: Location, exclusive: bool) returns (res: seq<Location>)
    ensures res == DiagonalCells(l1, l2, exclusive)
  {
    var dx, dy := l2.col - l1.col, l2.row - l1.row;
    var n := Max(Abs(dx), Abs(dy));
    if n <= 0 {
      return if exclusive then [] else [l1];
    }
    res := [];
    var first := if exclusive then 1 else 0;
    var lastN := n - first;
    var step := first;
    while step <= lastN
      invariant first <= step <= lastN + 1
      invariant |res| == step - first
      invariant forall k :: 0 <= k < |res| ==> res[k] == DiagonalPoint(l1, l2, first + k)
    {
      var t := step as real / n as real;
      res := res + [Location(Round(Lerp(l1.col as real, l2.col as real, t)),
                             Round(Lerp(l1.row as real, l2.row as real, t)),
                             l1.tileMap)];
      step := step + 1;
    }
  }

  // ----- one axis -----

  lemma RoundInt(k: int)
    ensures Round(k as real) == k
  {
  }

  /** Step 0 lands on `a` and step `n` on `b`: `lerp` is exact at t = 0 and t = 1. */
  lemma AxisAtEnds(a: int, b: int, n: nat)
    requires n > 0
    ensures AxisAt(a, b, 0, n) == a
    ensures AxisAt(a, b, n, n) == b
  {
    assert 0 as real / n as real == 0.0;
    assert n as real / n as real == 1.0;
    RoundInt(a);
    RoundInt(b);
  }

  lemma QuotientBound(d: real, n: real)
    requires n > 0.0 && -n <= d <= n
    ensures -1.0 <= d / n <= 1.0
  {
    var q := d / n;
    assert q * n == d;
  }

  /** One step moves a coordinate by at most one cell when |b - a| <= n. */
  lemma AxisAtAdjacent(a: int, b: int, step: int, n: nat)
    requires n > 0 && Abs(b - a) <= n
    ensures -1 <= AxisAt(a, b, step + 1, n) - AxisAt(a, b, step, n) <= 1
  {
    var t0, t1 := step as real / n as real, (step + 1) as real / n as real;
    var d := (b - a) as real / n as real;
    assert t1 == t0 + 1.0 / n as real;
    assert t1 * (b - a) as real == t0 * (b - a) as real + d;
    QuotientBound((b - a) as real, n as real);
    var x0, x1 := Lerp(a as real, b as real, t0), Lerp(a as real, b as real, t1);
    assert x1 == x0 + d;
  }

  /** On an axis that spans the whole distance, step `step` lands exactly
      `step` cells from `a`. */
  lemma AxisAtExact(a: int, b: int, step: int, n: nat)
    requires n > 0 && Abs(b - a) == n
    ensures AxisAt(a, b, step, n) == a + step * Sign(b - a)
  {
    var t := step as real / n as real;
    var s := Sign(b - a);
    assert (b - a) as real == s as real * n as real;
    assert t * n as real == step as real;
    assert t * (b - a) as real == (step * s) as real;
    assert Lerp(a as real, b as real, t) == (a + step * s) as real;
    RoundInt(a + step * s);
  }

  /** Between step 0 and step n a coordinate stays between `a` and `b`. */
  lemma AxisAtBetween(a: int, b: int, step: int, n: nat)
    requires n > 0 && 0 <= step <= n
    ensures a <= AxisAt(a, b, step, n) <= b || b <= AxisAt(a, b, step, n) <= a
  {
    var t := step as real / n as real;
    assert t * n as real == step as real;
    assert 0.0 <= t <= 1.0;
    var x := Lerp(a as real, b as real, t);
    assert x - a as real == t * (b - a) as real;
    if a <= b {
      assert a as real <= x <= b as real;
    } else {
      assert b as real <= x <= a as real;
    }
  }

  // ----- the whole line -----

  /** The k-th cell of the line is the cell of step k (k + 1 when the start is excluded). */
  lemma DiagonalCellAt(l1: Location, l2: Location, exclusive: bool, k: int)
    requires Steps(l1, l2) > 0 && 0 <= k < |DiagonalCells(l1, l2, exclusive)|
    ensures DiagonalCells(l1, l2, exclusive)[k] == DiagonalPoint(l1, l2, (if exclusive then 1 else 0) + k)
  {
  }

  /** Equal endpoints (N = 0): `[l1]`, or nothing when the endpoints are excluded. */
  lemma DiagonalDegenerate(l1: Location, l2: Location)
    requires SameCell(l1, l2)
    ensures DiagonalCells(l1, l2, false) == [l1]
    ensures DiagonalCells(l1, l2, true) == []
  {
  }

  /** The inclusive line starts at `l1` and ends on the cell of `l2`. */
  lemma DiagonalEndpoints(l1: Location, l2: Location)
    ensures var r := DiagonalCells(l1, l2, false);
      r[0] == l1 && SameCell(r[|r| - 1], l2) && r[|r| - 1].tileMap == l1.tileMap
  {
    var n := Steps(l1, l2);
    if n > 0 {
      DiagonalCellAt(l1, l2, false, 0);
      DiagonalCellAt(l1, l2, false, n);
      AxisAtEnds(l1.col, l2.col, n);
      AxisAtEnds(l1.row, l2.row, n);
    }
  }

  /** The exclusive line is the inclusive one without its first and last cell. */
  lemma DiagonalExclusiveIsInterior(l1: Location, l2: Location)
    requires Steps(l1, l2) > 0
    ensures DiagonalCells(l1, l2, true) == DiagonalCells(l1, l2, false)[1..Steps(l1, l2)]
  {
    var n := Steps(l1, l2);
    var ex, inc := DiagonalCells(l1, l2, true), DiagonalCells(l1, l2, false);
    forall k | 0 <= k < |ex| ensures ex[k] == inc[1..n][k] {
      DiagonalCellAt(l1, l2, true, k);
      DiagonalCellAt(l1, l2, false, k + 1);
    }
  }

  /** Consecutive cells touch: each axis moves by at most one cell per step. */
  lemma DiagonalAdjacent(l1: Location, l2: Location, exclusive: bool)
    ensures var r := DiagonalCells(l1, l2, exclusive);
      forall k :: 0 <= k < |r| - 1 ==>
        Abs(r[k + 1].col - r[k].col) <= 1 && Abs(r[k + 1].row - r[k].row) <= 1
  {
    var n := Steps(l1, l2);
    var r := DiagonalCells(l1, l2, exclusive);
    if n > 0 {
      var first := if exclusive then 1 else 0;
      forall k | 0 <= k < |r| - 1
        ensures Abs(r[k + 1].col - r[k].col) <= 1 && Abs(r[k + 1].row - r[k].row) <= 1
      {
        DiagonalCellAt(l1, l2, exclusive, k);
        DiagonalCellAt(l1, l2, exclusive, k + 1);
        AxisAtAdjacent(l1.col, l2.col, first + k, n);
        AxisAtAdjacent(l1.row, l2.row, first + k, n);
      }
    }
  }

  /** On the axis whose distance is N, the k-th cell is exactly k unit steps
      (k + 1 when the start is excluded) from `l1`. */
  lemma DiagonalMajorAxis(l1: Location, l2: Location, exclusive: bool)
    requires Steps(l1, l2) > 0
    ensures var r := DiagonalCells(l1, l2, exclusive);
      var first := if exclusive then 1 else 0;
      (Abs(l2.col - l1.col) == Steps(l1, l2) ==>
         forall k :: 0 <= k < |r| ==> r[k].col == l1.col + (first + k) * Sign(l2.col - l1.col)) &&
      (Abs(l2.row - l1.row) == Steps(l1, l2) ==>
         forall k :: 0 <= k < |r| ==> r[k].row == l1.row + (first + k) * Sign(l2.row - l1.row))
  {
    var n := Steps(l1, l2);
    var r := DiagonalCells(l1, l2, exclusive);
    var first := if exclusive then 1 else 0;
    if Abs(l2.col - l1.col) == n {
      forall k | 0 <= k < |r| ensures r[k].col == l1.col + (first + k) * Sign(l2.col - l1.col) {
        DiagonalCellAt(l1, l2, exclusive, k);
        AxisAtExact(l1.col, l2.col, first + k, n);
      }
    }
    if Abs(l2.row - l1.row) == n {
      forall k | 0 <= k < |r| ensures r[k].row == l1.row + (first + k) * Sign(l2.row - l1.row) {
        DiagonalCellAt(l1, l2, exclusive, k);
        AxisAtExact(l1.row, l2.row, first + k, n);
      }
    }
  }

  /** No cell is emitted twice: the major axis strictly advances. */
  lemma DiagonalDistinct(l1: Location, l2: Location, exclusive: bool)
    ensures var r := DiagonalCells(l1, l2, exclusive);
      forall i, j :: 0 <= i < j < |r| ==> r[i] != r[j]
  {
    var n := Steps(l1, l2);
    var r := DiagonalCells(l1, l2, exclusive);
    if n > 0 {
      DiagonalMajorAxis(l1, l2, exclusive);
      var first := if exclusive then 1 else 0;
      forall i, j | 0 <= i < j < |r| ensures r[i] != r[j] {
        if Abs(l2.col - l1.col) == n {
          var s := Sign(l2.col - l1.col);
          assert r[j].col - r[i].col == (j - i) * s;
        } else {
          var s := Sign(l2.row - l1.row);
          assert r[j].row - r[i].row == (j - i) * s;
        }
      }
    }
  }

  /** Every cell lies in the bounding box of the endpoints and is on `l1`'s map. */
  lemma DiagonalInBox(l1: Location, l2: Location, exclusive: bool)
    ensures forall c :: c in DiagonalCells(l1, l2, exclusive) ==>
      InBox(c, l1, l2) && c.tileMap == l1.tileMap
  {
    var n := Steps(l1, l2);
    var r := DiagonalCells(l1, l2, exclusive);
    if n > 0 {
      var first := if exclusive then 1 else 0;
      forall k | 0 <= k < |r| ensures InBox(r[k], l1, l2) && r[k].tileMap == l1.tileMap {
        DiagonalCellAt(l1, l2, exclusive, k);
        AxisAtBetween(l1.col, l2.col, first + k, n);
        AxisAtBetween(l1.row, l2.row, first + k, n);
      }
    }
  }

  /** The exclusive line contains neither endpoint cell. */
  lemma DiagonalExcludesEnds(l1: Location, l2: Location)
    ensures forall c :: c in DiagonalCells(l1, l2, true) ==> !SameCell(c, l1) && !SameCell(c, l2)
  {
    var n := Steps(l1, l2);
    if n > 0 {
      DiagonalEndpoints(l1, l2);
      DiagonalExclusiveIsInterior(l1, l2);
      DiagonalDistinct(l1, l2, false);
      DiagonalInBox(l1, l2, false);
      var r := DiagonalCells(l1, l2, false);
      forall c | c in DiagonalCells(l1, l2, true) ensures !SameCell(c, l1) && !SameCell(c, l2) {
        var k :| 1 <= k < n && r[k] == c;
        assert r[0] != r[k] && r[n] != r[k];
        assert r[0].tileMap == r[k].tileMap == r[n].tileMap;
      }
    }
  }

  /** From (0,0) to (4,2): columns 0..4 and rows 0, 1, 1, 2, 2 (the halves at
      steps 1 and 3 round up). */
  lemma DiagonalExample(m: TileMap)
    ensures DiagonalCells(Location(0, 0, m), Location(4, 2, m), false) ==
      [Location(0, 0, m), Location(1, 1, m), Location(2, 1, m), Location(3, 2, m), Location(4, 2, m)]
  {
    var l1, l2 := Location(0, 0, m), Location(4, 2, m);
    assert Steps(l1, l2) == 4;
    var cols, rows := [0, 1, 2, 3, 4], [0, 1, 1, 2, 2];
    forall k | 0 <= k < 5 ensures DiagonalCells(l1, l2, false)[k] == Location(cols[k], rows[k], m) {
      DiagonalCellAt(l1, l2, false, k);
      var t := k as real / 4.0;
      assert t == 0.25 * k as real;
      assert Lerp(0.0, 4.0, t) == k as real;
      assert Lerp(0.0, 2.0, t) == 0.5 * k as real;
      RoundInt(k);
    }
  }
}
