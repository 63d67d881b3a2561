/**
 * The "covering" line of tilesExt: a walk over the grid from `l1` to `l2` that
 * takes one unit step on one axis at a time (the "stepping" method of
 * redblobgames' line-drawing notes).
 *
 * The walk is described by its step counters `ix` and `iy`: after `ix`
 * column steps and `iy` row steps it stands on `CellAt(l1, l2, ix, iy)`.
 * Which axis is stepped is decided by a `StepRule`: `AsWritten` is the
 * comparison the source makes, `Midpoint` the one of the reference notes.
 */
module Covering {
  import opened Grid

  /** Column steps the walk takes: `Math.abs(dx)`. */
  function AbsX(l1: Location, l2: Location): nat { Abs(l2.col - l1.col) }

  /** Row steps the walk takes: `Math.abs(dy)`. */
  function AbsY(l1: Location, l2: Location): nat { Abs(l2.row - l1.row) }

  /** `i` unit steps in the direction of `d`: `i * Math.sign(d)`. */
  function Toward(i: int, d: int): (r: int)
    ensures r == i * Sign(d)
  {
    if d > 0 then i else if d < 0 then -i else 0
  }

  /** The cell after `ix` column steps and `iy` row steps, on `l1`'s map. */
  function CellAt(l1: Location, l2: Location, ix: int, iy: int): Location
  {
    Location(l1.col + Toward(ix, l2.col - l1.col), l1.row + Toward(iy, l2.row - l1.row), l1.tileMap)
  }

  /** A column step moves one `Math.sign(dx)` along the columns, a row step one
      `Math.sign(dy)` along the rows. */
  lemma CellStep(l1: Location, l2: Location, ix: int, iy: int)
    ensures CellAt(l1, l2, ix + 1, iy) ==
      CellAt(l1, l2, ix, iy).(col := CellAt(l1, l2, ix, iy).col + Sign(l2.col - l1.col))
    ensures CellAt(l1, l2, ix, iy + 1) ==
      CellAt(l1, l2, ix, iy).(row := CellAt(l1, l2, ix, iy).row + Sign(l2.row - l1.row))
  {
  }

  /** After all the steps on both axes the walk stands on the cell of `l2`. */
  lemma CellAtEnd(l1: Location, l2: Location)
    ensures CellAt(l1, l2, AbsX(l1, l2), AbsY(l1, l2)) == Location(l2.col, l2.row, l1.tileMap)
  {
  }

  /** The decision between a column step and a row step. */
  datatype StepRule =
    | AsWritten  // `((1+ix)<<1)*absy < ((1+iy)<<1)*absx`: `+` binds tighter than `<<`
    | Midpoint   // `(1+2*ix)*absy < (1+2*iy)*absx`: the next column border is crossed first

  /** The walk takes a column step (otherwise a row step; ties go to the row). */
  predicate XStepDue(rule: StepRule, ix: int, iy: int, absx: nat, absy: nat)
  {
    match rule
    case AsWritten => ((1 + ix) * 2) * absy < ((1 + iy) * 2) * absx
    case Midpoint => (1 + 2 * ix) * absy < (1 + 2 * iy) * absx
  }

  /** The counters after one decision. While the walk is not finished, it never
      steps past the end on either axis. */
  function Advance(rule: StepRule, l1: Location, l2: Location, ix: nat, iy: nat): (r: (nat, nat))
    ensures r.0 + r.1 == ix + iy + 1
    ensures r.0 == ix || r.1 == iy
    ensures ix <= AbsX(l1, l2) && iy <= AbsY(l1, l2) && (ix < AbsX(l1, l2) || iy < AbsY(l1, l2)) ==>
      r.0 <= AbsX(l1, l2) && r.1 <= AbsY(l1, l2)
  {
    var absx, absy := AbsX(l1, l2), AbsY(l1, l2);
    NoOvershoot(rule, ix, iy, absx, absy);
    if XStepDue(rule, ix, iy, absx, absy) then (ix + 1, iy) else (ix, iy + 1)
  }

  /** A finished axis is never chosen while the other one still has steps. */
  lemma NoOvershoot(rule: StepRule, ix: nat, iy: nat, absx: nat, absy: nat)
    ensures iy < absy && ix == absx ==> !XStepDue(rule, ix, iy, absx, absy)
    ensures ix < absx && iy == absy ==> XStepDue(rule, ix, iy, absx, absy)
  {
    if iy < absy && ix == absx {
      // (1 + iy) * absx <= absy * absx < (1 + absx) * absy
      MulMono(1 + iy, absy, absx);
    }
    if ix < absx && iy == absy {
      MulMono(1 + ix, absx, absy);
    }
  }

  lemma MulMono(a: nat, b: nat, c: nat)
    requires a <= b
    ensures a * c <= b * c
  {
  }

  /** The cells the loop pushes, starting from counters `ix`, `iy`: one per
      iteration while either axis has steps left. */
  function WalkFrom(rule: StepRule, l1: Location, l2: Location, ix: nat, iy: nat): seq<Location>
    requires ix < AbsX(l1, l2) || iy < AbsY(l1, l2) ==> ix <= AbsX(l1, l2) && iy <= AbsY(l1, l2)
    decreases AbsX(l1, l2) + AbsY(l1, l2) - ix - iy
  {
    if ix < AbsX(l1, l2) || iy < AbsY(l1, l2) then
      NoOvershoot(rule, ix, iy, AbsX(l1, l2), AbsY(l1, l2));
      [CellAt(l1, l2, ix, iy)] +
        if XStepDue(rule, ix, iy, AbsX(l1, l2), AbsY(l1, l2)) then WalkFrom(rule, l1, l2, ix + 1, iy)
        else WalkFrom(rule, l1, l2, ix, iy + 1)
    else
      []
  }

  /** What `coveringLine(l1, l2, exclusive)` returns under a step rule: with the
      endpoints excluded, one decision is taken before the loop and nothing is
      pushed after it. */
  function CoveringCells(rule: StepRule, l1: Location, l2: Location, exclusive: bool): seq<Location>
  {
    if exclusive then
      NoOvershoot(rule, 0, 0, AbsX(l1, l2), AbsY(l1, l2));
      if XStepDue(rule, 0, 0, AbsX(l1, l2), AbsY(l1, l2)) then WalkFrom(rule, l1, l2, 1, 0)
      else WalkFrom(rule, l1, l2, 0, 1)
    else
      WalkFrom(rule, l1, l2, 0, 0) + [CellAt(l1, l2, AbsX(l1, l2), AbsY(l1, l2))]
  }

  /** What holds at the head of the loop of `coveringLine`, started at the
      counters `ix0`, `iy0`: neither counter is past its target while the loop
      runs (nor at all when it started within them), `x`, `y` is the cell of
      the counters, and the cells pushed so far followed by the walk still to
      come make up the whole walk. */
  predicate LoopInv(l1: Location, l2: Location, ix0: nat, iy0: nat, ix: nat, iy: nat, x: int, y: int, res: seq<Location>)
  {
    (ix < AbsX(l1, l2) || iy < AbsY(l1, l2) ==> ix <= AbsX(l1, l2) && iy <= AbsY(l1, l2)) &&
    (ix0 <= AbsX(l1, l2) && iy0 <= AbsY(l1, l2) ==> ix <= AbsX(l1, l2) && iy <= AbsY(l1, l2)) &&
    x == CellAt(l1, l2, ix, iy).col && y == CellAt(l1, l2, ix, iy).row &&
    (ix0 < AbsX(l1, l2) || iy0 < AbsY(l1, l2) ==> ix0 <= AbsX(l1, l2) && iy0 <= AbsY(l1, l2)) &&
    res + WalkFrom(AsWritten, l1, l2, ix, iy) == WalkFrom(AsWritten, l1, l2, ix0, iy0)
  }

  /** Concatenation of sequences is associative. */
  lemma AppendAssoc(a: seq<Location>, b: seq<Location>, c: seq<Location>)
    ensures (a + b) + c == a + (b + c)
  {
  }

  /** Pushing the cell of the counters moves it from the walk still to come to
      the cells pushed so far. */
  lemma WalkPush(rule: StepRule, l1: Location, l2: Location, ix: nat, iy: nat, res: seq<Location>)
    requires ix <= AbsX(l1, l2) && iy <= AbsY(l1, l2) && (ix < AbsX(l1, l2) || iy < AbsY(l1, l2))
    ensures XStepDue(rule, ix, iy, AbsX(l1, l2), AbsY(l1, l2)) ==>
      ix + 1 <= AbsX(l1, l2) &&
      res + WalkFrom(rule, l1, l2, ix, iy) == (res + [CellAt(l1, l2, ix, iy)]) + WalkFrom(rule, l1, l2, ix + 1, iy)
    ensures !XStepDue(rule, ix, iy, AbsX(l1, l2), AbsY(l1, l2)) ==>
      iy + 1 <= AbsY(l1, l2) &&
      res + WalkFrom(rule, l1, l2, ix, iy) == (res + [CellAt(l1, l2, ix, iy)]) + WalkFrom(rule, l1, l2, ix, iy + 1)
  {
    NoOvershoot(rule, ix, iy, AbsX(l1, l2), AbsY(l1, l2));
    var c := CellAt(l1, l2, ix, iy);
    if XStepDue(rule, ix, iy, AbsX(l1, l2), AbsY(l1, l2)) {
      assert WalkFrom(rule, l1, l2, ix, iy) == [c] + WalkFrom(rule, l1, l2, ix + 1, iy);
      AppendAssoc(res, [c], WalkFrom(rule, l1, l2, ix + 1, iy));
    } else {
      assert WalkFrom(rule, l1, l2, ix, iy) == [c] + WalkFrom(rule, l1, l2, ix, iy + 1);
      AppendAssoc(res, [c], WalkFrom(rule, l1, l2, ix, iy + 1));
    }
  }

  /** One iteration of the loop: it pushes the cell `x`, `y` and the decision
      moves `x` or `y` one unit towards `l2`, keeping `LoopInv`. */
  lemma LoopStep(l1: Location, l2: Location, ix0: nat, iy0: nat, ix: nat, iy: nat, x: int, y: int, res: seq<Location>)
    requires LoopInv(l1, l2, ix0, iy0, ix, iy, x, y, res)
    requires ix < AbsX(l1, l2) || iy < AbsY(l1, l2)
    ensures XStepDue(AsWritten, ix, iy, AbsX(l1, l2), AbsY(l1, l2)) ==>
      LoopInv(l1, l2, ix0, iy0, ix + 1, iy, x + Sign(l2.col - l1.col), y, res + [Location(x, y, l1.tileMap)])
    ensures !XStepDue(AsWritten, ix, iy, AbsX(l1, l2), AbsY(l1, l2)) ==>
      LoopInv(l1, l2, ix0, iy0, ix, iy + 1, x, y + Sign(l2.row - l1.row), res + [Location(x, y, l1.tileMap)])
  {
    CellStep(l1, l2, ix, iy);
    assert Location(x, y, l1.tileMap) == CellAt(l1, l2, ix, iy);
    WalkPush(AsWritten, l1, l2, ix, iy, res);
  }

  /** When the loop stops, it has pushed the whole walk and, if it started
      within the targets, stands on the cell of `l2`. */
  lemma LoopDone(l1: Location, l2: Location, ix0: nat, iy0: nat, ix: nat, iy: nat, x: int, y: int, res: seq<Location>)
    requires LoopInv(l1, l2, ix0, iy0, ix, iy, x, y, res)
    requires !(ix < AbsX(l1, l2) || iy < AbsY(l1, l2))
    ensures res == WalkFrom(AsWritten, l1, l2, ix0, iy0)
    ensures ix0 <= AbsX(l1, l2) && iy0 <= AbsY(l1, l2) ==>
      Location(x, y, l1.tileMap) == CellAt(l1, l2, AbsX(l1, l2), AbsY(l1, l2))
  {
    assert res + [] == res;
  }

  /** The loop of `coveringLine`: starting at the counters `ix0`, `iy0` and
      their cell `x0`, `y0`, it pushes the current cell and takes one step until
      both counters have reached their targets; `last` is the cell it stops on. */
  method WalkLoop(l1: Location, l2: Location, ix0: nat, iy0: nat, x0: int, y0: int)
    returns (res: seq<Location>, last: Location)
    requires ix0 < AbsX(l1, l2) || iy0 < AbsY(l1, l2) ==> ix0 <= AbsX(l1, l2) && iy0 <= AbsY(l1, l2)
    requires x0 == CellAt(l1, l2, ix0, iy0).col && y0 == CellAt(l1, l2, ix0, iy0).row
    ensures res == WalkFrom(AsWritten, l1, l2, ix0, iy0)
    ensures ix0 <= AbsX(l1, l2) && iy0 <= AbsY(l1, l2) ==> last == CellAt(l1, l2, AbsX(l1, l2), AbsY(l1, l2))
  {
    var absx: int, absy: int := AbsX(l1, l2), AbsY(l1, l2);
    var stepx, stepy := Sign(l2.col - l1.col), Sign(l2.row - l1.row);
    var ix: nat, iy: nat := ix0, iy0;
    var x, y := x0, y0;
    res := [];
    assert res + WalkFrom(AsWritten, l1, l2, ix, iy) == WalkFrom(AsWritten, l1, l2, ix0, iy0);
    while ix < absx || iy < absy
      invariant LoopInv(l1, l2, ix0, iy0, ix, iy, x, y, res)
      decreases absx + absy - ix - iy
    {
      LoopStep(l1, l2, ix0, iy0, ix, iy, x, y, res);
      res := res + [Location(x, y, l1.tileMap)];
      if XStepDue(AsWritten, ix, iy, absx, absy) {
        x := x + stepx;
        ix := ix + 1;
      } else {
        y := y + stepy;
        iy := iy + 1;
      }
    }
    LoopDone(l1, l2, ix0, iy0, ix, iy, x, y, res);
    last := Location(x, y, l1.tileMap);
  }

  /** `coveringLine`: the source's walk, with its optional first step, its loop
      and its final push. */
  method CoveringLine(l1: Location, l2: Location, exclusive: bool) returns (res: seq<Location>)
    ensures res == CoveringCells(AsWritten, l1, l2, exclusive)
  {
    var absx, absy := AbsX(l1, l2), AbsY(l1, l2);
    var stepx, stepy := Sign(l2.col - l1.col), Sign(l2.row - l1.row);
    var x, y := l1.col, l1.row;
    var ix: nat, iy: nat := 0, 0;
    if exclusive {
      NoOvershoot(AsWritten, 0, 0, absx, absy);
      CellStep(l1, l2, 0, 0);
      if XStepDue(AsWritten, ix, iy, absx, absy) {
        x := x + stepx;
        ix := ix + 1;
      } else {
        y := y + stepy;
        iy := iy + 1;
      }
    }
    var last;
    res, last := WalkLoop(l1, l2, ix, iy, x, y);
    if !exclusive {
      res := res + [last];
    }
  }

  // ----- the shape of the walk -----

  /** Unit steps from `l1` to the cell `c`, on the two axes together. */
  function Progress(l1: Location, c: Location): nat
  {
    Abs(c.col - l1.col) + Abs(c.row - l1.row)
  }

  /** `d` is one unit step from `c` towards `l2`, on exactly one axis. */
  predicate StepTowards(l1: Location, l2: Location, c: Location, d: Location)
  {
    (d.col - c.col == Sign(l2.col - l1.col) != 0 && d.row == c.row) ||
    (d.col == c.col && d.row - c.row == Sign(l2.row - l1.row) != 0)
  }

  /** Every cell of `w` lies in the bounding box of `l1` and `l2`, is on `l1`'s
      map, and the k-th is `offset + k` unit steps from `l1`. */
  predicate OnTheWay(l1: Location, l2: Location, w: seq<Location>, offset: int)
  {
    forall k :: 0 <= k < |w| ==>
      InBox(w[k], l1, l2) && w[k].tileMap == l1.tileMap && Progress(l1, w[k]) == offset + k
  }

  /** Each cell of `w` is followed by a cell one unit step further towards `l2`. */
  predicate Connected(l1: Location, l2: Location, w: seq<Location>)
  {
    forall k :: 0 <= k < |w| - 1 ==> StepTowards(l1, l2, w[k], w[k + 1])
  }

  /** A cell the walk can reach lies in the bounding box, on `l1`'s map, and
      its counters are its distances from `l1` on each axis. */
  lemma CellAtFacts(l1: Location, l2: Location, ix: nat, iy: nat)
    requires ix <= AbsX(l1, l2) && iy <= AbsY(l1, l2)
    ensures Abs(CellAt(l1, l2, ix, iy).col - l1.col) == ix
    ensures Abs(CellAt(l1, l2, ix, iy).row - l1.row) == iy
    ensures InBox(CellAt(l1, l2, ix, iy), l1, l2)
  {
  }

  /** The walk from counters `ix`, `iy` takes the steps that are left: one
      cell per step, starting on the cell of `ix`, `iy`. */
  lemma {:induction false} WalkLength(rule: StepRule, l1: Location, l2: Location, ix: nat, iy: nat)
    requires ix <= AbsX(l1, l2) && iy <= AbsY(l1, l2)
    ensures |WalkFrom(rule, l1, l2, ix, iy)| == AbsX(l1, l2) + AbsY(l1, l2) - ix - iy
    ensures ix < AbsX(l1, l2) || iy < AbsY(l1, l2) ==>
      WalkFrom(rule, l1, l2, ix, iy)[0] == CellAt(l1, l2, ix, iy)
    decreases AbsX(l1, l2) + AbsY(l1, l2) - ix - iy
  {
    if ix < AbsX(l1, l2) || iy < AbsY(l1, l2) {
      var next := Advance(rule, l1, l2, ix, iy);
      WalkLength(rule, l1, l2, next.0, next.1);
    }
  }

  /** A cell on the way at `offset`, put in front of cells on the way from
      `offset + 1`, gives cells on the way from `offset`. */
  lemma OnTheWayCons(l1: Location, l2: Location, c: Location, rest: seq<Location>, offset: int)
    requires InBox(c, l1, l2) && c.tileMap == l1.tileMap && Progress(l1, c) == offset
    requires OnTheWay(l1, l2, rest, offset + 1)
    ensures OnTheWay(l1, l2, [c] + rest, offset)
  {
    var w := [c] + rest;
    forall k | 0 <= k < |w|
      ensures InBox(w[k], l1, l2) && w[k].tileMap == l1.tileMap && Progress(l1, w[k]) == offset + k
    {
      if k > 0 {
        assert w[k] == rest[k - 1];
      }
    }
  }

  /** The walk from counters `ix`, `iy` is their cell followed by the walk
      after one decision. */
  lemma WalkUnfold(rule: StepRule, l1: Location, l2: Location, ix: nat, iy: nat)
    requires ix <= AbsX(l1, l2) && iy <= AbsY(l1, l2) && (ix < AbsX(l1, l2) || iy < AbsY(l1, l2))
    ensures WalkFrom(rule, l1, l2, ix, iy) ==
      [CellAt(l1, l2, ix, iy)] + WalkFrom(rule, l1, l2, Advance(rule, l1, l2, ix, iy).0, Advance(rule, l1, l2, ix, iy).1)
  {
  }

  /** The k-th cell of the walk from `ix`, `iy` is ix + iy + k unit steps from `l1`. */
  lemma {:induction false} WalkProgress(rule: StepRule, l1: Location, l2: Location, ix: nat, iy: nat)
    requires ix <= AbsX(l1, l2) && iy <= AbsY(l1, l2)
    ensures OnTheWay(l1, l2, WalkFrom(rule, l1, l2, ix, iy), ix + iy)
    decreases AbsX(l1, l2) + AbsY(l1, l2) - ix - iy
  {
    if ix < AbsX(l1, l2) || iy < AbsY(l1, l2) {
      var next := Advance(rule, l1, l2, ix, iy);
      WalkUnfold(rule, l1, l2, ix, iy);
      WalkProgress(rule, l1, l2, next.0, next.1);
      CellAtFacts(l1, l2, ix, iy);
      OnTheWayCons(l1, l2, CellAt(l1, l2, ix, iy), WalkFrom(rule, l1, l2, next.0, next.1), ix + iy);
    }
  }

  /** One decision moves the walk one unit step towards `l2`. */
  lemma AdvanceStep(rule: StepRule, l1: Location, l2: Location, ix: nat, iy: nat)
    requires ix <= AbsX(l1, l2) && iy <= AbsY(l1, l2) && (ix < AbsX(l1, l2) || iy < AbsY(l1, l2))
    ensures StepTowards(l1, l2, CellAt(l1, l2, ix, iy),
      CellAt(l1, l2, Advance(rule, l1, l2, ix, iy).0, Advance(rule, l1, l2, ix, iy).1))
  {
    CellStep(l1, l2, ix, iy);
  }

  /** A cell one unit step before the head of a connected sequence, put in
      front of it, keeps it connected. */
  lemma ConnectedCons(l1: Location, l2: Location, c: Location, rest: seq<Location>)
    requires |rest| > 0 && StepTowards(l1, l2, c, rest[0])
    requires Connected(l1, l2, rest)
    ensures Connected(l1, l2, [c] + rest)
  {
    var w := [c] + rest;
    forall k | 0 <= k < |w| - 1 ensures StepTowards(l1, l2, w[k], w[k + 1]) {
      if k > 0 {
        assert w[k] == rest[k - 1] && w[k + 1] == rest[k];
      }
    }
  }

  /** The walk from `ix`, `iy` followed by the cell of `l2` is connected. */
  lemma {:induction false} WalkSteps(rule: StepRule, l1: Location, l2: Location, ix: nat, iy: nat)
    requires ix <= AbsX(l1, l2) && iy <= AbsY(l1, l2)
    ensures Connected(l1, l2, WalkFrom(rule, l1, l2, ix, iy) + [CellAt(l1, l2, AbsX(l1, l2), AbsY(l1, l2))])
    decreases AbsX(l1, l2) + AbsY(l1, l2) - ix - iy
  {
    var last := CellAt(l1, l2, AbsX(l1, l2), AbsY(l1, l2));
    if ix < AbsX(l1, l2) || iy < AbsY(l1, l2) {
      var next := Advance(rule, l1, l2, ix, iy);
      var rest := WalkFrom(rule, l1, l2, next.0, next.1) + [last];
      WalkUnfold(rule, l1, l2, ix, iy);
      assert WalkFrom(rule, l1, l2, ix, iy) + [last] == [CellAt(l1, l2, ix, iy)] + rest;
      WalkSteps(rule, l1, l2, next.0, next.1);
      WalkLength(rule, l1, l2, next.0, next.1);
      AdvanceStep(rule, l1, l2, ix, iy);
      if next.0 < AbsX(l1, l2) || next.1 < AbsY(l1, l2) {
        assert rest[0] == CellAt(l1, l2, next.0, next.1);
      } else {
        assert next == (AbsX(l1, l2), AbsY(l1, l2));
      }
      ConnectedCons(l1, l2, CellAt(l1, l2, ix, iy), rest);
    }
  }

  /** Inclusive: |dx| + |dy| + 1 cells. Exclusive: two fewer, or none when the
      endpoints are the same cell. */
  lemma CoveringLength(rule: StepRule, l1: Location, l2: Location, exclusive: bool)
    ensures |CoveringCells(rule, l1, l2, exclusive)| ==
      if !exclusive then AbsX(l1, l2) + AbsY(l1, l2) + 1
      else if SameCell(l1, l2) then 0
      else AbsX(l1, l2) + AbsY(l1, l2) - 1
  {
    if exclusive {
      var first := Advance(rule, l1, l2, 0, 0);
      if !SameCell(l1, l2) {
        WalkLength(rule, l1, l2, first.0, first.1);
      }
    } else {
      WalkLength(rule, l1, l2, 0, 0);
    }
  }

  /** The k-th cell is k unit steps from `l1` (k + 1 when `l1` is excluded),
      lies in the bounding box and is on `l1`'s map. */
  lemma CoveringProgress(rule: StepRule, l1: Location, l2: Location, exclusive: bool)
    ensures OnTheWay(l1, l2, CoveringCells(rule, l1, l2, exclusive), if exclusive then 1 else 0)
  {
    var r := CoveringCells(rule, l1, l2, exclusive);
    if exclusive {
      var first := Advance(rule, l1, l2, 0, 0);
      if !SameCell(l1, l2) {
        WalkProgress(rule, l1, l2, first.0, first.1);
      } else {
        assert r == [];
      }
    } else {
      var w := WalkFrom(rule, l1, l2, 0, 0);
      WalkProgress(rule, l1, l2, 0, 0);
      WalkLength(rule, l1, l2, 0, 0);
      CellAtFacts(l1, l2, AbsX(l1, l2), AbsY(l1, l2));
      forall k | 0 <= k < |r|
        ensures InBox(r[k], l1, l2) && r[k].tileMap == l1.tileMap && Progress(l1, r[k]) == k
      {
        if k < |w| {
          assert r[k] == w[k];
        }
      }
    }
  }

  /** The inclusive walk starts at `l1` and ends on the cell of `l2`. */
  lemma CoveringEndpoints(rule: StepRule, l1: Location, l2: Location)
    ensures CoveringCells(rule, l1, l2, false)[0] == l1
    ensures CoveringCells(rule, l1, l2, false)[|CoveringCells(rule, l1, l2, false)| - 1]
      == Location(l2.col, l2.row, l1.tileMap)
  {
    WalkLength(rule, l1, l2, 0, 0);
    CellAtEnd(l1, l2);
  }

  /** Every cell is followed by a cell one unit step further towards `l2`, on
      exactly one axis: the walk is 4-connected. */
  lemma CoveringConnected(rule: StepRule, l1: Location, l2: Location, exclusive: bool)
    ensures Connected(l1, l2, CoveringCells(rule, l1, l2, exclusive))
  {
    var r := CoveringCells(rule, l1, l2, exclusive);
    if exclusive {
      var first := Advance(rule, l1, l2, 0, 0);
      if !SameCell(l1, l2) {
        var last := CellAt(l1, l2, AbsX(l1, l2), AbsY(l1, l2));
        WalkSteps(rule, l1, l2, first.0, first.1);
        assert r == (r + [last])[..|r|];
      } else {
        assert r == [];
      }
    } else {
      WalkSteps(rule, l1, l2, 0, 0);
    }
  }

  /** No cell is emitted twice. */
  lemma CoveringDistinct(rule: StepRule, l1: Location, l2: Location, exclusive: bool)
    ensures forall i, j :: 0 <= i < j < |CoveringCells(rule, l1, l2, exclusive)| ==>
      CoveringCells(rule, l1, l2, exclusive)[i] != CoveringCells(rule, l1, l2, exclusive)[j]
  {
    CoveringProgress(rule, l1, l2, exclusive);
  }

  /** The exclusive walk is the inclusive one without its first and last cell
      (both empty of interior when the endpoints are the same cell). */
  lemma CoveringExclusiveIsInterior(rule: StepRule, l1: Location, l2: Location)
    ensures |CoveringCells(rule, l1, l2, false)| == AbsX(l1, l2) + AbsY(l1, l2) + 1
    ensures !SameCell(l1, l2) ==>
      CoveringCells(rule, l1, l2, true) == CoveringCells(rule, l1, l2, false)[1..AbsX(l1, l2) + AbsY(l1, l2)]
    ensures SameCell(l1, l2) ==>
      CoveringCells(rule, l1, l2, true) == [] && CoveringCells(rule, l1, l2, false) == [l1]
  {
    var first := Advance(rule, l1, l2, 0, 0);
    var w := WalkFrom(rule, l1, l2, first.0, first.1);
    CoveringLength(rule, l1, l2, false);
    if !SameCell(l1, l2) {
      WalkLength(rule, l1, l2, first.0, first.1);
      var inc := CoveringCells(rule, l1, l2, false);
      assert inc == [CellAt(l1, l2, 0, 0)] + w + [CellAt(l1, l2, AbsX(l1, l2), AbsY(l1, l2))];
      assert inc[1..AbsX(l1, l2) + AbsY(l1, l2)] == w;
    }
  }

  /** The exclusive walk contains neither endpoint cell. */
  lemma CoveringExcludesEnds(rule: StepRule, l1: Location, l2: Location)
    ensures forall c :: c in CoveringCells(rule, l1, l2, true) ==> !SameCell(c, l1) && !SameCell(c, l2)
  {
    var r := CoveringCells(rule, l1, l2, true);
    CoveringProgress(rule, l1, l2, true);
    CoveringLength(rule, l1, l2, true);
    forall c | c in r ensures !SameCell(c, l1) && !SameCell(c, l2) {
      var k :| 0 <= k < |r| && r[k] == c;
      assert 1 <= Progress(l1, c) < AbsX(l1, l2) + AbsY(l1, l2);
    }
  }

  /** From (0,0) to (3,1) the source walks (0,0) (1,0) (2,0) (2,1) (3,1). */
  lemma CoveringExample(m: TileMap)
    ensures CoveringCells(AsWritten, Location(0, 0, m), Location(3, 1, m), false) ==
      [Location(0, 0, m), Location(1, 0, m), Location(2, 0, m), Location(2, 1, m), Location(3, 1, m)]
  {
    var l1, l2 := Location(0, 0, m), Location(3, 1, m);
    assert WalkFrom(AsWritten, l1, l2, 2, 1) == [Location(2, 1, m)];
    assert WalkFrom(AsWritten, l1, l2, 2, 0) == [Location(2, 0, m), Location(2, 1, m)];
    assert WalkFrom(AsWritten, l1, l2, 1, 0) == [Location(1, 0, m), Location(2, 0, m), Location(2, 1, m)];
  }

  // ----- the cells the straight line passes through -----

  /** The closed square of the cell `c` meets the straight line through the
      centres of `l1` and `l2`: the cross product of `c - l1` with `l2 - l1`,
      which is zero on the line, is at most (|dx| + |dy|) / 2 in size, the
      most it varies across a unit square. */
  predicate MeetsLine(l1: Location, l2: Location, c: Location)
  {
    2 * Abs((c.col - l1.col) * (l2.row - l1.row) - (c.row - l1.row) * (l2.col - l1.col))
      <= AbsX(l1, l2) + AbsY(l1, l2)
  }

  /** Every cell of `w` meets the straight line from `l1` to `l2`. */
  predicate AllMeetLine(l1: Location, l2: Location, w: seq<Location>)
  {
    forall k :: 0 <= k < |w| ==> MeetsLine(l1, l2, w[k])
  }

  /** How far the walk's cell `ix`, `iy` is off the line, in the walk's own
      quadrant: ix * |dy| - iy * |dx|. */
  function Drift(l1: Location, l2: Location, ix: int, iy: int): int
  {
    ix * AbsY(l1, l2) - iy * AbsX(l1, l2)
  }

  /** The cell after `ix`, `iy` steps meets the line exactly when its drift is
      at most (|dx| + |dy|) / 2 in size. */
  lemma CellMeetsLine(l1: Location, l2: Location, ix: nat, iy: nat)
    requires ix <= AbsX(l1, l2) && iy <= AbsY(l1, l2)
    ensures MeetsLine(l1, l2, CellAt(l1, l2, ix, iy)) <==>
      2 * Abs(Drift(l1, l2, ix, iy)) <= AbsX(l1, l2) + AbsY(l1, l2)
  {
    var sx, sy := Sign(l2.col - l1.col), Sign(l2.row - l1.row);
    var a, b := AbsX(l1, l2), AbsY(l1, l2);
    var c := CellAt(l1, l2, ix, iy);
    var e := Drift(l1, l2, ix, iy);
    assert c.col - l1.col == ix * sx && c.row - l1.row == iy * sy;
    CrossInQuadrant(ix, iy, sx, sy, a, b);
    if sx == 0 {
      assert a == 0 && ix == 0;
    } else if sy == 0 {
      assert b == 0 && iy == 0;
    }
  }

  /** The cross product of (ix * sx, iy * sy) with (sx * a, sy * b) is the
      drift ix * b - iy * a, up to the sign sx * sy. */
  lemma CrossInQuadrant(ix: int, iy: int, sx: int, sy: int, a: int, b: int)
    requires -1 <= sx <= 1 && -1 <= sy <= 1
    requires sx == 0 ==> ix == 0 && a == 0
    requires sy == 0 ==> iy == 0 && b == 0
    ensures Abs((ix * sx) * (sy * b) - (iy * sy) * (sx * a)) == Abs(ix * b - iy * a)
  {
    var p, q := (ix * sx) * (sy * b), (iy * sy) * (sx * a);
    if sx == 0 {
      assert p == 0 && q == 0 && ix * b == 0 && iy * a == 0;
    } else if sy == 0 {
      assert p == 0 && q == 0 && ix * b == 0 && iy * a == 0;
    } else if sx == sy {
      assert sx * sy == 1;
      assert p == (sx * sy) * (ix * b) && q == (sx * sy) * (iy * a);
    } else {
      assert sx * sy == -1;
      assert p == (sx * sy) * (ix * b) && q == (sx * sy) * (iy * a);
    }
  }

  /** A midpoint decision keeps the drift within (|dx| + |dy|) / 2. */
  lemma MidpointKeepsDrift(l1: Location, l2: Location, ix: nat, iy: nat)
    requires 2 * Abs(Drift(l1, l2, ix, iy)) <= AbsX(l1, l2) + AbsY(l1, l2)
    ensures var next := Advance(Midpoint, l1, l2, ix, iy);
      2 * Abs(Drift(l1, l2, next.0, next.1)) <= AbsX(l1, l2) + AbsY(l1, l2)
  {
    DriftArith(ix, iy, AbsX(l1, l2), AbsY(l1, l2));
  }

  /** The arithmetic behind `MidpointKeepsDrift`, on plain integers: with the
      drift e = ix * b - iy * a, the midpoint comparison is 2e < a - b, a column
      step adds b to e and a row step subtracts a. */
  lemma DriftArith(ix: int, iy: int, a: int, b: int)
    requires 0 <= a && 0 <= b
    requires 2 * Abs(ix * b - iy * a) <= a + b
    ensures (1 + 2 * ix) * b < (1 + 2 * iy) * a ==> 2 * Abs((ix + 1) * b - iy * a) <= a + b
    ensures !((1 + 2 * ix) * b < (1 + 2 * iy) * a) ==> 2 * Abs(ix * b - (iy + 1) * a) <= a + b
  {
    var e := ix * b - iy * a;
    assert (1 + 2 * ix) * b - (1 + 2 * iy) * a == b - a + 2 * e;
    assert (ix + 1) * b - iy * a == e + b;
    assert ix * b - (iy + 1) * a == e - a;
  }

  /** Under the midpoint rule every cell of the walk meets the line. */
  lemma {:induction false} MidpointWalkMeetsLine(l1: Location, l2: Location, ix: nat, iy: nat)
    requires ix <= AbsX(l1, l2) && iy <= AbsY(l1, l2)
    requires 2 * Abs(Drift(l1, l2, ix, iy)) <= AbsX(l1, l2) + AbsY(l1, l2)
    ensures AllMeetLine(l1, l2, WalkFrom(Midpoint, l1, l2, ix, iy))
    decreases AbsX(l1, l2) + AbsY(l1, l2) - ix - iy
  {
    var w := WalkFrom(Midpoint, l1, l2, ix, iy);
    if ix < AbsX(l1, l2) || iy < AbsY(l1, l2) {
      var next := Advance(Midpoint, l1, l2, ix, iy);
      var rest := WalkFrom(Midpoint, l1, l2, next.0, next.1);
      assert w == [CellAt(l1, l2, ix, iy)] + rest;
      MidpointKeepsDrift(l1, l2, ix, iy);
      MidpointWalkMeetsLine(l1, l2, next.0, next.1);
      CellMeetsLine(l1, l2, ix, iy);
      forall k | 0 <= k < |w| ensures MeetsLine(l1, l2, w[k]) {
        if k > 0 {
          assert w[k] == rest[k - 1];
        }
      }
    }
  }

  /** With the decision of the reference notes, every cell of the covering line,
      inclusive or exclusive, meets the straight line between the endpoints. */
  lemma MidpointMeetsLine(l1: Location, l2: Location, exclusive: bool)
    ensures AllMeetLine(l1, l2, CoveringCells(Midpoint, l1, l2, exclusive))
  {
    var r := CoveringCells(Midpoint, l1, l2, exclusive);
    assert Drift(l1, l2, 0, 0) == 0;
    if exclusive {
      var first := Advance(Midpoint, l1, l2, 0, 0);
      if !SameCell(l1, l2) {
        MidpointKeepsDrift(l1, l2, 0, 0);
        MidpointWalkMeetsLine(l1, l2, first.0, first.1);
      } else {
        assert r == [];
      }
    } else {
      var w := WalkFrom(Midpoint, l1, l2, 0, 0);
      var a, b := AbsX(l1, l2), AbsY(l1, l2);
      MidpointWalkMeetsLine(l1, l2, 0, 0);
      assert Drift(l1, l2, a, b) == 0;
      CellMeetsLine(l1, l2, a, b);
      forall k | 0 <= k < |r| ensures MeetsLine(l1, l2, r[k]) {
        if k < |w| {
          assert r[k] == w[k];
        }
      }
    }
  }

  /** The source's comparison lets the walk leave the line: from (0,0) to (4,1)
      it steps to (3,0), a cell the line does not pass through (the line is at
      rows 0.625 to 0.875 across that column), and never visits (2,1), which
      the line crosses. The midpoint rule walks through (2,1) instead. */
  lemma AsWrittenLeavesLine(m: TileMap)
    ensures CoveringCells(AsWritten, Location(0, 0, m), Location(4, 1, m), false) ==
      [Location(0, 0, m), Location(1, 0, m), Location(2, 0, m), Location(3, 0, m), Location(3, 1, m), Location(4, 1, m)]
    ensures !MeetsLine(Location(0, 0, m), Location(4, 1, m), Location(3, 0, m))
    ensures CoveringCells(Midpoint, Location(0, 0, m), Location(4, 1, m), false) ==
      [Location(0, 0, m), Location(1, 0, m), Location(2, 0, m), Location(2, 1, m), Location(3, 1, m), Location(4, 1, m)]
  {
    var l1, l2 := Location(0, 0, m), Location(4, 1, m);
    assert WalkFrom(AsWritten, l1, l2, 3, 1) == [Location(3, 1, m)];
    assert WalkFrom(AsWritten, l1, l2, 3, 0) == [Location(3, 0, m), Location(3, 1, m)];
    assert WalkFrom(AsWritten, l1, l2, 2, 0) == [Location(2, 0, m), Location(3, 0, m), Location(3, 1, m)];
    assert WalkFrom(AsWritten, l1, l2, 1, 0) ==
      [Location(1, 0, m), Location(2, 0, m), Location(3, 0, m), Location(3, 1, m)];
    assert WalkFrom(Midpoint, l1, l2, 3, 1) == [Location(3, 1, m)];
    assert WalkFrom(Midpoint, l1, l2, 2, 1) == [Location(2, 1, m), Location(3, 1, m)];
    assert WalkFrom(Midpoint, l1, l2, 2, 0) == [Location(2, 0, m), Location(2, 1, m), Location(3, 1, m)];
    assert WalkFrom(Midpoint, l1, l2, 1, 0) ==
      [Location(1, 0, m), Location(2, 0, m), Location(2, 1, m), Location(3, 1, m)];
  }
}
