# tilesExt line rasterisation in Dafny

A model of the two line rasterisers of the MakeCode Arcade extension
`tilesExt` (`tilesExt.ts`), with proofs of what they return.

- `line(lineType, l1, l2, exclusive?)` dispatches on the enum `LineType`
  (`Diagonal = 0`, `Covering = 1`) and answers `undefined` for any other
  value. It is modelled by `TilesExt.Line`, which answers `None`.
- `diagonalLine` emits `Math.round(lerp(l1, l2, step / N))` on each axis for
  `step` = 0..N, where N is the Chebyshev distance. With `exclusive` set it
  emits steps 1..N-1 instead. Equal endpoints give `[l1]`, or `[]` when
  exclusive. It is modelled by `Diagonal.DiagonalLine`: a loop proved equal to
  the specification `Diagonal.DiagonalCells`. `lerp` is evaluated on exact
  rationals (`real`), and `Math.round` is `floor(x + 0.5)`, so a half rounds
  towards +infinity.
- `coveringLine` walks from `l1` to `l2` one unit step at a time. It keeps the
  position `x, y` and the step counters `ix, iy`. Each decision takes a column
  step when `((1+ix)<<1)*absy < ((1+iy)<<1)*absx` and a row step otherwise,
  so ties go to the row. With `exclusive` set, one decision is taken before
  the loop and nothing is pushed after it. It is modelled by
  `Covering.CoveringLine`, proved equal to the specification
  `Covering.CoveringCells(AsWritten, ...)`. Its loop is the method
  `Covering.WalkLoop`, proved equal to `Covering.WalkFrom`, the walk from its
  starting counters. `Covering.LoopInv` names what holds at the head of the
  loop.

The covering specification takes the decision rule as a parameter
(`StepRule`). `AsWritten` is the comparison the source makes. In TypeScript
`+` binds tighter than `<<`, so `1+ix<<1` is `2*(1+ix)`. `Midpoint` is the
comparison of the redblobgames notes that the source cites:
`(1+2*ix)*absy < (1+2*iy)*absx`. Every property of the walk is proved for
both rules: its length, its endpoints, 4-connectivity, no repeated cell, the
bounding box, and the exclusive walk being the interior of the inclusive one.
The source and the model use `AsWritten`. See "## Findings" for what
`Midpoint` adds.

Three points of the source's behaviour are worth stating outright:

- The doc comment of `line` (tilesExt.ts:17) promises "the locations
  intersected by the line". The covering line as written does not keep that
  promise: it can emit a cell the line misses and skip one it crosses (see
  "## Findings").
- `line` returns `undefined` for any `lineType` other than 0 and 1. The model
  returns `None`.
- `Math.round` sends a half up, towards +infinity, so step coordinates
  that fall exactly between two cells take the larger one.

Files: `wrappers.dfy` (`Option`), `grid.dfy` (locations, `Math.abs`, `sign`,
`max`), `diagonal.dfy`, `covering.dfy`, `tiles_ext.dfy` (the dispatcher).

## Model

| member | source | states |
|---|---|---|
| Grid.Abs | tilesExt.ts:62 | `Math.abs`: the result is `n` or `-n` and is never negative |
| Grid.Sign | tilesExt.ts:63 | `Math.sign`: -1, 0 or 1, zero exactly for 0, and `sign(n) * abs(n) == n` |
| Grid.Max | tilesExt.ts:38 | `Math.max`: an upper bound of both arguments, equal to one of them |
| Diagonal.Lerp | tilesExt.ts:32-34 | `lerp` gives `start` at t = 0 and `end` at t = 1, and moves `t * (end - start)` away from `start` |
| Diagonal.Round | tilesExt.ts:49-50 | `Math.round`: the integer r with r - 1/2 <= x < r + 1/2, so a half rounds up |
| Diagonal.Steps | tilesExt.ts:37-38 | N is the larger of \|dx\| and \|dy\| |
| Diagonal.AxisAt | tilesExt.ts:46-50 | one coordinate of step `step`: `Math.round(lerp(a, b, step / N))`, computed on exact rationals |
| Diagonal.DiagonalPoint | tilesExt.ts:46-52 | the cell pushed for step `step`: column and row each given by `AxisAt`, on `l1`'s map |
| Diagonal.DiagonalCells | tilesExt.ts:36-56 | the line has 1 cell (0 when exclusive) for N = 0, and otherwise N + 1 cells, or N - 1 when exclusive |
| Diagonal.DiagonalLine | tilesExt.ts:36-56 | the early return and the `for` loop over `step` return exactly the cells of steps 0..N (1..N-1 when exclusive) |
| Diagonal.DiagonalCellAt | tilesExt.ts:44-52 | the k-th cell returned is the cell of step k, or step k + 1 when exclusive |
| Diagonal.AxisAtEnds | tilesExt.ts:32-34 | step 0 lands on the start coordinate and step N on the end coordinate |
| Diagonal.AxisAtAdjacent | tilesExt.ts:45-50 | when \|b - a\| <= N, one step moves a coordinate by at most 1 |
| Diagonal.AxisAtExact | tilesExt.ts:45-50 | when \|b - a\| = N, step s lands exactly on a + s * sign(b - a) |
| Diagonal.AxisAtBetween | tilesExt.ts:45-50 | for steps 0..N a coordinate stays between its two endpoint values |
| Diagonal.DiagonalDegenerate | tilesExt.ts:39-41 | equal endpoints give `[l1]`, or `[]` when exclusive |
| Diagonal.DiagonalEndpoints | tilesExt.ts:45-52 | the inclusive line starts at `l1` and ends on `l2`'s cell, carrying `l1`'s map |
| Diagonal.DiagonalExclusiveIsInterior | tilesExt.ts:44-45 | for N >= 1 the exclusive line is the inclusive one without its first and last cell |
| Diagonal.DiagonalAdjacent | tilesExt.ts:45-52 | consecutive cells differ by at most 1 on each axis |
| Diagonal.DiagonalMajorAxis | tilesExt.ts:45-52 | on the axis with \|d\| = N the k-th cell is exactly k unit steps (k + 1 when exclusive) from `l1` |
| Diagonal.DiagonalDistinct | tilesExt.ts:45-52 | no cell occurs twice |
| Diagonal.DiagonalInBox | tilesExt.ts:45-52 | every cell lies in the bounding box of the endpoints and carries `l1`'s map |
| Diagonal.DiagonalExcludesEnds | tilesExt.ts:44-45 | the exclusive line contains neither endpoint cell |
| Diagonal.DiagonalExample | tilesExt.ts:36-56 | (0,0) to (4,2) gives (0,0) (1,1) (2,1) (3,2) (4,2) |
| Covering.CellStep | tilesExt.ts:69-73 | a column step moves `x` by `stepx`, a row step moves `y` by `stepy` |
| Covering.CellAtEnd | tilesExt.ts:88-90 | after \|dx\| column steps and \|dy\| row steps the walk stands on `l2`'s cell |
| Covering.CellAt | tilesExt.ts:65-73 | the cell `x, y` after `ix` column steps and `iy` row steps from `l1`: column `l1.col + ix*stepx`, row `l1.row + iy*stepy`, on `l1`'s map |
| Covering.XStepDue | tilesExt.ts:68 | whether a decision takes a column step: as written (lines 68 and 80), `((1+ix)*2)*absy < ((1+iy)*2)*absx`; under the corrected rule of "## Findings", `(1+2*ix)*absy < (1+2*iy)*absx` |
| Covering.NoOvershoot | tilesExt.ts:80-86 | while a step is left, a finished axis is never chosen and an unfinished one is chosen when the other is finished |
| Covering.Advance | tilesExt.ts:80-86 | each decision increments exactly one counter and, while a step is left, takes neither past \|dx\| or \|dy\| |
| Covering.WalkFrom | tilesExt.ts:78-87 | the cells the loop pushes from counters `ix, iy`: the cell of the counters, then the walk after one decision, until both counters reach \|dx\| and \|dy\| |
| Covering.CoveringCells | tilesExt.ts:59-93 | what `coveringLine` returns: when exclusive, the walk after one decision with nothing pushed after the loop; otherwise the walk from 0, 0 followed by `l2`'s cell |
| Covering.CoveringLine | tilesExt.ts:59-93 | the optional first decision (which moves `x` or `y` as well as a counter), the loop and the final push of the cell the loop stops on return exactly `CoveringCells(AsWritten, l1, l2, exclusive)` |
| Covering.WalkLoop | tilesExt.ts:77-87 | the `for` loop, started from counters `ix0, iy0` and their cell, pushes exactly the walk from those counters and, when started within the targets, stops on `l2`'s cell |
| Covering.LoopStep | tilesExt.ts:78-86 | one iteration pushes the cell `x, y`, then moves `x` by `stepx` with `ix` or `y` by `stepy` with `iy`, keeping the counters within their targets, `x, y` on the cell of the counters, and pushed-so-far plus still-to-come equal to the whole walk |
| Covering.LoopDone | tilesExt.ts:78-89 | when the loop condition fails, everything has been pushed and the walk stands on `l2`'s cell, which the inclusive line pushes last |
| Covering.CellAtFacts | tilesExt.ts:65-66 | after `ix` and `iy` steps the cell is `ix` columns and `iy` rows from `l1`, inside the bounding box |
| Covering.WalkLength | tilesExt.ts:78-87 | from counters `ix, iy` the loop pushes \|dx\| + \|dy\| - ix - iy cells, the first at `ix, iy` |
| Covering.WalkProgress | tilesExt.ts:78-87 | the k-th cell the loop pushes is ix + iy + k unit steps from `l1`, inside the box, on `l1`'s map |
| Covering.AdvanceStep | tilesExt.ts:80-86 | one decision moves one unit step towards `l2` on exactly one axis |
| Covering.WalkSteps | tilesExt.ts:78-90 | the pushed cells followed by `l2`'s cell form a chain of unit steps towards `l2` |
| Covering.CoveringLength | tilesExt.ts:67-90 | \|dx\| + \|dy\| + 1 cells inclusive; exclusive gives two fewer, or none for equal endpoints |
| Covering.CoveringProgress | tilesExt.ts:65-90 | the k-th cell is k unit steps from `l1` (k + 1 when exclusive), inside the box, on `l1`'s map |
| Covering.CoveringEndpoints | tilesExt.ts:78-90 | the inclusive walk starts at `l1` and ends on `l2`'s cell |
| Covering.CoveringConnected | tilesExt.ts:78-90 | every cell is followed by one a unit step further towards `l2`, on exactly one axis |
| Covering.CoveringDistinct | tilesExt.ts:78-90 | no cell occurs twice |
| Covering.CoveringExclusiveIsInterior | tilesExt.ts:67-90 | for distinct endpoints the exclusive walk is the inclusive one without its first and last cell; equal endpoints give `[]` and `[l1]` |
| Covering.CoveringExcludesEnds | tilesExt.ts:67-90 | the exclusive walk contains neither endpoint cell |
| Covering.CoveringExample | tilesExt.ts:59-93 | (0,0) to (3,1) gives (0,0) (1,0) (2,0) (2,1) (3,1) |
| Covering.CellMeetsLine | tilesExt.ts:65-66 | geometry of the straight segment, used by the corrected rule of "## Findings": the cell `ix, iy` steps from `l1` (the counters start at `l1` on lines 65-66) meets the segment exactly when its drift ix\*\|dy\| - iy\*\|dx\| is at most (\|dx\| + \|dy\|)/2 in size |
| Covering.MidpointKeepsDrift | tilesExt.ts:80 | about the corrected rule of "## Findings", not the comparison line 80 makes as written: a midpoint decision keeps the drift within (\|dx\| + \|dy\|)/2 |
| Covering.MidpointWalkMeetsLine | tilesExt.ts:78-87 | under the midpoint rule every pushed cell meets the straight line |
| Covering.MidpointMeetsLine | tilesExt.ts:67-90 | under the midpoint rule every cell of the covering line meets the straight line |
| Covering.AsWrittenLeavesLine | tilesExt.ts:68 | from (0,0) to (4,1) the source's rule emits (3,0), which the line does not meet, where the midpoint rule emits (2,1) |
| TilesExt.LineTypeOf | tilesExt.ts:6-9 | only the enum values 0 and 1 name a line type, and each names the type with that value |
| TilesExt.LineCells | tilesExt.ts:25-29 | the cells `line` returns for a valid line type: the diagonal line for `Diagonal`, the covering line as written for `Covering` |
| TilesExt.Line | tilesExt.ts:25-29 | value 0 returns the diagonal line, 1 the covering line, and any other value returns `None` |
| TilesExt.LineDegenerate | tilesExt.ts:25-29 | equal endpoints give `[l1]`, or `[]` when exclusive, for both kinds of line |
| TilesExt.LineEndpoints | tilesExt.ts:25-29 | for both kinds: the inclusive line runs from `l1` to `l2`'s cell, and the exclusive line is its interior with neither endpoint |
| TilesExt.LineDistinct | tilesExt.ts:25-29 | for both kinds of line, no cell appears twice |
| TilesExt.LineInBox | tilesExt.ts:25-29 | for both kinds of line, every cell lies in the endpoints' bounding box and on `l1`'s map |
| TilesExt.LineAdjacent | tilesExt.ts:25-29 | for both kinds of line, consecutive cells differ by at most one on each axis |

## Left out

- `isWall` and `getRandomTilesByType` are not modelled. They hand the query to the host `tiles.TileMap` (`isObstacle`, `getImageType`, `sampleTilesByType`) and to the ambient `game.currentScene()`, neither of which is visible here.
- The `//%` block annotations are not modelled. They are editor metadata.
- `lerp` runs on IEEE doubles in the source. The model uses exact rationals, so it does not capture rounding error near a half.
- Covering.CoveringLine: `(1+ix)<<1` is a 32-bit shift and the products are doubles in the source. The model computes both exactly. The two agree while \|dx\| and \|dy\| are at most 2^25, where no value wraps or loses precision.
- Locations are values `(col, row, tileMap)` with integer coordinates. The map is an opaque token. The model does not capture object identity: `diagonalLine` returns `l1` itself for N = 0, while every other cell is a fresh `tiles.Location`.
- Covering.MidpointMeetsLine: proves only that every emitted cell meets the line. It does not prove that every cell the line crosses is emitted.

## Findings

| source | as written | input that shows it | evidently intended | confidence | as-written member | corrected member |
|---|---|---|---|---|---|---|
| tilesExt.ts:68 | `(1+ix<<1)*absy < (1+iy<<1)*absx` parses as `((1+ix)<<1)*absy < ((1+iy)<<1)*absx` (same at line 80) | `coveringLine((0,0), (4,1), false)` gives (0,0) (1,0) (2,0) (3,0) (3,1) (4,1). The line is at rows 0.625 to 0.875 over column 3, so it misses (3,0). It crosses (2,1), which is never emitted | `(1+(ix<<1))*absy < (1+(iy<<1))*absx`, the stepping rule of the cited notes: every emitted cell meets the line | high (operator precedence); not executed | Covering.AsWrittenLeavesLine | Covering.MidpointMeetsLine |

`CoveringLine` and `Line` keep the rule as written, because they model the
source. Every walk lemma (length, endpoints, connectivity, distinctness,
exclusive interior) is proved for both rules.
