/**
 * Tile-map locations and the three `Math` helpers (`abs`, `sign`, `max`)
 * that both line rasterisers use on integer coordinates.
 */
module Grid {

  /** The map a location belongs to. The line code never looks inside it:
      it only copies the start location's map onto every cell it emits. */
  datatype TileMap = TileMap(id: nat)

  /** A `tiles.Location`: a column, a row and the map they refer to. */
  datatype Location = Location(col: int, row: int, tileMap: TileMap)

  /** `Math.abs` on an integer. */
  function Abs(n: int): (r: nat)
    ensures r == n || r == -n
  {
    if n < 0 then -n else n
  }

  /** `Math.sign` on an integer: the unit step that moves towards `n`. */
  function Sign(n: int): (r: int)
    ensures -1 <= r <= 1
    ensures r * Abs(n) == n
    ensures r == 0 <==> n == 0
  {
    if n < 0 then -1 else if n > 0 then 1 else 0
  }

  /** `Math.max` of two naturals. */
  function Max(a: nat, b: nat): (r: nat)
    ensures a <= r && b <= r
    ensures r == a || r == b
  {
    if a < b then b else a
  }

  /** The two locations name the same cell (whatever map they carry). */
  predicate SameCell(a: Location, b: Location)
  {
    a.col == b.col && a.row == b.row
  }

  /** The cell lies in the bounding box of the cells `a` and `b`. */
  predicate InBox(c: Location, a: Location, b: Location)
  {
    (a.col <= c.col <= b.col || b.col <= c.col <= a.col) &&
    (a.row <= c.row <= b.row || b.row <= c.row <= a.row)
  }
}
