/**
 * The public entry point of tilesExt: `line` picks one of the two rasterisers
 * by its `LineType` and answers `undefined` for any other value.
 */
module TilesExt {
  import opened Wrappers
  import opened Grid
  import opened Diagonal
  import opened Covering

  /** The two kinds of line, with their enum values 0 and 1. */
  datatype LineType = Diagonal | Covering
  {
    function Value(): int
    {
      match this
      case Diagonal => 0
      case Covering => 1
    }
  }

  /** The kind of line an enum value names, if any. */
  function LineTypeOf(value: int): (t: Option<LineType>)
    ensures t.Some? <==> value == 0 || value == 1
    ensures t.Some? ==> t.value.Value() == value
  {
    if value == LineType.Diagonal.Value() then Some(LineType.Diagonal)
    else if value == LineType.Covering.Value() then Some(LineType.Covering)
    else None
  }

  /** The cells a line of kind `t` passes through, as the dispatcher returns them. */
  function LineCells(t: LineType, l1: Location, l2: Location, exclusive: bool): seq<Location>
  {
    match t
    case Diagonal => DiagonalCells(l1, l2, exclusive)
    case Covering => CoveringCells(AsWritten, l1, l2, exclusive)
  }

  /** `line(lineType, l1, l2, exclusive?)`: an absent `exclusive` counts as false. */
  method Line(lineType: int, l1: Location, l2: Location, exclusive: bool := false)
    returns (r: Option<seq<Location>>)
    ensures lineType == LineType.Diagonal.Value() ==> r == Some(DiagonalCells(l1, l2, exclusive))
    ensures lineType == LineType.Covering.Value() ==> r == Some(CoveringCells(AsWritten, l1, l2, exclusive))
    ensures r.None? <==> LineTypeOf(lineType).None?
    ensures LineTypeOf(lineType).Some? ==> r == Some(LineCells(LineTypeOf(lineType).value, l1, l2, exclusive))
  {
    if lineType == LineType.Diagonal.Value() {
      var cells := DiagonalLine(l1, l2, exclusive);
      r := Some(cells);
    } else if lineType == LineType.Covering.Value() {
      var cells := CoveringLine(l1, l2, exclusive);
      r := Some(cells);
    } else {
      r := None;
    }
  }

  /** Equal endpoints give `[l1]`, or nothing when the endpoints are excluded,
      for both kinds of line. */
  lemma LineDegenerate(t: LineType, l1: Location, l2: Location)
    requires SameCell(l1, l2)
    ensures LineCells(t, l1, l2, false) == [l1]
    ensures LineCells(t, l1, l2, true) == []
  {
    match t
    case Diagonal => DiagonalDegenerate(l1, l2);
    case Covering => CoveringExclusiveIsInterior(AsWritten, l1, l2);
  }

  /** For both kinds of line the inclusive result starts at `l1` and ends on
      the cell of `l2`; the exclusive result is the inclusive one without
      those two cells, and contains neither endpoint cell. */
  lemma LineEndpoints(t: LineType, l1: Location, l2: Location)
    requires !SameCell(l1, l2)
    ensures |LineCells(t, l1, l2, false)| >= 2
    ensures LineCells(t, l1, l2, false)[0] == l1
    ensures LineCells(t, l1, l2, false)[|LineCells(t, l1, l2, false)| - 1] == Location(l2.col, l2.row, l1.tileMap)
    ensures LineCells(t, l1, l2, true) == LineCells(t, l1, l2, false)[1..|LineCells(t, l1, l2, false)| - 1]
    ensures forall c :: c in LineCells(t, l1, l2, true) ==> !SameCell(c, l1) && !SameCell(c, l2)
  {
    match t
    case Diagonal =>
      DiagonalEndpoints(l1, l2);
      DiagonalExclusiveIsInterior(l1, l2);
      DiagonalExcludesEnds(l1, l2);
      var r := DiagonalCells(l1, l2, false);
      assert r[|r| - 1].tileMap == l1.tileMap;
    case Covering =>
      CoveringEndpoints(AsWritten, l1, l2);
      CoveringExclusiveIsInterior(AsWritten, l1, l2);
      CoveringExcludesEnds(AsWritten, l1, l2);
  }

  /** For both kinds of line, no cell appears twice. */
  lemma LineDistinct(t: LineType, l1: Location, l2: Location, exclusive: bool)
    ensures forall i, j :: 0 <= i < j < |LineCells(t, l1, l2, exclusive)| ==>
      LineCells(t, l1, l2, exclusive)[i] != LineCells(t, l1, l2, exclusive)[j]
  {
    match t
    case Diagonal =>
      DiagonalDistinct(l1, l2, exclusive);
    case Covering =>
      CoveringDistinct(AsWritten, l1, l2, exclusive);
  }

  /** For both kinds of line, every cell lies in the bounding box of the
      endpoints and on `l1`'s map. */
  lemma LineInBox(t: LineType, l1: Location, l2: Location, exclusive: bool)
    ensures forall c :: c in LineCells(t, l1, l2, exclusive) ==> InBox(c, l1, l2) && c.tileMap == l1.tileMap
  {
    match t
    case Diagonal =>
      DiagonalInBox(l1, l2, exclusive);
    case Covering =>
      var r := LineCells(t, l1, l2, exclusive);
      CoveringProgress(AsWritten, l1, l2, exclusive);
      forall c | c in r ensures InBox(c, l1, l2) && c.tileMap == l1.tileMap {
        var k :| 0 <= k < |r| && r[k] == c;
      }
  }

  /** For both kinds of line, consecutive cells touch: they share a side for
      the covering line, a side or a corner for the diagonal one. */
  lemma LineAdjacent(t: LineType, l1: Location, l2: Location, exclusive: bool)
    ensures forall k :: 0 <= k < |LineCells(t, l1, l2, exclusive)| - 1 ==>
      Abs(LineCells(t, l1, l2, exclusive)[k + 1].col - LineCells(t, l1, l2, exclusive)[k].col) <= 1 &&
      Abs(LineCells(t, l1, l2, exclusive)[k + 1].row - LineCells(t, l1, l2, exclusive)[k].row) <= 1
  {
    match t
    case Diagonal =>
      DiagonalAdjacent(l1, l2, exclusive);
    case Covering =>
      CoveringConnected(AsWritten, l1, l2, exclusive);
  }
}
