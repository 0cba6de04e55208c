/** Placing the partitioned cameras: the rectangles tile the viewport exactly. */
module TilePacker {
  import opened Options
  import opened Reals
  import opened RealSums
  import opened MonitorLayout

  // ----- Tilings of a viewport by half-open rectangles

  ghost predicate Contains(tile: TileRect, px: real, py: real) {
    tile.x <= px < tile.x + tile.width && tile.y <= py < tile.y + tile.height
  }

  ghost predicate Covered(tiles: seq<TileRect>, px: real, py: real) {
    exists i :: 0 <= i < |tiles| && Contains(tiles[i], px, py)
  }

  /** Each point of the half-open viewport lies in exactly one tile, and no other point in any. */
  ghost predicate ExactTiling(tiles: seq<TileRect>, width: real, height: real) {
    && (forall px, py :: Covered(tiles, px, py) <==> (0.0 <= px < width && 0.0 <= py < height))
    && (forall i, j, px, py | 0 <= i < |tiles| && 0 <= j < |tiles| ::
          Contains(tiles[i], px, py) && Contains(tiles[j], px, py) ==> i == j)
  }

  ghost function Area(width: real, height: real): real {
    width * height
  }

  ghost function Areas(tiles: seq<TileRect>): (areas: seq<real>)
    ensures |areas| == |tiles|
  {
    seq(|tiles|, i requires 0 <= i < |tiles| => Area(tiles[i].width, tiles[i].height))
  }

  // ----- A grid of rows, each divided on its own

  ghost predicate GridOf(rows: Rows, widths: seq<seq<real>>, heights: seq<real>) {
    && |widths| == |heights| == |rows|
    && NonNegative(heights)
    && forall r :: 0 <= r < |rows| ==> |widths[r]| == |rows[r]| && NonNegative(widths[r])
  }

  /** The tile of the `k`-th camera of row `r` sits after the widths and below the heights
      before it. */
  ghost predicate CellPlaced(rows: Rows, widths: seq<seq<real>>, heights: seq<real>, tiles: seq<TileRect>, r: nat,
                             k: nat)
    requires GridOf(rows, widths, heights) && RowsIn(rows, |tiles|)
    requires r < |rows| && k < |rows[r]|
  {
    tiles[rows[r][k]] == TileRect(Sum(widths[r][..k]), Sum(heights[..r]), widths[r][k], heights[r])
  }

  ghost predicate GridPlaced(rows: Rows, widths: seq<seq<real>>, heights: seq<real>, tiles: seq<TileRect>)
  {
    && GridOf(rows, widths, heights) && RowsIn(rows, |tiles|) && CoversInOrder(rows, |tiles|)
    && forall r, k :: 0 <= r < |rows| && 0 <= k < |rows[r]| ==> CellPlaced(rows, widths, heights, tiles, r, k)
  }

  ghost predicate FillsViewport(widths: seq<seq<real>>, heights: seq<real>, width: real, height: real) {
    && Sum(heights) == height
    && forall r :: 0 <= r < |widths| ==> Sum(widths[r]) == width
  }

  lemma {:induction false} RowHolding(rows: Rows, count: nat, i: nat) returns (r: nat)
    requires count <= |rows| && i < Offset(rows, count)
    ensures r < count && Offset(rows, r) <= i < Offset(rows, r) + |rows[r]|
    decreases count
  {
    if Offset(rows, count - 1) <= i {
      r := count - 1;
    } else {
      r := RowHolding(rows, count - 1, i);
    }
  }

  lemma CellOf(rows: Rows, n: nat, i: nat) returns (r: nat, k: nat)
    requires CoversInOrder(rows, n) && i < n
    ensures r < |rows| && k < |rows[r]| && rows[r][k] == i
  {
    r := RowHolding(rows, |rows|, i);
    k := i - Offset(rows, r);
    assert InPlace(rows, r);
  }

  lemma PointInCell(rows: Rows, widths: seq<seq<real>>, heights: seq<real>, tiles: seq<TileRect>,
                    width: real, height: real, i: nat, px: real, py: real) returns (r: nat, k: nat)
    requires GridPlaced(rows, widths, heights, tiles) && FillsViewport(widths, heights, width, height)
    requires i < |tiles| && Contains(tiles[i], px, py)
    ensures r < |rows| && k < |rows[r]| && rows[r][k] == i
    ensures InSlot(heights, r, py) && InSlot(widths[r], k, px)
    ensures 0.0 <= px < width && 0.0 <= py < height
  {
    r, k := CellOf(rows, |tiles|, i);
    assert CellPlaced(rows, widths, heights, tiles, r, k);
    SlotWithin(heights, r);
    SlotWithin(widths[r], k);
  }

  lemma CellAtPoint(rows: Rows, widths: seq<seq<real>>, heights: seq<real>, tiles: seq<TileRect>,
                    width: real, height: real, px: real, py: real)
    requires GridPlaced(rows, widths, heights, tiles) && FillsViewport(widths, heights, width, height)
    requires 0.0 <= px < width && 0.0 <= py < height
    ensures Covered(tiles, px, py)
  {
    var r := SlotOf(heights, py);
    var k := SlotOf(widths[r], px);
    assert CellPlaced(rows, widths, heights, tiles, r, k);
    assert Contains(tiles[rows[r][k]], px, py);
  }

  lemma GridTilesExactly(rows: Rows, widths: seq<seq<real>>, heights: seq<real>, tiles: seq<TileRect>,
                         width: real, height: real)
    requires GridPlaced(rows, widths, heights, tiles) && FillsViewport(widths, heights, width, height)
    ensures ExactTiling(tiles, width, height)
  {
    forall px, py
      ensures Covered(tiles, px, py) <==> (0.0 <= px < width && 0.0 <= py < height)
    {
      if Covered(tiles, px, py) {
        var i :| 0 <= i < |tiles| && Contains(tiles[i], px, py);
        var r, k := PointInCell(rows, widths, heights, tiles, width, height, i, px, py);
      } else if 0.0 <= px < width && 0.0 <= py < height {
        CellAtPoint(rows, widths, heights, tiles, width, height, px, py);
      }
    }
    forall i, j, px, py | 0 <= i < |tiles| && 0 <= j < |tiles|
                          && Contains(tiles[i], px, py) && Contains(tiles[j], px, py)
      ensures i == j
    {
      var r, k := PointInCell(rows, widths, heights, tiles, width, height, i, px, py);
      var r', k' := PointInCell(rows, widths, heights, tiles, width, height, j, px, py);
      SlotsDisjoint(heights, r, r', py);
      SlotsDisjoint(widths[r], k, k', px);
    }
  }

  lemma {:induction false} StripSum(all: seq<real>, first: nat, strip: seq<real>, k: nat)
    requires k <= |strip| && first + k <= |all|
    requires forall j :: 0 <= j < k ==> all[first + j] == strip[j]
    ensures Sum(all[..first + k]) == Sum(all[..first]) + Sum(strip[..k])
  {
    if k > 0 {
      StripSum(all, first, strip, k - 1);
      SumStep(all, first + (k - 1));
      SumStep(strip, k - 1);
    }
  }

  ghost function RowAreas(widths: seq<real>, height: real): (areas: seq<real>)
    ensures |areas| == |widths|
  {
    seq(|widths|, j requires 0 <= j < |widths| => Area(widths[j], height))
  }

  lemma RowAreasSum(widths: seq<real>, height: real)
    ensures Sum(RowAreas(widths, height)) == Area(Sum(widths), height)
  {
    SumScaled(widths, RowAreas(widths, height), height);
  }

  lemma CellArea(rows: Rows, widths: seq<seq<real>>, heights: seq<real>, tiles: seq<TileRect>, r: nat, j: nat)
    requires GridPlaced(rows, widths, heights, tiles) && r < |rows| && j < |rows[r]|
    ensures Offset(rows, r) + j < |tiles|
    ensures Areas(tiles)[Offset(rows, r) + j] == RowAreas(widths[r], heights[r])[j]
  {
    OffsetMonotone(rows, r + 1, |rows|);
    assert InPlace(rows, r);
    assert CellPlaced(rows, widths, heights, tiles, r, j);
  }

  /** The areas from one offset on are those of a row. */
  ghost predicate RowAt(all: seq<real>, first: nat, areas: seq<real>) {
    first + |areas| <= |all| && forall j :: 0 <= j < |areas| ==> all[first + j] == areas[j]
  }

  lemma RowCells(rows: Rows, widths: seq<seq<real>>, heights: seq<real>, tiles: seq<TileRect>, r: nat)
    requires GridPlaced(rows, widths, heights, tiles) && r < |rows|
    ensures Offset(rows, r + 1) == Offset(rows, r) + |widths[r]| <= |tiles|
    ensures RowAt(Areas(tiles), Offset(rows, r), RowAreas(widths[r], heights[r]))
  {
    OffsetMonotone(rows, r + 1, |rows|);
    forall j | 0 <= j < |rows[r]|
      ensures Areas(tiles)[Offset(rows, r) + j] == RowAreas(widths[r], heights[r])[j]
    {
      CellArea(rows, widths, heights, tiles, r, j);
    }
  }

  lemma RowTotal(all: seq<real>, first: nat, areas: seq<real>)
    requires RowAt(all, first, areas)
    ensures Sum(all[..first + |areas|]) == Sum(all[..first]) + Sum(areas)
  {
    StripSum(all, first, areas, |areas|);
    assert areas[..|areas|] == areas;
  }

  lemma NextRowArea(rows: Rows, widths: seq<seq<real>>, heights: seq<real>, tiles: seq<TileRect>,
                    width: real, height: real, r: nat)
    requires GridPlaced(rows, widths, heights, tiles) && FillsViewport(widths, heights, width, height) && r < |rows|
    ensures Offset(rows, r) <= Offset(rows, r + 1) <= |tiles|
    ensures Sum(Areas(tiles)[..Offset(rows, r + 1)]) == Sum(Areas(tiles)[..Offset(rows, r)]) + Area(width, heights[r])
  {
    RowCells(rows, widths, heights, tiles, r);
    RowTotal(Areas(tiles), Offset(rows, r), RowAreas(widths[r], heights[r]));
    RowAreasSum(widths[r], heights[r]);
  }

  lemma {:induction false} GridArea(rows: Rows, widths: seq<seq<real>>, heights: seq<real>, tiles: seq<TileRect>,
                                    width: real, height: real, count: nat)
    requires GridPlaced(rows, widths, heights, tiles) && FillsViewport(widths, heights, width, height)
    requires count <= |rows|
    ensures Offset(rows, count) <= |tiles|
    ensures Sum(Areas(tiles)[..Offset(rows, count)]) == Area(Sum(heights[..count]), width)
  {
    if count > 0 {
      GridArea(rows, widths, heights, tiles, width, height, count - 1);
      NextRowArea(rows, widths, heights, tiles, width, height, count - 1);
      SumStep(heights, count - 1);
      AreaStep(Sum(heights[..count - 1]), heights[count - 1], width);
    }
  }

  lemma AreaStep(a: real, b: real, width: real)
    ensures Area(a + b, width) == Area(a, width) + Area(width, b)
  {
  }

  // ----- The packer's own widths and heights

  /** No row is left without width to divide by. */
  predicate PositiveRows(aspects: seq<real>, rows: Rows) {
    RowsIn(rows, |aspects|) && forall r :: 0 <= r < |rows| ==> RowSum(aspects, rows[r]) > 0.0
  }

  /** The height at which each row's cameras, keeping their own aspect ratios, fill `width`. */
  function NaturalRowHeights(aspects: seq<real>, rows: Rows, width: real): (heights: seq<real>)
    requires PositiveRows(aspects, rows)
    ensures |heights| == |rows|
  {
    seq(|rows|, r requires 0 <= r < |rows| => width / RowSum(aspects, rows[r]))
  }

  function NaturalTotal(aspects: seq<real>, rows: Rows, width: real): real
    requires PositiveRows(aspects, rows)
  {
    Sum(NaturalRowHeights(aspects, rows, width))
  }

  lemma NaturalTotalPositive(aspects: seq<real>, rows: Rows, width: real)
    requires PositiveRows(aspects, rows) && rows != [] && width > 0.0
    ensures NaturalTotal(aspects, rows, width) > 0.0
  {
    SumPositive(NaturalRowHeights(aspects, rows, width));
  }

  ghost function RowWidths(aspects: seq<real>, row: seq<nat>, width: real): (widths: seq<real>)
    requires RowIn(row, |aspects|) && RowSum(aspects, row) > 0.0
    ensures |widths| == |row|
  {
    seq(|row|, k requires 0 <= k < |row| => width * (aspects[row[k]] / RowSum(aspects, row)))
  }

  ghost function Widths(aspects: seq<real>, rows: Rows, width: real): (widths: seq<seq<real>>)
    requires PositiveRows(aspects, rows)
    ensures |widths| == |rows|
  {
    seq(|rows|, r requires 0 <= r < |rows| => RowWidths(aspects, rows[r], width))
  }

  ghost function Heights(aspects: seq<real>, rows: Rows, width: real, height: real): (heights: seq<real>)
    requires PositiveRows(aspects, rows) && rows != [] && width > 0.0
    ensures |heights| == |rows|
  {
    NaturalTotalPositive(aspects, rows, width);
    seq(|rows|, r requires 0 <= r < |rows| =>
      NaturalRowHeights(aspects, rows, width)[r] * (height / NaturalTotal(aspects, rows, width)))
  }

  lemma PackedGridFits(aspects: seq<real>, rows: Rows, width: real, height: real)
    requires PositiveRows(aspects, rows) && rows != [] && width > 0.0 && height > 0.0
    requires NonNegative(aspects)
    ensures GridOf(rows, Widths(aspects, rows, width), Heights(aspects, rows, width, height))
    ensures FillsViewport(Widths(aspects, rows, width), Heights(aspects, rows, width, height), width, height)
  {
    var natural := NaturalRowHeights(aspects, rows, width);
    var total := NaturalTotal(aspects, rows, width);
    NaturalTotalPositive(aspects, rows, width);
    SumScaled(natural, Heights(aspects, rows, width, height), height / total);
    forall r | 0 <= r < |rows|
      ensures NonNegative(Widths(aspects, rows, width)[r])
      ensures Sum(Widths(aspects, rows, width)[r]) == width
      ensures Heights(aspects, rows, width, height)[r] >= 0.0
    {
      RowWidthsFill(aspects, rows[r], width);
      HeightPositive(width, RowSum(aspects, rows[r]), height, total);
    }
  }

  lemma HeightPositive(width: real, rowSum: real, height: real, total: real)
    requires width > 0.0 && rowSum > 0.0 && height > 0.0 && total > 0.0
    ensures width / rowSum > 0.0 && height / total > 0.0
    ensures (width / rowSum) * (height / total) > 0.0
  {
  }

  lemma RowWidthsFill(aspects: seq<real>, row: seq<nat>, width: real)
    requires RowIn(row, |aspects|) && RowSum(aspects, row) > 0.0 && width > 0.0 && NonNegative(aspects)
    ensures NonNegative(RowWidths(aspects, row, width))
    ensures Sum(RowWidths(aspects, row, width)) == width
  {
    var rowSum := RowSum(aspects, row);
    forall k | 0 <= k < |row|
      ensures RowWidths(aspects, row, width)[k] == (width / rowSum) * RowAspects(aspects, row)[k]
      ensures RowWidths(aspects, row, width)[k] >= 0.0
    {
      ShareOfWidth(width, aspects[row[k]], rowSum);
    }
    SumScaled(RowAspects(aspects, row), RowWidths(aspects, row, width), width / rowSum);
  }

  lemma ShareOfWidth(width: real, aspect: real, rowSum: real)
    requires width > 0.0 && aspect >= 0.0 && rowSum > 0.0
    ensures width * (aspect / rowSum) == (width / rowSum) * aspect >= 0.0
  {
    assert aspect / rowSum >= 0.0;
  }

  // ----- The packer

  /** The greedy partition whose natural height is nearest the viewport's over all row counts,
      the smallest such row count when several tie. */
  ghost predicate NearestPartition(aspects: seq<real>, width: real, height: real, limit: nat, rowCount: nat,
                                   rows: Rows) {
    && 1 <= rowCount <= limit
    && IsGreedyPartition(aspects, rowCount, rows)
    && PositiveRows(aspects, rows)
    && forall m, other :: 1 <= m <= limit && IsGreedyPartition(aspects, m, other) && PositiveRows(aspects, other) ==>
         NoNearer(aspects, width, height, rows, other, m < rowCount)
  }

  ghost predicate NoNearer(aspects: seq<real>, width: real, height: real, rows: Rows, other: Rows, strictly: bool)
    requires PositiveRows(aspects, rows) && PositiveRows(aspects, other)
  {
    var mine := Distance(NaturalTotal(aspects, rows, width), height);
    var theirs := Distance(NaturalTotal(aspects, other, width), height);
    mine <= theirs && (strictly ==> mine < theirs)
  }

  ghost predicate PackedAs(aspects: seq<real>, rows: Rows, width: real, height: real, tiles: seq<TileRect>)
  {
    && PositiveRows(aspects, rows) && rows != [] && width > 0.0 && height > 0.0
    && GridPlaced(rows, Widths(aspects, rows, width), Heights(aspects, rows, width, height), tiles)
  }

  ghost predicate Packing(aspects: seq<real>, width: real, height: real, tiles: seq<TileRect>) {
    exists rowCount, rows ::
      && NearestPartition(aspects, width, height, |aspects|, rowCount, rows)
      && PackedAs(aspects, rows, width, height, tiles)
  }

  /** Every tile's box is off its camera's own aspect ratio by one and the same factor. */
  ghost predicate UniformlyStretched(aspects: seq<real>, tiles: seq<TileRect>, factor: real) {
    |tiles| == |aspects| && factor > 0.0
    && forall i :: 0 <= i < |tiles| ==> tiles[i].width == Stretched(factor, aspects[i], tiles[i].height)
  }

  /** The width of a box of this height, off the aspect ratio by the factor. */
  ghost function Stretched(factor: real, aspect: real, height: real): real {
    factor * aspect * height
  }

  lemma PackedTilesExactly(aspects: seq<real>, rows: Rows, width: real, height: real, tiles: seq<TileRect>)
    requires NonNegative(aspects) && PackedAs(aspects, rows, width, height, tiles)
    ensures ExactTiling(tiles, width, height)
    ensures Sum(Areas(tiles)) == width * height
  {
    var widths := Widths(aspects, rows, width);
    var heights := Heights(aspects, rows, width, height);
    PackedGridFits(aspects, rows, width, height);
    GridTilesExactly(rows, widths, heights, tiles, width, height);
    GridArea(rows, widths, heights, tiles, width, height, |rows|);
    assert heights[..|rows|] == heights;
    assert Areas(tiles)[..|tiles|] == Areas(tiles);
  }

  ghost function TileWidth(width: real, aspect: real, rowSum: real): real
    requires rowSum > 0.0
  {
    width * (aspect / rowSum)
  }

  ghost function TileHeight(width: real, rowSum: real, height: real, total: real): real
    requires rowSum > 0.0 && total > 0.0
  {
    width / rowSum * (height / total)
  }

  lemma PackedTile(aspects: seq<real>, rows: Rows, width: real, height: real, tiles: seq<TileRect>, i: nat)
    returns (r: nat)
    requires |tiles| == |aspects| && PackedAs(aspects, rows, width, height, tiles) && i < |tiles|
    ensures r < |rows| && NaturalTotal(aspects, rows, width) > 0.0
    ensures tiles[i].width == TileWidth(width, aspects[i], RowSum(aspects, rows[r]))
    ensures tiles[i].height == TileHeight(width, RowSum(aspects, rows[r]), height, NaturalTotal(aspects, rows, width))
  {
    var k;
    r, k := CellOf(rows, |tiles|, i);
    NaturalTotalPositive(aspects, rows, width);
    assert CellPlaced(rows, Widths(aspects, rows, width), Heights(aspects, rows, width, height), tiles, r, k);
  }

  lemma PackedStretchesUniformly(aspects: seq<real>, rows: Rows, width: real, height: real, tiles: seq<TileRect>)
    requires |tiles| == |aspects| && PackedAs(aspects, rows, width, height, tiles)
    ensures UniformlyStretched(aspects, tiles, NaturalTotal(aspects, rows, width) / height)
  {
    var total := NaturalTotal(aspects, rows, width);
    NaturalTotalPositive(aspects, rows, width);
    HeightPositive(total, height, width, height);
    forall i | 0 <= i < |tiles|
      ensures tiles[i].width == Stretched(total / height, aspects[i], tiles[i].height)
    {
      var r := PackedTile(aspects, rows, width, height, tiles, i);
      Stretch(width, aspects[i], RowSum(aspects, rows[r]), height, total);
    }
  }

  lemma Stretch(width: real, aspect: real, rowSum: real, height: real, total: real)
    requires rowSum > 0.0 && height > 0.0 && total > 0.0
    ensures TileWidth(width, aspect, rowSum)
         == Stretched(total / height, aspect, TileHeight(width, rowSum, height, total))
  {
    var a, b := total / height, height / total;
    assert a * b == 1.0;
    var c := width / rowSum;
    assert width * (aspect / rowSum) == c * aspect;
    assert a * aspect * (c * b) == (a * b) * (aspect * c);
  }

  lemma AspectsPositive(cameras: seq<Camera>)
    ensures NonNegative(AspectRatios(cameras))
    ensures forall i :: 0 <= i < |cameras| && cameras[i].width > 0 ==> AspectRatios(cameras)[i] > 0.0
  {
  }

  lemma RowCountOne(aspects: seq<real>, rows: Rows)
    requires NonNegative(aspects) && IsGreedyPartition(aspects, 1, rows)
    requires exists i :: 0 <= i < |aspects| && aspects[i] > 0.0
    ensures PositiveRows(aspects, rows)
  {
    assert InPlace(rows, 0);
    assert RowAspects(aspects, rows[0]) == aspects;
    var i :| 0 <= i < |aspects| && aspects[i] > 0.0;
    SumMonotone(aspects, 0, i);
    SumStep(aspects, i);
    SumMonotone(aspects, i + 1, |aspects|);
    assert aspects[..|aspects|] == aspects;
  }

  /** Considering one more row count keeps the nearest partition the nearest so far. */
  lemma NearestStep(aspects: seq<real>, width: real, height: real, rowCount: nat, best: Rows, count: nat, rows: Rows)
    requires NearestPartition(aspects, width, height, count, rowCount, best)
    requires IsGreedyPartition(aspects, count + 1, rows)
    ensures PositiveRows(aspects, rows) && !NoNearer(aspects, width, height, best, rows, false) ==>
              NearestPartition(aspects, width, height, count + 1, count + 1, rows)
    ensures !(PositiveRows(aspects, rows) && !NoNearer(aspects, width, height, best, rows, false)) ==>
              NearestPartition(aspects, width, height, count + 1, rowCount, best)
  {
    var limit := count + 1;
    forall other | IsGreedyPartition(aspects, limit, other)
      ensures other == rows
    {
      GreedyPartitionUnique(aspects, limit, other, rows);
    }
  }

  lemma NearestPartitionUnique(aspects: seq<real>, width: real, height: real, limit: nat,
                               rowCount: nat, rows: Rows, otherCount: nat, other: Rows)
    requires NearestPartition(aspects, width, height, limit, rowCount, rows)
    requires NearestPartition(aspects, width, height, limit, otherCount, other)
    ensures rowCount == otherCount && rows == other
  {
    assert NoNearer(aspects, width, height, rows, other, otherCount < rowCount);
    assert NoNearer(aspects, width, height, other, rows, rowCount < otherCount);
    GreedyPartitionUnique(aspects, rowCount, rows, other);
  }

  /** Every tile is its camera's own shape, but for one and the same factor. */
  ghost predicate ShapesStretched(cameras: seq<Camera>, tiles: seq<TileRect>, factor: real) {
    |tiles| == |cameras| && factor > 0.0
    && forall i :: 0 <= i < |tiles| ==> KeepsShape(cameras[i], tiles[i].width, factor * tiles[i].height)
  }

  lemma ShapesOfAspects(cameras: seq<Camera>, tiles: seq<TileRect>, factor: real)
    requires UniformlyStretched(AspectRatios(cameras), tiles, factor)
    ensures ShapesStretched(cameras, tiles, factor)
    ensures ShapesAt(cameras, AspectRatios(cameras), 1.0)
  {
    forall i | 0 <= i < |cameras|
      ensures KeepsShape(cameras[i], tiles[i].width, factor * tiles[i].height)
      ensures KeepsShape(cameras[i], AspectRatios(cameras)[i], 1.0)
    {
      AspectKeepsShape(cameras[i], tiles[i].width, factor * tiles[i].height);
      AspectKeepsShape(cameras[i], AspectRatios(cameras)[i], 1.0);
      StretchedShape(factor, AspectRatio(cameras[i]), tiles[i].height);
    }
  }

  lemma StretchedShape(factor: real, aspect: real, height: real)
    ensures Stretched(factor, aspect, height) == aspect * (factor * height)
  {
  }

  predicate AllWidthsZero(cameras: seq<Camera>) {
    forall i :: 0 <= i < |cameras| ==> cameras[i].width == 0
  }

  /** Packs every camera into a rectangle, so that the rectangles tile the viewport. Cameras of no
      width at all leave nothing to divide by: the source's rectangles are then not numbers, and
      there is no packing. */
  method PackTiles(cameras: seq<Camera>, viewportWidth: real, viewportHeight: real)
    returns (packed: Option<seq<TileRect>>)
    ensures cameras == [] || viewportWidth <= 0.0 || viewportHeight <= 0.0 ==> packed == Some([])
    ensures cameras != [] && viewportWidth > 0.0 && viewportHeight > 0.0 ==>
              && (packed.None? <==> forall i :: 0 <= i < |cameras| ==> cameras[i].width == 0)
              && (packed.Some? ==>
                    && |packed.value| == |cameras|
                    && ExactTiling(packed.value, viewportWidth, viewportHeight)
                    && Sum(Areas(packed.value)) == viewportWidth * viewportHeight
                    && (exists factor :: ShapesStretched(cameras, packed.value, factor))
                    && (exists ratios :: ShapesAt(cameras, ratios, 1.0)
                                         && Packing(ratios, viewportWidth, viewportHeight, packed.value)))
  {
    if cameras == [] || viewportWidth <= 0.0 || viewportHeight <= 0.0 {
      return Some([]);
    }
    if AllWidthsZero(cameras) {
      return None;
    }
    var aspects := AspectRatios(cameras);
    AspectsPositive(cameras);
    var rows := PartitionIntoRows(aspects, 1);
    RowCountOne(aspects, rows);
    forall other | IsGreedyPartition(aspects, 1, other)
      ensures other == rows
    {
      GreedyPartitionUnique(aspects, 1, other, rows);
    }
    ghost var rowCount := 1;
    for count := 1 to |aspects|
      invariant NearestPartition(aspects, viewportWidth, viewportHeight, count, rowCount, rows)
    {
      var candidate := PartitionIntoRows(aspects, count + 1);
      NearestStep(aspects, viewportWidth, viewportHeight, rowCount, rows, count, candidate);
      if PositiveRows(aspects, candidate)
         && Distance(NaturalTotal(aspects, candidate, viewportWidth), viewportHeight)
            < Distance(NaturalTotal(aspects, rows, viewportWidth), viewportHeight)
      {
        rows, rowCount := candidate, count + 1;
      }
    }
    var tiles := PlaceTiles(aspects, rows, viewportWidth, viewportHeight);
    PackedTilesExactly(aspects, rows, viewportWidth, viewportHeight, tiles);
    PackedStretchesUniformly(aspects, rows, viewportWidth, viewportHeight, tiles);
    ShapesOfAspects(cameras, tiles, NaturalTotal(aspects, rows, viewportWidth) / viewportHeight);
    return Some(tiles);
  }

  method PlaceTiles(aspects: seq<real>, rows: Rows, width: real, height: real) returns (tiles: seq<TileRect>)
    requires width > 0.0 && height > 0.0 && rows != [] && NonNegative(aspects)
    requires PositiveRows(aspects, rows) && CoversInOrder(rows, |aspects|)
    ensures |tiles| == |aspects| && PackedAs(aspects, rows, width, height, tiles)
  {
    ghost var widths := Widths(aspects, rows, width);
    ghost var heights := Heights(aspects, rows, width, height);
    PackedGridFits(aspects, rows, width, height);
    NaturalTotalPositive(aspects, rows, width);
    var naturalHeights := NaturalRowHeights(aspects, rows, width);
    var verticalScale := height / Sum(naturalHeights);
    tiles := seq(|aspects|, _ => TileRect(0.0, 0.0, 0.0, 0.0));
    var y := 0.0;
    for r := 0 to |rows|
      invariant |tiles| == |aspects| && y == Sum(heights[..r])
      invariant RowsPlaced(rows, widths, heights, tiles, r)
    {
      var rowHeight := naturalHeights[r] * verticalScale;
      tiles := PlaceRow(aspects, rows, width, widths, heights, r, y, rowHeight, tiles);
      SumStep(heights, r);
      y := y + rowHeight;
    }
  }

  ghost predicate RowPlaced(rows: Rows, widths: seq<seq<real>>, heights: seq<real>, tiles: seq<TileRect>, r: nat,
                            count: nat)
    requires GridOf(rows, widths, heights) && RowsIn(rows, |tiles|) && r < |rows| && count <= |rows[r]|
  {
    forall k :: 0 <= k < count ==> CellPlaced(rows, widths, heights, tiles, r, k)
  }

  ghost predicate RowsPlaced(rows: Rows, widths: seq<seq<real>>, heights: seq<real>, tiles: seq<TileRect>, count: nat)
    requires GridOf(rows, widths, heights) && RowsIn(rows, |tiles|) && count <= |rows|
  {
    forall r :: 0 <= r < count ==> RowPlaced(rows, widths, heights, tiles, r, |rows[r]|)
  }

  /** The inner loop: one row's tiles, left to right. */
  method PlaceRow(aspects: seq<real>, rows: Rows, width: real, ghost widths: seq<seq<real>>, ghost heights: seq<real>,
                  r: nat, y: real, rowHeight: real, placed: seq<TileRect>) returns (tiles: seq<TileRect>)
    requires PositiveRows(aspects, rows) && CoversInOrder(rows, |aspects|) && |placed| == |aspects| && r < |rows|
    requires GridOf(rows, widths, heights) && widths == Widths(aspects, rows, width)
    requires y == Sum(heights[..r]) && rowHeight == heights[r]
    requires RowsPlaced(rows, widths, heights, placed, r)
    ensures |tiles| == |aspects| && RowsPlaced(rows, widths, heights, tiles, r + 1)
  {
    var rowAspectSum := RowSum(aspects, rows[r]);
    var x := 0.0;
    tiles := placed;
    for k := 0 to |rows[r]|
      invariant |tiles| == |aspects| && x == Sum(widths[r][..k])
      invariant RowPlaced(rows, widths, heights, tiles, r, k)
      invariant RowsPlaced(rows, widths, heights, tiles, r)
    {
      var index := rows[r][k];
      var tileWidth := width * (aspects[index] / rowAspectSum);
      ghost var before := tiles;
      tiles := tiles[index := TileRect(x, y, tileWidth, rowHeight)];
      CellsKept(rows, widths, heights, before, tiles, r, k);
      SumStep(widths[r], k);
      x := x + tileWidth;
    }
  }

  /** Writing one camera's tile leaves every other camera's tile in place. */
  lemma CellsKept(rows: Rows, widths: seq<seq<real>>, heights: seq<real>,
                  before: seq<TileRect>, tiles: seq<TileRect>, r: nat, k: nat)
    requires GridOf(rows, widths, heights) && RowsIn(rows, |tiles|) && CoversInOrder(rows, |tiles|)
    requires r < |rows| && k < |rows[r]| && |before| == |tiles|
    requires forall i :: 0 <= i < |tiles| && i != rows[r][k] ==> tiles[i] == before[i]
    ensures forall r' | 0 <= r' < r ::
              RowPlaced(rows, widths, heights, before, r', |rows[r']|) ==>
                RowPlaced(rows, widths, heights, tiles, r', |rows[r']|)
    ensures RowPlaced(rows, widths, heights, before, r, k) ==> RowPlaced(rows, widths, heights, tiles, r, k)
  {
    forall r', k' | 0 <= r' < |rows| && 0 <= k' < |rows[r']| && (r' < r || (r' == r && k' < k))
      ensures CellPlaced(rows, widths, heights, before, r', k') ==> CellPlaced(rows, widths, heights, tiles, r', k')
    {
      assert InPlace(rows, r) && InPlace(rows, r');
      OffsetMonotone(rows, r', r);
    }
  }
}
