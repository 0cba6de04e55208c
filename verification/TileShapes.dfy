/** What the packer's ratios mean in pixels: its fair shares and natural heights, in terms of the
    cameras' own shapes. */
module TileShapes {
  import opened Bytes
  import opened RealSums
  import opened MonitorLayout
  import opened TilePacker

  ghost function Times(factor: real, x: real): real {
    factor * x
  }

  /** The widths are the ratios, so many times. */
  ghost predicate AllTimes(widths: seq<real>, factor: real, ratios: seq<real>) {
    |widths| == |ratios| && forall i :: 0 <= i < |ratios| ==> widths[i] == Times(factor, ratios[i])
  }

  lemma ShapeWidths(cameras: seq<Camera>, widths: seq<real>, height: real)
    requires ShapesAt(cameras, widths, height)
    ensures AllTimes(widths, height, AspectRatios(cameras))
  {
    forall i | 0 <= i < |cameras|
      ensures widths[i] == Times(height, AspectRatios(cameras)[i])
    {
      AspectKeepsShape(cameras[i], widths[i], height);
    }
  }

  lemma SumTimes(widths: seq<real>, factor: real, ratios: seq<real>)
    requires AllTimes(widths, factor, ratios)
    ensures Sum(widths) == Times(factor, Sum(ratios))
  {
    SumScaled(ratios, widths, factor);
  }

  lemma RowTimes(widths: seq<real>, factor: real, ratios: seq<real>, row: seq<nat>)
    requires AllTimes(widths, factor, ratios) && RowIn(row, |ratios|)
    ensures RowSum(widths, row) == Times(factor, RowSum(ratios, row))
  {
    SumTimes(RowAspects(widths, row), factor, RowAspects(ratios, row));
  }

  /** A row's natural height is the one height at which its cameras, each in its own shape, are
      together as wide as the viewport. */
  lemma NaturalHeightFills(cameras: seq<Camera>, rows: Rows, r: nat, width: real, widths: seq<real>, height: real)
    requires PositiveRows(AspectRatios(cameras), rows) && r < |rows|
    requires ShapesAt(cameras, widths, height)
    ensures RowSum(widths, rows[r]) == width <==>
            height == NaturalRowHeights(AspectRatios(cameras), rows, width)[r]
  {
    var rowSum := RowSum(AspectRatios(cameras), rows[r]);
    ShapeWidths(cameras, widths, height);
    RowTimes(widths, height, AspectRatios(cameras), rows[r]);
    FillsAt(width, rowSum, height);
  }

  lemma FillsAt(width: real, rowSum: real, height: real)
    requires rowSum > 0.0
    ensures Times(height, rowSum) == width <==> height == width / rowSum
  {
    assert width / rowSum * rowSum == width;
    SameFactor(height, width / rowSum, rowSum);
  }

  lemma OverShare(count: nat, height: real, part: real, whole: real)
    requires 0 < count < U32_LIMIT && height > 0.0
    ensures part > whole / CountAsReal(count) <==> Times(count as real, Times(height, part)) > Times(height, whole)
  {
    var n := count as real;
    var share := whole / n;
    assert share * n == whole;
    CompareTimes(n, part, share);
    CompareTimes(height, Times(n, part), whole);
    Reorder(n, height, part);
  }

  lemma Reorder(a: real, b: real, c: real)
    ensures Times(a, Times(b, c)) == Times(b, Times(a, c))
  {
  }

  lemma CompareTimes(factor: real, x: real, y: real)
    requires factor > 0.0
    ensures Times(factor, x) > Times(factor, y) <==> x > y
  {
    assert factor * (x - y) == factor * x - factor * y;
  }

  lemma TimesSum(factor: real, x: real, y: real)
    ensures Times(factor, x + y) == Times(factor, x) + Times(factor, y)
  {
  }

  /** With every camera in its own shape, at whatever common height: a row is closed before a camera
      exactly when that many rows as wide as it and the camera would be wider than all cameras. */
  lemma ClosedInPixels(cameras: seq<Camera>, widths: seq<real>, height: real, limit: nat, row: seq<nat>, next: seq<nat>)
    requires ShapesAt(cameras, widths, height) && height > 0.0 && 0 < limit < U32_LIMIT
    requires RowIn(row, |cameras|) && RowIn(next, |cameras|) && next != []
    ensures ClosedBy(AspectRatios(cameras), limit, row, next) <==>
            Times(limit as real, RowSum(widths, row) + widths[next[0]]) > Sum(widths)
  {
    var ratios := AspectRatios(cameras);
    ShapeWidths(cameras, widths, height);
    SumTimes(widths, height, ratios);
    RowTimes(widths, height, ratios, row);
    TimesSum(height, RowSum(ratios, row), ratios[next[0]]);
    OverShare(limit, height, RowSum(ratios, row) + ratios[next[0]], Sum(ratios));
  }

  /** And a row is within its share exactly when, cut behind any camera but its first, so many rows as
      wide are no wider than all cameras. */
  lemma WithinInPixels(cameras: seq<Camera>, widths: seq<real>, height: real, limit: nat, row: seq<nat>)
    requires ShapesAt(cameras, widths, height) && height > 0.0 && 0 < limit < U32_LIMIT
    requires RowIn(row, |cameras|)
    ensures WithinShare(AspectRatios(cameras), limit, row) <==>
            forall k :: 2 <= k <= |row| ==> Times(limit as real, RowSum(widths, row[..k])) <= Sum(widths)
  {
    var ratios := AspectRatios(cameras);
    ShapeWidths(cameras, widths, height);
    forall k | 2 <= k <= |row|
      ensures RowSum(ratios, row[..k]) <= Share(ratios, limit) <==>
              Times(limit as real, RowSum(widths, row[..k])) <= Sum(widths)
    {
      PartWithin(widths, height, ratios, limit, row[..k]);
    }
  }

  lemma PartWithin(widths: seq<real>, height: real, ratios: seq<real>, limit: nat, part: seq<nat>)
    requires AllTimes(widths, height, ratios) && height > 0.0 && 0 < limit < U32_LIMIT && RowIn(part, |ratios|)
    ensures RowSum(ratios, part) <= Share(ratios, limit) <==>
            Times(limit as real, RowSum(widths, part)) <= Sum(widths)
  {
    SumTimes(widths, height, ratios);
    RowTimes(widths, height, ratios, part);
    OverShare(limit, height, RowSum(ratios, part), Sum(ratios));
  }
}
