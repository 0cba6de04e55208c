/** Who gets how much of the monitor wall: a camera's area against its own and its row's aspect
    ratios. */
module TileAreas {
  import opened MonitorLayout
  import opened TilePacker

  /** Cameras `i` and `j` stand in rows of these total aspect ratios. */
  ghost predicate InRows(aspects: seq<real>, rows: Rows, i: nat, iRow: nat, j: nat, jRow: nat)
    requires RowsIn(rows, |aspects|)
  {
    iRow < |rows| && i in rows[iRow] && jRow < |rows| && j in rows[jRow]
  }

  ghost function Square(x: real): real {
    x * x
  }

  ghost function Product(a: real, b: real): real {
    a * b
  }

  /** The area of a tile in a row of the given total. */
  ghost function ShareArea(width: real, aspect: real, rowSum: real, scale: real): real
    requires rowSum > 0.0
  {
    Area(width * (aspect / rowSum), width / rowSum * scale)
  }

  /** A tile's area goes with its camera's aspect ratio over the square of its row's total: one
      camera gets at least the area of another exactly when this quotient is at least as large, and
      the areas are in the ratio of the aspect ratios exactly when the two row totals are equal. So
      within a row they are, and across rows wider cameras need not even get more. */
  lemma AreaOrder(aspects: seq<real>, rows: Rows, width: real, height: real, tiles: seq<TileRect>,
                  i: nat, iRow: nat, j: nat, jRow: nat)
    requires |tiles| == |aspects| && PackedAs(aspects, rows, width, height, tiles)
    requires InRows(aspects, rows, i, iRow, j, jRow)
    ensures i < |aspects| && j < |aspects|
    ensures Areas(tiles)[i] >= Areas(tiles)[j] <==>
            Product(aspects[i], Square(RowSum(aspects, rows[jRow])))
            >= Product(aspects[j], Square(RowSum(aspects, rows[iRow])))
    ensures iRow == jRow ==> (Areas(tiles)[i] >= Areas(tiles)[j] <==> aspects[i] >= aspects[j])
    ensures aspects[i] > 0.0 && aspects[j] > 0.0 ==>
              (Product(Areas(tiles)[i], aspects[j]) == Product(Areas(tiles)[j], aspects[i]) <==>
               RowSum(aspects, rows[iRow]) == RowSum(aspects, rows[jRow]))
  {
    var scale := VerticalScale(aspects, rows, width, height);
    TileArea(aspects, rows, width, height, tiles, i, iRow);
    TileArea(aspects, rows, width, height, tiles, j, jRow);
    CompareAreas(width, scale, aspects[i], RowSum(aspects, rows[iRow]), aspects[j], RowSum(aspects, rows[jRow]));
    SquarePositive(RowSum(aspects, rows[iRow]));
    CompareScaled(Square(RowSum(aspects, rows[iRow])), aspects[i], aspects[j]);
    if aspects[i] > 0.0 && aspects[j] > 0.0 {
      CompareShares(width, scale, aspects[i], RowSum(aspects, rows[iRow]), aspects[j], RowSum(aspects, rows[jRow]));
    }
  }

  lemma CompareShares(width: real, scale: real, a: real, p: real, b: real, q: real)
    requires width > 0.0 && scale > 0.0 && a > 0.0 && p > 0.0 && b > 0.0 && q > 0.0
    ensures Product(ShareArea(width, a, p, scale), b) == Product(ShareArea(width, b, q, scale), a) <==> p == q
  {
    var both := Product(a, b);
    ScaledShare(width, a, p, scale, b);
    ScaledShare(width, b, q, scale, a);
    CompareAreas(width, scale, both, p, both, q);
    CompareAreas(width, scale, both, q, both, p);
    ProductPositive(a, b);
    CompareScaled(both, Square(q), Square(p));
    CompareScaled(both, Square(p), Square(q));
    SquaresCompare(p, q);
  }

  /** A camera so many times as wide would get so many times the area in the same row. */
  lemma ScaledShare(width: real, aspect: real, rowSum: real, scale: real, times: real)
    requires rowSum > 0.0
    ensures Product(ShareArea(width, aspect, rowSum, scale), times)
         == ShareArea(width, Product(aspect, times), rowSum, scale)
  {
    SquarePositive(rowSum);
    ShareAreaPart(width, aspect, rowSum, scale);
    ShareAreaPart(width, Product(aspect, times), rowSum, scale);
    QuotientTimes(aspect, Square(rowSum), times);
    Associative(Product(Square(width), scale), aspect / Square(rowSum), times);
  }

  lemma QuotientTimes(a: real, p: real, times: real)
    requires p > 0.0
    ensures Product(a, times) / p == Product(a / p, times)
  {
  }

  lemma Associative(a: real, b: real, c: real)
    ensures Product(Product(a, b), c) == Product(a, Product(b, c))
  {
  }

  lemma SquaresCompare(p: real, q: real)
    requires p > 0.0 && q > 0.0
    ensures Square(p) == Square(q) <==> p == q
  {
    CompareScaled(p, p, q);
    CompareScaled(q, p, q);
    CompareScaled(p, q, p);
    CompareScaled(q, q, p);
    assert Product(p, q) == Product(q, p);
  }

  /** In one row widths are in the ratio of the aspect ratios. */
  lemma WidthsInRow(aspects: seq<real>, rows: Rows, width: real, height: real, tiles: seq<TileRect>,
                    i: nat, j: nat, row: nat)
    requires |tiles| == |aspects| && PackedAs(aspects, rows, width, height, tiles)
    requires InRows(aspects, rows, i, row, j, row)
    ensures i < |aspects| && j < |aspects|
    ensures Product(tiles[i].width, aspects[j]) == Product(tiles[j].width, aspects[i])
  {
    var rowSum := RowSum(aspects, rows[row]);
    TileInRow(aspects, rows, width, height, tiles, i, row);
    TileInRow(aspects, rows, width, height, tiles, j, row);
    WidthShares(width, aspects[i], aspects[j], rowSum);
  }

  lemma WidthShares(width: real, a: real, b: real, rowSum: real)
    requires rowSum > 0.0
    ensures Product(TileWidth(width, a, rowSum), b) == Product(TileWidth(width, b, rowSum), a)
  {
    var x, y := a / rowSum, b / rowSum;
    assert a == x * rowSum && b == y * rowSum;
  }

  lemma TileInRow(aspects: seq<real>, rows: Rows, width: real, height: real, tiles: seq<TileRect>, i: nat, r: nat)
    requires PackedAs(aspects, rows, width, height, tiles) && |tiles| == |aspects|
    requires r < |rows| && i in rows[r]
    ensures i < |aspects| && tiles[i].width == TileWidth(width, aspects[i], RowSum(aspects, rows[r]))
  {
    var k :| 0 <= k < |rows[r]| && rows[r][k] == i;
    assert CellPlaced(rows, Widths(aspects, rows, width), Heights(aspects, rows, width, height), tiles, r, k);
  }

  ghost function VerticalScale(aspects: seq<real>, rows: Rows, width: real, height: real): (scale: real)
    requires PositiveRows(aspects, rows) && rows != [] && width > 0.0 && height > 0.0
    ensures scale > 0.0
  {
    NaturalTotalPositive(aspects, rows, width);
    height / NaturalTotal(aspects, rows, width)
  }

  lemma TileArea(aspects: seq<real>, rows: Rows, width: real, height: real, tiles: seq<TileRect>, i: nat, r: nat)
    requires PackedAs(aspects, rows, width, height, tiles) && |tiles| == |aspects|
    requires r < |rows| && i in rows[r]
    ensures i < |aspects|
    ensures Areas(tiles)[i]
         == ShareArea(width, aspects[i], RowSum(aspects, rows[r]), VerticalScale(aspects, rows, width, height))
  {
    var k :| 0 <= k < |rows[r]| && rows[r][k] == i;
    assert CellPlaced(rows, Widths(aspects, rows, width), Heights(aspects, rows, width, height), tiles, r, k);
  }

  lemma CompareAreas(width: real, scale: real, a: real, p: real, b: real, q: real)
    requires width > 0.0 && scale > 0.0 && p > 0.0 && q > 0.0
    ensures ShareArea(width, a, p, scale) >= ShareArea(width, b, q, scale) <==>
            Product(a, Square(q)) >= Product(b, Square(p))
  {
    ShareAreaPart(width, a, p, scale);
    ShareAreaPart(width, b, q, scale);
    SquarePositive(width);
    SquarePositive(p);
    SquarePositive(q);
    ProductPositive(Square(width), scale);
    CompareScaled(Product(Square(width), scale), a / Square(p), b / Square(q));
    CompareQuotients(a, Square(p), b, Square(q));
  }

  lemma SquarePositive(x: real)
    requires x > 0.0
    ensures Square(x) > 0.0
  {
    ProductPositive(x, x);
  }

  lemma ProductPositive(a: real, b: real)
    requires a > 0.0 && b > 0.0
    ensures Product(a, b) > 0.0
  {
  }

  lemma ShareAreaPart(width: real, aspect: real, rowSum: real, scale: real)
    requires rowSum > 0.0
    ensures Square(rowSum) > 0.0
    ensures ShareArea(width, aspect, rowSum, scale) == Product(Product(Square(width), scale), aspect / Square(rowSum))
  {
    SquarePositive(rowSum);
    var whole, part, quotient := width / rowSum, aspect / rowSum, aspect / Square(rowSum);
    assert part == quotient * rowSum by {
      assert (quotient * rowSum) * rowSum == aspect;
    }
    assert width == whole * rowSum;
    Reorder(whole, rowSum, quotient, scale);
  }

  lemma Reorder(whole: real, rowSum: real, quotient: real, scale: real)
    ensures ((whole * rowSum) * (quotient * rowSum)) * (whole * scale)
         == (((whole * rowSum) * (whole * rowSum)) * scale) * quotient
  {
  }

  lemma CompareScaled(factor: real, x: real, y: real)
    requires factor > 0.0
    ensures Product(factor, x) >= Product(factor, y) <==> x >= y
  {
  }

  lemma CompareQuotients(a: real, p: real, b: real, q: real)
    requires p > 0.0 && q > 0.0
    ensures a / p >= b / q <==> Product(a, q) >= Product(b, p)
  {
    var x, y := a / p, b / q;
    assert a == x * p && b == y * q;
    ProductPositive(p, q);
    CompareScaled(Product(p, q), x, y);
    assert Product(Product(p, q), x) == Product(a, q) && Product(Product(p, q), y) == Product(b, p);
  }

  /** A square camera and two three times as wide, in a viewport of 600 by 700: the square one gets
      600 by 600, the wide ones share the row below and get a twelfth of that each. */
  lemma WiderGetsLess(tiles: seq<TileRect>)
    requires |tiles| == 3 && Packing(AspectRatios([Camera(1, 1), Camera(3, 1), Camera(3, 1)]), 600.0, 700.0, tiles)
    ensures Areas(tiles) == [360000.0, 30000.0, 30000.0]
  {
    var aspects := AspectRatios([Camera(1, 1), Camera(3, 1), Camera(3, 1)]);
    assert aspects == [1.0, 3.0, 3.0];
    var rowCount, rows :| NearestPartition(aspects, 600.0, 700.0, 3, rowCount, rows)
                          && PackedAs(aspects, rows, 600.0, 700.0, tiles);
    TwoRowsNearest();
    NearestPartitionUnique(aspects, 600.0, 700.0, 3, rowCount, rows, 2, [[0], [1, 2]]);
    TwoRowHeights();
    TileArea(aspects, rows, 600.0, 700.0, tiles, 0, 0);
    TileArea(aspects, rows, 600.0, 700.0, tiles, 1, 1);
    TileArea(aspects, rows, 600.0, 700.0, tiles, 2, 1);
  }

  lemma TwoRowHeights()
    ensures var aspects, rows := [1.0, 3.0, 3.0], [[0], [1, 2]];
      && RowSum(aspects, rows[0]) == 1.0 && RowSum(aspects, rows[1]) == 6.0
      && NaturalTotal(aspects, rows, 600.0) == 700.0 && VerticalScale(aspects, rows, 600.0, 700.0) == 1.0
  {
    var aspects, rows := [1.0, 3.0, 3.0], [[0], [1, 2]];
    assert RowAspects(aspects, rows[0]) == [1.0] && RowAspects(aspects, rows[1]) == [3.0, 3.0];
    ThreeSum(1.0, 0.0, 0.0);
    ThreeSum(3.0, 3.0, 0.0);
    assert NaturalRowHeights(aspects, rows, 600.0) == [600.0, 100.0];
    ThreeSum(600.0, 100.0, 0.0);
  }

  /** Two rows fit the viewport without any stretch, and one row does not. */
  lemma TwoRowsNearest()
    ensures NearestPartition([1.0, 3.0, 3.0], 600.0, 700.0, 3, 2, [[0], [1, 2]])
  {
    var aspects, rows := [1.0, 3.0, 3.0], [[0], [1, 2]];
    TwoRowHeights();
    TwoRowsGreedy();
    forall m, other | 1 <= m <= 3 && IsGreedyPartition(aspects, m, other) && PositiveRows(aspects, other)
      ensures NoNearer(aspects, 600.0, 700.0, rows, other, m < 2)
    {
      if m < 2 {
        OneRowOnly(aspects, other);
      }
    }
  }

  lemma OneRowOnly(aspects: seq<real>, rows: Rows)
    requires aspects == [1.0, 3.0, 3.0] && IsGreedyPartition(aspects, 1, rows) && PositiveRows(aspects, rows)
    ensures NaturalTotal(aspects, rows, 600.0) < 100.0
  {
    assert InPlace(rows, 0) && Offset(rows, 0) == 0 && Offset(rows, 1) == |rows[0]|;
    assert RowAspects(aspects, rows[0]) == aspects;
    ThreeSum(1.0, 3.0, 3.0);
    assert NaturalRowHeights(aspects, rows, 600.0) == [600.0 / 7.0];
    ThreeSum(600.0 / 7.0, 0.0, 0.0);
  }

  lemma TwoRowsGreedy()
    ensures IsGreedyPartition([1.0, 3.0, 3.0], 2, [[0], [1, 2]])
  {
    var aspects, rows := [1.0, 3.0, 3.0], [[0], [1, 2]];
    ThreeSum(1.0, 3.0, 3.0);
    assert Share(aspects, 2) == 3.5;
    assert RowAspects(aspects, rows[0]) == [1.0] && RowSum(aspects, rows[0]) == 1.0;
    assert Offset(rows, 1) == 1 && Offset(rows, 2) == 3;
    assert InPlace(rows, 0) && InPlace(rows, 1);
    assert WithinShare(aspects, 2, rows[0]) && ClosedBy(aspects, 2, rows[0], rows[1]);
  }
}
