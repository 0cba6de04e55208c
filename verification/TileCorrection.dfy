/** How far the packer's vertical rescale is from leaving the rows' natural heights alone. */
module TileCorrection {
  import opened RealSums
  import opened Reals
  import opened MonitorLayout
  import opened TilePacker
  import opened TileAreas

  /** The distance from 1 of the factor that stretches a natural height to the viewport's. */
  ghost function Correction(total: real, height: real): real
    requires total > 0.0
  {
    Distance(height / total, 1.0)
  }

  /** A total below the height and one above it, whose harmonic mean is below it too. */
  ghost predicate StretchesMore(total: real, other: real, height: real) {
    total < height < other && Product(height, total + other) > 2.0 * Product(total, other)
  }

  /** A correction is how far the total is from the height, in totals. */
  lemma CorrectionParts(total: real, height: real)
    requires total > 0.0 && height > 0.0
    ensures Product(total, Correction(total, height)) == Distance(total, height)
    ensures Correction(total, height) >= 0.0
  {
    var scale := height / total;
    assert total * scale == height;
    if scale < 1.0 {
      assert total * (1.0 - scale) == total - height;
      CompareScaled(total, 1.0, scale);
    } else {
      assert total * (scale - 1.0) == height - total;
      CompareScaled(total, scale, 1.0);
    }
  }

  /** Corrections compare like the distances, each scaled by the other total. */
  lemma CorrectionsCompare(total: real, other: real, height: real)
    requires total > 0.0 && other > 0.0 && height > 0.0
    ensures Correction(total, height) <= Correction(other, height) <==>
            Product(other, Distance(total, height)) <= Product(total, Distance(other, height))
  {
    var mine, theirs := Correction(total, height), Correction(other, height);
    CorrectionParts(total, height);
    CorrectionParts(other, height);
    ProductPositive(total, other);
    CompareScaled(Product(total, other), theirs, mine);
    Swapped(total, other, mine);
    Swapped(total, other, theirs);
  }

  lemma Swapped(a: real, b: real, x: real)
    ensures Product(Product(a, b), x) == Product(b, Product(a, x)) == Product(a, Product(b, x))
  {
  }

  /** Of two totals the one nearer the height needs the smaller correction, unless it is below the
      height and the other above it, and their harmonic mean is below it. */
  lemma NearerCorrectsLess(total: real, other: real, height: real)
    requires total > 0.0 && other > 0.0 && height > 0.0
    requires Distance(total, height) <= Distance(other, height)
    ensures Correction(total, height) <= Correction(other, height) <==> !StretchesMore(total, other, height)
  {
    CorrectionsCompare(total, other, height);
    if total >= other {
      ProductMonotone(other, total, Distance(total, height), Distance(other, height));
    } else if total < height {
      AroundHeight(total, other, height);
    } else {
      AboveHeight(total, other, height);
    }
  }

  lemma ProductMonotone(a: real, b: real, x: real, y: real)
    requires 0.0 < a <= b && 0.0 <= x <= y
    ensures Product(a, x) <= Product(b, y)
  {
    assert a * (y - x) >= 0.0 && (b - a) * y >= 0.0;
  }

  lemma AboveHeight(total: real, other: real, height: real)
    requires 0.0 < height <= total < other
    ensures Product(other, total - height) <= Product(total, other - height)
  {
    ProductMonotone(total, other, height, height);
    assert other * (total - height) == total * other - other * height;
    assert total * (other - height) == total * other - total * height;
  }

  lemma AroundHeight(total: real, other: real, height: real)
    ensures Product(other, height - total) <= Product(total, other - height)
       <==> Product(height, total + other) <= 2.0 * Product(total, other)
  {
    assert other * (height - total) == other * height - total * other;
    assert total * (other - height) == total * other - total * height;
    assert height * (total + other) == total * height + other * height;
  }

  /** The packer's choice needs no larger correction than the partition for another row count
      exactly when the heights are not like that. */
  lemma NearestCorrection(aspects: seq<real>, width: real, height: real, rowCount: nat, rows: Rows,
                          otherCount: nat, other: Rows)
    requires width > 0.0 && height > 0.0
    requires NearestPartition(aspects, width, height, |aspects|, rowCount, rows)
    requires 1 <= otherCount <= |aspects| && IsGreedyPartition(aspects, otherCount, other)
    requires PositiveRows(aspects, other)
    ensures NaturalTotal(aspects, rows, width) > 0.0 && NaturalTotal(aspects, other, width) > 0.0
    ensures var total, theirs := NaturalTotal(aspects, rows, width), NaturalTotal(aspects, other, width);
      Correction(total, height) <= Correction(theirs, height) <==> !StretchesMore(total, theirs, height)
  {
    NaturalTotalPositive(aspects, rows, width);
    NaturalTotalPositive(aspects, other, width);
    assert NoNearer(aspects, width, height, rows, other, otherCount < rowCount);
    NearerCorrectsLess(NaturalTotal(aspects, rows, width), NaturalTotal(aspects, other, width), height);
  }

  // ----- Two square cameras in a square viewport

  const SQUARES: seq<real> := [1.0, 1.0]

  /** One row is chosen and stretched to twice its height; two rows would be shrunk to half. */
  lemma TallerStretchChosen()
    ensures AspectRatios([Camera(1, 1), Camera(1, 1)]) == SQUARES
    ensures NearestPartition(SQUARES, 200.0, 200.0, 2, 1, [[0, 1]])
    ensures IsGreedyPartition(SQUARES, 2, [[0], [1]])
    ensures NaturalTotal(SQUARES, [[0, 1]], 200.0) == 100.0 && Correction(100.0, 200.0) == 1.0
    ensures PositiveRows(SQUARES, [[0], [1]])
    ensures NaturalTotal(SQUARES, [[0], [1]], 200.0) == 400.0 && Correction(400.0, 200.0) == 0.5
  {
    OneRowOfSquares();
    TwoRowsOfSquares();
    forall m, other | 1 <= m <= 2 && IsGreedyPartition(SQUARES, m, other) && PositiveRows(SQUARES, other)
      ensures NoNearer(SQUARES, 200.0, 200.0, [[0, 1]], other, m < 1)
    {
      GreedyPartitionUnique(SQUARES, m, other, if m == 1 then [[0, 1]] else [[0], [1]]);
    }
  }

  lemma OneRowOfSquares()
    ensures IsGreedyPartition(SQUARES, 1, [[0, 1]]) && PositiveRows(SQUARES, [[0, 1]])
    ensures NaturalTotal(SQUARES, [[0, 1]], 200.0) == 100.0
  {
    var rows := [[0, 1]];
    assert RowAspects(SQUARES, rows[0]) == SQUARES;
    ThreeSum(1.0, 1.0, 0.0);
    assert Offset(rows, 1) == 2;
    assert InPlace(rows, 0);
    assert NaturalRowHeights(SQUARES, rows, 200.0) == [100.0];
    ThreeSum(100.0, 0.0, 0.0);
  }

  lemma TwoRowsOfSquares()
    ensures IsGreedyPartition(SQUARES, 2, [[0], [1]]) && PositiveRows(SQUARES, [[0], [1]])
    ensures NaturalTotal(SQUARES, [[0], [1]], 200.0) == 400.0
  {
    var rows := [[0], [1]];
    assert RowAspects(SQUARES, rows[0]) == [1.0] && RowAspects(SQUARES, rows[1]) == [1.0];
    ThreeSum(1.0, 1.0, 0.0);
    ThreeSum(1.0, 0.0, 0.0);
    assert Share(SQUARES, 2) == 1.0;
    assert Offset(rows, 1) == 1 && Offset(rows, 2) == 2;
    assert InPlace(rows, 0) && InPlace(rows, 1);
    assert WithinShare(SQUARES, 2, rows[0]) && ClosedBy(SQUARES, 2, rows[0], rows[1]);
    assert NaturalRowHeights(SQUARES, rows, 200.0) == [200.0, 200.0];
    ThreeSum(200.0, 200.0, 0.0);
  }
}
