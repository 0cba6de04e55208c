/** The monitor wall's tile packer: a greedy row partition, a search over row counts for the
    one whose natural height is nearest the viewport, and one vertical rescale that makes the
    tiles cover the viewport exactly. `f64` is read as `real`; a row of zero total aspect ratio
    has an infinite natural height, which never wins the search. */
module MonitorLayout {
  import opened RealSums
  import opened Bytes

  /** A camera's native resolution. */
  datatype Camera = Camera(width: u32, height: u32)

  datatype TileRect = TileRect(x: real, y: real, width: real, height: real)

  /** Row `r` lists camera indices. */
  type Rows = seq<seq<nat>>

  /** The largest finite `f64`, which a count too wide for `u32` saturates to. */
  const F64_MAX: real := 9007199254740991.0 * TWO_TO_75
    * TWO_TO_128 * TWO_TO_128 * TWO_TO_128 * TWO_TO_128 * TWO_TO_128 * TWO_TO_128 * TWO_TO_128

  const TWO_TO_75: real := 37778931862957161709568.0
  const TWO_TO_128: real := 340282366920938463463374607431768211456.0

  function CountAsReal(count: nat): real {
    if count < U32_LIMIT then count as real else F64_MAX
  }

  function AspectRatio(camera: Camera): real {
    camera.width as real / (if camera.height < 1 then 1 else camera.height) as real
  }

  /** A box of the camera's own shape, a camera of no height counting as one pixel high. */
  ghost predicate KeepsShape(camera: Camera, width: real, height: real) {
    width * (if camera.height == 0 then 1 else camera.height) as real == camera.width as real * height
  }

  /** Boxes of the cameras' own shapes, all of one height. */
  ghost predicate ShapesAt(cameras: seq<Camera>, widths: seq<real>, height: real) {
    |widths| == |cameras| && forall i :: 0 <= i < |cameras| ==> KeepsShape(cameras[i], widths[i], height)
  }

  /** The aspect ratio is the one number that makes a height into the width of the camera's shape. */
  lemma AspectKeepsShape(camera: Camera, width: real, height: real)
    ensures KeepsShape(camera, width, height) <==> width == AspectRatio(camera) * height
  {
    var cameraHeight := (if camera.height == 0 then 1 else camera.height) as real;
    var aspect := AspectRatio(camera);
    assert aspect * cameraHeight == camera.width as real;
    assert (aspect * height) * cameraHeight == camera.width as real * height;
    SameFactor(width, aspect * height, cameraHeight);
  }

  lemma SameFactor(a: real, b: real, factor: real)
    requires factor > 0.0
    ensures a * factor == b * factor <==> a == b
  {
    assert (a - b) * factor == a * factor - b * factor;
  }

  function AspectRatios(cameras: seq<Camera>): (aspects: seq<real>)
    ensures |aspects| == |cameras|
  {
    seq(|cameras|, i requires 0 <= i < |cameras| => AspectRatio(cameras[i]))
  }

  predicate RowIn(row: seq<nat>, n: nat) {
    forall k :: 0 <= k < |row| ==> row[k] < n
  }

  predicate RowsIn(rows: Rows, n: nat) {
    forall r :: 0 <= r < |rows| ==> rows[r] != [] && RowIn(rows[r], n)
  }

  function RowAspects(aspects: seq<real>, row: seq<nat>): seq<real>
    requires RowIn(row, |aspects|)
  {
    seq(|row|, k requires 0 <= k < |row| => aspects[row[k]])
  }

  function RowSum(aspects: seq<real>, row: seq<nat>): real
    requires RowIn(row, |aspects|)
  {
    Sum(RowAspects(aspects, row))
  }

  lemma RowSumPush(aspects: seq<real>, row: seq<nat>, index: nat)
    requires RowIn(row, |aspects|) && index < |aspects|
    ensures RowIn(row + [index], |aspects|)
    ensures RowSum(aspects, row + [index]) == RowSum(aspects, row) + aspects[index]
  {
    var extended := RowAspects(aspects, row + [index]);
    assert extended[..|row|] == RowAspects(aspects, row);
  }

  // ----- The greedy partition

  /** How many cameras the rows before `r` hold. */
  function Offset(rows: Rows, r: nat): nat
    requires r <= |rows|
  {
    if r == 0 then 0 else Offset(rows, r - 1) + |rows[r - 1]|
  }

  ghost predicate Consecutive(row: seq<nat>, first: nat) {
    forall k :: 0 <= k < |row| ==> row[k] == first + k
  }

  /** Row `r` continues where the rows before it stop. */
  ghost predicate InPlace(rows: Rows, r: nat)
    requires r < |rows|
  {
    Consecutive(rows[r], Offset(rows, r))
  }

  /** The rows, read one after the other, list `0, 1, ..., n - 1`. */
  ghost predicate CoversInOrder(rows: Rows, n: nat) {
    && Offset(rows, |rows|) == n
    && forall r :: 0 <= r < |rows| ==> InPlace(rows, r)
  }

  /** A row's fair share of the total aspect ratio. */
  function Share(aspects: seq<real>, limit: nat): real
    requires limit > 0
  {
    Sum(aspects) / CountAsReal(limit)
  }

  /** At most `limit` non-empty rows listing every camera in order. A row is closed only because
      the next camera would exceed the share; and no row but the `limit`-th grows beyond the
      share past its first camera. */
  ghost predicate IsGreedyPartition(aspects: seq<real>, limit: nat, rows: Rows)
    requires limit > 0
  {
    && 0 < |rows| <= limit
    && RowsIn(rows, |aspects|)
    && CoversInOrder(rows, |aspects|)
    && (forall r :: 0 <= r < |rows| - 1 ==> ClosedBy(aspects, limit, rows[r], rows[r + 1]))
    && (forall r :: 0 <= r < |rows| && r + 1 < limit ==> WithinShare(aspects, limit, rows[r]))
  }

  ghost predicate ClosedBy(aspects: seq<real>, limit: nat, row: seq<nat>, next: seq<nat>)
    requires limit > 0 && next != [] && RowIn(row, |aspects|) && RowIn(next, |aspects|)
  {
    RowSum(aspects, row) + aspects[next[0]] > Share(aspects, limit)
  }

  ghost predicate WithinShare(aspects: seq<real>, limit: nat, row: seq<nat>)
    requires limit > 0 && RowIn(row, |aspects|)
  {
    forall k :: 2 <= k <= |row| ==> RowSum(aspects, row[..k]) <= Share(aspects, limit)
  }

  lemma {:induction false} OffsetPrefix(rows: Rows, more: Rows, r: nat)
    requires r <= |rows|
    ensures Offset(rows + more, r) == Offset(rows, r)
  {
    if r > 0 {
      OffsetPrefix(rows, more, r - 1);
    }
  }

  lemma {:induction false} OffsetMonotone(rows: Rows, i: nat, j: nat)
    requires i <= j <= |rows|
    ensures Offset(rows, i) <= Offset(rows, j)
    ensures i < j ==> Offset(rows, i) + |rows[i]| <= Offset(rows, j)
    decreases j
  {
    if i < j {
      OffsetMonotone(rows, i, j - 1);
    }
  }

  /** What the loop keeps: the closed rows and the current one so far list the first `index`
      cameras and break no rule of the partition. */
  ghost predicate PartitionSoFar(aspects: seq<real>, limit: nat, rows: Rows, current: seq<nat>, index: nat)
    requires limit > 0
  {
    && |rows| < limit
    && (if index == 0 then rows == [] && current == [] else current != [])
    && |current| <= index <= |aspects|
    && RowsIn(rows, |aspects|) && RowIn(current, |aspects|)
    && CoversInOrder(rows, index - |current|) && Consecutive(current, index - |current|)
    && (forall r :: 0 <= r < |rows| - 1 ==> ClosedBy(aspects, limit, rows[r], rows[r + 1]))
    && (rows != [] ==> ClosedBy(aspects, limit, rows[|rows| - 1], current))
    && (forall r :: 0 <= r < |rows| ==> WithinShare(aspects, limit, rows[r]))
    && (|rows| + 1 < limit ==> WithinShare(aspects, limit, current))
  }

  function ClampRowCount(requested: nat, cameras: nat): (rowCount: nat)
    requires cameras > 0
    ensures 1 <= rowCount <= cameras
  {
    if requested < 1 then 1 else if requested > cameras then cameras else requested
  }

  /** Clamping the row count panics without cameras. */
  method PartitionIntoRows(aspects: seq<real>, requested: nat) returns (rows: Rows)
    requires aspects != []
    ensures IsGreedyPartition(aspects, ClampRowCount(requested, |aspects|), rows)
  {
    var rowCount := ClampRowCount(requested, |aspects|);
    var targetPerRow := Share(aspects, rowCount);
    rows := [];
    var current: seq<nat> := [];
    var currentSum := 0.0;
    for index := 0 to |aspects|
      invariant PartitionSoFar(aspects, rowCount, rows, current, index)
      invariant currentSum == RowSum(aspects, current)
    {
      var wouldOverflowTarget := currentSum + aspects[index] > targetPerRow;
      if current != [] && |rows| + 1 < rowCount && wouldOverflowTarget {
        CloseRow(aspects, rowCount, rows, current, index);
        rows := rows + [current];
        current := [];
        currentSum := 0.0;
      } else {
        ExtendRow(aspects, rowCount, rows, current, index);
      }
      RowSumPush(aspects, current, index);
      current := current + [index];
      currentSum := currentSum + aspects[index];
    }
    FinishRows(aspects, rowCount, rows, current);
    rows := rows + [current];
  }

  lemma CloseRow(aspects: seq<real>, limit: nat, rows: Rows, current: seq<nat>, index: nat)
    requires limit > 0 && index < |aspects| && PartitionSoFar(aspects, limit, rows, current, index)
    requires current != [] && |rows| + 1 < limit
    requires RowSum(aspects, current) + aspects[index] > Share(aspects, limit)
    ensures PartitionSoFar(aspects, limit, rows + [current], [] + [index], index + 1)
  {
    CoversPush(rows, current, index - |current|);
    assert WithinShare(aspects, limit, [index]);
  }

  lemma FinishRows(aspects: seq<real>, limit: nat, rows: Rows, current: seq<nat>)
    requires limit > 0 && aspects != [] && PartitionSoFar(aspects, limit, rows, current, |aspects|)
    ensures IsGreedyPartition(aspects, limit, rows + [current])
  {
    CoversPush(rows, current, |aspects| - |current|);
  }

  lemma ExtendRow(aspects: seq<real>, limit: nat, rows: Rows, current: seq<nat>, index: nat)
    requires limit > 0 && index < |aspects| && PartitionSoFar(aspects, limit, rows, current, index)
    requires |rows| + 1 < limit && current != [] ==>
               RowSum(aspects, current) + aspects[index] <= Share(aspects, limit)
    ensures PartitionSoFar(aspects, limit, rows, current + [index], index + 1)
  {
    WithinSharePush(aspects, limit, current, index);
  }

  /** Adding a camera keeps a row within the share when the row was empty or has room left. */
  lemma WithinSharePush(aspects: seq<real>, limit: nat, row: seq<nat>, index: nat)
    requires limit > 0 && RowIn(row, |aspects|) && index < |aspects|
    ensures RowIn(row + [index], |aspects|)
    ensures (WithinShare(aspects, limit, row)
             && (row == [] || RowSum(aspects, row) + aspects[index] <= Share(aspects, limit)))
            ==> WithinShare(aspects, limit, row + [index])
  {
    RowSumPush(aspects, row, index);
    forall k | 2 <= k <= |row|
      ensures (row + [index])[..k] == row[..k]
    {
    }
    assert (row + [index])[..|row| + 1] == row + [index];
  }

  lemma CoversPush(rows: Rows, row: seq<nat>, n: nat)
    requires CoversInOrder(rows, n)
    requires Consecutive(row, n)
    ensures CoversInOrder(rows + [row], n + |row|)
  {
    OffsetPrefix(rows, [row], |rows|);
    forall r | 0 <= r <= |rows|
      ensures InPlace(rows + [row], r)
    {
      OffsetPrefix(rows, [row], r);
      assert r < |rows| ==> InPlace(rows, r);
    }
  }

  /** A row that was closed has reached its fair share only when it meets the share exactly, or is
      one camera at least that wide; every other closed row falls short of it. */
  lemma ClosedRowReachesShare(aspects: seq<real>, limit: nat, rows: Rows, r: nat)
    requires limit > 0 && IsGreedyPartition(aspects, limit, rows) && r + 1 < |rows|
    ensures |rows[r]| > 1 ==> RowSum(aspects, rows[r]) <= Share(aspects, limit)
    ensures RowSum(aspects, rows[r]) >= Share(aspects, limit) <==>
            (|rows[r]| == 1 && aspects[rows[r][0]] >= Share(aspects, limit))
            || RowSum(aspects, rows[r]) == Share(aspects, limit)
  {
    assert WithinShare(aspects, limit, rows[r]);
    assert rows[r][..|rows[r]|] == rows[r];
    if |rows[r]| == 1 {
      RowSumPush(aspects, [], rows[r][0]);
      assert [] + [rows[r][0]] == rows[r] && RowSum(aspects, []) == 0.0;
    }
  }

  /** Three equal cameras in two rows: the first row is closed with two thirds of its share. */
  lemma ClosedShortOfShare()
    ensures var aspects := AspectRatios([Camera(16, 16), Camera(16, 16), Camera(16, 16)]);
      && IsGreedyPartition(aspects, 2, [[0], [1, 2]])
      && RowSum(aspects, [0]) == 1.0 && Share(aspects, 2) == 1.5
  {
    var aspects := AspectRatios([Camera(16, 16), Camera(16, 16), Camera(16, 16)]);
    var rows := [[0], [1, 2]];
    assert aspects == [1.0, 1.0, 1.0];
    ThreeSum(1.0, 1.0, 1.0);
    assert RowAspects(aspects, [0]) == [1.0];
    assert Offset(rows, 1) == 1 && Offset(rows, 2) == 3;
    assert InPlace(rows, 0) && InPlace(rows, 1);
    assert WithinShare(aspects, 2, rows[0]);
    assert ClosedBy(aspects, 2, rows[0], rows[1]);
  }

  lemma ThreeSum(a: real, b: real, c: real)
    ensures Sum([a]) == a && Sum([a, b]) == a + b && Sum([a, b, c]) == a + b + c
  {
    assert [a, b, c][..2] == [a, b] && [a, b][..1] == [a] && [a][..0] == [];
  }

  /** The predicate leaves no freedom: only one list of rows meets it. */
  lemma GreedyPartitionUnique(aspects: seq<real>, limit: nat, rows: Rows, other: Rows)
    requires limit > 0
    requires IsGreedyPartition(aspects, limit, rows) && IsGreedyPartition(aspects, limit, other)
    ensures rows == other
  {
    if |rows| <= |other| {
      SameRows(aspects, limit, rows, other, |rows|);
      OffsetMonotone(other, |rows|, |other|);
      assert rows == other[..|rows|];
    } else {
      SameRows(aspects, limit, other, rows, |other|);
      OffsetMonotone(rows, |other|, |rows|);
    }
  }

  lemma {:induction false} SameRows(aspects: seq<real>, limit: nat, rows: Rows, other: Rows, count: nat)
    requires limit > 0
    requires IsGreedyPartition(aspects, limit, rows) && IsGreedyPartition(aspects, limit, other)
    requires count <= |rows| <= |other|
    ensures rows[..count] == other[..count] && Offset(rows, count) == Offset(other, count)
  {
    if count > 0 {
      var r := count - 1;
      SameRows(aspects, limit, rows, other, r);
      NotShorter(aspects, limit, rows, other, r);
      NotShorter(aspects, limit, other, rows, r);
      SameRow(rows, other, r, |aspects|);
      assert rows[..count] == rows[..r] + [rows[r]];
      assert other[..count] == other[..r] + [other[r]];
    }
  }

  lemma SameRow(rows: Rows, other: Rows, r: nat, n: nat)
    requires CoversInOrder(rows, n) && CoversInOrder(other, n)
    requires r < |rows| && r < |other|
    requires Offset(rows, r) == Offset(other, r) && |rows[r]| == |other[r]|
    ensures rows[r] == other[r]
  {
    assert InPlace(rows, r) && InPlace(other, r);
    SamePrefix(rows[r], other[r], Offset(rows, r));
  }

  lemma SamePrefix(row: seq<nat>, longer: seq<nat>, first: nat)
    requires Consecutive(row, first) && Consecutive(longer, first) && |row| <= |longer|
    ensures row == longer[..|row|]
    ensures |row| < |longer| ==> longer[|row|] == first + |row|
  {
  }

  /** A row that stops where another goes on was closed for exceeding the share the other kept. */
  lemma NotShorter(aspects: seq<real>, limit: nat, rows: Rows, other: Rows, r: nat)
    requires limit > 0
    requires IsGreedyPartition(aspects, limit, rows) && IsGreedyPartition(aspects, limit, other)
    requires r < |rows| && r < |other| && Offset(rows, r) == Offset(other, r)
    ensures |rows[r]| >= |other[r]|
  {
    if |rows[r]| < |other[r]| {
      NextStarts(rows, other, r, |aspects|);
      assert ClosedBy(aspects, limit, rows[r], rows[r + 1]);
      assert WithinShare(aspects, limit, other[r]);
      ClosedRowExceeds(aspects, limit, rows[r], rows[r + 1], other[r]);
    }
  }

  lemma NextStarts(rows: Rows, other: Rows, r: nat, n: nat)
    requires CoversInOrder(rows, n) && CoversInOrder(other, n) && RowsIn(rows, n)
    requires r < |rows| && r < |other| && Offset(rows, r) == Offset(other, r)
    requires |rows[r]| < |other[r]|
    ensures r + 1 < |rows|
    ensures other[r][..|rows[r]|] == rows[r] && other[r][|rows[r]|] == rows[r + 1][0]
  {
    assert InPlace(rows, r) && InPlace(other, r);
    SamePrefix(rows[r], other[r], Offset(rows, r));
    RoomLeft(rows, other, r, n);
    assert InPlace(rows, r + 1);
    FirstOf(rows[r + 1], Offset(rows, r + 1));
  }

  lemma RoomLeft(rows: Rows, other: Rows, r: nat, n: nat)
    requires Offset(rows, |rows|) == n == Offset(other, |other|)
    requires r < |rows| && r < |other| && Offset(rows, r) == Offset(other, r)
    requires |rows[r]| < |other[r]|
    ensures r + 1 < |rows| && Offset(rows, r + 1) == Offset(rows, r) + |rows[r]|
  {
    OffsetMonotone(other, r, |other|);
  }

  lemma FirstOf(row: seq<nat>, first: nat)
    requires Consecutive(row, first)
    ensures row != [] ==> row[0] == first
  {
  }

  lemma ClosedRowExceeds(aspects: seq<real>, limit: nat, row: seq<nat>, next: seq<nat>, longer: seq<nat>)
    requires limit > 0 && row != [] && next != []
    requires RowIn(row, |aspects|) && RowIn(next, |aspects|) && RowIn(longer, |aspects|)
    requires ClosedBy(aspects, limit, row, next)
    requires |row| < |longer| && longer[..|row|] == row && longer[|row|] == next[0]
    ensures !WithinShare(aspects, limit, longer)
  {
    assert longer[..|row| + 1] == row + [next[0]];
    RowSumPush(aspects, row, next[0]);
  }
}
