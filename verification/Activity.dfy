/** Motion buckets and reviews of a queried time range. The rows a query returns are the table's
    selected rows ordered by start time; rows that start together come in any order. */
module Activity {
  import opened Options
  import opened Ordering

  const MOTION_BUCKET_SECONDS := 30

  // ----- Motion

  datatype Recording = Recording(camera: string, startTime: real, motion: Option<int>)

  datatype MotionBucket = MotionBucket(start: int, level: int, cameras: seq<string>)

  function Ceiling(x: real): int { -((-x).Floor) }

  function Truncate(x: real): int {
    if x >= 0.0 then x.Floor else -((-x).Floor)
  }

  /** The first bucket boundary at or after `x`. */
  function Ceil30(x: real): int {
    Ceiling(x / MOTION_BUCKET_SECONDS as real) * MOTION_BUCKET_SECONDS
  }

  /** The start of the bucket a moment falls into, as the query computes it. */
  function BucketStart(time: real): int {
    Truncate(time / MOTION_BUCKET_SECONDS as real) * MOTION_BUCKET_SECONDS
  }

  predicate Selected(row: Recording, cameras: set<string>, after: real, before: real) {
    && row.camera in cameras
    && row.motion.Some? && row.motion.value > 0
    && Ceil30(after) as real <= row.startTime < Ceil30(before) as real
  }

  /** The rows a motion query may return. */
  ghost predicate IsMotionResult(table: seq<Recording>, cameras: set<string>, after: real, before: real,
                                 rows: seq<Recording>) {
    && (forall row :: row in rows <==> row in table && Selected(row, cameras, after, before))
    && (forall i, j :: 0 <= i < j < |rows| ==> rows[i].startTime <= rows[j].startTime)
  }

  ghost predicate InBucket(row: Recording, start: int) {
    BucketStart(row.startTime) == start
  }

  /** The bucket's level is the greatest motion of its rows, and its cameras are theirs. */
  ghost predicate Summarises(bucket: MotionBucket, rows: seq<Recording>) {
    && (exists row :: row in rows && InBucket(row, bucket.start) && row.motion == Some(bucket.level))
    && (forall row :: row in rows && InBucket(row, bucket.start) ==>
          row.motion.Some? && row.motion.value <= bucket.level && row.camera in bucket.cameras)
    && (forall camera :: camera in bucket.cameras ==> HasCamera(rows, bucket.start, camera))
  }

  ghost predicate HasCamera(rows: seq<Recording>, start: int, camera: string) {
    exists row :: row in rows && InBucket(row, start) && row.camera == camera
  }

  ghost predicate HasBucket(buckets: seq<MotionBucket>, start: int) {
    exists i :: 0 <= i < |buckets| && buckets[i].start == start
  }

  ghost predicate StartsIncrease(buckets: seq<MotionBucket>) {
    forall i, j :: 0 <= i < j < |buckets| ==> buckets[i].start < buckets[j].start
  }

  /** One bucket per bucket start that has a row, in order, with sorted distinct cameras. */
  ghost predicate IsGroupBy(buckets: seq<MotionBucket>, rows: seq<Recording>) {
    && StartsIncrease(buckets)
    && (forall i :: 0 <= i < |buckets| ==>
          Summarises(buckets[i], rows) && StrictlySorted(buckets[i].cameras, TextLess))
    && (forall row :: row in rows ==> HasBucket(buckets, BucketStart(row.startTime)))
  }

  /** Bucket starts follow the times they come from. */
  lemma BucketStartMonotone(s: real, t: real)
    requires 0.0 <= s <= t
    ensures BucketStart(s) <= BucketStart(t)
  {
    assert s / 30.0 <= t / 30.0;
  }

  function SortedCameras(bucket: MotionBucket): (r: MotionBucket)
    ensures r.start == bucket.start && r.level == bucket.level
    ensures StrictlySorted(r.cameras, TextLess) && forall c :: c in r.cameras <==> c in bucket.cameras
  {
    bucket.(cameras := SortDedup(bucket.cameras))
  }

  ghost predicate Finished(buckets: seq<MotionBucket>, rows: seq<Recording>) {
    && StartsIncrease(buckets)
    && forall i :: 0 <= i < |buckets| ==>
         Summarises(buckets[i], rows) && StrictlySorted(buckets[i].cameras, TextLess)
  }

  /** What the loop has built from the rows so far: finished buckets, and the open one, which
      the last row is in. */
  ghost predicate GroupedSoFar(buckets: seq<MotionBucket>, open: Option<MotionBucket>, rows: seq<Recording>) {
    match open
    case None => buckets == [] && rows == []
    case Some(bucket) =>
      && Finished(buckets, rows) && Summarises(bucket, rows)
      && (forall i :: 0 <= i < |buckets| ==> buckets[i].start < bucket.start)
      && (forall row :: row in rows ==>
            HasBucket(buckets, BucketStart(row.startTime)) || InBucket(row, bucket.start))
      && rows != [] && InBucket(rows[|rows| - 1], bucket.start)
  }

  lemma FinishedStay(buckets: seq<MotionBucket>, rows: seq<Recording>, row: Recording)
    requires Finished(buckets, rows)
    requires forall i :: 0 <= i < |buckets| ==> !InBucket(row, buckets[i].start)
    ensures Finished(buckets, rows + [row])
  {
    forall i | 0 <= i < |buckets|
      ensures Summarises(buckets[i], rows + [row])
    {
      SummarisesElsewhere(buckets[i], rows, row);
    }
  }

  function Raised(level: int, motion: int): int {
    if motion > level then motion else level
  }

  /** The branch that adds a row to the open bucket. */
  lemma JoinBucket(buckets: seq<MotionBucket>, bucket: MotionBucket, rows: seq<Recording>, row: Recording)
    requires GroupedSoFar(buckets, Some(bucket), rows) && row.motion.Some? && InBucket(row, bucket.start)
    ensures GroupedSoFar(buckets, Some(MotionBucket(bucket.start, Raised(bucket.level, row.motion.value),
                                                    bucket.cameras + [row.camera])), rows + [row])
  {
    SummarisesMore(bucket, MotionBucket(bucket.start, Raised(bucket.level, row.motion.value),
                                        bucket.cameras + [row.camera]), rows, row);
    FinishedStay(buckets, rows, row);
  }

  /** Sorting a bucket's cameras keeps what it summarises. */
  lemma SortedSummarises(bucket: MotionBucket, rows: seq<Recording>)
    requires Summarises(bucket, rows)
    ensures Summarises(SortedCameras(bucket), rows)
  {
  }

  /** Finishing the open bucket groups all rows so far. */
  lemma FinishBucket(buckets: seq<MotionBucket>, bucket: MotionBucket, rows: seq<Recording>)
    requires GroupedSoFar(buckets, Some(bucket), rows)
    ensures IsGroupBy(buckets + [SortedCameras(bucket)], rows)
  {
    var done := buckets + [SortedCameras(bucket)];
    SortedSummarises(bucket, rows);
    assert done[|buckets|].start == bucket.start;
    forall row | row in rows
      ensures HasBucket(done, BucketStart(row.startTime))
    {
      if HasBucket(buckets, BucketStart(row.startTime)) {
        var i :| 0 <= i < |buckets| && buckets[i].start == BucketStart(row.startTime);
        assert done[i] == buckets[i];
      }
    }
  }

  /** The branch that finishes the open bucket and opens the row's own. */
  lemma OpenBucket(buckets: seq<MotionBucket>, bucket: MotionBucket, rows: seq<Recording>, row: Recording)
    requires GroupedSoFar(buckets, Some(bucket), rows) && row.motion.Some?
    requires bucket.start < BucketStart(row.startTime)
    ensures GroupedSoFar(buckets + [SortedCameras(bucket)],
                         Some(MotionBucket(BucketStart(row.startTime), row.motion.value, [row.camera])), rows + [row])
  {
    var done := buckets + [SortedCameras(bucket)];
    var start := BucketStart(row.startTime);
    FinishBucket(buckets, bucket, rows);
    forall i | 0 <= i < |done|
      ensures done[i].start < start
    {
    }
    FinishedStay(done, rows, row);
    forall r | r in rows
      ensures !InBucket(r, start)
    {
      var i :| 0 <= i < |done| && done[i].start == BucketStart(r.startTime);
    }
    FirstRow(rows, row);
  }

  lemma FirstRow(rows: seq<Recording>, row: Recording)
    requires row.motion.Some? && forall r :: r in rows ==> !InBucket(r, BucketStart(row.startTime))
    ensures Summarises(MotionBucket(BucketStart(row.startTime), row.motion.value, [row.camera]), rows + [row])
  {
    assert row in rows + [row];
  }

  /** What the loop does with one row. */
  function AddRow(buckets: seq<MotionBucket>, open: Option<MotionBucket>,
                  row: Recording): (seq<MotionBucket>, Option<MotionBucket>)
    requires row.motion.Some?
  {
    var start, level := BucketStart(row.startTime), row.motion.value;
    var own := MotionBucket(start, level, [row.camera]);
    if open.None? then (buckets, Some(own))
    else if open.value.start == start then
      (buckets, Some(MotionBucket(start, Raised(open.value.level, level), open.value.cameras + [row.camera])))
    else (buckets + [SortedCameras(open.value)], Some(own))
  }

  lemma RowGrouped(buckets: seq<MotionBucket>, open: Option<MotionBucket>, rows: seq<Recording>, row: Recording,
                   grown: seq<Recording>)
    requires GroupedSoFar(buckets, open, rows) && row.motion.Some?
    requires rows != [] ==> 0.0 <= rows[|rows| - 1].startTime <= row.startTime
    requires grown == rows + [row]
    ensures var (done, current) := AddRow(buckets, open, row); GroupedSoFar(done, current, grown)
  {
    if open.None? {
      FirstBucket(row);
      assert rows + [row] == [row];
    } else {
      BucketStartMonotone(rows[|rows| - 1].startTime, row.startTime);
      if open.value.start == BucketStart(row.startTime) {
        JoinBucket(buckets, open.value, rows, row);
      } else {
        OpenBucket(buckets, open.value, rows, row);
      }
    }
  }

  /** What the loop needs of a query's rows. */
  ghost predicate RowsInOrder(rows: seq<Recording>) {
    && (forall i :: 0 <= i < |rows| ==> rows[i].motion.Some? && rows[i].startTime >= 0.0)
    && (forall i, j :: 0 <= i < j < |rows| ==> rows[i].startTime <= rows[j].startTime)
  }

  lemma ResultInOrder(table: seq<Recording>, cameras: set<string>, after: real, before: real, rows: seq<Recording>)
    requires 0.0 <= after && IsMotionResult(table, cameras, after, before, rows)
    ensures RowsInOrder(rows)
  {
    Ceil30AtLeast(after);
    forall i | 0 <= i < |rows|
      ensures rows[i].motion.Some? && rows[i].startTime >= 0.0
    {
      assert rows[i] in rows;
    }
  }

  /** Groups the rows of a motion query into buckets. */
  method ReadMotion(table: seq<Recording>, cameras: set<string>, after: real, before: real, rows: seq<Recording>)
    returns (buckets: seq<MotionBucket>)
    requires 0.0 <= after <= before && IsMotionResult(table, cameras, after, before, rows)
    ensures IsGroupBy(buckets, rows)
  {
    buckets := [];
    var open: Option<MotionBucket> := None;
    ResultInOrder(table, cameras, after, before, rows);
    for i := 0 to |rows|
      invariant GroupedSoFar(buckets, open, rows[..i])
    {
      var row := rows[i];
      NextRowGrouped(rows, i, buckets, open);
      var start, level := BucketStart(row.startTime), row.motion.value;
      if open.Some? && open.value.start == start {
        open := Some(MotionBucket(start, Raised(open.value.level, level), open.value.cameras + [row.camera]));
      } else {
        if open.Some? {
          buckets := buckets + [SortedCameras(open.value)];
        }
        open := Some(MotionBucket(start, level, [row.camera]));
      }
    }
    assert rows[..|rows|] == rows;
    if open.Some? {
      FinishBucket(buckets, open.value, rows);
      buckets := buckets + [SortedCameras(open.value)];
    }
  }

  lemma NextRowGrouped(rows: seq<Recording>, i: nat, buckets: seq<MotionBucket>, open: Option<MotionBucket>)
    requires RowsInOrder(rows) && i < |rows| && GroupedSoFar(buckets, open, rows[..i])
    ensures rows[i].motion.Some?
    ensures var (done, current) := AddRow(buckets, open, rows[i]); GroupedSoFar(done, current, rows[..i + 1])
  {
    var before := rows[..i];
    assert i > 0 ==> before[i - 1] == rows[i - 1];
    assert rows[..i + 1] == before + [rows[i]];
    RowGrouped(buckets, open, before, rows[i], rows[..i + 1]);
  }

  /** The first row opens the first bucket. */
  lemma FirstBucket(row: Recording)
    requires row.motion.Some?
    ensures GroupedSoFar([], Some(MotionBucket(BucketStart(row.startTime), row.motion.value, [row.camera])), [row])
  {
    FirstRow([], row);
    assert [] + [row] == [row];
  }

  lemma Ceil30AtLeast(x: real)
    ensures x <= Ceil30(x) as real < x + 30.0
  {
    var y := x / 30.0;
    assert y <= Ceiling(y) as real < y + 1.0;
    assert y * 30.0 == x;
  }

  /** One more row of a bucket raises its level to the row's and adds the row's camera. */
  lemma SummarisesMore(bucket: MotionBucket, joined: MotionBucket, rows: seq<Recording>, row: Recording)
    requires Summarises(bucket, rows) && row.motion.Some? && InBucket(row, bucket.start)
    requires joined.start == bucket.start && joined.cameras == bucket.cameras + [row.camera]
    requires joined.level == Raised(bucket.level, row.motion.value)
    ensures Summarises(joined, rows + [row])
  {
    var grown := rows + [row];
    assert row in grown;
    var top :| top in rows && InBucket(top, bucket.start) && top.motion == Some(bucket.level);
    assert top in grown;
    forall camera | camera in joined.cameras
      ensures HasCamera(grown, joined.start, camera)
    {
      if camera in bucket.cameras {
        var r :| r in rows && InBucket(r, bucket.start) && r.camera == camera;
        assert r in grown;
      }
    }
  }

  /** A row of another bucket changes nothing. */
  lemma SummarisesElsewhere(bucket: MotionBucket, rows: seq<Recording>, row: Recording)
    requires Summarises(bucket, rows) && !InBucket(row, bucket.start)
    ensures Summarises(bucket, rows + [row])
  {
    var grown := rows + [row];
    var top :| top in rows && InBucket(top, bucket.start) && top.motion == Some(bucket.level);
    assert top in grown;
    forall camera | camera in bucket.cameras
      ensures HasCamera(grown, bucket.start, camera)
    {
      var r :| r in rows && InBucket(r, bucket.start) && r.camera == camera;
      assert r in grown;
    }
  }

  // ----- The grouping is determined by the rows

  lemma BucketHasRow(buckets: seq<MotionBucket>, rows: seq<Recording>, start: int)
    requires IsGroupBy(buckets, rows)
    ensures HasBucket(buckets, start) <==> exists row :: row in rows && InBucket(row, start)
  {
  }

  /** Two summaries of one bucket agree. */
  lemma SummaryUnique(left: MotionBucket, right: MotionBucket, rows: seq<Recording>)
    requires Summarises(left, rows) && Summarises(right, rows) && left.start == right.start
    requires StrictlySorted(left.cameras, TextLess) && StrictlySorted(right.cameras, TextLess)
    ensures left == right
  {
    var l :| l in rows && InBucket(l, left.start) && l.motion == Some(left.level);
    var r :| r in rows && InBucket(r, right.start) && r.motion == Some(right.level);
    assert left.level == right.level;
    TextOrderIsAsymmetric();
    forall camera
      ensures camera in left.cameras <==> camera in right.cameras
    {
      SummaryCamera(left, rows, camera);
      SummaryCamera(right, rows, camera);
    }
    SortedByMembers(left.cameras, right.cameras, TextLess);
  }

  lemma SummaryCamera(bucket: MotionBucket, rows: seq<Recording>, camera: string)
    requires Summarises(bucket, rows)
    ensures camera in bucket.cameras <==> HasCamera(rows, bucket.start, camera)
  {
  }

  ghost function Starts(buckets: seq<MotionBucket>): (starts: seq<int>)
    ensures |starts| == |buckets|
  {
    seq(|buckets|, i requires 0 <= i < |buckets| => buckets[i].start)
  }

  lemma StartIsMember(buckets: seq<MotionBucket>, start: int)
    ensures start in Starts(buckets) <==> HasBucket(buckets, start)
  {
    if HasBucket(buckets, start) {
      var i :| 0 <= i < |buckets| && buckets[i].start == start;
      assert Starts(buckets)[i] == start;
    }
  }

  /** Rows with the same members, in whatever order and however often repeated, group alike. */
  lemma GroupByUnique(left: seq<MotionBucket>, right: seq<MotionBucket>, rows: seq<Recording>, others: seq<Recording>)
    requires IsGroupBy(left, rows) && IsGroupBy(right, others) && SameMembers(rows, others)
    ensures left == right
  {
    var less := (x: int, y: int) => x < y;
    forall start
      ensures start in Starts(left) <==> start in Starts(right)
    {
      StartIsMember(left, start);
      StartIsMember(right, start);
      BucketHasRow(left, rows, start);
      BucketHasRow(right, others, start);
    }
    SortedByMembers(Starts(left), Starts(right), less);
    forall i | 0 <= i < |left|
      ensures left[i] == right[i]
    {
      assert Starts(left)[i] == Starts(right)[i];
      SummarisesMembers(right[i], others, rows);
      SummaryUnique(left[i], right[i], rows);
    }
  }

  lemma SummarisesMembers(bucket: MotionBucket, rows: seq<Recording>, others: seq<Recording>)
    requires Summarises(bucket, rows)
    requires forall row :: InBucket(row, bucket.start) ==> (row in rows <==> row in others)
    ensures Summarises(bucket, others)
  {
    var top :| top in rows && InBucket(top, bucket.start) && top.motion == Some(bucket.level);
    assert top in others;
    forall camera | camera in bucket.cameras
      ensures HasCamera(others, bucket.start, camera)
    {
      var r :| r in rows && InBucket(r, bucket.start) && r.camera == camera;
      assert r in others;
    }
  }

  // ----- Splitting a range

  /** A bucket starts at a multiple of thirty seconds, and holds its moments in the thirty seconds from
      there exactly when they are not before the epoch, or are its start. */
  lemma BucketHolds(time: real)
    ensures BucketStart(time) % 30 == 0
    ensures BucketStart(time) as real <= time < BucketStart(time) as real + 30.0 <==>
            time >= 0.0 || time == BucketStart(time) as real
  {
    var b := Truncate(time / 30.0);
    assert time / 30.0 * 30.0 == time;
    assert BucketStart(time) == b * 30;
    if time < 0.0 {
      var up := (-(time / 30.0)).Floor;
      assert up as real <= -(time / 30.0) < (up + 1) as real;
      assert (up * 30) as real <= -time < ((up + 1) * 30) as real;
    } else {
      assert (b * 30) as real <= time < ((b + 1) * 30) as real;
    }
  }

  /** Half a minute before the epoch is in the bucket that starts at the epoch. */
  lemma BucketBeforeEpoch()
    ensures BucketStart(-15.0) == 0
  {
    assert -15.0 / 30.0 == -0.5;
  }

  /** A split is rounded up to the next multiple of thirty. */
  lemma Ceil30Next(split: real)
    ensures Ceil30(split) % 30 == 0 && split <= Ceil30(split) as real < split + 30.0
  {
    var k := Ceiling(split / 30.0);
    assert split / 30.0 * 30.0 == split;
    assert (k - 1) as real < split / 30.0 <= k as real;
    assert ((k - 1) * 30) as real < split <= (k * 30) as real;
  }

  /** A row is selected by its camera, its motion, and whether its bucket starts in the range. */
  lemma SelectedByBucket(row: Recording, cameras: set<string>, after: real, before: real)
    requires row.startTime >= 0.0
    ensures Selected(row, cameras, after, before) <==>
            && row.camera in cameras
            && row.motion.Some? && row.motion.value > 0
            && after <= BucketStart(row.startTime) as real < before
  {
    BucketSide(row.startTime, after);
    BucketSide(row.startTime, before);
    MultipleSide(BucketStart(row.startTime), after);
    MultipleSide(BucketStart(row.startTime), before);
  }

  lemma MultipleSide(start: int, split: real)
    requires start % 30 == 0
    ensures start < Ceil30(split) <==> start as real < split
  {
    Ceil30Next(split);
  }

  /** No bucket straddles a split: a moment lies before the boundary exactly when its bucket does. */
  lemma BucketSide(time: real, split: real)
    requires 0.0 <= time
    ensures time < Ceil30(split) as real <==> BucketStart(time) < Ceil30(split)
  {
    var k := Ceiling(split / 30.0);
    var b := (time / 30.0).Floor;
    assert time / 30.0 * 30.0 == time;
    assert (b * 30) as real <= time < ((b + 1) * 30) as real;
  }

  lemma Ceil30Monotone(s: real, t: real)
    requires s <= t
    ensures Ceil30(s) <= Ceil30(t)
  {
    assert s / 30.0 <= t / 30.0;
  }

  /** A row of the whole range is a row of the half its bucket lies in. */
  lemma RowSide(table: seq<Recording>, cameras: set<string>, a: real, b: real, c: real,
                whole: seq<Recording>, first: seq<Recording>, second: seq<Recording>, row: Recording)
    requires 0.0 <= a <= b <= c
    requires IsMotionResult(table, cameras, a, c, whole)
    requires IsMotionResult(table, cameras, a, b, first) && IsMotionResult(table, cameras, b, c, second)
    ensures row in first <==> row in whole && BucketStart(row.startTime) < Ceil30(b)
    ensures row in second <==> row in whole && BucketStart(row.startTime) >= Ceil30(b)
  {
    Ceil30AtLeast(a);
    Ceil30Monotone(a, b);
    Ceil30Monotone(b, c);
    if row.startTime >= 0.0 {
      BucketSide(row.startTime, b);
    }
  }

  /** Reading a range in two halves gives the buckets of the whole range, none lost, repeated or
      cut in two, wherever the range is split and whichever order ties come in. */
  lemma MotionSplits(table: seq<Recording>, cameras: set<string>, a: real, b: real, c: real,
                     whole: seq<Recording>, first: seq<Recording>, second: seq<Recording>,
                     wholeBuckets: seq<MotionBucket>, firstBuckets: seq<MotionBucket>, secondBuckets: seq<MotionBucket>)
    requires 0.0 <= a <= b <= c
    requires IsMotionResult(table, cameras, a, c, whole)
    requires IsMotionResult(table, cameras, a, b, first) && IsMotionResult(table, cameras, b, c, second)
    requires IsGroupBy(wholeBuckets, whole) && IsGroupBy(firstBuckets, first) && IsGroupBy(secondBuckets, second)
    ensures wholeBuckets == firstBuckets + secondBuckets
  {
    forall row
      ensures row in first <==> row in whole && BucketStart(row.startTime) < Ceil30(b)
      ensures row in second <==> row in whole && BucketStart(row.startTime) >= Ceil30(b)
    {
      RowSide(table, cameras, a, b, c, whole, first, second, row);
    }
    JoinedGroups(whole, first, second, Ceil30(b), firstBuckets, secondBuckets);
    GroupByUnique(wholeBuckets, firstBuckets + secondBuckets, whole, whole);
  }

  lemma JoinedGroups(whole: seq<Recording>, first: seq<Recording>, second: seq<Recording>, boundary: int,
                     firstBuckets: seq<MotionBucket>, secondBuckets: seq<MotionBucket>)
    requires IsGroupBy(firstBuckets, first) && IsGroupBy(secondBuckets, second)
    requires forall row :: row in first <==> row in whole && BucketStart(row.startTime) < boundary
    requires forall row :: row in second <==> row in whole && BucketStart(row.startTime) >= boundary
    ensures IsGroupBy(firstBuckets + secondBuckets, whole)
  {
    var joined := firstBuckets + secondBuckets;
    forall i | 0 <= i < |firstBuckets|
      ensures firstBuckets[i].start < boundary && Summarises(joined[i], whole)
    {
      SummarisesMembers(firstBuckets[i], first, whole);
    }
    forall i | 0 <= i < |secondBuckets|
      ensures secondBuckets[i].start >= boundary && Summarises(joined[|firstBuckets| + i], whole)
    {
      SummarisesMembers(secondBuckets[i], second, whole);
    }
    JoinedStarts(whole, first, second, boundary, firstBuckets, secondBuckets);
  }

  lemma JoinedStarts(whole: seq<Recording>, first: seq<Recording>, second: seq<Recording>, boundary: int,
                     firstBuckets: seq<MotionBucket>, secondBuckets: seq<MotionBucket>)
    requires IsGroupBy(firstBuckets, first) && IsGroupBy(secondBuckets, second)
    requires forall row :: row in first <==> row in whole && BucketStart(row.startTime) < boundary
    requires forall row :: row in second <==> row in whole && BucketStart(row.startTime) >= boundary
    ensures forall row :: row in whole ==> HasBucket(firstBuckets + secondBuckets, BucketStart(row.startTime))
  {
    var joined := firstBuckets + secondBuckets;
    forall row | row in whole
      ensures HasBucket(joined, BucketStart(row.startTime))
    {
      var start := BucketStart(row.startTime);
      if start < boundary {
        assert row in first && HasBucket(firstBuckets, start);
        var i :| 0 <= i < |firstBuckets| && firstBuckets[i].start == start;
        assert joined[i] == firstBuckets[i];
      } else {
        assert row in second && HasBucket(secondBuckets, start);
        var i :| 0 <= i < |secondBuckets| && secondBuckets[i].start == start;
        assert joined[|firstBuckets| + i] == secondBuckets[i];
      }
    }
  }

  // ----- Reviews

  /** A review that has not ended yet has no end time. */
  datatype Review = Review(id: string, camera: string, start: real, end: Option<real>)

  predicate ReviewSelected(review: Review, cameras: set<string>, after: real, before: real) {
    && review.camera in cameras
    && review.start < before
    && (review.end.None? || review.end.value > after || review.start >= after)
  }

  predicate ReviewLess(a: Review, b: Review) {
    a.start < b.start || (a.start == b.start && TextLess(a.id, b.id))
  }

  /** The list a review query returns, ordered by start and then by the unique id. */
  ghost predicate IsReviewResult(table: seq<Review>, cameras: set<string>, after: real, before: real,
                                 reviews: seq<Review>) {
    && (forall review :: review in reviews <==> review in table && ReviewSelected(review, cameras, after, before))
    && StrictlySorted(reviews, ReviewLess)
  }

  /** The reviews of the list that start at or after the split. */
  function StartingFrom(reviews: seq<Review>, split: real): (r: seq<Review>)
    ensures forall review :: review in r <==> review in reviews && review.start >= split
  {
    if reviews == [] then []
    else
      assert reviews == [reviews[0]] + reviews[1..];
      (if reviews[0].start >= split then [reviews[0]] else []) + StartingFrom(reviews[1..], split)
  }

  lemma {:induction false} StartingFromSorted(reviews: seq<Review>, split: real)
    requires StrictlySorted(reviews, ReviewLess)
    ensures StrictlySorted(StartingFrom(reviews, split), ReviewLess)
  {
    if reviews != [] {
      StartingFromSorted(reviews[1..], split);
      var rest := StartingFrom(reviews[1..], split);
      forall i | 0 <= i < |rest|
        ensures ReviewLess(reviews[0], rest[i])
      {
        assert rest[i] in reviews[1..];
      }
    }
  }

  lemma ReviewOrderIsAsymmetric()
    ensures Asymmetric(ReviewLess)
  {
    TextOrderIsAsymmetric();
  }

  /** The whole range's reviews are the first half's, followed by those of the second half that
      start in it; a review appears in both halves exactly when it starts before the split and
      ends after it or is still open. */
  lemma ReviewsSplit(table: seq<Review>, cameras: set<string>, a: real, b: real, c: real,
                     whole: seq<Review>, first: seq<Review>, second: seq<Review>)
    requires a <= b <= c
    requires IsReviewResult(table, cameras, a, c, whole)
    requires IsReviewResult(table, cameras, a, b, first) && IsReviewResult(table, cameras, b, c, second)
    ensures whole == first + StartingFrom(second, b)
    ensures forall review :: review in first && review in second
                        <==> review in table && review.camera in cameras && review.start < b
                             && (review.end.None? || review.end.value > b)
  {
    var later := StartingFrom(second, b);
    StartingFromSorted(second, b);
    ReviewOrderIsAsymmetric();
    forall i | 0 <= i < |first|
      ensures first[i].start < b
    {
      assert first[i] in first;
    }
    forall i | 0 <= i < |later|
      ensures later[i].start >= b
    {
      assert later[i] in later;
    }
    forall review
      ensures review in whole <==> review in first + later
    {
    }
    SortedByMembers(whole, first + later, ReviewLess);
  }
}
