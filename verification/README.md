# Corvette, verified

A Dafny model of the data engines of the Corvette network video recorder, with proofs of what they
promise over all inputs and all runs. `dafny verify dfyconfig.toml` checks all of it.

- **Monitor wall** (`RealSums`, `MonitorLayout`, `TilePacker`, `TileShapes`, `TileAreas`, `TileCorrection`): the greedy row
  partition, the search over row counts, the placement that tiles the viewport exactly, who gets how
  much of it, and how far it is stretched.
- **Recordings** (`Sorting`, `RecordingMedia`): joining segments at most one second apart, per camera
  and again across cameras. The fold is characterised by the set of moments it covers, which is what
  makes two levels of merging equal to one.
- **Activity** (`Ordering`, `Activity`): the streaming group-by behind the motion buckets, and
  queries that survive any split of their range.
- **Depacketizing** (`Bytes`, `Depacketize`, `RtpPackets`, `Reassembly`, `H264`, `H265`, `Aac`): each depacketizer
  against a matching packetizer written in ghost code. What H.264 and H.265 share is proved once in
  `Reassembly`, about a payload's content; the codec modules prove that their bits carry it.
- **Muxing** (`Boxes`, `Fmp4`, `InitSegment`, `TrackHeaders`, `Fragmenter`, `Hls`, `HlsRestarts`,
  `RtpClock`): a box writer that patches sizes in place against a pure serializer and parser, fragments
  and initialization segments read back by a player's rules, the segment cutter, and the sliding window across worker restarts.
- **Session** (`RtspSession`, `Interleaving`, `CameraStream`): responses and media packets on one
  socket. `CameraStream` joins the session to the depacketizers, from socket bytes to frames.
- **Timeline** (`PinchGestures`, `TimelineViews`, `PinchZooming`, `TimelinePlayback`): zoom and pan
  windows, runs of finger events, what a pinch keeps under the fingers, the nearest playable time and
  the play-through.

`Options` and `Reals` are small shared helpers.

A class stands where the source has an object that updates its fields; each of its methods is tied to
a step function on values, and runs are reasoned about as folds of those steps. Ghost packetizers,
parsers and players are independent of the code they are compared with: they follow RFC 2326,
RFC 3550, RFC 3640, RFC 6184, RFC 7798, RFC 8216, ISO/IEC 14496-12 and ISO/IEC 14496-15.

Some promises turn out to hold only under a condition, which the model states exactly:

- `rtp_clock.rs:4-6` promises a clock that never decreases; the code reports wrapped ticks. In
  presentation order it falls back exactly on runs of 2^32 ticks or more (`ElapsedNeverDecreases`,
  `ElapsedFallsBack`). When timestamps step back, as those of frames in decoding order do, so does the
  clock, unless the step leaves the wrap (`StepFallsBack`, `FallsBackAtStep`, `ReorderedFramesFallBack`).
- The comment on `partition_into_rows` (`monitor_layout.rs:119-125`) says a row is closed once it has
  reached its fair share; the code closes it before the camera that would exceed the share, so a row of
  several cameras has reached it only by meeting it exactly (`ClosedRowReachesShare`,
  `ClosedShortOfShare`).
- `monitor_layout.rs:44-48` says a wider camera gets proportionally more area across the whole wall. Area
  goes with the aspect ratio over the square of the row's total, so it is proportional exactly between
  rows of equal totals, and across rows a wider camera can get less (`AreaOrder`, `WiderGetsLess`).
- `monitor_layout.rs:35-36` says the row count minimizes the correction's distance from 1. The code
  minimizes the distance of the heights: a row count that leaves the rows short of the viewport can be
  chosen over one whose rows are too tall but need less correction (`NearestCorrection`,
  `TallerStretchChosen`).
- `timeline.rs:391-392` and `timeline.rs:241-242` promise that the footage under the pointer or finger
  stays there. A zoom or a pan alone breaks this exactly when the window asked for would leave the
  selection (`ZoomUnderPointer`, `PanFollowsFinger`, `ZoomStopsAtEdge`, `PanStopsAtEdge`). A pinch zooms
  about where the fingers' midpoint now is and then pans by its travel, which moves the footage under
  one finger at least away from the edges too, whenever a finger goes anywhere; under the midpoint it
  stays exactly when the midpoint does or the duration does (`PinchKeepsFingers`,
  `PinchMovesEachFinger`, `PinchKeepsMidpoint`, `PinchMovesFootage`).
- `docs/design/api-contracts.md:74-76` puts a recording into the bucket that contains its start; the code
  truncates towards zero, so this holds exactly from the epoch on (`BucketHolds`, `BucketBeforeEpoch`).
- `timeline.rs:394-395` promises windows of a minute at least; this holds exactly for selections that
  long (`ZoomKeepsWindow`).
- `h264.rs:47-49` and `h265.rs:57-59` promise renegotiated parameter sets before the next frame. A packet
  that fails after its RTP header takes them with it: one with a malformed payload, or one that goes on
  with a fragment that was never started (`SetsPrecedeFrames`, `EmptyPayloadLosesSets`).
- `docs/design/api-contracts.md:586-587` says every segment after a camera's first starts on a keyframe.
  A restarted worker starts its first segment with whatever slice it receives first, so this holds
  exactly when restarted workers receive a keyframe first (`LaterSegmentsStartOnKeyframes`,
  `RestartBetweenKeyframes`).
- `timeline.rs:492-493` promises that nothing is reported until both fingers are down; after the first
  of two fingers lifts, the other can take both slots. The promise holds on every run on which that does
  not happen (`StaysDistinct`, `ReportsNeedTwoFingers`, `OneFingerZooms`).
- The AU-header loop (`aac.rs:101-111`) returns exactly when it is not the case that headers after the
  first have no width while bits are left for them (`LoopReturns`, `StuckPacket`). A positive size
  width, or index delta width, is enough; and units survive packing exactly when the last one's header
  takes up bits, which excludes only descriptions that declare zero-width fields (`PackRoundTrip`,
  `WidthlessUnitLost`).
- Parameter sets of 65536 bytes or more are written with a length of 65535 and cannot be read back
  (`InitSegmentReadBack`, `LongSetLost`).
- Sample durations add up to the true elapsed ticks exactly when each slice is later than the one before:
  a repeated timestamp, as of two slices of one picture, adds a tick, a step back a whole wrap
  (`DurationsTelescope`, `SlicesOfOnePicture`).
- RFC 8216 section 6.2.1 forbids changing the target duration; the playlist recomputes it from its window
  and keeps it exactly under the condition of `PlaylistsAgree` (`TargetChanges` shows a change).

## Model

| member | source | states |
|---|---|---|
| `TilePacker.PackTiles` | crates/corvette-ui/src/monitor_layout.rs:68-117 | every camera gets one rectangle in input order; each point of the half-open viewport lies in exactly one of them and no other point in any; the areas sum to the viewport; width times pixel height is one factor times pixel width times height, for every camera, a height of 0 counting as 1; the rows used are, for the cameras' widths at height 1, the greedy partition whose natural height is nearest the viewport over all row counts, the smallest count on ties; no tiles without cameras or for a non-positive viewport, and no packing when every camera has width zero |
| `MonitorLayout.AspectKeepsShape` | crates/corvette-ui/src/monitor_layout.rs:76-80 | a box has the camera's own shape, in pixels, if and only if its width is the aspect ratio times its height |
| `TileShapes.NaturalHeightFills` | crates/corvette-ui/src/monitor_layout.rs:149-162 | a row's natural height is the one height at which its cameras, each in its own pixel shape, are together as wide as the viewport |
| `TileShapes.ClosedInPixels` | crates/corvette-ui/src/monitor_layout.rs:126-147 | with all cameras in their pixel shapes at any common height: a row is closed before a camera if and only if `row_count` rows as wide as it and the camera are wider than all cameras together |
| `TileShapes.WithinInPixels` | crates/corvette-ui/src/monitor_layout.rs:126-147 | a row is within its share if and only if, cut behind any camera but its first, `row_count` rows as wide are no wider than all cameras |
| `TilePacker.NearestPartitionUnique` | crates/corvette-ui/src/monitor_layout.rs:82-94 | there is only one nearest partition |
| `TileAreas.AreaOrder` | crates/corvette-ui/src/monitor_layout.rs:44-48 | one camera gets at least the area of another if and only if its aspect ratio over the square of its row's total is at least as large; two areas are in the ratio of the aspect ratios if and only if the two row totals are equal, so within a row always |
| `TileAreas.WidthsInRow` | crates/corvette-ui/src/monitor_layout.rs:44-46 | in one row widths are in the ratio of the aspect ratios |
| `TileCorrection.NearestCorrection` | crates/corvette-ui/src/monitor_layout.rs:33-37 | against the partition for any other row count, the chosen one needs no larger correction, as distance from 1, if and only if it is not the case that its natural height is below the viewport, the other above it, and their harmonic mean below it |
| `TileCorrection.NearerCorrectsLess` | crates/corvette-ui/src/monitor_layout.rs:33-37 | the same for any two natural heights of which one is nearer the viewport |
| `TileCorrection.TallerStretchChosen` | crates/corvette-ui/src/monitor_layout.rs:33-37 | two square cameras in a square viewport: one row stretched by 2 is chosen over two rows shrunk by 0.5 |
| `TileAreas.WiderGetsLess` | crates/corvette-ui/src/monitor_layout.rs:44-48 | a wall on which a square camera gets twelve times the area of one three times as wide |
| `TilePacker.GridTilesExactly` | crates/corvette-ui/src/monitor_layout.rs:99-116 | any rows whose widths sum to the viewport width and heights to its height tile it exactly, by the two running sums `x` and `y` |
| `TilePacker.GridArea` | crates/corvette-ui/src/monitor_layout.rs:99-116 | the areas of the first rows sum to the width times the height they reach |
| `TilePacker.PackedTilesExactly` | crates/corvette-ui/src/monitor_layout.rs:96-116 | widths divided by each row's aspect total and the vertical rescale fill the viewport, so the placements tile it exactly |
| `TilePacker.PackedStretchesUniformly` | crates/corvette-ui/src/monitor_layout.rs:96-116 | the rescale stretches every tile by the same factor |
| `TilePacker.NearestStep` | crates/corvette-ui/src/monitor_layout.rs:82-94 | trying one more row count keeps the candidate nearest the viewport, the earliest on ties |
| `TilePacker.PlaceTiles` | crates/corvette-ui/src/monitor_layout.rs:98-116 | the outer placement loop puts every row's tiles below the rows before it |
| `TilePacker.PlaceRow` | crates/corvette-ui/src/monitor_layout.rs:103-113 | the inner loop puts a row's tiles side by side and touches no other tile |
| `MonitorLayout.PartitionIntoRows` | crates/corvette-ui/src/monitor_layout.rs:126-147 | at most the clamped row count of non-empty rows that concatenate to 0..n; a row is closed only when the next camera would exceed the fair share; a row before the last allowed one stays within the share unless it holds one camera |
| `MonitorLayout.GreedyPartitionUnique` | crates/corvette-ui/src/monitor_layout.rs:126-147 | those rules admit exactly one list of rows |
| `MonitorLayout.ClosedRowReachesShare` | crates/corvette-ui/src/monitor_layout.rs:119-147 | a closed row of several cameras never exceeds its fair share; a closed row has reached the share exactly when it meets it or is one camera at least that wide |
| `MonitorLayout.ClosedShortOfShare` | crates/corvette-ui/src/monitor_layout.rs:119-147 | three equal cameras in two rows: the first row is closed with two thirds of its share |
| `TilePacker.RowWidthsFill` | crates/corvette-ui/src/monitor_layout.rs:101-105 | a row's shares of the width are non-negative and sum to it |
| `RecordingMedia.FoldIsClips` | crates/corvette-ui/src/media.rs:142-160 | folding ascending spans gives ranges more than a second apart that cover, up to a second after each, exactly the moments the spans cover |
| `RecordingMedia.CoverDeterminesClips` | crates/corvette-ui/src/media.rs:142-160 | separated ranges are the connected components of their cover: equal covers, equal ranges |
| `RecordingMedia.RecordingMedia` | crates/corvette-ui/src/media.rs:47-90 | the loop computes the fold of the clipped, sorted segments, reversed for clips, and that of those with motion; `MediaIsClips` says what they cover |
| `RecordingMedia.MediaIsClips` | crates/corvette-ui/src/media.rs:47-90 | one camera's clips and motion ranges lie inside the selection, have positive length, are more than a second apart, the clips newest first; a moment is covered if and only if it lies between the later start and the earlier end of some segment and the selection, where the start comes first, or at most a second after; for motion ranges, of some segment with positive motion |
| `RecordingMedia.MergeRecordingMedia` | crates/corvette-ui/src/media.rs:108-140 | the merge computes the fold of all cameras' sorted clips, and concatenates motion ranges |
| `RecordingMedia.FoldRanges` | crates/corvette-ui/src/media.rs:119-128 | the merge's loop is the same fold |
| `Sorting.SortIsStable` | crates/corvette-ui/src/media.rs:51 | the sort leaves elements of equal keys in their order |
| `RecordingMedia.TwoLevelMergeIsOneLevel` | crates/corvette-ui/src/media.rs:47-140 | merging every camera's merged media gives the clips that folding all raw segments at once gives, however the segments are dealt to cameras and ordered, and they cover exactly the segments' parts inside the selection and what follows within a second |
| `RecordingMedia.MergedMotionCover` | crates/corvette-ui/src/media.rs:112-117 | the merged motion ranges cover exactly the parts of the segments with positive motion |
| `Activity.ReadMotion` | crates/corvette-api-server/src/activity.rs:233-284 | the streaming loop equals a group-by: one bucket per bucket start with a row, strictly increasing starts, greatest level, sorted distinct cameras |
| `Activity.GroupByUnique` | crates/corvette-api-server/src/activity.rs:233-284 | rows with the same members, in any order, give the same buckets |
| `Activity.SummaryUnique` | crates/corvette-api-server/src/activity.rs:291-295 | a bucket's rows determine its level and its sorted cameras |
| `Activity.SortedCameras` | crates/corvette-api-server/src/activity.rs:291-295 | sorting and deduplicating keeps exactly the cameras |
| `Ordering.TextLessAt` | crates/corvette-api-server/src/activity.rs:291-295 | names are ordered by their first difference, a prefix before what it starts |
| `Activity.BucketSide` | crates/corvette-api-server/src/activity.rs:240-289 | a moment lies before a rounded split exactly when its bucket does, so no bucket straddles a split |
| `Activity.BucketHolds` | crates/corvette-api-server/src/activity.rs:233-243 | a bucket starts at a multiple of 30 seconds, and holds a moment in its 30 seconds if and only if the moment is not before the epoch or is the start |
| `Activity.BucketBeforeEpoch` | crates/corvette-api-server/src/activity.rs:233-243 | fifteen seconds before the epoch lie in the bucket that starts at the epoch |
| `Activity.SelectedByBucket` | crates/corvette-api-server/src/activity.rs:238-252 | a row is selected if and only if its camera is, it has motion, and its bucket starts in the half-open range |
| `Activity.Ceil30Next` | crates/corvette-api-server/src/activity.rs:286-289 | a bound is rounded up to the next multiple of 30 |
| `Activity.MotionSplits` | crates/corvette-api-server/src/activity.rs:708-743 | reading two halves of a range gives, concatenated, the buckets of the whole, wherever it is split and however ties are ordered |
| `Activity.ReviewsSplit` | crates/corvette-api-server/src/activity.rs:300-313 | the whole range's reviews are the first half's followed by those of the second that start in it; a review is in both halves exactly when it starts before the split and ends after it or is still open |
| `Depacketize.SplitAggregate` | crates/corvette-rtsp-client/src/depacketize/h264.rs:164-183 | the splitting loop yields one frame a unit behind the frames already made, or fails when a length runs past the payload |
| `Depacketize.SplitOfJoin` | crates/corvette-rtsp-client/src/depacketize/h264.rs:164-183 | splitting the length-prefixed join of any units gives them back, zero-length units included |
| `Depacketize.JoinOfSplit` | crates/corvette-rtsp-client/src/depacketize/h265.rs:184-203 | a payload splits only if it is exactly such a join |
| `RtpPackets.ParsesSent` | crates/corvette-rtsp-client/src/depacketize/rtp_header.rs:43-85 | of a packet laid out by RFC 3550 section 5.1, with any marker, type, sequence number, SSRC, up to 15 CSRCs, extension and padding, the timestamp and payload are found |
| `RtpPackets.ReadExactlySent` | crates/corvette-rtsp-client/src/depacketize/rtp_header.rs:43-85 | a packet is read as a timestamp and payload if and only if it is laid out so and carries them; a padding count of zero is read as no padding |
| `RtpPackets.VersionRejected` | crates/corvette-rtsp-client/src/depacketize/rtp_header.rs:47-50 | a version is rejected if and only if the packet holds a fixed header with one that is not 2 |
| `Reassembly.PendingFirstAndOnce` | crates/corvette-rtsp-client/src/depacketize/h264.rs:72-101 | pending parameter sets come out once, ahead of everything else, exactly when the payload of the first packet with a readable RTP header is neither malformed nor the rest of a fragment that was never started; a failing one loses them |
| `Reassembly.SetsPrecedeFrames` | crates/corvette-rtsp-client/src/depacketize/h264.rs:47-59 | renegotiated parameter sets, if any, come out behind their start codes before the next frames if and only if the first packet with a readable RTP header is not malformed and does not go on with a fragment that was never started |
| `Reassembly.OthersDoNotDisturb` | crates/corvette-rtsp-client/src/depacketize/h264.rs:103-144 | what fragments complete depends on the fragments alone, not on the packets between them |
| `Reassembly.PiecesDeliver` | crates/corvette-rtsp-client/src/depacketize/h264.rs:103-144 | a start piece, continuations and an end piece give one frame of header and data, with the start's timestamp, whatever was in progress |
| `Reassembly.StreamDeliversPending` | crates/corvette-rtsp-client/src/depacketize/h264.rs:72-144 | a stream of whole, aggregated and cut NAL units comes out in order behind the pending parameter sets |
| `Reassembly.RoundTrip` | crates/corvette-rtsp-client/src/depacketize/h264.rs:72-144 | depacketizing inverts packetizing for any codec that reads each payload as it was meant |
| `Reassembly.FragmentsSurvive` | crates/corvette-rtsp-client/src/depacketize/h264.rs:103-144 | fragments complete their NAL units whatever other packets arrive in between |
| `H264Depacketizing.H264Depacketizer.Depacketize` | crates/corvette-rtsp-client/src/depacketize/h264.rs:72-92 | one packet moves the depacketizer by the reassembly step of what its payload carries |
| `H264Depacketizing.H264Depacketizer.ReassembleFuA` | crates/corvette-rtsp-client/src/depacketize/h264.rs:103-144 | one FU-A payload extends, completes, starts or rejects a fragment |
| `H264Depacketizing.H264Depacketizer.TakePendingParameterSets` | crates/corvette-rtsp-client/src/depacketize/h264.rs:94-101 | the pending sets are taken, as frames with the packet's timestamp |
| `H264Depacketizing.H264Depacketizer.Renegotiate` | crates/corvette-rtsp-client/src/depacketize/h264.rs:55-59 | new parameter sets are scheduled and a fragment in progress stays |
| `H264Depacketizing.EmptyPayloadLosesSets` | crates/corvette-rtsp-client/src/depacketize/h264.rs:47-78 | after a packet with an empty payload the next slice comes out without the parameter sets |
| `H264Depacketizing.FuContent` | crates/corvette-rtsp-client/src/depacketize/h264.rs:111-116 | an FU-A payload cut from a NAL unit is read back as that piece, whatever its reserved bit |
| `H264Depacketizing.BadPayloads` | crates/corvette-rtsp-client/src/depacketize/h264.rs:75-91 | which payloads are rejected, and with which error: empty ones, types 0, 25 to 27 and 29 to 31, an FU-A of one byte, a STAP-A that joins no units |
| `H264Depacketizing.PayloadsRead` | crates/corvette-rtsp-client/src/depacketize/h264.rs:79-89 | single, STAP-A and FU-A payloads of RFC 6184 are read as the NAL units they carry |
| `H264Depacketizing.StreamRoundTrip` | crates/corvette-rtsp-client/src/depacketize/h264.rs:72-183 | any NAL units, sent in any of the three ways with any cuts, in RTP packets laid out by RFC 3550 section 5.1, come out behind start codes, byte for byte and in order from any prior state, a cut one with its first packet's timestamp, behind the pending sets |
| `H264Depacketizing.FragmentsSurviveOthers` | crates/corvette-rtsp-client/src/depacketize/h264.rs:72-144 | cut NAL units come out once each whatever packets that are not fragments arrive in between, failing ones included |
| `H265Depacketizing.H265Depacketizer.Depacketize` | crates/corvette-rtsp-client/src/depacketize/h265.rs:81-100 | one packet moves the depacketizer by the reassembly step of what its payload carries |
| `H265Depacketizing.H265Depacketizer.ReassembleFu` | crates/corvette-rtsp-client/src/depacketize/h265.rs:111-158 | one FU payload extends, completes, starts or rejects a fragment |
| `H265Depacketizing.FuContent` | crates/corvette-rtsp-client/src/depacketize/h265.rs:119-127 | an FU payload cut from a NAL unit is read back as that piece |
| `H265Depacketizing.BadPayloads` | crates/corvette-rtsp-client/src/depacketize/h265.rs:81-100 | which payloads are rejected, and with which error: those without a NAL header, types above 40 but AP and FU, an FU of two bytes, an AP that joins no units |
| `H265Depacketizing.PayloadsRead` | crates/corvette-rtsp-client/src/depacketize/h265.rs:81-100 | single, AP and FU payloads of RFC 7798 are read as the NAL units they carry |
| `H265Depacketizing.StreamRoundTrip` | crates/corvette-rtsp-client/src/depacketize/h265.rs:81-203 | the H.265 round trip, as for H.264 |
| `H265Depacketizing.FragmentsSurviveOthers` | crates/corvette-rtsp-client/src/depacketize/h265.rs:81-158 | the H.265 fragment theorem, as for H.264 |
| `AacDepacketizing.BitReader.ReadBits` | crates/corvette-rtsp-client/src/depacketize/aac.rs:135-148 | reads the number the next bits spell, most significant first and truncated to 64 bits, or fails when too few are left |
| `AacDepacketizing.ValueOfField` | crates/corvette-rtsp-client/src/depacketize/aac.rs:135-148 | a number written in a field wide enough is the number read |
| `AacDepacketizing.ReadAuHeader` | crates/corvette-rtsp-client/src/depacketize/aac.rs:102-109 | one AU-header: its size field is returned and its index field skipped |
| `AacDepacketizing.ReadAccessUnitSizes` | crates/corvette-rtsp-client/src/depacketize/aac.rs:93-113 | the loop returns the sizes of the headers up to the declared length, whenever it returns |
| `AacDepacketizing.LoopReturns` | crates/corvette-rtsp-client/src/depacketize/aac.rs:93-113 | for a header section as long as its declared length the loop returns if and only if it is not the case that headers after the first have no width while bits are left for them |
| `AacDepacketizing.IterationCollects` | crates/corvette-rtsp-client/src/depacketize/aac.rs:101-111 | one iteration collects the next size the section declares, and returns if and only if there is none |
| `AacDepacketizing.StuckKeepsRunning` | crates/corvette-rtsp-client/src/depacketize/aac.rs:101-111 | in that case no number of iterations returns |
| `AacDepacketizing.StuckPacket` | crates/corvette-rtsp-client/src/depacketize/aac.rs:93-113 | a sixteen-byte packet, with size width 0, index width 8 and index delta width 0, on which the loop never returns |
| `AacDepacketizing.AacDepacketizer.Depacketize` | crates/corvette-rtsp-client/src/depacketize/aac.rs:58-88 | a packet's frames are the access units its payload declares, with the packet's timestamp, or the first error |
| `AacDepacketizing.CutAccessUnits` | crates/corvette-rtsp-client/src/depacketize/aac.rs:74-87 | the cutting loop yields one frame a size, or fails when a size runs past the payload |
| `AacDepacketizing.PackedBits` | crates/corvette-rtsp-client/src/depacketize/aac.rs:135-148 | bits packed into bytes are read back at their positions |
| `AacDepacketizing.PackRoundTrip` | crates/corvette-rtsp-client/src/depacketize/aac.rs:58-148 | extraction inverts the packing of RFC 3640 section 3.2.1, for any field widths and any units whose sizes fit, if and only if the last unit's header takes up bits; bytes behind the units are ignored |
| `AacDepacketizing.PacketRoundTrip` | crates/corvette-rtsp-client/src/depacketize/aac.rs:58-148 | the same for a whole RTP packet: it comes to one frame a unit with the packet's timestamp, under exactly that condition |
| `AacDepacketizing.WidthlessUnitLost` | crates/corvette-rtsp-client/src/depacketize/aac.rs:58-88 | with zero-width fields one empty unit is packed and none is found |
| `Boxes.WriteBox` | crates/corvette-media-bridge/src/fmp4.rs:146-154 | placeholder-then-patch writing appends exactly the serialized box tree |
| `Boxes.WriteAll` | crates/corvette-media-bridge/src/fmp4.rs:390-405 | the boxes written inside a box are the concatenation of their serializations |
| `Boxes.Serialize` | crates/corvette-media-bridge/src/fmp4.rs:146-154 | a box is as long as its size says |
| `Boxes.ParseSerialized` | crates/corvette-media-bridge/src/fmp4.rs:146-154 | reading sizes and nesting back from the bytes gives the same tree at every depth (ISO/IEC 14496-12 section 4.2) |
| `Boxes.KindsAreNames` | crates/corvette-media-bridge/src/fmp4.rs:386-405 | each box kind is the four-character code of its standard name |
| `Fmp4.Fragment` | crates/corvette-media-bridge/src/fmp4.rs:434-492 | writing the movie fragment, patching its data offset and appending `mdat` gives the serialized boxes with the right offset |
| `Fmp4.FitsBoxSize` | crates/corvette-media-bridge/src/fmp4.rs:146-154 | a sample is excluded if and only if its box does not fit a 32-bit size |
| `Fmp4.MoofLayout` | crates/corvette-media-bridge/src/fmp4.rs:453-477 | the constant 84 is the position of the `trun` data offset for every argument |
| `Fmp4.DataOffsetPatched` | crates/corvette-media-bridge/src/fmp4.rs:479-482 | patching those four bytes changes the data offset and nothing else |
| `Fmp4.SampleAtDataOffset` | crates/corvette-media-bridge/src/fmp4.rs:479-491 | the bytes from the data offset to the last byte are the four-byte length and the payload |
| `Fmp4.DemuxFragment` | crates/corvette-media-bridge/src/fmp4.rs:434-492 | a reader following ISO/IEC 14496-12 section 8.8, which also checks versions, flags, track and sample count, finds the sequence number, decode time, duration, keyframe flag and payload the fragment was made of |
| `InitSegment.InitSegment` | crates/corvette-media-bridge/src/fmp4.rs:386-430 | the written segment is the serialized `ftyp` and `moov` tree |
| `InitSegment.InitSegmentParsed` | crates/corvette-media-bridge/src/fmp4.rs:386-430 | the segment parses to exactly that tree |
| `InitSegment.InitSegmentReadBack` | crates/corvette-media-bridge/src/fmp4.rs:256-345 | a player finds the camera's parameter sets in the segment if and only if each fits its 16-bit length |
| `TrackHeaders.TrackReadBack` | crates/corvette-media-bridge/src/fmp4.rs:386-430 | a player finds enabled track 1, of handler `vide`, with a timescale of 90000 and 1920 by 1080 pixels, played unscaled at normal rate and volume, extended by fragments of its first sample description |
| `TrackHeaders.EntryReadBack` | crates/corvette-media-bridge/src/fmp4.rs:386-430 | a player finds one sample entry, of kind `avc1` or `hvc1`, of 1920 by 1080 pixels, 24 bits deep, one frame a sample |
| `TrackHeaders.BrandsReadBack` | crates/corvette-media-bridge/src/fmp4.rs:386-430 | a player finds the brands `iso5`, `iso6`, `isom` and `mp41` |
| `InitSegment.LongSetLost` | crates/corvette-media-bridge/src/fmp4.rs:256-277 | an SPS of 65536 bytes is written and not read back |
| `InitSegment.AvcCDecoded` | crates/corvette-media-bridge/src/fmp4.rs:256-277 | a reader that checks version, length size and the repeated profile gets the SPS and PPS back from an `avcC` record |
| `InitSegment.HvcCDecoded` | crates/corvette-media-bridge/src/fmp4.rs:311-334 | a reader that checks every fixed field and the repeated profile, tier and level gets the VPS, SPS and PPS back from an `hvcC` record |
| `Fragmenting.Fragmenter.Next` | crates/corvette-media-bridge/src/fmp4.rs:92-115 | one frame moves the fragmenter by its step and yields that step's fragment |
| `Fragmenting.ClassifiedByType` | crates/corvette-media-bridge/src/fmp4.rs:118-138 | by the byte behind the start code: H.264 types 1 and 5 are slices, 5 a keyframe; H.265 types up to 31 are slices, 16 to 23 keyframes; nothing else is |
| `Fragmenting.DurationIsGap` | crates/corvette-media-bridge/src/fmp4.rs:95-99 | a sample's duration is the true gap to the slice before if and only if the gap is at least one tick and less than 2^32 |
| `Fragmenting.DurationOfGap` | crates/corvette-media-bridge/src/fmp4.rs:95-99 | for gaps of less than a wrap, forward or back, the duration exceeds the gap by one tick for a repeated timestamp and by a whole wrap for a step back |
| `Fragmenting.DurationsTelescope` | crates/corvette-media-bridge/src/fmp4.rs:92-115 | over any stream the durations add up to 3000, the true elapsed ticks, one tick for every repeated timestamp and 2^32 for every step back, across any number of 32-bit wraps; so to 3000 plus the true elapsed ticks if and only if each slice is later than the one before |
| `Fragmenting.SlicesOfOnePicture` | crates/corvette-media-bridge/src/fmp4.rs:92-99 | two slices with one timestamp last a tick more than has elapsed |
| `Fragmenting.FragmentsOfSlices` | crates/corvette-media-bridge/src/fmp4.rs:118-138 | frames that carry no slice leave no trace |
| `Fragmenting.StreamDemuxes` | crates/corvette-media-bridge/src/fmp4.rs:92-115 | the i-th fragment of a stream of slices is read back as the i-th slice, numbered consecutively, timed by its timestamp, and a keyframe if and only if its type is 5, or 16 to 23 for H.265 |
| `Fragmenting.InitSegmentTracker.Observe` | crates/corvette-media-bridge/src/fmp4.rs:39-73 | a segment is emitted exactly when the frame's codec is complete and differs from the last one emitted |
| `Fragmenting.EmittedFollowsSets` | crates/corvette-media-bridge/src/fmp4.rs:39-73 | over any stream the last segment emitted holds the parameter sets in force: of the last frame whose codec had all, the last units of types 7 and 8, or 32, 33 and 34; and no two in a row are equal |
| `Fragmenting.SeenAreLast` | crates/corvette-media-bridge/src/fmp4.rs:42-44 | the tracker holds the last unit of each of those types, of its codec |
| `Hls.SegmentBuilder.Push` | crates/corvette-media-bridge/src/hls.rs:49-58 | one push moves the builder by its step and yields that step's segment |
| `Hls.SegmentBuilder.Cut` | crates/corvette-media-bridge/src/hls.rs:60-65 | a cut hands over the buffer and starts an empty one |
| `Hls.RunIsSegmentation` | crates/corvette-media-bridge/src/hls.rs:48-66 | any run of non-empty fragments extends a segmentation: groups in order, each at least 180000 ticks, none holding a keyframe after its target was reached, all but the first starting on a keyframe |
| `Hls.SegmentationUnique` | crates/corvette-media-bridge/src/hls.rs:48-66 | a stream has only one segmentation |
| `Hls.BuilderSegments` | crates/corvette-media-bridge/src/hls.rs:48-66 | the finished segments and the open buffer are that segmentation |
| `Hls.BuilderConserves` | crates/corvette-media-bridge/src/hls.rs:48-66 | finished bytes followed by the open buffer are all fragments' bytes in order, and durations add up, from any state and for empty fragments too |
| `Hls.FinishedHaveData` | crates/corvette-media-bridge/src/hls.rs:48-66 | no finished segment is empty, whatever the fragments |
| `Hls.WorkerTicks` | crates/corvette-media-bridge/src/hls.rs:207-238 | a worker's finished segments and open buffer together last the same sum, and 3000 plus the true elapsed ticks if and only if each slice is later than the one before |
| `Hls.WorkerSegmentsShape` | crates/corvette-media-bridge/src/hls.rs:207-238 | every segment a worker finishes lasts at least the target and starts on a keyframe unless it is the worker's first |
| `HlsRestarts.LaterSegmentsStartOnKeyframes` | crates/corvette-media-bridge/src/hls.rs:48-66 | over any number of workers on one camera, every segment after the camera's first starts on a keyframe if and only if every worker that finishes segments after another one did was first sent a keyframe |
| `HlsRestarts.SegmentStarts` | crates/corvette-media-bridge/src/hls.rs:48-66 | a worker's first segment starts on a keyframe if and only if its first slice is one; its later segments always do |
| `HlsRestarts.RestartBetweenKeyframes` | crates/corvette-media-bridge/src/hls.rs:207-238 | a restarted worker whose first slice is not a keyframe finishes a segment behind that of an earlier one |
| `Hls.CameraHls.PushSegment` | crates/corvette-media-bridge/src/hls.rs:88-104 | a segment is stored under the next number and the window keeps the newest six of everything ever finished |
| `Hls.CameraHls.SegmentBytes` | crates/corvette-media-bridge/src/hls.rs:114-122 | bytes are found exactly for the numbers in the window, and are those of the segment finished at that position |
| `Hls.CameraHls.GetPlaylist` | crates/corvette-media-bridge/src/hls.rs:126-170 | the playlist lists exactly the window, durations floored to milliseconds, with the smallest target that holds every duration |
| `Hls.PlaylistEntries` | crates/corvette-media-bridge/src/hls.rs:134-168 | entries are consecutive numbers from the media sequence to the newest segment, at most six, and none lasts longer than the target duration (RFC 8216 sections 4.3.3.1 and 4.3.3.2) |
| `Hls.PlaylistsAgree` | crates/corvette-media-bridge/src/hls.rs:88-170 | between two fetches the media sequence never goes back and an entry still listed is the same entry (RFC 8216 section 6.2.2); the target duration (section 6.2.1) is the same if and only if no segment listed later outlasts it and, unless it is two seconds, some listed one outlasts one second less |
| `Hls.TargetIs` | crates/corvette-media-bridge/src/hls.rs:134-143 | which segments listed make a given number of seconds the target |
| `Hls.TargetChanges` | crates/corvette-media-bridge/src/hls.rs:134-143 | keyframes two and then three seconds apart: both segments are finished, and the target goes from two to three |
| `Hls.RunHlsSegment` | crates/corvette-media-bridge/src/hls.rs:207-238 | a worker started on a camera in any state appends its own segments to the camera's log and leaves its last initialization segment |
| `Hls.HlsWorker.HandleFrame` | crates/corvette-media-bridge/src/hls.rs:221-230 | one received frame moves the worker's three parts and stores what they finish |
| `Hls.WorkerOutput` | crates/corvette-media-bridge/src/hls.rs:219-237 | what a worker has made after any number of frames, with what the rest will add, is its whole output |
| `Hls.CameraLogGrows` | crates/corvette-media-bridge/src/hls.rs:207-238 | restarting workers only adds segments, so no number is used twice |
| `RtpClocks.RtpClock.Elapsed` | crates/corvette-media-bridge/src/rtp_clock.rs:52-57 | the first call seeds the epoch; every call reports the wrapped ticks since, in floored nanoseconds |
| `RtpClocks.NanosOfTicks` | crates/corvette-media-bridge/src/rtp_clock.rs:22-24 | 90000 ticks are a second, and any ticks' time is rounded down to a nanosecond |
| `RtpClocks.ElapsedIsTrue` | crates/corvette-media-bridge/src/rtp_clock.rs:44-57 | the clock tells the true elapsed time if and only if less than 2^32 ticks have passed |
| `RtpClocks.ElapsedNeverDecreases` | crates/corvette-media-bridge/src/rtp_clock.rs:4-6 | over frames in presentation order no reading falls back if and only if the run, first frame to last, is shorter than 2^32 ticks |
| `RtpClocks.FallsBackAtStep` | crates/corvette-media-bridge/src/rtp_clock.rs:4-6 | over frames in any order some reading falls back if and only if a step forward leaves the wrap it starts in or a step back stays in it |
| `RtpClocks.StepFallsBack` | crates/corvette-media-bridge/src/rtp_clock.rs:52-57 | one step of less than a wrap, from a moment some ticks into its wrap, falls back under exactly that condition |
| `RtpClocks.ElapsedFallsBack` | crates/corvette-media-bridge/src/rtp_clock.rs:4-6 | one tick after a whole wrap the clock falls back to zero |
| `RtpClocks.ReorderedFramesFallBack` | crates/corvette-media-bridge/src/rtp_clock.rs:4-6 | timestamps in decoding order, which step back, make the readings step back |
| `TimelineViews.TimelineGestures.ZoomAbout` | crates/corvette-ui/src/timeline.rs:231-240 | a zoom about a pointer sets the zoomed window, and does nothing before the track has a width |
| `TimelineViews.TimelineGestures.PanBy` | crates/corvette-ui/src/timeline.rs:243-251 | finger travel sets the panned window, and does nothing before the track has a width |
| `TimelineViews.ZoomKeepsWindow` | crates/corvette-ui/src/timeline.rs:391-410 | a zoomed window stays inside the bounds; its duration is the scaled one, but no more than the bounds and no less than a minute, or the bounds if shorter; so at least a minute if and only if the bounds are |
| `TimelineViews.PanKeepsWindow` | crates/corvette-ui/src/timeline.rs:414-428 | a panned window stays inside the bounds and keeps its duration |
| `TimelineViews.AfterGestures` | crates/corvette-ui/src/timeline.rs:231-251 | from the whole selection, any run of gestures leaves a window |
| `TimelineViews.ZoomKeepsAnchor` | crates/corvette-ui/src/timeline.rs:396-428 | an anchor in view stays in view, at the same fraction of the track if and only if the window asked for lies inside the bounds |
| `TimelineViews.ZoomUnderPointer` | crates/corvette-ui/src/timeline.rs:231-240 | the time under the pointer stays under it if and only if the window asked for lies inside the bounds |
| `TimelineViews.ZoomStopsAtEdge` | crates/corvette-ui/src/timeline.rs:231-240 | zooming out at the left edge of the selection moves the footage under the pointer |
| `TimelineViews.ZoomRoundTrip` | crates/corvette-ui/src/timeline.rs:396-428 | zooming and zooming back about one anchor restores the window if and only if the window asked for fits; when it was too long, if and only if the view is the shortest window with the anchor where the bounds have it; when too short, if and only if the view is the bounds |
| `TimelineViews.PanFollowsFinger` | crates/corvette-ui/src/timeline.rs:241-251 | a pan alone, by the travel of a finger on the track, keeps the footage under it if and only if the window moved to lies inside the bounds |
| `TimelineViews.PanStopsAtEdge` | crates/corvette-ui/src/timeline.rs:241-251 | at the left edge the footage does not follow a finger to the right |
| `TimelineViews.PointerInView` | crates/corvette-ui/src/timeline.rs:430-433 | the time under a pointer is in view, at the pointer's fraction of the track |
| `TimelineViews.FractionAcross` | crates/corvette-ui/src/timeline.rs:23-28 | the fraction of a time grows evenly from 0 to 1 across the span, and outside is that of the nearer end |
| `TimelineViews.TimelineGestures.FingerMoved` | crates/corvette-ui/src/timeline.rs:211-224 | a finger's move follows it in its slot; a reported change zooms about where the fingers' midpoint now is and then pans by its travel, which keeps the footage under the fingers as the `PinchZooming` rows say; without a report the window stays |
| `PinchZooming.PinchDrift` | crates/corvette-ui/src/timeline.rs:211-251 | how far a pinch moves the footage under a finger that goes from one place on the track to another, for every change and window: the difference of what its distance from the midpoint spans, what the midpoint's travel spans of the change of duration, and what the edges add |
| `PinchZooming.PinchKeepsMidpoint` | crates/corvette-ui/src/timeline.rs:211-251 | away from the edges a pinch keeps the footage under the fingers' midpoint if and only if the midpoint does not move or the zoom keeps the duration |
| `PinchZooming.ZoomKeepsDuration` | crates/corvette-ui/src/timeline.rs:396-410 | a zoom keeps the duration if and only if its scale is 1, or it zooms out of the whole selection or into the shortest window |
| `PinchZooming.PinchKeepsFingers` | crates/corvette-ui/src/timeline.rs:211-251 | away from the edges, at any duration limit and even when the fingers cross, a move of a pinching finger keeps the footage under both fingers if and only if it goes nowhere |
| `PinchZooming.PinchMovesEachFinger` | crates/corvette-ui/src/timeline.rs:211-251 | short of the duration limits and when the fingers do not cross, that is so for each finger alone |
| `PinchZooming.PinchMovesFootage` | crates/corvette-ui/src/timeline.rs:211-251 | two fingers spread far from the edges: the footage under the resting finger, the moving one and the midpoint all moves by ten seconds |
| `TimelineViews.TimelineGestures.FingerDown` | crates/corvette-ui/src/timeline.rs:203-209 | a press takes a slot and leaves the window |
| `TimelineViews.TimelineGestures.FingerLifted` | crates/corvette-ui/src/timeline.rs:226-229 | a lift frees the finger's slots and leaves the window |
| `PinchGestures.StaysDistinct` | crates/corvette-ui/src/timeline.rs:460-525 | over any run of presses, moves and lifts from an empty track the slots hold different fingers throughout if and only if no press or move ever comes from the finger in the second slot while the first is free |
| `PinchGestures.ReportsNeedTwoFingers` | crates/corvette-ui/src/timeline.rs:490-525 | while that has not happened, whatever a move reports comes from two different fingers that are both down, with a positive scale |
| `PinchGestures.SlotsAreDown` | crates/corvette-ui/src/timeline.rs:460-525 | a finger in a slot has pressed the track and not lifted since |
| `PinchGestures.PressKeepsDistinct` | crates/corvette-ui/src/timeline.rs:460-473 | one press keeps the slots distinct if and only if it is not a free first slot taken by the finger in the second |
| `PinchGestures.SlideReportsTwoFingers` | crates/corvette-ui/src/timeline.rs:494-525 | from distinct slots a reported change comes from two fingers, one of which moved |
| `PinchGestures.SlideReports` | crates/corvette-ui/src/timeline.rs:494-525 | from distinct slots a change is reported if and only if both fingers are down, the one that moved is one of them, and they are at least eight pixels apart before and after |
| `PinchGestures.ReleaseKeepsDistinct` | crates/corvette-ui/src/timeline.rs:481-488 | a lift keeps the slots distinct |
| `PinchGestures.OneFingerZooms` | crates/corvette-ui/src/timeline.rs:460-525 | a run on which the one finger that is down comes to hold both slots and zooms |
| `TimelinePlayback.ClipAtTimeFinds` | crates/corvette-ui/src/timeline.rs:918-923 | a clip is found exactly when one contains the time |
| `TimelinePlayback.PlayableTimeIsNearest` | crates/corvette-ui/src/timeline.rs:925-943 | the playable time lies inside a clip, answers a covered request unchanged and an uncovered one with the nearest of all moments from a clip's start to a second before its end, or of its start alone if it is shorter, and is its own playable time |
| `TimelinePlayback.NearestSnapIsNearest` | crates/corvette-ui/src/timeline.rs:930-942 | the nearest snap is nearest among every moment of every clip's playable span |
| `TimelinePlayback.FirstNearestWins` | crates/corvette-ui/src/timeline.rs:930-942 | of equally near clips the first listed wins |
| `TimelinePlayback.ReviewMarker` | crates/corvette-ui/src/timeline.rs:973-992 | a marker lies inside the range, starts with the review's part of it, reaches that part's end, and lasts one second or to the range's end; only reviews that miss the range, or an empty range, have none |
| `TimelinePlayback.ActivitiesListed` | crates/corvette-ui/src/timeline.rs:994-1018 | an activity is listed if and only if it is a stretch of motion or the marker of a review |
| `TimelinePlayback.ActivitiesPlayable` | crates/corvette-ui/src/timeline.rs:994-1018 | activities made of ranges of positive length inside the selection and of reviews have positive length, lie inside it and are in order of their starts |
| `TimelinePlayback.RecordedActivitiesPlayable` | crates/corvette-ui/src/timeline.rs:994-1018 | this holds of one camera's recorded motion and of the merged motion of several |
| `TimelinePlayback.NextIsEarliest` | crates/corvette-ui/src/timeline.rs:1020-1028 | the next activity is the earliest that starts at or after the current one's end |
| `TimelinePlayback.AdvanceShrinks` | crates/corvette-ui/src/timeline.rs:1020-1028 | each advance leaves strictly fewer activities to reach |
| `TimelinePlayback.PlayThroughCovers` | crates/corvette-ui/src/timeline.rs:840-880 | a play-through ends; its activities follow one another without overlap; it leaves out only activities that start before the current one ends or while another plays |
| `TimelinePlayback.ActivityPlayback.Advance` | crates/corvette-ui/src/timeline.rs:840-880 | when an activity is over the player moves to the head of the remaining play-through and to its playable time, or stops at the last activity's end or just before the source's; otherwise nothing changes |
| `RtspSession.MessageStream.ReadMessage` | crates/corvette-rtsp-client/src/session/message_stream.rs:80-98 | takes the first message off the stream however the bytes are chunked; a read abandoned after any number of socket reads, or failed, leaves every byte in place; a steady socket fails only when no message is left |
| `RtspSession.DecodeGrows` | crates/corvette-rtsp-client/src/session/message_stream.rs:80-98 | bytes that arrive later only add messages at the end |
| `RtspSession.DecodeFirst` | crates/corvette-rtsp-client/src/session/message_stream.rs:83-85 | a parsed message comes first, before the messages of what follows it |
| `RtspSession.Connection.SendAndReceive` | crates/corvette-rtsp-client/src/session/mod.rs:332-350 | the answer is the first control message; media packets that arrive before it are kept in order and none is lost; a steady socket fails only when no control message is left |
| `RtspSession.Connection.Send` | crates/corvette-rtsp-client/src/session/mod.rs:352-384 | requests are numbered 1, 2, 3, ... and carry the accepted challenge's answer |
| `RtspSession.Connection.RequestAuthenticated` | crates/corvette-rtsp-client/src/session/mod.rs:288-325 | the result, each error included, is the one the coming control messages determine, as `AnswerIs` and `RefusalIs` say; the request is sent a second time only behind a 401 with a readable challenge, answering exactly that one, and whenever there is a response behind one; no media packet is lost |
| `RtspSession.AnswerIs` | crates/corvette-rtsp-client/src/session/mod.rs:288-325 | a response is the answer if and only if its status is not 401 and it comes first or right after a 401 with a readable challenge |
| `RtspSession.RefusalIs` | crates/corvette-rtsp-client/src/session/mod.rs:288-325 | which control messages refuse a request, and with which error |
| `RtspSession.DescribeTrack` | crates/corvette-rtsp-client/src/session/mod.rs:186-196 | DESCRIBE gives the video track, or the error its answer determines |
| `RtspSession.SetUpTrack` | crates/corvette-rtsp-client/src/session/mod.rs:198-225 | SETUP gives the session id, or the error its answer determines |
| `RtspSession.StartPlaying` | crates/corvette-rtsp-client/src/session/mod.rs:227-230 | PLAY succeeds or fails as its answer determines |
| `RtspSession.Connect` | crates/corvette-rtsp-client/src/session/mod.rs:167-246 | the outcome is the one the camera's control messages determine, unless the socket fails; an established session has sent DESCRIBE, SETUP and PLAY in order, each once or twice, and all media packets on the wire since connecting are still to come, in order |
| `RtspSession.EstablishedIs` | crates/corvette-rtsp-client/src/session/mod.rs:186-246 | a handshake is established if and only if the three answers have status 200, the first describes the track and the second names the session |
| `RtspSession.PlayingSession.NextPacket` | crates/corvette-rtsp-client/src/session/mod.rs:439-465 | whatever the chunking and the keep-alive ticks, the packet is the oldest buffered one, or else the first in the stream, past replies only; packets handed on, buffered and still in the stream are exactly the wire's media packets in order; one keep-alive is tried for every tick that fires, and fails if and only if the socket takes no more requests; a steady socket fails only when every packet has been handed on |
| `RtspSession.PlayingSession.NextFromStream` | crates/corvette-rtsp-client/src/session/mod.rs:443-464 | the receive loop takes exactly the replies before the first other message, and that message |
| `RtspSession.PlayingSession.SendKeepAlive` | crates/corvette-rtsp-client/src/session/mod.rs:467-478 | one keep-alive request naming the session |
| `RtspSession.PlayingSession.ObserveResponse` | crates/corvette-rtsp-client/src/session/keepalive.rs:91-101 | a GET_PARAMETER rejected with 405, 451 or 501 falls back to OPTIONS, and no other status does |
| `Interleaving.InterleavedStable` | crates/corvette-rtsp-client/src/session/message_stream.rs:4-13 | interleaving `$` frames with any prefix-stable text grammar is prefix-stable (RFC 2326 section 10.12) |
| `Interleaving.WireFramesAreSent` | crates/corvette-rtsp-client/src/session/message_stream.rs:4-13 | the media packets read off a wire are the ones the camera framed, whatever responses lie between them, even when it is cut off inside a message |
| `CameraStream.Depacketizer.Depacketize` | crates/corvette-rtsp-client/src/client/task.rs:232-237 | the depacketizer of the track's codec is used |
| `CameraStream.RunSession` | crates/corvette-rtsp-client/src/client/task.rs:129-140 | the frames published are those of the video packets handed on so far, a prefix of the wire's; a packet that fails to depacketize ends nothing; all packets are handed on when a steady socket ends |
| `CameraStream.RunCameraOnce` | crates/corvette-rtsp-client/src/client/task.rs:115-141 | from the handshake to the end of the session, the frames published are those of a run of media packets at the front of the wire, and of all of them, those sent during the handshake included, when a steady socket ends an established session |
| `CameraStream.CameraRoundTrip` | crates/corvette-rtsp-client/src/client/task.rs:115-158 | a camera that packetizes H.264 NAL units and interleaves them with responses and other channels, cut off anywhere, has its NAL units published whole and in order behind the session's parameter sets |

## Left out

- Floating point: `f64` values are reals, so rounding, infinities and NaN are not modelled.
- PackTiles: when every camera has width zero the source's rectangles are not numbers, which the model answers with no packing; a row of total width zero has an infinite natural height there, which never wins beside a finite one, and is passed over here.
- ReadMotion, ReviewsSplit: the rows a query returns are a parameter, any list with exactly the selected rows in order; SQLite, text and JSON decoding, `has_recording` and links are not part of the model.
- H264Depacketizer, H265Depacketizer: base64 decoding of parameter sets; they arrive as byte strings.
- AacDepacketizer.Depacketize: asks that the size loop returns, since on the other payloads the source never does; the field widths are given, not parsed; `offset + size` is unbounded here and can overflow in the source for sizes near 2^64.
- ReadBits: `usize` is 64 bits wide.
- WriteBox, Fragment, InitSegment: 4 GiB boxes, on which the source panics, are excluded by precondition.
- Fragmenter.Next: the 32-bit sequence number wraps, as in a release build; a debug build panics.
- InitSegment: frame dimensions are the source's fixed placeholders; profile and level bytes are copied, not interpreted; the handler's name and the data reference are not read back.
- SegmentBuilder, CameraHls: tick sums, sequence numbers and milliseconds are unbounded, where the source has `u64`.
- GetPlaylist: the playlist is a record, not text; the numbers are the ones the text shows.
- RunHlsSegment: a worker's frames are a list; frames a lagging receiver misses are simply not in it. Locks, tasks and the HTTP server are not modelled.
- DurationsTelescope, WorkerTicks, ElapsedNeverDecreases, FallsBackAtStep: true times are taken less than 2^32 ticks apart, as every run of 32-bit timestamps can be read; a longer gap looks like a shorter one.
- RtpClock: only the video rate, the one rate the source constructs.
- PanFollowsFinger, PinchDrift, PinchKeepsMidpoint, PinchKeepsFingers, PinchMovesEachFinger: are about fingers on the track; one that leaves it is read at the edge it left by.
- TimelineGestures: pointer events and the wheel's exponential are inputs; the CSS and labels are not modelled.
- Advance: the browser's video element is its current time and an ended flag; `video.pause()` and its error text are left out. A clip's URL is an arbitrary function of its range.
- PlayableTime: asks for a clip, as the source panics without one; its callers go through `snap_or_raw`, which then answers the request itself.
- MessageStream, Connection, PlayingSession: the message grammar of `rtsp_types` is any parser whose successes are stable under later bytes, and `Interleaving` shows `$` framing keeps that; SDP, header and Digest text are abstract functions, the Digest answer is recorded as the challenge it answers. Request serialization failing and the socket refusing bytes are one error. A steady socket is one whose reads never fail and that ends once; what it carries after a malformed message is not used.
- NextPacket: the moments at which ticks fire are a finite list, since any call that returns sees finitely many; the tick interval, backoff and supervision are not modelled. A keep-alive is sent in one step.
- The TEARDOWN request, status and health trackers, role filtering and the MoQ and RTSP publishers are not modelled.
- The seek reconciler, preview sources and playback controls of the timeline are not modelled.
