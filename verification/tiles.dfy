/** Tiling a frame for detection and mapping the boxes back to the whole frame
    (client/apps/rtc_console/local_yolo.cpp). Boxes are in units of 1/65535 of a side; a frame
    side is at most 16384, so no 64-bit product wraps. */
module Tiles {

  const SCALE := 65535
  const MAX_DETECTIONS := 64

  datatype Box = Box(x: nat, y: nat, w: nat, h: nat)

  /** Where the cut before tile i of n lies on a side. */
  function Cut(side: nat, i: nat, n: nat): nat
    requires n > 0
  {
    side * i / n
  }

  datatype Tile = Tile(left: nat, top: nat, width: nat, height: nat)

  function TileAt(frameWidth: nat, frameHeight: nat, row: nat, column: nat, rows: nat, columns: nat): Tile
    requires rows > 0 && columns > 0
  {
    CutsGrow(frameWidth, column, columns);
    CutsGrow(frameHeight, row, rows);
    var left, top := Cut(frameWidth, column, columns), Cut(frameHeight, row, rows);
    Tile(left, top, Cut(frameWidth, column + 1, columns) - left, Cut(frameHeight, row + 1, rows) - top)
  }

  function Columns(source: string): nat {
    if source == "stereo" || source == "merged_image" || source == "surround_grid" then 2 else 1
  }

  function Rows(source: string): nat {
    if source == "surround_grid" then 2 else 1
  }

  /** Three separate floor divisions. */
  function MapCorner(offset: nat, position: nat, extent: nat, side: nat): nat
    requires side > 0
  {
    (offset * SCALE + position * extent) / side
  }

  function MapLength(length: nat, extent: nat, side: nat): nat
    requires side > 0
  {
    length * extent / side
  }

  function MapBox(b: Box, t: Tile, frameWidth: nat, frameHeight: nat): Box
    requires frameWidth > 0 && frameHeight > 0
  {
    Box(MapCorner(t.left, b.x, t.width, frameWidth), MapCorner(t.top, b.y, t.height, frameHeight),
        MapLength(b.w, t.width, frameWidth), MapLength(b.h, t.height, frameHeight))
  }

  // ----- Floor division -----

  lemma FloorMonotone(a: nat, b: nat, d: nat)
    requires d > 0 && a <= b
    ensures a / d <= b / d
  {
    var p, q := a / d, b / d;
    assert a == p * d + a % d && b == q * d + b % d;
    assert p >= q + 1 ==> p * d >= (q + 1) * d;
  }

  /** Flooring two parts never exceeds flooring the whole. */
  lemma FloorSum(a: nat, b: nat, d: nat)
    requires d > 0
    ensures a / d + b / d <= (a + b) / d
  {
    var p, q := a / d, b / d;
    FloorBelow(a, d);
    FloorBelow(b, d);
    assert (p + q) * d == p * d + q * d;
    FloorMonotone((p + q) * d, a + b, d);
    FloorExact(p + q, d);
  }

  lemma FloorBelow(a: nat, d: nat)
    requires d > 0
    ensures a / d * d <= a
  {
  }

  lemma FloorBounds(n: nat, d: nat)
    requires d > 0
    ensures n / d * d <= n < (n / d + 1) * d
  {
    assert n == n / d * d + n % d;
    assert (n / d + 1) * d == n / d * d + d;
  }

  lemma FloorExact(k: nat, d: nat)
    requires d > 0
    ensures k * d / d == k
  {
    var q := k * d / d;
    assert k * d == q * d + (k * d) % d;
    assert q >= k + 1 ==> q * d >= (k + 1) * d;
    assert q <= k - 1 ==> q * d <= (k - 1) * d;
  }

  lemma CutsGrow(side: nat, i: nat, n: nat)
    requires n > 0
    ensures Cut(side, i, n) <= Cut(side, i + 1, n)
  {
    assert side * i <= side * (i + 1);
    FloorMonotone(side * i, side * (i + 1), n);
  }

  // ----- The tiles partition the frame -----

  /** Pixel p of a side lies in tile i. */
  predicate InTile(p: nat, side: nat, i: nat, n: nat)
    requires n > 0
  {
    Cut(side, i, n) <= p < Cut(side, i + 1, n)
  }

  lemma EndCuts(side: nat, n: nat)
    requires n > 0
    ensures Cut(side, 0, n) == 0 && Cut(side, n, n) == side
  {
    FloorExact(0, n);
    FloorExact(side, n);
  }

  lemma {:induction false} CutsOrdered(side: nat, i: nat, j: nat, n: nat)
    requires n > 0 && i <= j
    ensures Cut(side, i, n) <= Cut(side, j, n)
    decreases j - i
  {
    hide Cut;
    if i < j {
      CutsOrdered(side, i, j - 1, n);
      CutsGrow(side, j - 1, n);
    }
  }

  /** Every pixel of a side lies in exactly one of its n tiles. */
  lemma {:induction false} SomeTile(p: nat, side: nat, k: nat, n: nat) returns (i: nat)
    requires n > 0 && k <= n && p < Cut(side, k, n)
    ensures i < k && InTile(p, side, i, n)
  {
    EndCuts(side, n);
    hide Cut;
    if p < Cut(side, k - 1, n) {
      i := SomeTile(p, side, k - 1, n);
    } else {
      i := k - 1;
    }
  }

  lemma OneTile(p: nat, side: nat, i: nat, j: nat, n: nat)
    requires n > 0 && InTile(p, side, i, n) && InTile(p, side, j, n)
    ensures i == j
  {
    if i < j {
      CutsOrdered(side, i + 1, j, n);
    } else if j < i {
      CutsOrdered(side, j + 1, i, n);
    }
  }

  /** Cuts are at equal parts of the side, rounded down; the cut between two tiles is at the middle. */
  lemma CutsAreEven(side: nat, i: nat, n: nat)
    requires n > 0
    ensures Cut(side, i, n) * n <= side * i < (Cut(side, i, n) + 1) * n
    ensures Cut(side, 1, 2) == side / 2
  {
    FloorBounds(side * i, n);
  }

  predicate Covers(t: Tile, x: nat, y: nat) {
    t.left <= x < t.left + t.width && t.top <= y < t.top + t.height
  }

  /** The tiles partition the frame: each pixel is in exactly one. */
  lemma TilesPartition(frameWidth: nat, frameHeight: nat, rows: nat, columns: nat, x: nat, y: nat)
    returns (row: nat, column: nat)
    requires rows > 0 && columns > 0 && x < frameWidth && y < frameHeight
    ensures row < rows && column < columns && Covers(TileAt(frameWidth, frameHeight, row, column, rows, columns), x, y)
    ensures forall r: nat, c: nat ::
              r < rows && c < columns && Covers(TileAt(frameWidth, frameHeight, r, c, rows, columns), x, y) ==>
                r == row && c == column
  {
    hide Cut;
    EndCuts(frameWidth, columns);
    EndCuts(frameHeight, rows);
    column := SomeTile(x, frameWidth, columns, columns);
    row := SomeTile(y, frameHeight, rows, rows);
    forall r: nat, c: nat | r < rows && c < columns && Covers(TileAt(frameWidth, frameHeight, r, c, rows, columns), x, y)
      ensures r == row && c == column
    {
      OneTile(x, frameWidth, c, column, columns);
      OneTile(y, frameHeight, r, row, rows);
    }
  }

  // ----- Mapped boxes stay in their tile -----

  /** The share of the scale a stretch of a side has: from the floor of its start to the floor
      of its end. */
  predicate InShare(position: nat, length: nat, offset: nat, extent: nat, side: nat)
    requires side > 0
  {
    offset * SCALE / side <= position && position + length <= (offset + extent) * SCALE / side
  }

  lemma ScaledSum(offset: nat, position: nat, length: nat, extent: nat)
    requires position + length <= SCALE
    ensures offset * SCALE <= offset * SCALE + position * extent
    ensures (offset * SCALE + position * extent) + length * extent <= (offset + extent) * SCALE
  {
    assert position * extent + length * extent == (position + length) * extent;
    assert (position + length) * extent <= SCALE * extent;
  }

  lemma MapStaysInShare(offset: nat, position: nat, length: nat, extent: nat, side: nat)
    requires side > 0 && position + length <= SCALE
    ensures InShare(MapCorner(offset, position, extent, side), MapLength(length, extent, side), offset, extent, side)
  {
    ScaledSum(offset, position, length, extent);
    FloorsInShare(offset * SCALE, offset * SCALE + position * extent, length * extent, (offset + extent) * SCALE, side);
  }

  lemma FloorsInShare(low: nat, corner: nat, length: nat, high: nat, side: nat)
    requires side > 0 && low <= corner && corner + length <= high
    ensures low / side <= corner / side && corner / side + length / side <= high / side
  {
    FloorMonotone(low, corner, side);
    FloorSum(corner, length, side);
    FloorMonotone(corner + length, high, side);
  }

  lemma ShareEndsAtScale(offset: nat, extent: nat, side: nat)
    requires side > 0 && offset + extent <= side
    ensures (offset + extent) * SCALE / side <= SCALE
  {
    assert (offset + extent) * SCALE <= side * SCALE;
    FloorMonotone((offset + extent) * SCALE, SCALE * side, side);
    FloorExact(SCALE, side);
  }

  predicate InTileShare(b: Box, t: Tile, frameWidth: nat, frameHeight: nat)
    requires frameWidth > 0 && frameHeight > 0
  {
    && InShare(b.x, b.w, t.left, t.width, frameWidth)
    && InShare(b.y, b.h, t.top, t.height, frameHeight)
    && b.x + b.w <= SCALE && b.y + b.h <= SCALE
  }

  predicate InsideScale(b: Box) { b.x + b.w <= SCALE && b.y + b.h <= SCALE }

  /** A box inside its tile maps to a box inside the tile's share of the frame, and so never
      past 65535. */
  lemma MappedBoxInShare(b: Box, frameWidth: nat, frameHeight: nat, row: nat, column: nat, rows: nat, columns: nat)
    requires frameWidth > 0 && frameHeight > 0 && row < rows && column < columns && InsideScale(b)
    ensures var t := TileAt(frameWidth, frameHeight, row, column, rows, columns);
      InTileShare(MapBox(b, t, frameWidth, frameHeight), t, frameWidth, frameHeight)
  {
    var t := TileAt(frameWidth, frameHeight, row, column, rows, columns);
    hide Cut, MapCorner, MapLength;
    MapStaysInShare(t.left, b.x, b.w, t.width, frameWidth);
    MapStaysInShare(t.top, b.y, b.h, t.height, frameHeight);
    CutsOrdered(frameWidth, column + 1, columns, columns);
    CutsOrdered(frameHeight, row + 1, rows, rows);
    EndCuts(frameWidth, columns);
    EndCuts(frameHeight, rows);
    ShareEndsAtScale(t.left, t.width, frameWidth);
    ShareEndsAtScale(t.top, t.height, frameHeight);
  }

  // ----- Where a box goes -----

  /** Each number of a mapped box is the exact rational one, rounded down: positions are the tile's
      offset in the frame plus the box's in the tile, lengths shrink with the tile, all in parts of
      65535. */
  lemma MappedBoxExact(b: Box, t: Tile, frameWidth: nat, frameHeight: nat)
    requires frameWidth > 0 && frameHeight > 0
    ensures var m := MapBox(b, t, frameWidth, frameHeight);
      && m.x * frameWidth <= t.left * 65535 + b.x * t.width < (m.x + 1) * frameWidth
      && m.y * frameHeight <= t.top * 65535 + b.y * t.height < (m.y + 1) * frameHeight
      && m.w * frameWidth <= b.w * t.width < (m.w + 1) * frameWidth
      && m.h * frameHeight <= b.h * t.height < (m.h + 1) * frameHeight
  {
    FloorBounds(t.left * 65535 + b.x * t.width, frameWidth);
    FloorBounds(t.top * 65535 + b.y * t.height, frameHeight);
    FloorBounds(b.w * t.width, frameWidth);
    FloorBounds(b.h * t.height, frameHeight);
  }

  /** With one tile nothing moves. */
  lemma WholeFrameKeepsBoxes(b: Box, width: nat, height: nat)
    requires width > 0 && height > 0
    ensures TileAt(width, height, 0, 0, 1, 1) == Tile(0, 0, width, height)
    ensures MapBox(b, TileAt(width, height, 0, 0, 1, 1), width, height) == b
  {
    FloorExact(b.x, width);
    FloorExact(b.y, height);
    FloorExact(b.w, width);
    FloorExact(b.h, height);
  }

  /** How each source is cut. */
  lemma TileCounts(source: string)
    ensures (Rows(source), Columns(source))
         == if source == "surround_grid" then (2, 2)
            else if source == "stereo" || source == "merged_image" then (1, 2)
            else (1, 1)
  {
  }

  // ----- Detecting on every tile -----

  datatype Outcome = Boxes(boxes: seq<Box>) | DetectFailed

  /** A frame's size, its source and the detector's outcome on each tile. */
  datatype Job = Job(source: string, width: nat, height: nat, detect: (nat, nat) -> Outcome)

  function JobTile(job: Job, row: nat, column: nat): Tile {
    TileAt(job.width, job.height, row, column, Rows(job.source), Columns(job.source))
  }

  predicate Empty(t: Tile) { t.width == 0 || t.height == 0 }

  function MapAll(boxes: seq<Box>, t: Tile, width: nat, height: nat): (r: seq<Box>)
    requires width > 0 && height > 0
    ensures |r| == |boxes|
  {
    if |boxes| == 0 then []
    else MapAll(boxes[..|boxes| - 1], t, width, height) + [MapBox(boxes[|boxes| - 1], t, width, height)]
  }

  /** What one tile contributes; the conversion refuses an empty tile, which is skipped. */
  function TileBoxes(job: Job, row: nat, column: nat): seq<Box>
    requires job.width > 0 && job.height > 0
  {
    var t := JobTile(job, row, column);
    if Empty(t) || job.detect(row, column).DetectFailed? then []
    else MapAll(job.detect(row, column).boxes, t, job.width, job.height)
  }

  function RowBoxes(job: Job, row: nat, columns: nat): seq<Box>
    requires job.width > 0 && job.height > 0
  {
    if columns == 0 then [] else RowBoxes(job, row, columns - 1) + TileBoxes(job, row, columns - 1)
  }

  function FrameBoxes(job: Job, rows: nat): seq<Box>
    requires job.width > 0 && job.height > 0
  {
    if rows == 0 then [] else FrameBoxes(job, rows - 1) + RowBoxes(job, rows - 1, Columns(job.source))
  }

  predicate Fails(job: Job, row: nat, column: nat) {
    !Empty(JobTile(job, row, column)) && job.detect(row, column).DetectFailed?
  }

  ghost predicate RowSucceeds(job: Job, row: nat, columns: nat) {
    forall c: nat :: c < columns ==> !Fails(job, row, c)
  }

  ghost predicate Succeeds(job: Job, rows: nat) {
    forall r: nat :: r < rows ==> RowSucceeds(job, r, Columns(job.source))
  }

  /** At most the first 64. */
  function First(boxes: seq<Box>): seq<Box> {
    if |boxes| <= MAX_DETECTIONS then boxes else boxes[..MAX_DETECTIONS]
  }

  lemma FirstAppend(boxes: seq<Box>, more: seq<Box>, i: nat)
    requires i <= |more|
    ensures (i < |more| && |First(boxes + more[..i])| < MAX_DETECTIONS)
        ==> First(boxes + more[..i + 1]) == First(boxes + more[..i]) + [more[i]]
    ensures |First(boxes + more[..i])| >= MAX_DETECTIONS ==> First(boxes + more[..i]) == First(boxes + more)
    ensures i == |more| ==> First(boxes + more[..i]) == First(boxes + more)
  {
    assert i == |more| ==> more[..i] == more;
    assert i < |more| ==> boxes + more[..i + 1] == boxes + more[..i] + [more[i]];
  }

  lemma {:induction false} MapAllAt(boxes: seq<Box>, t: Tile, width: nat, height: nat, i: nat)
    requires width > 0 && height > 0 && i < |boxes|
    ensures MapAll(boxes, t, width, height)[i] == MapBox(boxes[i], t, width, height)
  {
    if i < |boxes| - 1 { MapAllAt(boxes[..|boxes| - 1], t, width, height, i); }
  }

  /** Runs the detector over the tiles in row order; the detections are the first 64 of all the
      mapped boxes, and the run succeeds when no tile failed. */
  method DetectTiles(job: Job) returns (succeeded: bool, detections: seq<Box>)
    requires job.width > 0 && job.height > 0
    ensures detections == First(FrameBoxes(job, Rows(job.source)))
    ensures succeeded <==> Succeeds(job, Rows(job.source))
  {
    hide First, RowBoxes, RowSucceeds;
    succeeded, detections := true, [];
    NoBoxes();
    var rows := Rows(job.source);
    var row := 0;
    while row < rows
      invariant row <= rows
      invariant detections == First(FrameBoxes(job, row))
      invariant succeeded <==> Succeeds(job, row)
    {
      var ok;
      ok, detections := DetectRow(job, row, detections);
      succeeded := succeeded && ok;
      row := row + 1;
    }
  }

  lemma NoBoxes()
    ensures First([]) == []
  {
  }

  /** The inner loop: the tiles of one row. */
  method DetectRow(job: Job, row: nat, detections: seq<Box>) returns (ok: bool, detections': seq<Box>)
    requires job.width > 0 && job.height > 0 && detections == First(FrameBoxes(job, row))
    ensures detections' == First(FrameBoxes(job, row + 1))
    ensures ok <==> RowSucceeds(job, row, Columns(job.source))
  {
    hide First, TileBoxes, Fails, FrameBoxes;
    ok, detections' := true, detections;
    var columns := Columns(job.source);
    ghost var above := FrameBoxes(job, row);
    var column := 0;
    assert above + [] == above;
    while column < columns
      invariant column <= columns
      invariant detections' == First(above + RowBoxes(job, row, column))
      invariant ok <==> RowSucceeds(job, row, column)
    {
      var tileOk;
      tileOk, detections' := DetectTile(job, row, column, detections', above + RowBoxes(job, row, column));
      assert above + RowBoxes(job, row, column + 1)
          == above + RowBoxes(job, row, column) + TileBoxes(job, row, column);
      ok := ok && tileOk;
      column := column + 1;
    }
    NextRow(job, row);
  }

  lemma NextRow(job: Job, row: nat)
    requires job.width > 0 && job.height > 0
    ensures FrameBoxes(job, row + 1) == FrameBoxes(job, row) + RowBoxes(job, row, Columns(job.source))
  {
  }

  /** The loop body for one tile. */
  method DetectTile(job: Job, row: nat, column: nat, detections: seq<Box>, ghost sofar: seq<Box>)
    returns (ok: bool, detections': seq<Box>)
    requires job.width > 0 && job.height > 0 && detections == First(sofar)
    ensures detections' == First(sofar + TileBoxes(job, row, column))
    ensures ok <==> !Fails(job, row, column)
  {
    hide MapBox;
    ok, detections' := true, detections;
    var tile := JobTile(job, row, column);
    if Empty(tile) {
      assert sofar + [] == sofar;
      return;
    }
    match job.detect(row, column)
    case DetectFailed =>
      assert sofar + [] == sofar;
      ok := false;
    case Boxes(boxes) =>
      ghost var mapped := MapAll(boxes, tile, job.width, job.height);
      assert sofar + mapped[..0] == sofar;
      var i := 0;
      while i < |boxes| && |detections'| < MAX_DETECTIONS
        invariant i <= |boxes| && detections' == First(sofar + mapped[..i])
      {
        FirstAppend(sofar, mapped, i);
        MapAllAt(boxes, tile, job.width, job.height, i);
        detections' := detections' + [MapBox(boxes[i], tile, job.width, job.height)];
        i := i + 1;
      }
      FirstAppend(sofar, mapped, i);
  }

  // ----- What is reported -----

  /** Of more than 64 boxes the first 64 are reported. */
  lemma FirstMeans(boxes: seq<Box>)
    ensures First(boxes) == if |boxes| <= 64 then boxes else boxes[..64]
  {
  }

  /** A tile with pixels whose detection succeeds contributes every one of its boxes, mapped, in order;
      any other contributes none. */
  lemma TileBoxesMeans(job: Job, row: nat, column: nat)
    requires job.width > 0 && job.height > 0
    ensures var t, outcome, boxes := JobTile(job, row, column), job.detect(row, column), TileBoxes(job, row, column);
      if t.width > 0 && t.height > 0 && outcome.Boxes? then
        && |boxes| == |outcome.boxes|
        && forall i :: 0 <= i < |boxes| ==> boxes[i] == MapBox(outcome.boxes[i], t, job.width, job.height)
      else boxes == []
  {
    var t, outcome := JobTile(job, row, column), job.detect(row, column);
    hide MapBox, TileAt;
    if t.width > 0 && t.height > 0 && outcome.Boxes? {
      forall i | 0 <= i < |outcome.boxes|
        ensures TileBoxes(job, row, column)[i] == MapBox(outcome.boxes[i], t, job.width, job.height)
      {
        MapAllAt(outcome.boxes, t, job.width, job.height, i);
      }
    }
  }

  /** Tiles are taken row by row, and in a row from left to right. */
  lemma RowMajor(job: Job)
    requires job.width > 0 && job.height > 0
    ensures var all, tile := FrameBoxes(job, Rows(job.source)), (r, c) => TileBoxes(job, r, c);
      all == if job.source == "surround_grid" then tile(0, 0) + tile(0, 1) + tile(1, 0) + tile(1, 1)
             else if job.source == "stereo" || job.source == "merged_image" then tile(0, 0) + tile(0, 1)
             else tile(0, 0)
  {
    hide TileBoxes;
    assert forall r: nat :: RowBoxes(job, r, 0) == [];
    assert forall r: nat :: RowBoxes(job, r, 1) == TileBoxes(job, r, 0);
    assert forall r: nat :: RowBoxes(job, r, 2) == TileBoxes(job, r, 0) + TileBoxes(job, r, 1);
    assert FrameBoxes(job, 1) == RowBoxes(job, 0, Columns(job.source));
    if job.source == "surround_grid" {
      assert FrameBoxes(job, 2) == RowBoxes(job, 0, 2) + RowBoxes(job, 1, 2);
    }
  }

  predicate NothingWrong(job: Job, row: nat, column: nat) {
    var t := JobTile(job, row, column);
    t.width == 0 || t.height == 0 || job.detect(row, column).Boxes?
  }

  /** Detection succeeds on a frame exactly when it does on every tile with pixels. */
  lemma SucceedsMeans(job: Job)
    ensures Succeeds(job, Rows(job.source)) <==>
              forall r: nat, c: nat :: r < Rows(job.source) && c < Columns(job.source) ==> NothingWrong(job, r, c)
  {
    hide Rows, Columns, JobTile;
    if Succeeds(job, Rows(job.source)) {
      forall r: nat, c: nat | r < Rows(job.source) && c < Columns(job.source) ensures NothingWrong(job, r, c) {
        assert RowSucceeds(job, r, Columns(job.source));
        assert !Fails(job, r, c);
      }
    }
    if forall r: nat, c: nat :: r < Rows(job.source) && c < Columns(job.source) ==> NothingWrong(job, r, c) {
      forall r: nat | r < Rows(job.source) ensures RowSucceeds(job, r, Columns(job.source)) {
        forall c: nat | c < Columns(job.source) ensures !Fails(job, r, c) {
          assert NothingWrong(job, r, c);
        }
      }
    }
  }

  /** A frame that is one tile reports the detector's own boxes. */
  lemma OneTileReportsBoxes(job: Job)
    requires job.width > 0 && job.height > 0 && job.detect(0, 0).Boxes?
    requires job.source != "stereo" && job.source != "merged_image" && job.source != "surround_grid"
    ensures var boxes := job.detect(0, 0).boxes;
      First(FrameBoxes(job, Rows(job.source))) == if |boxes| <= 64 then boxes else boxes[..64]
  {
    var boxes := job.detect(0, 0).boxes;
    hide MapBox;
    TileCounts(job.source);
    RowMajor(job);
    TileBoxesMeans(job, 0, 0);
    WholeFrameKeepsBoxes(Box(0, 0, 0, 0), job.width, job.height);
    forall i | 0 <= i < |boxes| ensures TileBoxes(job, 0, 0)[i] == boxes[i] {
      WholeFrameKeepsBoxes(boxes[i], job.width, job.height);
    }
    assert TileBoxes(job, 0, 0) == boxes;
  }

  /** d is a box found in some tile, mapped to the frame; inside the tile's share if the box was
      inside its tile. */
  ghost predicate MappedFrom(d: Box, job: Job)
    requires job.width > 0 && job.height > 0
  {
    exists b, r: nat, c: nat :: IsMapped(d, b, job, r, c)
  }

  ghost predicate IsMapped(d: Box, b: Box, job: Job, r: nat, c: nat)
    requires job.width > 0 && job.height > 0
  {
    && r < Rows(job.source) && c < Columns(job.source) && job.detect(r, c).Boxes? && b in job.detect(r, c).boxes
    && d == MapBox(b, JobTile(job, r, c), job.width, job.height)
    && (InsideScale(b) ==> InTileShare(d, JobTile(job, r, c), job.width, job.height))
  }

  lemma {:induction false} RowBoxesMapped(job: Job, row: nat, columns: nat)
    requires job.width > 0 && job.height > 0 && row < Rows(job.source) && columns <= Columns(job.source)
    ensures forall d :: d in RowBoxes(job, row, columns) ==> MappedFrom(d, job)
  {
    if columns == 0 {
    } else {
      var c := columns - 1;
      RowBoxesMapped(job, row, c);
      forall d | d in TileBoxes(job, row, c) ensures MappedFrom(d, job) {
        hide InTileShare;
        var boxes, mapped := job.detect(row, c).boxes, TileBoxes(job, row, c);
        var i :| 0 <= i < |mapped| && mapped[i] == d;
        MapAllAt(boxes, JobTile(job, row, c), job.width, job.height, i);
        if InsideScale(boxes[i]) {
          MappedBoxInShare(boxes[i], job.width, job.height, row, c, Rows(job.source), Columns(job.source));
        }
        assert IsMapped(d, boxes[i], job, row, c);
      }
    }
  }

  /** Every detection is a detector box mapped from its tile. */
  lemma {:induction false} FrameBoxesMapped(job: Job, rows: nat)
    requires job.width > 0 && job.height > 0 && rows <= Rows(job.source)
    ensures forall d :: d in FrameBoxes(job, rows) ==> MappedFrom(d, job)
  {
    if rows == 0 {
    } else {
      FrameBoxesMapped(job, rows - 1);
      RowBoxesMapped(job, rows - 1, Columns(job.source));
    }
  }
}
