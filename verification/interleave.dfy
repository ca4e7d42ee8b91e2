/** The stereo interleaving rasteriser (client/apps/rtc_console/main.cpp): the left half of
    a frame goes to the even columns of the output and the right half to the odd ones, each
    scaled by nearest index.

    Sides are at most 2^32, so no index product wraps; byte counts are exact. */
module Interleave {
  import opened Bytes
  import opened NearestIndex

  datatype Frame = Frame(width: Count, height: Count, dimension: nat, buffer: seq<byte>)

  /** An output vector, resized and written in place. */
  class ByteVector {
    var data: seq<byte>
  }

  /** When the rasteriser accepts its arguments. */
  predicate Accepts(frame: Frame, outputWidth: nat, outputHeight: nat) {
    && outputWidth != 0 && outputHeight != 0
    && frame.width >= 2 && frame.width % 2 == 0 && frame.height != 0 && frame.dimension != 0
    && frame.width * frame.height * frame.dimension <= |frame.buffer|
  }

  // ----- Pictures as functions from column and row to pixels -----

  type Picture = (nat, nat) -> seq<byte>

  ghost function RowOf(p: Picture, y: nat, n: nat): seq<byte> {
    if n == 0 then [] else RowOf(p, y, n - 1) + p(n - 1, y)
  }

  /** The row-major buffer of a picture. */
  ghost function Gather(p: Picture, width: nat, rows: nat): seq<byte> {
    if rows == 0 then [] else Gather(p, width, rows - 1) + RowOf(p, rows - 1, width)
  }

  ghost predicate PixelsAre(p: Picture, width: nat, height: nat, d: nat) {
    forall x: nat, y: nat :: x < width && y < height ==> |p(x, y)| == d
  }

  function Offset(x: nat, y: nat, width: nat, d: nat): nat { (y * width + x) * d }

  /** The pixel at column x and row y of a row-major buffer. */
  function PixelAt(buffer: seq<byte>, x: nat, y: nat, width: nat, d: nat): seq<byte> {
    var o := Offset(x, y, width, d);
    if o + d <= |buffer| then buffer[o..o + d] else []
  }

  ghost function PictureOf(buffer: seq<byte>, width: nat, d: nat): Picture {
    (x, y) => PixelAt(buffer, x, y, width, d)
  }

  // ----- The rasteriser -----

  /** Columns of the output that show the eye x belongs to. */
  function EyeColumns(x: nat, outputWidth: nat): nat {
    if x % 2 == 0 then (outputWidth + 1) / 2 else outputWidth / 2
  }

  /** The frame column shown in output column x. */
  function SourceX(frame: Frame, x: nat, outputWidth: nat): nat {
    (if x % 2 == 0 then 0 else frame.width / 2) +
    ScaleIndexNearest(x / 2, EyeColumns(x, outputWidth), frame.width / 2)
  }

  function SourceY(frame: Frame, y: nat, outputHeight: nat): nat {
    ScaleIndexNearest(y, outputHeight, frame.height)
  }

  ghost function Interleaved(frame: Frame, outputWidth: nat, outputHeight: nat): Picture {
    (x, y) => PixelAt(frame.buffer, SourceX(frame, x, outputWidth), SourceY(frame, y, outputHeight),
                      frame.width, frame.dimension)
  }

  /** Even columns come from the left half, odd columns from the right half. */
  lemma EyesStaySeparate(frame: Frame, x: nat, outputWidth: Count)
    requires frame.width >= 2 && frame.width % 2 == 0 && x < outputWidth
    ensures if x % 2 == 0 then SourceX(frame, x, outputWidth) < frame.width / 2
            else frame.width / 2 <= SourceX(frame, x, outputWidth) < frame.width
  {
    InRange(x / 2, EyeColumns(x, outputWidth), frame.width / 2);
  }

  lemma OffsetInside(x: nat, y: nat, width: nat, height: nat, d: nat)
    requires x < width && y < height
    ensures Offset(x, y, width, d) + d <= width * height * d
  {
    assert y * width + width == (y + 1) * width;
    MulMonotone(y + 1, height, width);
    assert y * width + x + 1 <= width * height;
    MulMonotone(y * width + x + 1, width * height, d);
    assert (y * width + x + 1) * d == Offset(x, y, width, d) + d;
  }

  /** Every read of the rasteriser is inside the frame's buffer. */
  lemma ReadsInBounds(frame: Frame, x: nat, y: nat, outputWidth: Count, outputHeight: Count)
    requires Accepts(frame, outputWidth, outputHeight) && x < outputWidth && y < outputHeight
    ensures SourceX(frame, x, outputWidth) < frame.width && SourceY(frame, y, outputHeight) < frame.height
    ensures Offset(SourceX(frame, x, outputWidth), SourceY(frame, y, outputHeight), frame.width, frame.dimension)
            + frame.dimension <= |frame.buffer|
  {
    hide ScaleIndexNearest, Offset;
    EyesStaySeparate(frame, x, outputWidth);
    InRange(y, outputHeight, frame.height);
    OffsetInside(SourceX(frame, x, outputWidth), SourceY(frame, y, outputHeight),
                 frame.width, frame.height, frame.dimension);
  }

  /** The byte offset the rasteriser computes is that of the source pixel. */
  lemma SourceOffset(frame: Frame, x: nat, y: nat, outputWidth: Count, outputHeight: Count,
                     srcX: nat, srcY: nat, source: int)
    requires Accepts(frame, outputWidth, outputHeight) && x < outputWidth && y < outputHeight
    requires srcX == ScaleIndexNearest(x / 2, EyeColumns(x, outputWidth), frame.width / 2)
    requires srcY == ScaleIndexNearest(y, outputHeight, frame.height)
    requires source == srcY * (frame.width * frame.dimension)
                     + (if x % 2 == 0 then 0 else frame.width / 2 * frame.dimension) + srcX * frame.dimension
    ensures 0 <= source && source + frame.dimension <= |frame.buffer|
    ensures Interleaved(frame, outputWidth, outputHeight)(x, y) == frame.buffer[source..source + frame.dimension]
  {
    hide ScaleIndexNearest, Accepts;
    var skip := if x % 2 == 0 then 0 else frame.width / 2;
    assert SourceX(frame, x, outputWidth) == skip + srcX && SourceY(frame, y, outputHeight) == srcY;
    ReadsInBounds(frame, x, y, outputWidth, outputHeight);
    OffsetSplits(srcY, frame.width, skip, srcX, frame.dimension);
    assert Interleaved(frame, outputWidth, outputHeight)(x, y)
        == PixelAt(frame.buffer, skip + srcX, srcY, frame.width, frame.dimension);
  }

  lemma OffsetSplits(y: nat, width: nat, skip: nat, x: nat, d: nat)
    ensures Offset(skip + x, y, width, d) == y * (width * d) + skip * d + x * d
  {
    assert (y * width + (skip + x)) * d == (y * width) * d + (skip + x) * d;
    assert (y * width) * d == y * (width * d);
    assert (skip + x) * d == skip * d + x * d;
  }

  /** Each pixel of the output has room, and rows follow each other without gaps. */
  lemma DestinationRoom(x: nat, y: nat, width: nat, height: nat, d: nat)
    requires x < width && y < height
    ensures 0 <= y * (width * d) + x * d
    ensures y * (width * d) + x * d + d <= width * height * d
    ensures (x + 1) * d == x * d + d
    ensures (y + 1) * (width * d) == y * (width * d) + width * d
  {
    OffsetInside(x, y, width, height, d);
    OffsetSplits(y, width, 0, x, d);
  }

  lemma RowEnds(y: nat, width: nat, height: nat, d: nat)
    requires y < height
    ensures (y + 1) * (width * d) == y * (width * d) + width * d <= width * height * d
  {
    BufferEnds(width, height, d);
    MulMonotone(y + 1, height, width * d);
  }

  lemma BufferEnds(width: nat, height: nat, d: nat)
    ensures height * (width * d) == width * height * d
  {
    assert height * (width * d) == (height * width) * d;
  }

  method Resize(output: ByteVector, n: nat)
    modifies output
    ensures |output.data| == n
    ensures forall i :: 0 <= i < n ==> output.data[i] == if i < |old(output.data)| then old(output.data)[i] else 0
  {
    var data := output.data;
    if n <= |data| {
      output.data := data[..n];
    } else {
      output.data := data + seq(n - |data|, _ => 0);
    }
  }

  method CopyPixel(output: ByteVector, to: nat, buffer: seq<byte>, from: nat, n: nat)
    requires to + n <= |output.data| && from + n <= |buffer|
    modifies output
    ensures output.data == old(output.data)[..to] + buffer[from..from + n] + old(output.data)[to + n..]
  {
    output.data := output.data[..to] + buffer[from..from + n] + output.data[to + n..];
  }

  /** The body of the inner loop: the pixel at column x and row y of the output, `to` bytes into it. */
  method RasterizePixel(frame: Frame, x: nat, y: nat, srcY: nat, outputWidth: Count, outputHeight: Count,
                        output: ByteVector, to: nat)
    requires Accepts(frame, outputWidth, outputHeight) && x < outputWidth && y < outputHeight
    requires srcY == ScaleIndexNearest(y, outputHeight, frame.height)
    requires to + frame.dimension <= |output.data|
    modifies output
    ensures |output.data| == old(|output.data|)
    ensures output.data[..to + frame.dimension]
         == old(output.data)[..to] + Interleaved(frame, outputWidth, outputHeight)(x, y)
  {
    hide ScaleIndexNearest, Offset, PixelAt, Accepts, Interleaved;
    var halfWidth := frame.width / 2;
    var pixelBytes := frame.dimension;
    var useLeft := x % 2 == 0;
    var srcX := ScaleIndexNearest(x / 2, if useLeft then (outputWidth + 1) / 2 else outputWidth / 2, halfWidth);
    var source := srcY * (frame.width * pixelBytes) + (if useLeft then 0 else halfWidth * pixelBytes) + srcX * pixelBytes;
    SourceOffset(frame, x, y, outputWidth, outputHeight, srcX, srcY, source);
    CopyPixel(output, to, frame.buffer, source, pixelBytes);
  }

  /** The inner loop: row y of the output. */
  method RasterizeRow(frame: Frame, y: nat, srcY: nat, outputWidth: Count, outputHeight: Count, output: ByteVector)
    requires Accepts(frame, outputWidth, outputHeight) && y < outputHeight
    requires srcY == ScaleIndexNearest(y, outputHeight, frame.height)
    requires |output.data| == outputWidth * outputHeight * frame.dimension
    requires 0 <= y * (outputWidth * frame.dimension) <= |output.data|
    requires output.data[..y * (outputWidth * frame.dimension)]
          == Gather(Interleaved(frame, outputWidth, outputHeight), outputWidth, y)
    modifies output
    ensures |output.data| == old(|output.data|)
    ensures 0 <= (y + 1) * (outputWidth * frame.dimension) <= |output.data|
    ensures output.data[..(y + 1) * (outputWidth * frame.dimension)]
         == Gather(Interleaved(frame, outputWidth, outputHeight), outputWidth, y + 1)
  {
    hide ScaleIndexNearest, Offset, PixelAt, Accepts, Interleaved;
    var dstRow := y * (outputWidth * frame.dimension);
    ghost var picture := Interleaved(frame, outputWidth, outputHeight);
    ghost var above := Gather(picture, outputWidth, y);
    ghost var done: nat := dstRow;  // how much of the output is written
    var x := 0;
    while x < outputWidth
      invariant 0 <= x <= outputWidth && |output.data| == old(|output.data|)
      invariant done == dstRow + x * frame.dimension && done <= |output.data|
      invariant output.data[..done] == above + RowOf(picture, y, x)
    {
      hide Gather, RowOf;
      DestinationRoom(x, y, outputWidth, outputHeight, frame.dimension);
      RasterizePixel(frame, x, y, srcY, outputWidth, outputHeight, output, dstRow + x * frame.dimension);
      RowGrows(picture, y, x);
      done := done + frame.dimension;
      x := x + 1;
    }
    RowEnds(y, outputWidth, outputHeight, frame.dimension);
  }

  lemma RowGrows(p: Picture, y: nat, x: nat)
    ensures RowOf(p, y, x + 1) == RowOf(p, y, x) + p(x, y)
  {
  }

  method RasterizeFrameToRenderedHorizontalInterleave(
      frame: Frame, outputWidth: Count, outputHeight: Count, output: ByteVector?)
    returns (ok: bool)
    modifies if output == null then {} else {output}
    ensures ok <==>
              && output != null && outputWidth > 0 && outputHeight > 0
              && frame.width > 0 && frame.width % 2 == 0 && frame.height > 0 && frame.dimension > 0
              && |frame.buffer| >= frame.width * frame.height * frame.dimension
    ensures ok ==> Accepts(frame, outputWidth, outputHeight)
    ensures !ok && output != null ==> output.data == old(output.data)
    ensures ok ==> output.data == Gather(Interleaved(frame, outputWidth, outputHeight), outputWidth, outputHeight)
  {
    if output == null || !Accepts(frame, outputWidth, outputHeight) {
      return false;
    }
    var pixelBytes := frame.dimension;
    Resize(output, outputWidth * outputHeight * pixelBytes);
    var y := 0;
    while y < outputHeight
      invariant 0 <= y <= outputHeight
      invariant |output.data| == outputWidth * outputHeight * pixelBytes
      invariant 0 <= y * (outputWidth * pixelBytes) <= |output.data|
      invariant output.data[..y * (outputWidth * pixelBytes)]
             == Gather(Interleaved(frame, outputWidth, outputHeight), outputWidth, y)
    {
      hide ScaleIndexNearest, Accepts, Gather, Interleaved;
      var srcY := ScaleIndexNearest(y, outputHeight, frame.height);
      RasterizeRow(frame, y, srcY, outputWidth, outputHeight, output);
      y := y + 1;
    }
    BufferEnds(outputWidth, outputHeight, pixelBytes);
    return true;
  }

  // ----- What the interleaving keeps -----

  lemma {:induction false} RowLength(p: Picture, y: nat, n: nat, width: nat, height: nat, d: nat)
    requires PixelsAre(p, width, height, d) && y < height && n <= width
    ensures |RowOf(p, y, n)| == n * d
  {
    if n == 0 {
    } else {
      RowLength(p, y, n - 1, width, height, d);
      assert n * d == (n - 1) * d + d;
    }
  }

  lemma SliceLeft<T>(a: seq<T>, b: seq<T>, i: nat, j: nat)
    requires i <= j <= |a|
    ensures (a + b)[i..j] == a[i..j]
  {
  }

  lemma SliceRight<T>(a: seq<T>, b: seq<T>, i: nat, j: nat)
    requires i <= j <= |b|
    ensures (a + b)[|a| + i..|a| + j] == b[i..j]
  {
  }

  lemma {:induction false} RowAt(p: Picture, x: nat, y: nat, n: nat, width: nat, height: nat, d: nat)
    requires PixelsAre(p, width, height, d) && x < n <= width && y < height
    ensures x * d + d <= |RowOf(p, y, n)|
    ensures RowOf(p, y, n)[x * d..x * d + d] == p(x, y)
  {
    hide RowOf;
    var before, last := RowOf(p, y, n - 1), p(n - 1, y);
    RowGrows(p, y, n - 1);
    RowLength(p, y, n - 1, width, height, d);
    assert |last| == d;
    if x < n - 1 {
      RowAt(p, x, y, n - 1, width, height, d);
      SliceLeft(before, last, x * d, x * d + d);
    } else {
      SliceRight(before, last, 0, d);
      assert (before + last)[|before|..|before| + d] == last;
    }
  }

  lemma {:induction false} GatherLength(p: Picture, width: nat, rows: nat, height: nat, d: nat)
    requires PixelsAre(p, width, height, d) && rows <= height
    ensures |Gather(p, width, rows)| == rows * (width * d)
  {
    if rows == 0 {
    } else {
      GatherLength(p, width, rows - 1, height, d);
      RowLength(p, rows - 1, width, width, height, d);
      assert rows * (width * d) == (rows - 1) * (width * d) + width * d;
    }
  }

  lemma LastRowAt(p: Picture, x: nat, y: nat, width: nat, height: nat, d: nat, before: seq<byte>)
    requires PixelsAre(p, width, height, d) && x < width && y < height
    requires |before| == y * (width * d)
    ensures var o, buffer := Offset(x, y, width, d), before + RowOf(p, y, width);
      o + d <= |buffer| && buffer[o..o + d] == p(x, y)
  {
    OffsetSplits(y, width, 0, x, d);
    RowAt(p, x, y, width, width, height, d);
    SliceRight(before, RowOf(p, y, width), x * d, x * d + d);
  }

  /** Reading a pixel back from the row-major buffer of a picture. */
  lemma {:induction false} GatherAt(p: Picture, x: nat, y: nat, width: nat, rows: nat, height: nat, d: nat)
    requires PixelsAre(p, width, height, d) && x < width && y < rows <= height
    ensures Offset(x, y, width, d) + d <= |Gather(p, width, rows)|
    ensures PixelAt(Gather(p, width, rows), x, y, width, d) == p(x, y)
  {
    hide Offset, RowOf;
    var before, row := Gather(p, width, rows - 1), RowOf(p, rows - 1, width);
    var o := Offset(x, y, width, d);
    if y < rows - 1 {
      GatherAt(p, x, y, width, rows - 1, height, d);
      SliceLeft(before, row, o, o + d);
    } else {
      GatherLength(p, width, rows - 1, height, d);
      LastRowAt(p, x, y, width, height, d, before);
    }
  }

  lemma {:induction false} RowsAgree(p: Picture, q: Picture, y: nat, n: nat)
    requires forall x: nat :: x < n ==> p(x, y) == q(x, y)
    ensures RowOf(p, y, n) == RowOf(q, y, n)
  {
    if n == 0 {
    } else {
      RowsAgree(p, q, y, n - 1);
    }
  }

  lemma {:induction false} PicturesAgree(p: Picture, q: Picture, width: nat, rows: nat)
    requires forall x: nat, y: nat :: x < width && y < rows ==> p(x, y) == q(x, y)
    ensures Gather(p, width, rows) == Gather(q, width, rows)
  {
    if rows == 0 {
    } else {
      PicturesAgree(p, q, width, rows - 1);
      RowsAgree(p, q, rows - 1, width);
    }
  }

  lemma PixelOfBuffer(buffer: seq<byte>, x: nat, y: nat, width: nat, height: nat, d: nat)
    requires width * height * d <= |buffer| && y < height && x < width
    ensures 0 <= y * (width * d) + x * d <= y * (width * d) + (x + 1) * d <= |buffer|
    ensures PictureOf(buffer, width, d)(x, y) == buffer[y * (width * d) + x * d..y * (width * d) + (x + 1) * d]
  {
    hide Offset;
    DestinationRoom(x, y, width, height, d);
    OffsetSplits(y, width, 0, x, d);
  }

  lemma Consecutive<T>(s: seq<T>, i: nat, j: nat, k: nat)
    requires i <= j <= k <= |s|
    ensures s[i..j] + s[j..k] == s[i..k]
  {
  }

  lemma NoPixels(p: Picture, y: nat)
    ensures RowOf(p, y, 0) == []
  {
  }

  /** A row of a buffer, read pixel by pixel. */
  lemma {:induction false} RowOfBuffer(buffer: seq<byte>, y: nat, n: nat, width: nat, height: nat, d: nat)
    requires width * height * d <= |buffer| && y < height && n <= width
    ensures 0 <= y * (width * d) + n * d <= |buffer|
    ensures RowOf(PictureOf(buffer, width, d), y, n) == buffer[y * (width * d)..y * (width * d) + n * d]
  {
    hide RowOf, PictureOf;
    if n > 0 {
      var o, i, j: nat := y * (width * d), y * (width * d) + (n - 1) * d, y * (width * d) + n * d;
      RowOfBuffer(buffer, y, n - 1, width, height, d);
      PixelOfBuffer(buffer, n - 1, y, width, height, d);
      RowGrows(PictureOf(buffer, width, d), y, n - 1);
      Consecutive(buffer, o, i, j);
    } else {
      RowEnds(y, width, height, d);
      NoPixels(PictureOf(buffer, width, d), y);
    }
  }

  /** The pixels of a buffer, gathered, are the buffer. */
  lemma {:induction false} GatherOfBuffer(buffer: seq<byte>, rows: nat, width: nat, height: nat, d: nat)
    requires width * height * d <= |buffer| && rows <= height
    ensures 0 <= rows * (width * d) <= |buffer|
    ensures Gather(PictureOf(buffer, width, d), width, rows) == buffer[..rows * (width * d)]
  {
    hide RowOf, PictureOf;
    if rows == 0 {
    } else {
      GatherOfBuffer(buffer, rows - 1, width, height, d);
      RowOfBuffer(buffer, rows - 1, width, width, height, d);
      RowEnds(rows - 1, width, height, d);
      var o: nat := (rows - 1) * (width * d);
      Consecutive(buffer, 0, o, o + width * d);
    }
  }

  /** Undoes the interleaving: even columns to the left half, odd columns to the right. */
  ghost function Deinterleaved(output: seq<byte>, width: nat, d: nat): Picture {
    (x: nat, y: nat) =>
      if x < width / 2 then PixelAt(output, 2 * x, y, width, d)
      else PixelAt(output, 2 * (x - width / 2) + 1, y, width, d)
  }

  lemma InterleavedPixels(frame: Frame, outputWidth: Count, outputHeight: Count)
    requires Accepts(frame, outputWidth, outputHeight)
    ensures PixelsAre(Interleaved(frame, outputWidth, outputHeight), outputWidth, outputHeight, frame.dimension)
  {
    hide ScaleIndexNearest, Offset, Accepts;
    var p := Interleaved(frame, outputWidth, outputHeight);
    forall x: nat, y: nat | x < outputWidth && y < outputHeight ensures |p(x, y)| == frame.dimension {
      ReadsInBounds(frame, x, y, outputWidth, outputHeight);
      assert p(x, y) == PixelAt(frame.buffer, SourceX(frame, x, outputWidth), SourceY(frame, y, outputHeight),
                                frame.width, frame.dimension);
    }
  }

  /** At the frame's own size, even column 2x shows column x and odd column 2x + 1 shows
      column half + x. */
  lemma NativeSource(frame: Frame, x: nat, y: nat)
    requires frame.width >= 2 && frame.width % 2 == 0 && x < frame.width && y < frame.height
    ensures SourceX(frame, x, frame.width) == x / 2 + (if x % 2 == 0 then 0 else frame.width / 2)
    ensures SourceY(frame, y, frame.height) == y
  {
    hide ScaleIndexNearest;
    Identity(x / 2, frame.width / 2);
    Identity(y, frame.height);
  }

  /** De-interleaving what was rasterised at native size gives back the frame, byte for byte. */
  lemma RoundTrip(frame: Frame, output: seq<byte>)
    requires Accepts(frame, frame.width, frame.height)
    requires output == Gather(Interleaved(frame, frame.width, frame.height), frame.width, frame.height)
    ensures Gather(Deinterleaved(output, frame.width, frame.dimension), frame.width, frame.height)
         == frame.buffer[..frame.width * frame.height * frame.dimension]
  {
    hide ScaleIndexNearest, Offset, PixelAt;
    var w, h, d := frame.width, frame.height, frame.dimension;
    var p, q := Interleaved(frame, w, h), Deinterleaved(output, w, d);
    InterleavedPixels(frame, w, h);
    forall x: nat, y: nat | x < w && y < h ensures q(x, y) == PictureOf(frame.buffer, w, d)(x, y) {
      var column := if x < w / 2 then 2 * x else 2 * (x - w / 2) + 1;
      GatherAt(p, column, y, w, h, h, d);
      NativeSource(frame, column, y);
    }
    PicturesAgree(q, PictureOf(frame.buffer, w, d), w, h);
    GatherOfBuffer(frame.buffer, h, w, h, d);
    BufferEnds(w, h, d);
  }

  /** Some output pixel shows the frame pixel at column c and row r. */
  ghost predicate Shown(frame: Frame, c: nat, r: nat, outputWidth: nat, outputHeight: nat) {
    exists x: nat, y: nat :: x < outputWidth && y < outputHeight
      && SourceX(frame, x, outputWidth) == c && SourceY(frame, y, outputHeight) == r
  }

  ghost predicate AllShown(frame: Frame, outputWidth: nat, outputHeight: nat) {
    forall c: nat, r: nat :: c < frame.width && r < frame.height ==> Shown(frame, c, r, outputWidth, outputHeight)
  }

  lemma ColumnShown(frame: Frame, c: nat, outputWidth: Count) returns (x: nat)
    requires frame.width >= 2 && frame.width % 2 == 0 && c < frame.width
    requires frame.width / 2 <= outputWidth / 2
    ensures x < outputWidth && SourceX(frame, x, outputWidth) == c
  {
    hide ScaleIndexNearest;
    var half := frame.width / 2;
    var left := c < half;
    var columns: Count := if left then (outputWidth + 1) / 2 else outputWidth / 2;
    OntoIffNotShrinking(columns, half);
    var k := if left then c else c - half;
    assert Used(k, columns, half);
    var i: nat :| i < columns && ScaleIndexNearest(i, columns, half) == k;
    x := if left then 2 * i else 2 * i + 1;
  }

  /** Every frame pixel is shown exactly when each eye has as many output columns as
      source columns and no row is dropped. */
  lemma CompleteIffNotShrinking(frame: Frame, outputWidth: Count, outputHeight: Count)
    requires Accepts(frame, outputWidth, outputHeight)
    ensures AllShown(frame, outputWidth, outputHeight)
       <==> frame.width / 2 <= outputWidth / 2 && frame.height <= outputHeight
  {
    assert frame.width >= 2 && frame.width % 2 == 0 && frame.height > 0;
    hide ScaleIndexNearest, Accepts;
    var half, columns: Count := frame.width / 2, outputWidth / 2;
    if half <= columns && frame.height <= outputHeight {
      OntoIffNotShrinking(outputHeight, frame.height);
      forall c: nat, r: nat | c < frame.width && r < frame.height
        ensures Shown(frame, c, r, outputWidth, outputHeight)
      {
        var x := ColumnShown(frame, c, outputWidth);
        assert Used(r, outputHeight, frame.height);
        var y: nat :| y < outputHeight && ScaleIndexNearest(y, outputHeight, frame.height) == r;
        assert SourceY(frame, y, outputHeight) == r;
      }
    }
    if AllShown(frame, outputWidth, outputHeight) {
      forall k: nat | k < half ensures Used(k, columns, half) {
        RightColumnUsed(frame, k, outputWidth, outputHeight);
      }
      OntoIffNotShrinking(columns, half);
      forall r: nat | r < frame.height ensures Used(r, outputHeight, frame.height) {
        assert Shown(frame, 0, r, outputWidth, outputHeight);
        var x: nat, y: nat :| x < outputWidth && y < outputHeight
          && SourceX(frame, x, outputWidth) == 0 && SourceY(frame, y, outputHeight) == r;
        assert ScaleIndexNearest(y, outputHeight, frame.height) == r;
      }
      OntoIffNotShrinking(outputHeight, frame.height);
    }
  }

  lemma RightColumnUsed(frame: Frame, k: nat, outputWidth: Count, outputHeight: Count)
    requires frame.width >= 2 && frame.width % 2 == 0 && frame.height > 0
    requires k < frame.width / 2 && AllShown(frame, outputWidth, outputHeight)
    ensures Used(k, outputWidth / 2, frame.width / 2)
  {
    hide ScaleIndexNearest;
    var half := frame.width / 2;
    assert Shown(frame, half + k, 0, outputWidth, outputHeight);
    var x: nat, y: nat :| x < outputWidth && y < outputHeight
      && SourceX(frame, x, outputWidth) == half + k && SourceY(frame, y, outputHeight) == 0;
    EyesStaySeparate(frame, x, outputWidth);
    assert x % 2 == 1 && x / 2 < outputWidth / 2;
    assert ScaleIndexNearest(x / 2, outputWidth / 2, half) == k;
  }
}
