/** The ImgScalr icon provider's own logic: the size gate that decides, from
    the sniffed header dimensions, whether a thumbnail is skipped, made from
    the original file, or scaled; and `imageToPixmap`, which copies a
    row-major `int` ARGB/RGB raster into a pixmap pixel by pixel. */
module ImgScalr {
  import opened Options
  import opened JavaInts
  import opened ImageInfo
  import opened Pixmaps
  import opened Thumbnails
  import opened IconCache

  const MAX_IMAGE_WIDTH: int := 4096
  const MAX_IMAGE_HEIGHT: int := 4096

  /** What a generation job does with a file. `Scale` carries the `(int)`
      cast of the thumbnail size handed to the scaler. */
  datatype Decision = NoThumbnail | LoadOriginal | Scale(targetSize: int)

  predicate TooLarge(d: Dims) {
    d.width > MAX_IMAGE_WIDTH || d.height > MAX_IMAGE_HEIGHT
  }

  /** A side is smaller than the thumbnail (compared as floats). */
  predicate SmallerThanThumb(d: Dims, thumbSize: real) {
    (d.width as real) < thumbSize || (d.height as real) < thumbSize
  }

  /** The gate at the start of a generation job. Images above 4096 pixels
      in either direction produce nothing; images with a side below the
      thumbnail size are shown as they are; the rest are scaled to the
      thumbnail size, which then never exceeds either side of the image, so
      scaling only ever shrinks. */
  function SizeGate(d: Dims, thumbSize: real): (dec: Decision)
    requires IsJavaInt(d.width) && IsJavaInt(d.height)
    ensures dec == NoThumbnail <==> TooLarge(d)
    ensures dec == LoadOriginal <==> !TooLarge(d) && SmallerThanThumb(d, thumbSize)
    ensures dec.Scale? ==> dec.targetSize == FloatToInt(thumbSize)
    ensures dec.Scale? ==> dec.targetSize <= d.width <= MAX_IMAGE_WIDTH && dec.targetSize <= d.height <= MAX_IMAGE_HEIGHT
  {
    if TooLarge(d) then NoThumbnail
    else if SmallerThanThumb(d, thumbSize) then LoadOriginal
    else Scale(FloatToInt(thumbSize))
  }

  /** The decision for a file (`None`: cannot be opened), as taken from its
      sniffed header. */
  function GenerationPlan(file: Option<seq<Byte>>, thumbSize: real): (dec: Decision)
    ensures file.None? && thumbSize > -1.0 ==> dec == LoadOriginal
  {
    var d := Process(file);
    SniffedIsJavaInt(file);
    SizeGate(d, thumbSize)
  }

  /** Sniffed dimensions are Java ints (undetected is -1, the rest are
      16-bit reads). */
  lemma SniffedIsJavaInt(file: Option<seq<Byte>>)
    ensures IsJavaInt(Process(file).width) && IsJavaInt(Process(file).height)
  {
    if file.Some? {
      var data := file.value;
      var r1 := Read(Stream(data, 0));
      var r2 := Read(r1.rest);
      var r3 := Read(r2.rest);
      if r1.value == 0xFF && r2.value == 0xD8 {
        assert ProcessStream(data) == JpegWalk(r3.rest, r3.value);
      }
    }
  }

  /** A generation job run to its end. `file` is the file's contents
      (`None`: cannot be opened); `made` is the texture created from the
      original file or from the scaled image, `None` when creating it fails,
      an error the job catches. Only the size gate can stop a job before a
      texture is attempted. */
  function RunJob(c: Cache, job: Job, file: Option<seq<Byte>>, made: Option<Texture>): (r: Option<Completion>)
    requires Valid(c) && IsThumbnailMode(job.viewMode)
    ensures r.Some? <==> GenerationPlan(file, job.thumbSize) != NoThumbnail && made.Some?
    ensures r.Some? ==> r.value == Complete(c, job, made.value)
  {
    match GenerationPlan(file, job.thumbSize)
    case NoThumbnail => None
    case _ =>
      match made
      case None => None
      case Some(tex) => Some(Complete(c, job, tex))
  }

  /** A job for a file too large for the gate never fills its record, so
      every later request for the file in that mode schedules again. */
  lemma OversizedNeverCached(c: Cache, file: string, mode: ViewMode, thumbSize: real, contents: Option<seq<Byte>>, made: Option<Texture>)
    requires Valid(c)
    requires GetImageIcon(c, file, mode, thumbSize).scheduled.Some?
    requires GenerationPlan(contents, thumbSize) == NoThumbnail
    ensures var r1 := GetImageIcon(c, file, mode, thumbSize);
      && RunJob(r1.cache, r1.scheduled.value, contents, made).None?
      && GetImageIcon(r1.cache, file, mode, thumbSize).scheduled == r1.scheduled
  {
    RepeatedRequestReschedules(c, file, mode, thumbSize);
  }

  // ---------------------------------------------------------------------
  // The gate on sniffed headers

  /** A file whose dimensions cannot be found (unreadable, or not a JPEG,
      PNG or BMP) is not skipped: it takes the load-the-original branch for
      any thumbnail size above -1. */
  lemma UndetectedLoadsOriginal(data: seq<Byte>, thumbSize: real)
    requires !IsJpegMagic(data) && !IsPngMagic(data) && !IsBmpMagic(data)
    requires thumbSize > -1.0
    ensures GenerationPlan(Some(data), thumbSize) == LoadOriginal
    ensures GenerationPlan(None, thumbSize) == LoadOriginal
  {
  }

  /** A PNG is gated on the low 16 bits of its IHDR width and height. */
  lemma PngGate(width: nat, height: nat, rest: seq<Byte>, thumbSize: real)
    requires width <= INT_MAX && height <= INT_MAX
    ensures GenerationPlan(Some(PngHeader(width, height) + rest), thumbSize)
         == SizeGate(Dims(width % 0x1_0000, height % 0x1_0000), thumbSize)
  {
    PngRoundTrip(width, height, rest);
  }

  /** Consequently the 4096 limit does not hold back a PNG wider than
      65535 whose width's low 16 bits are within it (65636 is read as 100):
      such a file is loaded or scaled, never skipped. */
  lemma WidePngNotSkipped(width: nat, height: nat, rest: seq<Byte>, thumbSize: real)
    requires MAX_IMAGE_WIDTH < width <= INT_MAX && height <= MAX_IMAGE_HEIGHT
    requires width % 0x1_0000 <= MAX_IMAGE_WIDTH
    ensures GenerationPlan(Some(PngHeader(width, height) + rest), thumbSize) != NoThumbnail
  {
    PngGate(width, height, rest, thumbSize);
    LowBitsWithinLimit(width, height, thumbSize);
  }

  lemma LowBitsWithinLimit(width: nat, height: nat, thumbSize: real)
    requires width % 0x1_0000 <= MAX_IMAGE_WIDTH && height <= MAX_IMAGE_HEIGHT
    ensures SizeGate(Dims(width % 0x1_0000, height % 0x1_0000), thumbSize) != NoThumbnail
  {
    assert height % 0x1_0000 == height;
  }

  /** A top-down BMP (negative height in its info header) of any ordinary
      height is skipped: the 16-bit read of the height gives 65536 minus
      its magnitude, which is above 4096. */
  lemma TopDownBmpSkipped(fileSize: nat, pixelOffset: nat, infoSize: nat, width: int, height: int, rest: seq<Byte>, thumbSize: real)
    requires fileSize < TWO_32 && pixelOffset < TWO_32 && infoSize < TWO_32
    requires IsJavaInt(width)
    requires -(0x1_0000 - MAX_IMAGE_HEIGHT) < height < 0
    ensures GenerationPlan(Some(BmpHeader(fileSize, pixelOffset, infoSize, width, height) + rest), thumbSize) == NoThumbnail
  {
    BmpRoundTrip(fileSize, pixelOffset, infoSize, width, height, rest);
  }

  /** A BMP with the 12-byte core header is gated on a height of 1 (its
      plane count), whatever its real height: one no wider than 4096 is
      loaded as it is for any thumbnail size above 1, even when it is
      taller than 4096. */
  lemma CoreHeaderBmpIgnoresHeight(fileSize: nat, pixelOffset: nat, width: nat, height: nat, bitCount: nat, rest: seq<Byte>, thumbSize: real)
    requires fileSize < TWO_32 && pixelOffset < TWO_32
    requires width <= MAX_IMAGE_WIDTH && height < 0x1_0000 && bitCount < 0x1_0000
    requires thumbSize > 1.0
    ensures GenerationPlan(Some(CoreBmpHeader(fileSize, pixelOffset, width, height, bitCount) + rest), thumbSize) == LoadOriginal
  {
    CoreHeaderBmpHeightIsPlanes(fileSize, pixelOffset, width, height, bitCount, rest);
  }

  /** A bottom-up BMP whose sides are between the thumbnail size and 4096
      is scaled to the thumbnail size. */
  lemma BmpScaled(fileSize: nat, pixelOffset: nat, infoSize: nat, width: int, height: int, rest: seq<Byte>, thumbSize: real)
    requires fileSize < TWO_32 && pixelOffset < TWO_32 && infoSize < TWO_32
    requires 0 <= width <= MAX_IMAGE_WIDTH && 0 <= height <= MAX_IMAGE_HEIGHT
    requires thumbSize <= width as real && thumbSize <= height as real
    ensures GenerationPlan(Some(BmpHeader(fileSize, pixelOffset, infoSize, width, height) + rest), thumbSize)
         == Scale(FloatToInt(thumbSize))
  {
    BmpRoundTrip(fileSize, pixelOffset, infoSize, width, height, rest);
  }

  /** A JPEG's frame dimensions decide, whatever segments precede the frame. */
  lemma JpegGate(segs: seq<Segment>, f: Frame, rest: seq<Byte>, thumbSize: real)
    requires forall i :: 0 <= i < |segs| ==> ValidSegment(segs[i])
    requires ValidFrame(f)
    ensures GenerationPlan(Some(JpegHeader(segs, f) + rest), thumbSize)
         == SizeGate(Dims(f.width, f.height), thumbSize)
  {
    JpegRoundTrip(segs, f, rest);
  }

  // ---------------------------------------------------------------------
  // Colour channels of a packed int pixel

  /** Bits 16-23 (`(color & 0x00ff0000) >>> 16`). */
  function Red(color: int): (c: int)
    ensures IsChannel(c)
  {
    (Unsigned32(color) / 0x1_0000) % 0x100
  }

  /** Bits 8-15 (`(color & 0x0000ff00) >>> 8`). */
  function Green(color: int): (c: int)
    ensures IsChannel(c)
  {
    (Unsigned32(color) / 0x100) % 0x100
  }

  /** Bits 0-7 (`color & 0x000000ff`). */
  function Blue(color: int): (c: int)
    ensures IsChannel(c)
  {
    Unsigned32(color) % 0x100
  }

  /** Bits 24-31 (`(color & 0xff000000) >>> 24`). */
  function Alpha(color: int): (c: int)
    ensures IsChannel(c)
  {
    Unsigned32(color) / 0x100_0000
  }

  /** `Color.argb8888ToColor`: all four channels of an ARGB pixel. */
  function ArgbChannels(color: int): (c: Rgba)
    ensures ValidRgba(c)
  {
    Rgba(Red(color), Green(color), Blue(color), Alpha(color))
  }

  /** The no-alpha path: red, green and blue from the pixel, alpha full. */
  function RgbChannels(color: int): (c: Rgba)
    ensures ValidRgba(c) && c.a == 255
    ensures c == ArgbChannels(color).(a := 255)
  {
    Rgba(Red(color), Green(color), Blue(color), 255)
  }

  /** The ARGB `int` a raster stores for a colour (the inverse direction). */
  function PackArgb(c: Rgba): (color: int)
    requires ValidRgba(c)
    ensures IsJavaInt(color)
  {
    Wrap32(c.a * 0x100_0000 + c.r * 0x1_0000 + c.g * 0x100 + c.b)
  }

  /** Unpacking a packed colour gives back its channels. */
  lemma ArgbRoundTrip(c: Rgba)
    requires ValidRgba(c)
    ensures ArgbChannels(PackArgb(c)) == c
  {
    var lo := c.g * 0x100 + c.b;
    var v := c.a * 0x100_0000 + c.r * 0x1_0000 + lo;
    WrapSmall(v);
    assert Unsigned32(PackArgb(c)) == v;
    DivModUnique(v, 0x1_0000, c.a * 0x100 + c.r, lo);
    DivModUnique(c.a * 0x100 + c.r, 0x100, c.a, c.r);
    DivModUnique(v, 0x100, c.a * 0x1_0000 + c.r * 0x100 + c.g, c.b);
    DivModUnique(c.a * 0x1_0000 + c.r * 0x100 + c.g, 0x100, c.a * 0x100 + c.r, c.g);
    DivModUnique(v, 0x100_0000, c.a, c.r * 0x1_0000 + lo);
  }

  /** Every pixel value is the packing of its channels: no bits are lost. */
  lemma ArgbChannelsComplete(color: int)
    requires IsJavaInt(color)
    ensures PackArgb(ArgbChannels(color)) == color
  {
    var u := Unsigned32(color);
    var c := ArgbChannels(color);
    var q1 := u / 0x100;
    var q2 := q1 / 0x100;
    assert u == q1 * 0x100 + c.b;
    assert q1 == q2 * 0x100 + c.g;
    assert u / 0x1_0000 == q2 by {
      DivModUnique(u, 0x1_0000, q2, c.g * 0x100 + c.b);
    }
    assert q2 == (q2 / 0x100) * 0x100 + c.r;
    assert u / 0x100_0000 == q2 / 0x100 by {
      DivModUnique(u, 0x100_0000, q2 / 0x100, c.r * 0x1_0000 + c.g * 0x100 + c.b);
    }
    assert c.a * 0x100_0000 + c.r * 0x1_0000 + c.g * 0x100 + c.b == u;
    Wrap32Unsigned(color);
  }

  /** The no-alpha path ignores whatever the top byte holds. */
  lemma RgbIgnoresTopByte(c: Rgba)
    requires ValidRgba(c)
    ensures RgbChannels(PackArgb(c)) == c.(a := 255)
  {
    ArgbRoundTrip(c);
  }

  lemma WrapSmall(v: int)
    requires 0 <= v < TWO_32
    ensures Unsigned32(Wrap32(v)) == v
  {
    DivModUnique(v, TWO_32, 0, v);
  }

  // ---------------------------------------------------------------------
  // imageToPixmap

  /** The column at which the `pixel`-th raster entry is drawn: the column
      counter wraps to 0 when it reaches the width (it never does for a
      width of 0 or less). */
  function GridColumn(pixel: nat, width: int): (col: nat)
    ensures width > 0 ==> col < width
  {
    if width > 0 then pixel % width else pixel
  }

  function GridRow(pixel: nat, width: int): nat {
    if width > 0 then pixel / width else 0
  }

  /** The colour drawn for a raster entry on either path. */
  function PixelColor(color: int, hasAlpha: bool): (c: Rgba)
    ensures ValidRgba(c)
    ensures !hasAlpha ==> c.a == 255
  {
    if hasAlpha then ArgbChannels(color) else RgbChannels(color)
  }

  /** `imageToPixmap`: a pixmap of the image's size, RGBA8888 exactly when
      the image has an alpha raster, with raster entry `k` drawn at column
      `k mod width`, row `k div width`. */
  method ImageToPixmap(pixels: seq<int>, width: int, height: int, hasAlpha: bool) returns (p: Pixmap<Rgba>)
    ensures p.width == width && p.height == height
    ensures p.format == RGBA8888 <==> hasAlpha
    ensures |p.draws| == |pixels|
    ensures forall k :: 0 <= k < |pixels| ==>
              p.draws[k] == Draw(GridColumn(k, width), GridRow(k, width), PixelColor(pixels[k], hasAlpha))
  {
    var draws: seq<Draw<Rgba>> := [];
    var pixel, row, col := 0, 0, 0;
    while pixel < |pixels|
      invariant 0 <= pixel <= |pixels| && |draws| == pixel
      invariant col == GridColumn(pixel, width) && row == GridRow(pixel, width)
      invariant forall k :: 0 <= k < pixel ==>
                  draws[k] == Draw(GridColumn(k, width), GridRow(k, width), PixelColor(pixels[k], hasAlpha))
    {
      var color := PixelColor(pixels[pixel], hasAlpha);
      draws := draws + [Draw(col, row, color)];
      GridStep(pixel, width);
      col := col + 1;
      if col == width {
        col := 0;
        row := row + 1;
      }
      pixel := pixel + 1;
    }
    p := Pixmap(width, height, if hasAlpha then RGBA8888 else RGB888, draws);
  }

  /** One step of the column/row counters. */
  lemma GridStep(pixel: nat, width: int)
    ensures GridColumn(pixel, width) + 1 == width ==>
              GridColumn(pixel + 1, width) == 0 && GridRow(pixel + 1, width) == GridRow(pixel, width) + 1
    ensures GridColumn(pixel, width) + 1 != width ==>
              GridColumn(pixel + 1, width) == GridColumn(pixel, width) + 1 && GridRow(pixel + 1, width) == GridRow(pixel, width)
  {
    if width > 0 {
      NextEntry(pixel, width);
    }
  }

  /** Entry index of cell `(x, y)` in a row-major raster. */
  function CellOf(x: int, y: int, width: int): int {
    y * width + x
  }

  /** For a raster of exactly width × height entries, the row-major walk
      draws every cell of the pixmap exactly once, and the entry drawn at
      `(x, y)` is entry `y * width + x`. */
  lemma RowMajorCovers(pixels: seq<int>, width: int, height: int, hasAlpha: bool, p: Pixmap<Rgba>)
    requires width > 0 && height >= 0 && |pixels| == width * height
    requires p.width == width && p.height == height && |p.draws| == |pixels|
    requires forall k :: 0 <= k < |pixels| ==>
               p.draws[k] == Draw(GridColumn(k, width), GridRow(k, width), PixelColor(pixels[k], hasAlpha))
    ensures CoversEachCellOnce(p)
    ensures forall x, y :: 0 <= x < width && 0 <= y < height ==>
              0 <= CellOf(x, y, width) < |p.draws| && p.draws[CellOf(x, y, width)] == Draw(x, y, PixelColor(pixels[CellOf(x, y, width)], hasAlpha))
  {
    RowMajorInBounds(width, height);
    RowMajorInjective(width, |pixels|);
    RowMajorCells(width, height);
  }

  /** Each entry of a width × height raster lands inside the grid. */
  lemma RowMajorInBounds(width: int, height: int)
    requires width > 0 && height >= 0
    ensures forall k: nat :: k < width * height ==> GridColumn(k, width) < width && GridRow(k, width) < height
  {
    forall k: nat | k < width * height
      ensures GridRow(k, width) < height
    {
      EntryRowBelow(k, width, height);
    }
  }

  /** Distinct entries land on distinct cells. */
  lemma RowMajorInjective(width: int, n: nat)
    requires width > 0
    ensures forall i: nat, j: nat :: i < j < n ==>
              (GridColumn(i, width), GridRow(i, width)) != (GridColumn(j, width), GridRow(j, width))
  {
    forall i: nat, j: nat | i < j < n
      ensures (GridColumn(i, width), GridRow(i, width)) != (GridColumn(j, width), GridRow(j, width))
    {
      assert i == GridRow(i, width) * width + GridColumn(i, width);
      assert j == GridRow(j, width) * width + GridColumn(j, width);
    }
  }

  /** Each cell is the landing place of entry `y * width + x`. */
  lemma RowMajorCells(width: int, height: int)
    requires width > 0 && height >= 0
    ensures forall x, y :: 0 <= x < width && 0 <= y < height ==>
              0 <= CellOf(x, y, width) < width * height
              && GridColumn(CellOf(x, y, width), width) == x && GridRow(CellOf(x, y, width), width) == y
  {
    forall x, y | 0 <= x < width && 0 <= y < height
      ensures 0 <= CellOf(x, y, width) < width * height
              && GridColumn(CellOf(x, y, width), width) == x && GridRow(CellOf(x, y, width), width) == y
    {
      CellEntry(x, y, width, height);
    }
  }

}
