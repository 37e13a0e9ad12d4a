/** Header-only image dimension sniffing, as done by `ImageInfo` in the
    ImgScalr icon provider: JPEG, PNG and BMP are told apart by their first
    bytes, and width/height are read from fixed places in the header without
    decoding the image. */
module ImageInfo {
  import opened Options
  import opened JavaInts

  /** An open `FileInputStream`: the file's bytes and the read position.
      The position may pass the end of the file (skipping beyond the end is
      allowed); every read there returns -1. */
  datatype Stream = Stream(data: seq<Byte>, pos: nat)

  datatype ReadResult = ReadResult(value: int, rest: Stream)

  /** Width and height as found in a header; -1 when not found. */
  datatype Dims = Dims(width: int, height: int)

  const Undetected := Dims(-1, -1)

  /** `InputStream.read()`: the next byte, or -1 at end of stream. */
  function Read(s: Stream): (r: ReadResult)
    ensures r.rest.data == s.data && r.rest.pos >= s.pos
    ensures r.value >= 0 ==> s.pos < |s.data| && r.rest.pos == s.pos + 1
    ensures s.pos < |s.data| ==> r == ReadResult(s.data[s.pos], Stream(s.data, s.pos + 1)) && 0 <= r.value < 256
    ensures s.pos >= |s.data| ==> r == ReadResult(-1, s)
  {
    if s.pos < |s.data| then ReadResult(s.data[s.pos], Stream(s.data, s.pos + 1))
    else ReadResult(-1, s)
  }

  /** `InputStream.skip(n)` as the base class defines it: a non-positive
      count skips nothing, and a positive one moves forward by exactly `n`,
      past the end of the file if need be. */
  function Skip(s: Stream, n: int): (r: Stream)
    ensures r.data == s.data && r.pos >= s.pos
    ensures n <= 0 ==> r == s
    ensures n >= 0 ==> r.pos == s.pos + n
  {
    if n <= 0 then s else Stream(s.data, s.pos + n)
  }

  /** `FileInputStream.skip(n)`, the stream `process` opens: a negative
      count seeks backwards, and a seek before the start of the file throws
      an `IOException` (`None`). */
  function FileSkip(s: Stream, n: int): (r: Option<Stream>)
    ensures n >= 0 ==> r == Some(Skip(s, n))
    ensures r.None? <==> s.pos + n < 0
    ensures r.Some? ==> r.value.data == s.data && r.value.pos == s.pos + n
  {
    if s.pos + n < 0 then None else Some(Stream(s.data, s.pos + n))
  }

  /** The loop of `readInt`: `ret |= read() << sv; sv += cnt`, `n - i` more
      times. It consumes one byte per round while bytes remain, so it takes
      exactly `n - i` when that many are left, and never more. */
  function ReadIntLoop(s: Stream, i: int, n: int, sv: int, cnt: int, ret: int): (r: ReadResult)
    ensures r.rest.data == s.data && r.rest.pos >= s.pos
    ensures i >= n ==> r == ReadResult(ret, s)
    ensures i < n ==> r.rest.pos <= s.pos + (n - i)
    ensures i < n && s.pos + (n - i) <= |s.data| ==> r.rest.pos == s.pos + (n - i)
    decreases n - i
  {
    if i >= n then ReadResult(ret, s)
    else
      var b := Read(s);
      ReadIntLoop(b.rest, i + 1, n, sv + cnt, cnt, Or32(ret, Shl32(b.value, sv)))
  }

  /** `readInt(is, noOfBytes, bigEndian)`: a non-positive count reads
      nothing and gives 0; otherwise `noOfBytes` reads, each past the end
      of the file leaving the position where it is. */
  function ReadInt(s: Stream, noOfBytes: int, bigEndian: bool): (r: ReadResult)
    ensures r.rest.data == s.data && r.rest.pos >= s.pos
    ensures noOfBytes <= 0 ==> r == ReadResult(0, s)
    ensures noOfBytes > 0 ==> r.rest.pos <= s.pos + noOfBytes
    ensures noOfBytes > 0 && s.pos + noOfBytes <= |s.data| ==> r.rest.pos == s.pos + noOfBytes
  {
    var sv := if bigEndian then (noOfBytes - 1) * 8 else 0;
    var cnt := if bigEndian then -8 else 8;
    ReadIntLoop(s, 0, noOfBytes, sv, cnt, 0)
  }

  /** `readInt(is, 2, bigEndian)`, the only width the header parser uses,
      stated byte by byte; `ReadShortIsReadInt` shows it is the loop above.
      Big-endian is `b0 * 256 + b1`, little-endian `b0 + b1 * 256`. At end
      of stream `read()` yields -1 and the bitwise OR mixes it in: a missing
      second byte gives -1 (big-endian) or `b0 - 256` (little-endian); a
      missing first byte gives -1. */
  function ReadShort(s: Stream, bigEndian: bool): (r: ReadResult)
    ensures r.rest.data == s.data && r.rest.pos >= s.pos
    ensures -256 <= r.value < 0x1_0000
    ensures bigEndian ==> -1 <= r.value
    ensures r.value >= 0 ==> s.pos + 2 <= |s.data| && r.rest.pos == s.pos + 2
  {
    var b0 := Read(s);
    var b1 := Read(b0.rest);
    var value :=
      if b0.value == -1 then -1
      else if b1.value == -1 then (if bigEndian then -1 else b0.value - 256)
      else if bigEndian then b0.value * 256 + b1.value
      else b0.value + b1.value * 256;
    ReadResult(value, b1.rest)
  }

  /** One pass of the JPEG loop: it ends with dimensions, or continues at
      a stream position with the byte just read as the next `c3`. */
  datatype Step = Done(dims: Dims) | Next(rest: Stream, c3: int)

  /** One pass of the JPEG segment loop. `c3` is the byte just read, which
      must be 0xFF for a marker to follow. A start-of-frame marker
      (baseline, extended sequential or progressive: 192, 193, 194) is
      followed by the segment length, the sample precision, then height and
      width; any other segment is skipped using its length, which counts its
      own two bytes. A length below 2 cannot belong to a segment and ends
      the walk (the Java code seeks backwards there instead; see
      `JpegStepAsWritten`). Every pass that continues moves forward. */
  function JpegStep(s: Stream, c3: int): (r: Step)
    ensures c3 != 255 ==> r == Done(Undetected)
    ensures r.Next? ==> r.rest.data == s.data && r.rest.pos > s.pos
    ensures r.Next? && r.c3 == 255 ==> r.rest.pos <= |s.data|
    ensures r.Done? ==> r.dims == Undetected || (-1 <= r.dims.width < 0x1_0000 && -1 <= r.dims.height < 0x1_0000)
  {
    if c3 != 255 then Done(Undetected)
    else
      var marker := Read(s);
      var len := ReadShort(marker.rest, true);
      if IsFrameMarker(marker.value) then
        var h := ReadShort(Skip(len.rest, 1), true);
        var w := ReadShort(h.rest, true);
        Done(Dims(w.value, h.value))
      else if len.value < 2 then Done(Undetected)
      else
        var next := Read(Skip(len.rest, len.value - 2));
        Next(next.rest, next.value)
  }

  /** The JPEG loop: passes of `JpegStep` until one ends it. The reported
      dimensions are big-endian two-byte reads, or -1. */
  function JpegWalk(s: Stream, c3: int): (d: Dims)
    ensures c3 != 255 || s.pos >= |s.data| ==> d == Undetected
    ensures -1 <= d.width < 0x1_0000 && -1 <= d.height < 0x1_0000
    decreases if c3 != 255 then 0 else if s.pos <= |s.data| then |s.data| + 2 - s.pos else 1
  {
    match JpegStep(s, c3)
    case Done(dims) => dims
    case Next(rest, c) => JpegWalk(rest, c)
  }

  /** The walk continued from offset `p`, where the next `c3` is read. */
  ghost function WalkAt(data: seq<Byte>, p: nat): Dims {
    var c := Read(Stream(data, p));
    JpegWalk(c.rest, c.value)
  }

  /** The PNG and BMP branches of `processStream`, which differ only in byte
      order: skip 15 bytes, read the width, skip 2, read the height. */
  function FixedOffsetDims(s: Stream, bigEndian: bool): Dims {
    var w := ReadShort(Skip(s, 15), bigEndian);
    var h := ReadShort(Skip(w.rest, 2), bigEndian);
    Dims(w.value, h.value)
  }

  /** `processStream`: the dimensions found in a file's leading bytes.
      Leading bytes that are neither a JPEG, a PNG nor a BMP signature leave
      both dimensions undetected. */
  function ProcessStream(data: seq<Byte>): (d: Dims)
    ensures !IsJpegMagic(data) && !IsPngMagic(data) && !IsBmpMagic(data) ==> d == Undetected
  {
    var r1 := Read(Stream(data, 0));
    var r2 := Read(r1.rest);
    var r3 := Read(r2.rest);
    var c1, c2, c3 := r1.value, r2.value, r3.value;
    if c1 == 0xFF && c2 == 0xD8 then
      JpegWalk(r3.rest, c3)
    else if c1 == 137 && c2 == 80 && c3 == 78 then
      FixedOffsetDims(r3.rest, true)
    else if c1 == 66 && c2 == 77 then
      FixedOffsetDims(r3.rest, false)
    else
      Undetected
  }

  /** `process(file)`: `None` stands for a file that cannot be opened, whose
      `IOException` is caught and leaves both dimensions at -1. */
  function Process(file: Option<seq<Byte>>): (d: Dims)
    ensures file.None? ==> d == Undetected
    ensures file.Some? ==> d == ProcessStream(file.value)
  {
    match file
    case None => Undetected
    case Some(data) => ProcessStream(data)
  }

  // ---------------------------------------------------------------------
  // Magic numbers

  predicate IsJpegMagic(data: seq<Byte>) {
    |data| >= 2 && data[0] == 0xFF && data[1] == 0xD8
  }

  predicate IsPngMagic(data: seq<Byte>) {
    |data| >= 3 && data[0] == 137 && data[1] == 80 && data[2] == 78
  }

  predicate IsBmpMagic(data: seq<Byte>) {
    |data| >= 2 && data[0] == 66 && data[1] == 77
  }

  // ---------------------------------------------------------------------
  // readInt

  /** The two-byte reader agrees with the `readInt` loop, end of stream
      included. */
  lemma ReadShortIsReadInt(s: Stream, bigEndian: bool)
    ensures ReadInt(s, 2, bigEndian) == ReadShort(s, bigEndian)
  {
    var b0 := Read(s);
    var b1 := Read(b0.rest);
    ReadIntUnfold(s, bigEndian);
    OrOfReads(b0.value, b1.value, bigEndian);
  }

  /** Two whole bytes are read as one 16-bit value and consumed. */
  lemma ReadShortBytes(s: Stream, bigEndian: bool)
    requires s.pos + 2 <= |s.data|
    ensures var r := ReadShort(s, bigEndian);
      && r.rest == Stream(s.data, s.pos + 2)
      && r.value == (if bigEndian then s.data[s.pos] as int * 256 + s.data[s.pos + 1] as int
                     else s.data[s.pos] as int + s.data[s.pos + 1] as int * 256)
  {
    assert Read(s) == ReadResult(s.data[s.pos], Stream(s.data, s.pos + 1));
    assert Read(Stream(s.data, s.pos + 1)) == ReadResult(s.data[s.pos + 1], Stream(s.data, s.pos + 2));
  }

  /** Two rounds of the `readInt` loop. */
  lemma ReadIntUnfold(s: Stream, bigEndian: bool)
    ensures var b0 := Read(s);
      var b1 := Read(b0.rest);
      ReadInt(s, 2, bigEndian)
        == ReadResult(Or32(Or32(0, Shl32(b0.value, if bigEndian then 8 else 0)),
                           Shl32(b1.value, if bigEndian then 0 else 8)), b1.rest)
  {
    var b0 := Read(s);
    var b1 := Read(b0.rest);
    var sv0 := if bigEndian then 8 else 0;
    var sv1 := if bigEndian then 0 else 8;
    var cnt := if bigEndian then -8 else 8;
    var x0 := Or32(0, Shl32(b0.value, sv0));
    assert ReadInt(s, 2, bigEndian) == ReadIntLoop(s, 0, 2, sv0, cnt, 0);
    assert ReadIntLoop(s, 0, 2, sv0, cnt, 0) == ReadIntLoop(b0.rest, 1, 2, sv1, cnt, x0);
  }

  /** The value `readInt` assembles from two results of `read()`; once the
      first is -1 (end of stream) so is the second. */
  lemma OrOfReads(v0: int, v1: int, bigEndian: bool)
    requires -1 <= v0 < 256 && -1 <= v1 < 256
    requires v0 == -1 ==> v1 == -1
    ensures var r := Or32(Or32(0, Shl32(v0, if bigEndian then 8 else 0)), Shl32(v1, if bigEndian then 0 else 8));
      && (v1 >= 0 ==> r == (if bigEndian then v0 * 256 + v1 else v0 + v1 * 256))
      && (v0 >= 0 && v1 == -1 ==> r == (if bigEndian then -1 else v0 - 256))
      && (v0 == -1 ==> r == -1)
  {
    var sv0 := if bigEndian then 8 else 0;
    var sv1 := if bigEndian then 0 else 8;
    var x0 := Shl32(v0, sv0);
    var x1 := Shl32(v1, sv1);
    ShlByte(v0, sv0);
    ShlByte(v1, sv1);
    Or32Zero(x0);
    if v1 == -1 {
      if bigEndian || v0 == -1 {
        Or32MinusOne(x0, x1);
      } else {
        Or32Symmetric(x0, x1);
        Or32Disjoint(x1, x0);
      }
    } else if bigEndian {
      Or32Disjoint(x0, x1);
    } else {
      Or32Symmetric(x0, x1);
      Or32Disjoint(x1, x0);
    }
  }

  /** `b << 8` and `b << 0` for a value of `read()`. */
  lemma ShlByte(b: int, sv: int)
    requires -1 <= b < 256
    requires sv == 0 || sv == 8
    ensures sv == 0 ==> Shl32(b, sv) == b
    ensures sv == 8 ==> Shl32(b, sv) == b * 256 && Unsigned32(b * 256) % 256 == 0
  {
    if sv == 0 {
      assert Pow2(0) == 1;
    } else {
      ShlByteEight(b);
    }
  }

  lemma ShlByteEight(b: int)
    requires -1 <= b < 256
    ensures Shl32(b, 8) == b * 256 && Unsigned32(b * 256) % 256 == 0
  {
    Pow2Values();
    if b >= 0 {
      assert Unsigned32(b * 256) == b * 256;
      DivModUnique(b * 256, 256, b, 0);
    } else {
      EndOfStreamShifted();
    }
  }

  /** `-1 << 8` is -256, whose low byte is clear. */
  lemma EndOfStreamShifted()
    ensures Wrap32(-256) == -256 && Unsigned32(-256) % 256 == 0
  {
    assert Unsigned32(-256) == TWO_32 - 256;
    DivModUnique(TWO_32 - 256, 256, 0xFF_FFFF, 0);
  }

  // ---------------------------------------------------------------------
  // Fixed header offsets

  /** A PNG stream: width is the big-endian 16-bit value at offsets 18-19
      and height the one at offsets 22-23. */
  lemma PngDims(data: seq<Byte>)
    requires IsPngMagic(data) && |data| >= 24
    ensures ProcessStream(data)
         == Dims(data[18] as int * 256 + data[19] as int, data[22] as int * 256 + data[23] as int)
  {
    Dispatch(data);
    FixedOffsets(data, true);
    ReadShortBytes(Stream(data, 18), true);
    ReadShortBytes(Stream(data, 22), true);
  }

  /** A BMP stream: width is the little-endian 16-bit value at offsets 18-19
      and height the one at offsets 22-23. */
  lemma BmpDims(data: seq<Byte>)
    requires IsBmpMagic(data) && |data| >= 24
    ensures ProcessStream(data)
         == Dims(data[18] as int + data[19] as int * 256, data[22] as int + data[23] as int * 256)
  {
    Dispatch(data);
    FixedOffsets(data, false);
    ReadShortBytes(Stream(data, 18), false);
    ReadShortBytes(Stream(data, 22), false);
  }

  /** PNG and BMP signatures select the fixed-offset branch, with three bytes read. */
  lemma Dispatch(data: seq<Byte>)
    requires IsPngMagic(data) || IsBmpMagic(data)
    ensures IsPngMagic(data) ==> ProcessStream(data) == FixedOffsetDims(Stream(data, 3), true)
    ensures IsBmpMagic(data) && |data| >= 3 ==> ProcessStream(data) == FixedOffsetDims(Stream(data, 3), false)
  {
    assert Read(Stream(data, 0)) == ReadResult(data[0], Stream(data, 1));
    assert Read(Stream(data, 1)) == ReadResult(data[1], Stream(data, 2));
    if |data| >= 3 {
      assert Read(Stream(data, 2)) == ReadResult(data[2], Stream(data, 3));
    }
  }

  lemma FixedOffsets(data: seq<Byte>, bigEndian: bool)
    requires |data| >= 24
    ensures FixedOffsetDims(Stream(data, 3), bigEndian)
         == Dims(ReadShort(Stream(data, 18), bigEndian).value, ReadShort(Stream(data, 22), bigEndian).value)
  {
    ReadShortBytes(Stream(data, 18), bigEndian);
  }

  // ---------------------------------------------------------------------
  // Header encoders: the inverse direction, following the PNG, BMP and JPEG
  // file formats, used to state round trips.

  function BE16(v: nat): seq<Byte>
    requires v < 0x1_0000
  {
    [v / 256, v % 256]
  }

  function BE32(v: nat): seq<Byte>
    requires v < TWO_32
  {
    [v / 0x100_0000, (v / 0x1_0000) % 256, (v / 256) % 256, v % 256]
  }

  function LE32(v: nat): seq<Byte>
    requires v < TWO_32
  {
    [v % 256, (v / 256) % 256, (v / 0x1_0000) % 256, v / 0x100_0000]
  }

  function LE16(v: nat): seq<Byte>
    requires v < 0x1_0000
  {
    [v % 256, v / 256]
  }

  const PNG_SIGNATURE: seq<Byte> := [137, 80, 78, 71, 13, 10, 26, 10]
  const IHDR: seq<Byte> := [73, 72, 68, 82]

  /** The first 24 bytes of a PNG file: signature, then the IHDR chunk's
      length (13), type, and 32-bit big-endian width and height (section
      11.2.2 of the PNG specification, ISO/IEC 15948). */
  function PngHeader(width: nat, height: nat): seq<Byte>
    requires width <= INT_MAX && height <= INT_MAX
  {
    PNG_SIGNATURE + BE32(13) + IHDR + BE32(width) + BE32(height)
  }

  /** The first 26 bytes of a BMP file whose info header has the layout of
      the 40-, 108- and 124-byte versions: "BM", file size, reserved word,
      pixel-data offset, the info header's size, then its signed 32-bit
      little-endian width and height. The parser never reads the size
      field, so any value is allowed there; the 12-byte core header, which
      lays its fields out differently, is `CoreBmpHeader`. */
  function BmpHeader(fileSize: nat, pixelOffset: nat, infoSize: nat, width: int, height: int): seq<Byte>
    requires fileSize < TWO_32 && pixelOffset < TWO_32 && infoSize < TWO_32
    requires IsJavaInt(width) && IsJavaInt(height)
  {
    [66, 77] + LE32(fileSize) + LE32(0) + LE32(pixelOffset) + LE32(infoSize)
      + LE32(Unsigned32(width)) + LE32(Unsigned32(height))
  }

  /** The first 26 bytes of a BMP file with the 12-byte core info header
      (BITMAPCOREHEADER): after the same 14-byte file header and the size
      12 come an unsigned 16-bit width at offset 18, an unsigned 16-bit
      height at offset 20, the plane count (always 1) at 22 and the bits
      per pixel at 24, all little-endian. */
  function CoreBmpHeader(fileSize: nat, pixelOffset: nat, width: nat, height: nat, bitCount: nat): seq<Byte>
    requires fileSize < TWO_32 && pixelOffset < TWO_32
    requires width < 0x1_0000 && height < 0x1_0000 && bitCount < 0x1_0000
  {
    [66, 77] + LE32(fileSize) + LE32(0) + LE32(pixelOffset) + LE32(12)
      + LE16(width) + LE16(height) + LE16(1) + LE16(bitCount)
  }

  /** A JPEG marker segment other than a frame header. */
  datatype Segment = Segment(marker: Byte, payload: seq<Byte>)

  predicate IsFrameMarker(m: int) {
    m == 192 || m == 193 || m == 194
  }

  predicate ValidSegment(sg: Segment) {
    !IsFrameMarker(sg.marker) && |sg.payload| + 2 < 0x1_0000
  }

  /** 0xFF, the marker, the big-endian length (which counts itself), the payload. */
  function SegmentBytes(sg: Segment): seq<Byte>
    requires ValidSegment(sg)
  {
    [0xFF, sg.marker] + BE16(|sg.payload| + 2) + sg.payload
  }

  function SegmentsBytes(segs: seq<Segment>): seq<Byte>
    requires forall i :: 0 <= i < |segs| ==> ValidSegment(segs[i])
  {
    if segs == [] then [] else SegmentBytes(segs[0]) + SegmentsBytes(segs[1..])
  }

  /** A frame header (section B.2.2 of ITU-T T.81): start-of-frame marker,
      length Lf, sample precision P, number of lines Y, samples per line X,
      then the component count and specifications, kept as raw bytes. The
      walk reads Lf but does not use it, so any length and any number of
      components are allowed here. */
  datatype Frame = Frame(sof: Byte, length: nat, precision: Byte, height: nat, width: nat, components: seq<Byte>)

  predicate ValidFrame(f: Frame) {
    IsFrameMarker(f.sof) && f.length < 0x1_0000 && f.height < 0x1_0000 && f.width < 0x1_0000
  }

  function FrameHeader(f: Frame): seq<Byte>
    requires ValidFrame(f)
  {
    [0xFF, f.sof] + BE16(f.length) + [f.precision] + BE16(f.height) + BE16(f.width) + f.components
  }

  /** Start of image, marker segments, then the frame header. */
  function JpegHeader(segs: seq<Segment>, f: Frame): seq<Byte>
    requires forall i :: 0 <= i < |segs| ==> ValidSegment(segs[i])
    requires ValidFrame(f)
  {
    [0xFF, 0xD8] + SegmentsBytes(segs) + FrameHeader(f)
  }

  // ---------------------------------------------------------------------
  // Round trips

  /** Sniffing a PNG header yields the low 16 bits of the IHDR width and
      height: exact below 65536, truncated above. */
  lemma PngRoundTrip(width: nat, height: nat, rest: seq<Byte>)
    requires width <= INT_MAX && height <= INT_MAX
    ensures ProcessStream(PngHeader(width, height) + rest) == Dims(width % 0x1_0000, height % 0x1_0000)
  {
    var data := PngHeader(width, height) + rest;
    var pre := PNG_SIGNATURE + BE32(13) + IHDR;
    assert data == pre + BE32(width) + (BE32(height) + rest);
    ByteAt(pre, BE32(width), BE32(height) + rest, 2);
    ByteAt(pre, BE32(width), BE32(height) + rest, 3);
    ByteAt(pre + BE32(width), BE32(height), rest, 2);
    ByteAt(pre + BE32(width), BE32(height), rest, 3);
    assert data[0] == 137 && data[1] == 80 && data[2] == 78;
    PngDims(data);
    LowHalf(width);
    LowHalf(height);
  }

  /** Sniffing a BMP header yields the low 16 bits of the width and height
      as two's-complement bit patterns: exact for values in 0..65535; a
      negative (top-down) height comes out as 65536 plus that height. */
  lemma BmpRoundTrip(fileSize: nat, pixelOffset: nat, infoSize: nat, width: int, height: int, rest: seq<Byte>)
    requires fileSize < TWO_32 && pixelOffset < TWO_32 && infoSize < TWO_32
    requires IsJavaInt(width) && IsJavaInt(height)
    ensures ProcessStream(BmpHeader(fileSize, pixelOffset, infoSize, width, height) + rest)
         == Dims(Unsigned32(width) % 0x1_0000, Unsigned32(height) % 0x1_0000)
    ensures 0 <= width < 0x1_0000 && 0 <= height < 0x1_0000 ==>
            ProcessStream(BmpHeader(fileSize, pixelOffset, infoSize, width, height) + rest) == Dims(width, height)
    ensures -0x1_0000 < height < 0 ==>
            ProcessStream(BmpHeader(fileSize, pixelOffset, infoSize, width, height) + rest).height == 0x1_0000 + height
  {
    var data := BmpHeader(fileSize, pixelOffset, infoSize, width, height) + rest;
    var uw, uh := Unsigned32(width), Unsigned32(height);
    BmpBytes(fileSize, pixelOffset, infoSize, width, height, rest);
    SniffLittleEndian(data, uw, uh);
    if -0x1_0000 < height < 0 {
      NegativeLowHalf(height);
    }
  }

  /** For a BMP with the 12-byte core header the parser still reads the
      height at offset 22, which holds the plane count: the width comes
      back right, the height always as 1. */
  lemma CoreHeaderBmpHeightIsPlanes(fileSize: nat, pixelOffset: nat, width: nat, height: nat, bitCount: nat, rest: seq<Byte>)
    requires fileSize < TWO_32 && pixelOffset < TWO_32
    requires width < 0x1_0000 && height < 0x1_0000 && bitCount < 0x1_0000
    ensures ProcessStream(CoreBmpHeader(fileSize, pixelOffset, width, height, bitCount) + rest) == Dims(width, 1)
  {
    var data := CoreBmpHeader(fileSize, pixelOffset, width, height, bitCount) + rest;
    var pre := [66, 77] + LE32(fileSize) + LE32(0) + LE32(pixelOffset) + LE32(12);
    assert data == pre + LE16(width) + LE16(height) + LE16(1) + (LE16(bitCount) + rest);
    assert |pre| == 18;
    assert data[0] == 66 && data[1] == 77;
    assert data[18] == width % 256 && data[19] == width / 256;
    assert data[22] == 1 && data[23] == 0;
    BmpDims(data);
  }

  lemma SniffLittleEndian(data: seq<Byte>, uw: nat, uh: nat)
    requires IsBmpMagic(data) && |data| >= 24
    requires data[18] == uw % 256 && data[19] == (uw / 256) % 256
    requires data[22] == uh % 256 && data[23] == (uh / 256) % 256
    ensures ProcessStream(data) == Dims(uw % 0x1_0000, uh % 0x1_0000)
  {
    BmpDims(data);
    LowHalf(uw);
    LowHalf(uh);
  }

  lemma NegativeLowHalf(h: int)
    requires -0x1_0000 < h < 0
    ensures Unsigned32(h) % 0x1_0000 == 0x1_0000 + h
  {
    DivModUnique(Unsigned32(h), 0x1_0000, 0xFFFF, 0x1_0000 + h);
  }

  /** Where the signature, width and height bytes sit in a BMP header. */
  lemma BmpBytes(fileSize: nat, pixelOffset: nat, infoSize: nat, width: int, height: int, rest: seq<Byte>)
    requires fileSize < TWO_32 && pixelOffset < TWO_32 && infoSize < TWO_32
    requires IsJavaInt(width) && IsJavaInt(height)
    ensures var data := BmpHeader(fileSize, pixelOffset, infoSize, width, height) + rest;
      var uw, uh := Unsigned32(width), Unsigned32(height);
      && |data| >= 26 && data[0] == 66 && data[1] == 77
      && data[18] == uw % 256 && data[19] == (uw / 256) % 256
      && data[22] == uh % 256 && data[23] == (uh / 256) % 256
  {
    var data := BmpHeader(fileSize, pixelOffset, infoSize, width, height) + rest;
    var uw, uh := Unsigned32(width), Unsigned32(height);
    var pre := [66, 77] + LE32(fileSize) + LE32(0) + LE32(pixelOffset) + LE32(infoSize);
    assert data == pre + LE32(uw) + LE32(uh) + rest;
    AtIn2(pre, LE32(uw), LE32(uh), rest);
    AtIn(pre + LE32(uw), LE32(uh), rest);
    AtIn2([], [66, 77], LE32(fileSize) + LE32(0) + LE32(pixelOffset) + LE32(infoSize) + LE32(uw) + LE32(uh), rest);
    assert data[0 + 0] == 66 && data[0 + 1] == 77;
    assert data[18 + 0] == LE32(uw)[0] && data[18 + 1] == LE32(uw)[1];
    assert data[22 + 0] == LE32(uh)[0] && data[22 + 1] == LE32(uh)[1];
  }

  /** Sniffing a JPEG whose frame header follows any number of other marker
      segments yields the frame's width and height. */
  lemma JpegRoundTrip(segs: seq<Segment>, f: Frame, rest: seq<Byte>)
    requires forall i :: 0 <= i < |segs| ==> ValidSegment(segs[i])
    requires ValidFrame(f)
    ensures ProcessStream(JpegHeader(segs, f) + rest) == Dims(f.width, f.height)
  {
    var data := JpegHeader(segs, f) + rest;
    JpegBytes(segs, f, rest);
    JpegDispatch(data);
    SniffFrameAfterSegments(data, segs, f);
  }

  /** Where the segments and the frame header sit in a JPEG header. */
  lemma JpegBytes(segs: seq<Segment>, f: Frame, rest: seq<Byte>)
    requires forall i :: 0 <= i < |segs| ==> ValidSegment(segs[i])
    requires ValidFrame(f)
    ensures var data := JpegHeader(segs, f) + rest;
      && IsJpegMagic(data)
      && At(data, 2, SegmentsBytes(segs))
      && At(data, 2 + |SegmentsBytes(segs)|, FrameHeader(f))
  {
    var soi: seq<Byte> := [0xFF, 0xD8];
    AtIn2(soi, SegmentsBytes(segs), FrameHeader(f), rest);
    AtIn(soi + SegmentsBytes(segs), FrameHeader(f), rest);
  }

  /** A stream whose third byte starts a run of segments followed by a frame
      header walks to the frame's dimensions. */
  lemma SniffFrameAfterSegments(data: seq<Byte>, segs: seq<Segment>, f: Frame)
    requires forall i :: 0 <= i < |segs| ==> ValidSegment(segs[i])
    requires ValidFrame(f)
    requires At(data, 2, SegmentsBytes(segs))
    requires At(data, 2 + |SegmentsBytes(segs)|, FrameHeader(f))
    ensures WalkAt(data, 2) == Dims(f.width, f.height)
  {
    SniffFrame(data, 2 + |SegmentsBytes(segs)|, f);
    WalkSegments(data, 2, segs);
  }

  /** Reading the 0xFF of a frame header and walking it. */
  lemma SniffFrame(data: seq<Byte>, q: nat, f: Frame)
    requires ValidFrame(f)
    requires At(data, q, FrameHeader(f))
    ensures WalkAt(data, q) == Dims(f.width, f.height)
  {
    assert Read(Stream(data, q)) == ReadResult(0xFF, Stream(data, q + 1)) by {
      var frame := FrameHeader(f);
      assert frame[0] == 0xFF;
      AtIndex(data, q, frame, 0);
    }
    WalkFrame(data, q, f);
  }

  /** A JPEG whose marker segments run to the end of the file without a
      frame header: the walk reads -1 where the next marker should be, and
      the dimensions stay undetected. */
  lemma JpegWithoutFrame(segs: seq<Segment>)
    requires forall i :: 0 <= i < |segs| ==> ValidSegment(segs[i])
    ensures ProcessStream([0xFF, 0xD8] + SegmentsBytes(segs)) == Undetected
  {
    var sb := SegmentsBytes(segs);
    var data := [0xFF, 0xD8] + sb;
    assert At(data, 2, sb) by {
      AtConcat([0xFF, 0xD8], sb);
    }
    JpegDispatch(data);
    WalkToEnd(data, segs);
  }

  lemma WalkToEnd(data: seq<Byte>, segs: seq<Segment>)
    requires forall i :: 0 <= i < |segs| ==> ValidSegment(segs[i])
    requires At(data, 2, SegmentsBytes(segs)) && |data| == 2 + |SegmentsBytes(segs)|
    ensures WalkAt(data, 2) == Undetected
  {
    WalkSegments(data, 2, segs);
    EndOfStreamStopsWalk(data, |data|);
  }

  lemma EndOfStreamStopsWalk(data: seq<Byte>, p: nat)
    requires p >= |data|
    ensures WalkAt(data, p) == Undetected
  {
  }

  /** A JPEG signature hands the stream to the segment walk with the third byte read. */
  lemma JpegDispatch(data: seq<Byte>)
    requires IsJpegMagic(data)
    ensures ProcessStream(data) == WalkAt(data, 2)
  {
    assert Read(Stream(data, 0)) == ReadResult(data[0], Stream(data, 1));
    assert Read(Stream(data, 1)) == ReadResult(data[1], Stream(data, 2));
  }

  // ---------------------------------------------------------------------
  // The JPEG loop as the Java code runs it

  /** One pass of the loop exactly as written, on a `FileInputStream`: the
      skip count `len - 2` is not checked, so a length below 2 seeks
      backwards. A seek before the start of the file throws, `process`
      catches the exception, and the dimensions stay -1. */
  function JpegStepAsWritten(s: Stream, c3: int): (r: Step)
    ensures c3 != 255 ==> r == Done(Undetected)
    ensures r.Next? ==> r.rest.data == s.data
  {
    if c3 != 255 then Done(Undetected)
    else
      var marker := Read(s);
      var len := ReadShort(marker.rest, true);
      if IsFrameMarker(marker.value) then
        var h := ReadShort(Skip(len.rest, 1), true);
        var w := ReadShort(h.rest, true);
        Done(Dims(w.value, h.value))
      else
        match FileSkip(len.rest, len.value - 2)
        case None => Done(Undetected)
        case Some(skipped) =>
          var next := Read(skipped);
          Next(next.rest, next.value)
  }

  /** The corrected pass differs from the one as written only where a
      non-frame segment's length reads below 2. */
  lemma StepsDifferOnlyOnShortLength(s: Stream, c3: int)
    ensures JpegStep(s, c3) != JpegStepAsWritten(s, c3) ==>
      var marker := Read(s);
      c3 == 255 && !IsFrameMarker(marker.value) && ReadShort(marker.rest, true).value < 2
  {
  }

  /** The state after `n` passes of the loop as written (or its end). */
  function RunAsWritten(s: Stream, c3: int, n: nat): (r: Step)
    ensures n == 0 ==> r == Next(s, c3)
    decreases n
  {
    if n == 0 then Next(s, c3)
    else
      match JpegStepAsWritten(s, c3)
      case Done(d) => Done(d)
      case Next(rest, c) => RunAsWritten(rest, c, n - 1)
  }

  /** A five-byte file: start of image, then 0xFF, a marker 0 and a single
      byte where the two-byte length should be. */
  const SPINNING_JPEG: seq<Byte> := [0xFF, 0xD8, 0xFF, 0x00, 0x00]

  /** `processStream` takes the JPEG branch with the third byte 0xFF read,
      and one pass as written comes back to that same state: the marker is
      0, the length is `(0 << 8) | -1 == -1`, and `skip(-3)` seeks from
      offset 5 back to offset 2, where the same 0xFF is read again. */
  lemma SpinningJpegStep()
    ensures IsJpegMagic(SPINNING_JPEG)
    ensures var r3 := Read(Read(Read(Stream(SPINNING_JPEG, 0)).rest).rest);
      r3 == ReadResult(0xFF, Stream(SPINNING_JPEG, 3))
    ensures JpegStepAsWritten(Stream(SPINNING_JPEG, 3), 0xFF) == Next(Stream(SPINNING_JPEG, 3), 0xFF)
  {
    var s := Stream(SPINNING_JPEG, 3);
    var marker := Read(s);
    assert marker == ReadResult(0, Stream(SPINNING_JPEG, 4));
    var len := ReadShort(marker.rest, true);
    assert len == ReadResult(-1, Stream(SPINNING_JPEG, 5));
    assert FileSkip(len.rest, -3) == Some(Stream(SPINNING_JPEG, 2));
  }

  /** Hence the loop as written never ends on this file: after any number
      of passes it is still in the state it started from. */
  lemma {:induction false} SpinningJpegNeverEnds(n: nat)
    ensures RunAsWritten(Stream(SPINNING_JPEG, 3), 0xFF, n) == Next(Stream(SPINNING_JPEG, 3), 0xFF)
  {
    if n > 0 {
      SpinningJpegStep();
      SpinningJpegNeverEnds(n - 1);
    }
  }

  /** The corrected walk stops on the same file, with nothing detected. */
  lemma SpinningJpegStops()
    ensures ProcessStream(SPINNING_JPEG) == Undetected
  {
    SpinningJpegStep();
    JpegDispatch(SPINNING_JPEG);
    var s := Stream(SPINNING_JPEG, 3);
    var marker := Read(s);
    assert marker == ReadResult(0, Stream(SPINNING_JPEG, 4));
    assert ReadShort(marker.rest, true).value == -1;
    assert JpegStep(s, 0xFF) == Done(Undetected);
  }

  // ---------------------------------------------------------------------
  // Helpers for the round trips

  /** `bytes` occurs in `data` starting at offset `q`. Stated byte by byte
      (rather than with a quantifier) so that the verifier only looks as far
      into a header as a proof asks it to. */
  ghost predicate At(data: seq<Byte>, q: nat, bytes: seq<Byte>)
    decreases |bytes|
  {
    bytes == [] || (q < |data| && data[q] == bytes[0] && At(data, q + 1, bytes[1..]))
  }

  lemma {:induction false} AtIndex(data: seq<Byte>, q: nat, bytes: seq<Byte>, i: nat)
    requires At(data, q, bytes) && i < |bytes|
    ensures q + |bytes| <= |data|
    ensures data[q + i] == bytes[i]
    decreases |bytes|
  {
    if i == 0 {
      if |bytes| > 1 {
        AtIndex(data, q + 1, bytes[1..], 0);
      }
    } else {
      AtIndex(data, q + 1, bytes[1..], i - 1);
    }
  }

  lemma {:induction false} AtFromIndex(data: seq<Byte>, q: nat, bytes: seq<Byte>)
    requires q + |bytes| <= |data|
    requires forall i :: 0 <= i < |bytes| ==> data[q + i] == bytes[i]
    ensures At(data, q, bytes)
    decreases |bytes|
  {
    if bytes != [] {
      assert data[q + 0] == bytes[0];
      forall i | 0 <= i < |bytes| - 1
        ensures data[q + 1 + i] == bytes[1..][i]
      {
        assert data[q + (i + 1)] == bytes[i + 1];
      }
      AtFromIndex(data, q + 1, bytes[1..]);
    }
  }

  lemma ByteAt(pre: seq<Byte>, x: seq<Byte>, post: seq<Byte>, i: nat)
    requires i < |x|
    ensures (pre + x + post)[|pre| + i] == x[i]
  {
  }

  lemma AtConcat(pre: seq<Byte>, x: seq<Byte>)
    ensures At(pre + x, |pre|, x)
  {
    AtFromIndex(pre + x, |pre|, x);
  }

  lemma AtIn(pre: seq<Byte>, x: seq<Byte>, post: seq<Byte>)
    ensures At(pre + x + post, |pre|, x)
  {
    AtFromIndex(pre + x + post, |pre|, x);
  }

  lemma AtIn2(pre: seq<Byte>, x: seq<Byte>, post1: seq<Byte>, post2: seq<Byte>)
    ensures At(pre + x + post1 + post2, |pre|, x)
  {
    var data := pre + x + post1 + post2;
    forall i | 0 <= i < |x|
      ensures data[|pre| + i] == x[i]
    {
      assert (pre + x)[|pre| + i] == x[i];
    }
    AtFromIndex(data, |pre|, x);
  }

  lemma {:induction false} AtSplit(data: seq<Byte>, q: nat, a: seq<Byte>, b: seq<Byte>)
    requires At(data, q, a + b)
    ensures At(data, q, a) && At(data, q + |a|, b)
    decreases |a|
  {
    if a == [] {
      assert a + b == b;
    } else {
      assert (a + b)[0] == a[0];
      assert (a + b)[1..] == a[1..] + b;
      AtSplit(data, q + 1, a[1..], b);
    }
  }

  /** The low 16 bits of `v`, assembled from its second-lowest and lowest bytes. */
  lemma LowHalf(v: nat)
    ensures (v / 256) % 256 * 256 + v % 256 == v % 0x1_0000
  {
    var q := v / 0x1_0000;
    var r := v % 0x1_0000;
    DivModUnique(v, 0x1_0000, q, r);
    DivModUnique(v, 256, q * 256 + r / 256, r % 256);
    DivModUnique(v / 256, 256, q, r / 256);
  }

  /** `readInt` reads back a big-endian 16-bit value. */
  lemma ReadBE16(data: seq<Byte>, q: nat, v: nat)
    requires v < 0x1_0000
    requires q + 2 <= |data| && data[q] == v / 256 && data[q + 1] == v % 256
    ensures ReadShort(Stream(data, q), true) == ReadResult(v, Stream(data, q + 2))
  {
    ReadShortBytes(Stream(data, q), true);
  }

  /** Walking a frame header stops with its height and width. */
  lemma WalkFrame(data: seq<Byte>, q: nat, fr: Frame)
    requires ValidFrame(fr)
    requires At(data, q, FrameHeader(fr))
    ensures JpegWalk(Stream(data, q + 1), 255) == Dims(fr.width, fr.height)
  {
    var f := FrameHeader(fr);
    assert f[1] == fr.sof;
    assert f[2] == fr.length / 256 && f[3] == fr.length % 256;
    assert f[5] == fr.height / 256 && f[6] == fr.height % 256;
    assert f[7] == fr.width / 256 && f[8] == fr.width % 256;
    AtIndex(data, q, f, 1);
    AtIndex(data, q, f, 2);
    AtIndex(data, q, f, 3);
    AtIndex(data, q, f, 5);
    AtIndex(data, q, f, 6);
    AtIndex(data, q, f, 7);
    AtIndex(data, q, f, 8);
    assert Read(Stream(data, q + 1)) == ReadResult(fr.sof, Stream(data, q + 2));
    ReadBE16(data, q + 2, fr.length);
    ReadBE16(data, q + 5, fr.height);
    ReadBE16(data, q + 7, fr.width);
  }

  /** Walking one non-frame segment continues with the byte after it. */
  lemma WalkSegment(data: seq<Byte>, q: nat, sg: Segment, end: nat)
    requires ValidSegment(sg)
    requires At(data, q, SegmentBytes(sg)) && end == q + |SegmentBytes(sg)|
    ensures WalkAt(data, q) == WalkAt(data, end)
  {
    ReadSegmentStart(data, q, sg);
    var len := |sg.payload| + 2;
    var b := SegmentBytes(sg);
    assert b[1] == sg.marker && b[2] == len / 256 && b[3] == len % 256;
    AtIndex(data, q, b, 1);
    AtIndex(data, q, b, 2);
    AtIndex(data, q, b, 3);
    assert Read(Stream(data, q + 1)) == ReadResult(sg.marker, Stream(data, q + 2));
    ReadBE16(data, q + 2, len);
    assert Skip(Stream(data, q + 4), len - 2) == Stream(data, end);
  }

  /** Walking a run of non-frame segments continues with the byte after the run. */
  lemma WalkSegments(data: seq<Byte>, q: nat, segs: seq<Segment>)
    requires forall i :: 0 <= i < |segs| ==> ValidSegment(segs[i])
    requires At(data, q, SegmentsBytes(segs))
    ensures WalkAt(data, q) == WalkAt(data, q + |SegmentsBytes(segs)|)
  {
    var ps := Offsets(q, segs);
    StepsAll(data, q, segs);
    OffsetsEnd(q, segs);
    ChainWalks(data, ps, q, q + |SegmentsBytes(segs)|);
  }

  lemma StepsAll(data: seq<Byte>, q: nat, segs: seq<Segment>)
    requires forall i :: 0 <= i < |segs| ==> ValidSegment(segs[i])
    requires At(data, q, SegmentsBytes(segs))
    ensures var ps := Offsets(q, segs);
      forall k :: 0 <= k < |ps| - 1 ==> WalkAt(data, ps[k]) == WalkAt(data, ps[k + 1])
  {
    var ps := Offsets(q, segs);
    forall k | 0 <= k < |segs|
      ensures WalkAt(data, ps[k]) == WalkAt(data, ps[k + 1])
    {
      StepAt(data, q, segs, k);
    }
  }

  /** The `k`-th segment of a run is stepped over. */
  lemma StepAt(data: seq<Byte>, q: nat, segs: seq<Segment>, k: nat)
    requires forall i :: 0 <= i < |segs| ==> ValidSegment(segs[i])
    requires At(data, q, SegmentsBytes(segs))
    requires k < |segs|
    ensures var ps := Offsets(q, segs);
      WalkAt(data, ps[k]) == WalkAt(data, ps[k + 1])
  {
    var ps := Offsets(q, segs);
    SegmentsLaidOut(data, q, segs);
    WalkSegment(data, ps[k], segs[k], ps[k + 1]);
  }

  lemma {:induction false} OffsetsEnd(q: nat, segs: seq<Segment>)
    requires forall i :: 0 <= i < |segs| ==> ValidSegment(segs[i])
    ensures Offsets(q, segs)[|segs|] == q + |SegmentsBytes(segs)|
    decreases |segs|
  {
    if segs != [] {
      var first := SegmentBytes(segs[0]);
      OffsetsEnd(q + |first|, segs[1..]);
      assert SegmentsBytes(segs) == first + SegmentsBytes(segs[1..]);
    }
  }

  /** Where each of `segs` starts when they are laid out from offset `q`,
      followed by where the last one ends. */
  ghost function Offsets(q: nat, segs: seq<Segment>): (ps: seq<nat>)
    requires forall i :: 0 <= i < |segs| ==> ValidSegment(segs[i])
    ensures |ps| == |segs| + 1 && ps[0] == q
    decreases |segs|
  {
    [q] + (if segs == [] then [] else Offsets(q + |SegmentBytes(segs[0])|, segs[1..]))
  }

  lemma {:induction false} SegmentsLaidOut(data: seq<Byte>, q: nat, segs: seq<Segment>)
    requires forall i :: 0 <= i < |segs| ==> ValidSegment(segs[i])
    requires At(data, q, SegmentsBytes(segs))
    ensures var ps := Offsets(q, segs);
      forall k :: 0 <= k < |segs| ==>
           At(data, ps[k], SegmentBytes(segs[k])) && ps[k + 1] == ps[k] + |SegmentBytes(segs[k])|
    decreases |segs|
  {
    if segs != [] {
      var first := SegmentBytes(segs[0]);
      var tail := segs[1..];
      var q' := q + |first|;
      assert SegmentsBytes(segs) == first + SegmentsBytes(tail);
      AtSplit(data, q, first, SegmentsBytes(tail));
      SegmentsLaidOut(data, q', tail);
      var ps := Offsets(q, segs);
      var ps' := Offsets(q', tail);
      assert ps == [q] + ps';
      forall k | 1 <= k < |segs|
        ensures At(data, ps[k], SegmentBytes(segs[k])) && ps[k + 1] == ps[k] + |SegmentBytes(segs[k])|
      {
        assert ps[k] == ps'[k - 1] && ps[k + 1] == ps'[k] && segs[k] == tail[k - 1];
      }
    }
  }

  /** Steps that each keep the walk's outcome, chained. */
  lemma {:induction false} ChainWalks(data: seq<Byte>, ps: seq<nat>, first: nat, last: nat)
    requires |ps| >= 1 && ps[0] == first && ps[|ps| - 1] == last
    requires forall k :: 0 <= k < |ps| - 1 ==> WalkAt(data, ps[k]) == WalkAt(data, ps[k + 1])
    ensures WalkAt(data, first) == WalkAt(data, last)
    decreases |ps|
  {
    if |ps| > 1 {
      ChainWalks(data, ps[1..], ps[1], last);
      assert WalkAt(data, ps[0]) == WalkAt(data, ps[1]);
    }
  }

  /** A segment starts with the 0xFF of its marker. */
  lemma ReadSegmentStart(data: seq<Byte>, q: nat, sg: Segment)
    requires ValidSegment(sg)
    requires At(data, q, SegmentBytes(sg))
    ensures Read(Stream(data, q)) == ReadResult(0xFF, Stream(data, q + 1))
  {
    AtIndex(data, q, SegmentBytes(sg), 0);
  }
}
