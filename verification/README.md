# File-chooser thumbnail providers, modelled in Dafny

This project models the thumbnail layer of the vis-ui-contrib file chooser, together with proofs about it. The layer has three parts.

- **Header sniffing** (`ImageInfo`, module `ImageInfo`). It reads a file's first bytes and tells JPEG, PNG and BMP apart by their signatures.
  - For PNG and BMP it reads width and height at fixed offsets.
  - For JPEG it walks the marker segments up to a start-of-frame header (section B.2.2 of ITU-T T.81).
  - Everything else leaves both dimensions at -1.
  - `readInt` is modelled twice: once as the Java loop with 32-bit `|` and `<<` (module `JavaInts`), and once as a closed two-byte form. `ImageInfo.ReadShortIsReadInt` proves the two equal, end of stream included.
  - Encoders for PNG, BMP and JPEG headers give the round trips.
- **The ImgScalr provider** (module `ImgScalr`).
  - The size gate: skip, load the original, or scale.
  - The whole generation job.
  - `imageToPixmap`: a row-major walk over an ARGB/RGB `int` raster, with the channel extraction.
  - Module `Pixmaps` models a pixmap as the list of its `drawPixel` calls.
- **The caching provider** (modules `Thumbnails` and `IconCache`).
  - An insertion-ordered list of per-file records, each holding a three-slot tier table keyed by view mode.
  - `getImageIcon` with insert-on-miss and scheduling.
  - Job completion, `optimizeCache`, restart and `dispose`.
  - A cache invariant (`IconCache.Valid`) that every operation keeps: one record per file, creation order, consistent tier tables.
- **The Windows provider** (module `WindowsProvider`).
  - The rewrite of the path handed to the platform.
  - The decoding of the platform's length-prefixed `int[]` buffer into a vertically flipped pixmap.
  - The job, including a null result.

How the caching provider behaves, as the model states it:
- Pending jobs are not deduplicated: every request that finds no drawable schedules again (`IconCache.RepeatedRequestReschedules`).
- Inserting a record never trims the list; only a restart does, so the list can grow past 600 (`IconCache.InsertionsNeverTrim`, `IconCache.CacheGrowsPastCapacity`).
- A trim disposes indices 0 through `size - 600`, so 599 records remain, not 600 (`IconCache.OptimizeCache`).
- Oversized images are queued like any other; the job itself stops at the size gate (`ImgScalr.RunJob`, `ImgScalr.OversizedNeverCached`).

Facts the model proves about the code as written:
- Only the low 16 bits of a PNG's 32-bit dimensions are read. A PNG 65636 pixels wide passes the 4096 limit (`ImgScalr.WidePngNotSkipped`).
- A top-down BMP with a negative height above -61440 is read as a height above 4096 and gets no thumbnail (`ImgScalr.TopDownBmpSkipped`).
- A BMP with the 12-byte core info header is read with height 1, its plane count, whatever its real height; one no wider than 4096 is loaded even when it is taller than 4096 (`ImageInfo.CoreHeaderBmpHeightIsPlanes`, `ImgScalr.CoreHeaderBmpIgnoresHeight`).
- A JPEG segment whose length reads below 2 makes the Java loop seek backwards; the five bytes FF D8 FF 00 00 keep it spinning forever (`ImageInfo.SpinningJpegNeverEnds`). See Findings.
- A job completing after its record was evicted changes nothing in the cache. Its texture is never disposed (`IconCache.EvictedJobIgnored`).

## Model

| member | source | states |
|---|---|---|
| JavaInts.FloatToInt | ui-contrib/src/main/java/com/kotcrab/vis/ui/contrib/widget/file/ImgScalrFileChooserIconProvider.java:79 | the `(int)` cast of the thumbnail size truncates toward zero and saturates at the `int` range |
| JavaInts.Or32Disjoint | ui-contrib/src/main/java/com/kotcrab/vis/ui/contrib/widget/file/ImgScalrFileChooserIconProvider.java:249 | `x \| y` on Java ints is `x + y` when `y` is a byte and the low eight bits of `x` are clear |
| JavaInts.Or32MinusOne | ui-contrib/src/main/java/com/kotcrab/vis/ui/contrib/widget/file/ImgScalrFileChooserIconProvider.java:249 | OR with -1 (an end-of-stream read) is -1 whatever the other operand |
| ImageInfo.Read | ui-contrib/src/main/java/com/kotcrab/vis/ui/contrib/widget/file/ImgScalrFileChooserIconProvider.java:213-215 | before the end of the stream a read yields the byte at the current position (0..255) and advances by exactly one; at or past the end it yields exactly -1 and leaves the stream where it was |
| ImageInfo.ReadShortIsReadInt | ui-contrib/src/main/java/com/kotcrab/vis/ui/contrib/widget/file/ImgScalrFileChooserIconProvider.java:244-253 | the two-byte closed form equals the `readInt` loop for every stream, end of stream included |
| ImageInfo.ReadShortBytes | ui-contrib/src/main/java/com/kotcrab/vis/ui/contrib/widget/file/ImgScalrFileChooserIconProvider.java:244-253 | with two bytes b0, b1 available, `readInt(is, 2, _)` is b0·256 + b1 big-endian and b0 + b1·256 little-endian, and consumes exactly two bytes |
| ImageInfo.OrOfReads | ui-contrib/src/main/java/com/kotcrab/vis/ui/contrib/widget/file/ImgScalrFileChooserIconProvider.java:248-251 | two byte reads assembled with `<<` and `\|` give the 16-bit value; an end-of-stream -1 in the first read gives -1, and in the second gives -1 big-endian and the first byte minus 256 little-endian |
| ImageInfo.ProcessStream | ui-contrib/src/main/java/com/kotcrab/vis/ui/contrib/widget/file/ImgScalrFileChooserIconProvider.java:212-242 | leading bytes that are no JPEG, PNG or BMP signature leave both dimensions at -1 |
| ImageInfo.Skip | ui-contrib/src/main/java/com/kotcrab/vis/ui/contrib/widget/file/ImgScalrFileChooserIconProvider.java:222-238 | a skip never moves back or changes the data; a count of zero or less skips nothing, and a positive count moves forward by exactly that many bytes, past the end if need be |
| ImageInfo.FileSkip | ui-contrib/src/main/java/com/kotcrab/vis/ui/contrib/widget/file/ImgScalrFileChooserIconProvider.java:227 | on the opened file stream a non-negative count is the plain skip, a negative count seeks back by that much, and a seek before offset 0 fails |
| ImageInfo.ReadIntLoop | ui-contrib/src/main/java/com/kotcrab/vis/ui/contrib/widget/file/ImgScalrFileChooserIconProvider.java:247-251 | after the last round the accumulated value and position are returned; otherwise the loop consumes at most one byte per remaining round, and exactly one per round while bytes remain |
| ImageInfo.ReadInt | ui-contrib/src/main/java/com/kotcrab/vis/ui/contrib/widget/file/ImgScalrFileChooserIconProvider.java:244-253 | a count of zero or less reads nothing and gives 0; otherwise at most `noOfBytes` bytes are consumed, exactly that many when available |
| ImageInfo.ReadShort | ui-contrib/src/main/java/com/kotcrab/vis/ui/contrib/widget/file/ImgScalrFileChooserIconProvider.java:244-253 | a two-byte read is below 65536 and at least -256 (at least -1 big-endian); a non-negative result means both bytes were there and were consumed |
| ImageInfo.Process | ui-contrib/src/main/java/com/kotcrab/vis/ui/contrib/widget/file/ImgScalrFileChooserIconProvider.java:198-210 | a file that cannot be opened leaves both dimensions at -1; an opened one gets what the header parser finds |
| ImageInfo.JpegStep | ui-contrib/src/main/java/com/kotcrab/vis/ui/contrib/widget/file/ImgScalrFileChooserIconProvider.java:219-228 | one pass ends undetected unless the byte just read is 0xFF; a pass that continues moves strictly forward and, when it read 0xFF, stays within the file; a frame's dimensions are 16-bit values or -1 |
| ImageInfo.JpegWalk | ui-contrib/src/main/java/com/kotcrab/vis/ui/contrib/widget/file/ImgScalrFileChooserIconProvider.java:217-229 | the segment loop ends undetected when the byte just read is not 0xFF or the stream is exhausted, and otherwise yields 16-bit dimensions or -1 |
| ImageInfo.JpegStepAsWritten | ui-contrib/src/main/java/com/kotcrab/vis/ui/contrib/widget/file/ImgScalrFileChooserIconProvider.java:219-228 | the pass exactly as written: nothing but 0xFF continues the loop, and a continuing pass stays on the same file |
| ImageInfo.StepsDifferOnlyOnShortLength | ui-contrib/src/main/java/com/kotcrab/vis/ui/contrib/widget/file/ImgScalrFileChooserIconProvider.java:227 | the pass as written and the corrected pass agree except after 0xFF, a non-frame marker and a length below 2 |
| ImageInfo.SpinningJpegStep | ui-contrib/src/main/java/com/kotcrab/vis/ui/contrib/widget/file/ImgScalrFileChooserIconProvider.java:213-228 | on FF D8 FF 00 00 the JPEG branch is taken with 0xFF read at offset 3, and one pass as written returns to exactly that state |
| ImageInfo.SpinningJpegNeverEnds | ui-contrib/src/main/java/com/kotcrab/vis/ui/contrib/widget/file/ImgScalrFileChooserIconProvider.java:218-229 | on that file the loop as written is, after any number of passes, still in its starting state: it never ends |
| ImageInfo.SpinningJpegStops | ui-contrib/src/main/java/com/kotcrab/vis/ui/contrib/widget/file/ImgScalrFileChooserIconProvider.java:212-229 | the corrected walk ends on that file with both dimensions -1 |
| ImageInfo.PngDims | ui-contrib/src/main/java/com/kotcrab/vis/ui/contrib/widget/file/ImgScalrFileChooserIconProvider.java:230-234 | for a PNG signature, width is the big-endian value at offsets 18-19 and height the one at 22-23 |
| ImageInfo.BmpDims | ui-contrib/src/main/java/com/kotcrab/vis/ui/contrib/widget/file/ImgScalrFileChooserIconProvider.java:235-239 | for "BM", width is the little-endian value at offsets 18-19 and height the one at 22-23 |
| ImageInfo.JpegDispatch | ui-contrib/src/main/java/com/kotcrab/vis/ui/contrib/widget/file/ImgScalrFileChooserIconProvider.java:213-218 | 0xFF 0xD8 hands the stream to the segment walk at offset 2 |
| ImageInfo.WalkFrame | ui-contrib/src/main/java/com/kotcrab/vis/ui/contrib/widget/file/ImgScalrFileChooserIconProvider.java:219-225 | at a start-of-frame marker (192, 193, 194) the walk reads past the length (any value), skips the precision byte and stops with the big-endian height and width, whatever components follow |
| ImageInfo.WalkSegment | ui-contrib/src/main/java/com/kotcrab/vis/ui/contrib/widget/file/ImgScalrFileChooserIconProvider.java:219-228 | any other segment is skipped by its length minus 2, and the walk continues with the byte after it |
| ImageInfo.WalkSegments | ui-contrib/src/main/java/com/kotcrab/vis/ui/contrib/widget/file/ImgScalrFileChooserIconProvider.java:218-229 | a whole run of non-frame segments is skipped, ending at the byte after the run |
| ImageInfo.JpegRoundTrip | ui-contrib/src/main/java/com/kotcrab/vis/ui/contrib/widget/file/ImgScalrFileChooserIconProvider.java:217-229 | sniffing an encoded JPEG header yields the frame's width and height, whatever segments precede the frame, whatever its length field and components, and whatever bytes follow |
| ImageInfo.JpegWithoutFrame | ui-contrib/src/main/java/com/kotcrab/vis/ui/contrib/widget/file/ImgScalrFileChooserIconProvider.java:218-228 | a JPEG whose segments run to the end of the file without a frame header stays undetected: the -1 read ends the loop |
| ImageInfo.PngRoundTrip | ui-contrib/src/main/java/com/kotcrab/vis/ui/contrib/widget/file/ImgScalrFileChooserIconProvider.java:230-234 | sniffing an encoded PNG header yields the low 16 bits of the IHDR width and height |
| ImageInfo.BmpRoundTrip | ui-contrib/src/main/java/com/kotcrab/vis/ui/contrib/widget/file/ImgScalrFileChooserIconProvider.java:235-239 | for an info header with 32-bit width and height at offsets 18 and 22 (the 40-, 108- and 124-byte layouts), sniffing yields the low 16 bits of width and height, whatever the file size, pixel offset and value of the size field; exact for 0..65535, and 65536 + h for a negative height h |
| ImageInfo.CoreHeaderBmpHeightIsPlanes | ui-contrib/src/main/java/com/kotcrab/vis/ui/contrib/widget/file/ImgScalrFileChooserIconProvider.java:235-239 | for a BMP with the 12-byte core info header, the width comes back right but the height is read from the plane-count word and is always 1 |
| ImgScalr.SizeGate | ui-contrib/src/main/java/com/kotcrab/vis/ui/contrib/widget/file/ImgScalrFileChooserIconProvider.java:70-79 | no thumbnail iff a side exceeds 4096; otherwise the original is loaded iff a side is below the thumbnail size; otherwise the image is scaled to `(int) thumbSize`, which never exceeds either side |
| ImgScalr.GenerationPlan | ui-contrib/src/main/java/com/kotcrab/vis/ui/contrib/widget/file/ImgScalrFileChooserIconProvider.java:69-79 | a file that cannot be opened is loaded unscaled, for any thumbnail size above -1 |
| ImgScalr.SniffedIsJavaInt | ui-contrib/src/main/java/com/kotcrab/vis/ui/contrib/widget/file/ImgScalrFileChooserIconProvider.java:191-192 | the sniffed width and height always fit a Java `int` |
| ImgScalr.UndetectedLoadsOriginal | ui-contrib/src/main/java/com/kotcrab/vis/ui/contrib/widget/file/ImgScalrFileChooserIconProvider.java:70-76 | undetected dimensions (-1) take the load-original branch and are not skipped |
| ImgScalr.PngGate | ui-contrib/src/main/java/com/kotcrab/vis/ui/contrib/widget/file/ImgScalrFileChooserIconProvider.java:230-234 | a PNG is gated on the low 16 bits of its IHDR width and height |
| ImgScalr.WidePngNotSkipped | ui-contrib/src/main/java/com/kotcrab/vis/ui/contrib/widget/file/ImgScalrFileChooserIconProvider.java:70-71 | a PNG wider than 4096 whose width's low 16 bits are at most 4096 is not skipped |
| ImgScalr.TopDownBmpSkipped | ui-contrib/src/main/java/com/kotcrab/vis/ui/contrib/widget/file/ImgScalrFileChooserIconProvider.java:235-239 | a BMP with a negative height above -61440 gets no thumbnail |
| ImgScalr.CoreHeaderBmpIgnoresHeight | ui-contrib/src/main/java/com/kotcrab/vis/ui/contrib/widget/file/ImgScalrFileChooserIconProvider.java:70-76 | a core-header BMP no wider than 4096 is loaded unscaled for any thumbnail size above 1, whatever its real height, even above 4096 |
| ImgScalr.BmpScaled | ui-contrib/src/main/java/com/kotcrab/vis/ui/contrib/widget/file/ImgScalrFileChooserIconProvider.java:73-79 | a BMP whose sides lie between the thumbnail size and 4096 is scaled to `(int) thumbSize` |
| ImgScalr.JpegGate | ui-contrib/src/main/java/com/kotcrab/vis/ui/contrib/widget/file/ImgScalrFileChooserIconProvider.java:217-226 | a JPEG is gated on its frame header's dimensions, for any preceding segments, frame length and components |
| ImgScalr.RunJob | ui-contrib/src/main/java/com/kotcrab/vis/ui/contrib/widget/file/ImgScalrFileChooserIconProvider.java:64-91 | a job completes iff the gate lets it through and a texture could be made; completing is `addThumb` under the job's mode |
| ImgScalr.OversizedNeverCached | ui-contrib/src/main/java/com/kotcrab/vis/ui/contrib/widget/file/ImgScalrFileChooserIconProvider.java:70-71 | an oversized file never fills its record, so every later request schedules the same job again |
| ImgScalr.RgbChannels | ui-contrib/src/main/java/com/kotcrab/vis/ui/contrib/widget/file/ImgScalrFileChooserIconProvider.java:166-170 | on the no-alpha path, red, green and blue are bits 16-23, 8-15 and 0-7, and alpha is full |
| ImgScalr.ArgbRoundTrip | ui-contrib/src/main/java/com/kotcrab/vis/ui/contrib/widget/file/ImgScalrFileChooserIconProvider.java:155-156 | the four channels extracted from a packed ARGB pixel are the ones packed into it |
| ImgScalr.ArgbChannelsComplete | ui-contrib/src/main/java/com/kotcrab/vis/ui/contrib/widget/file/ImgScalrFileChooserIconProvider.java:155-156 | repacking the extracted channels gives back the pixel, so no bits are lost |
| ImgScalr.RgbIgnoresTopByte | ui-contrib/src/main/java/com/kotcrab/vis/ui/contrib/widget/file/ImgScalrFileChooserIconProvider.java:166-170 | the no-alpha path ignores the top byte: every pixel comes out opaque with its own red, green and blue |
| ImgScalr.ImageToPixmap | ui-contrib/src/main/java/com/kotcrab/vis/ui/contrib/widget/file/ImgScalrFileChooserIconProvider.java:144-183 | the format is RGBA8888 iff there is an alpha raster; entry k is drawn at column k mod width and row k div width, with that entry's channels |
| ImgScalr.GridStep | ui-contrib/src/main/java/com/kotcrab/vis/ui/contrib/widget/file/ImgScalrFileChooserIconProvider.java:158-162 | the column counter wraps to 0 and the row advances exactly when the column reaches the width |
| ImgScalr.RowMajorCovers | ui-contrib/src/main/java/com/kotcrab/vis/ui/contrib/widget/file/ImgScalrFileChooserIconProvider.java:153-179 | a raster of width × height entries draws every pixmap cell exactly once, cell (x, y) getting entry y·width + x |
| Thumbnails.NewThumbnail | ui-contrib/src/main/java/com/kotcrab/vis/ui/contrib/widget/file/CachingFileChooserIconProvider.java:101-108 | a new record has no drawable in any mode |
| Thumbnails.TierIndex | ui-contrib/src/main/java/com/kotcrab/vis/ui/contrib/widget/file/CachingFileChooserIconProvider.java:110-117 | the three thumbnail modes, and only they, have a slot |
| Thumbnails.AddThumb | ui-contrib/src/main/java/com/kotcrab/vis/ui/contrib/widget/file/CachingFileChooserIconProvider.java:110-121 | after `addThumb(m, t)`, `getThumbnail(m)` is t's region, every other mode reads as before, and slots stay consistent |
| Thumbnails.GetThumbnail | ui-contrib/src/main/java/com/kotcrab/vis/ui/contrib/widget/file/CachingFileChooserIconProvider.java:123-131 | a mode without a slot reads as null |
| Thumbnails.DisposeThumbnail | ui-contrib/src/main/java/com/kotcrab/vis/ui/contrib/widget/file/CachingFileChooserIconProvider.java:133-141 | a record's dispose frees exactly its non-null textures |
| Thumbnails.DrawableHasTexture | ui-contrib/src/main/java/com/kotcrab/vis/ui/contrib/widget/file/CachingFileChooserIconProvider.java:119-120 | a mode's drawable exists iff its texture does, and is made from it |
| Thumbnails.OverwriteDropsTexture | ui-contrib/src/main/java/com/kotcrab/vis/ui/contrib/widget/file/CachingFileChooserIconProvider.java:119-120 | a second `addThumb` for the same mode leaves the first texture unreachable and not freed by dispose |
| IconCache.Find | ui-contrib/src/main/java/com/kotcrab/vis/ui/contrib/widget/file/CachingFileChooserIconProvider.java:54-62 | lookup returns the first record for the file, or nothing iff no record has it |
| IconCache.RecordFor | ui-contrib/src/main/java/com/kotcrab/vis/ui/contrib/widget/file/CachingFileChooserIconProvider.java:38-42 | a hit leaves the list unchanged; a miss appends exactly one new record at the end; the list stays one record per file |
| IconCache.GetImageIcon | ui-contrib/src/main/java/com/kotcrab/vis/ui/contrib/widget/file/CachingFileChooserIconProvider.java:31-50 | outside thumbnail modes nothing changes; in them an existing drawable is returned and nothing is scheduled, otherwise a job for the record is scheduled and the fallback icon returned |
| IconCache.Complete | ui-contrib/src/main/java/com/kotcrab/vis/ui/contrib/widget/file/ImgScalrFileChooserIconProvider.java:133-136 | a completion adds the texture to the job's own record under the job's mode, touching no other record; if that record was evicted, the list is unchanged |
| IconCache.DisposeAll | ui-contrib/src/main/java/com/kotcrab/vis/ui/contrib/widget/file/CachingFileChooserIconProvider.java:86-88 | disposing a list of records frees exactly the textures held by some record |
| IconCache.OptimizeCache | ui-contrib/src/main/java/com/kotcrab/vis/ui/contrib/widget/file/CachingFileChooserIconProvider.java:92-99 | no-op at 600 or fewer; otherwise the oldest records are disposed and removed, the newest 599 keep their order, and the cache invariant holds |
| IconCache.RestartThumbnailGeneration | ui-contrib/src/main/java/com/kotcrab/vis/ui/contrib/widget/file/CachingFileChooserIconProvider.java:64-80 | a directory or view-mode change trims the cache to at most 600 records |
| IconCache.DisposeProvider | ui-contrib/src/main/java/com/kotcrab/vis/ui/contrib/widget/file/CachingFileChooserIconProvider.java:82-90 | provider dispose frees every texture of every record and leaves the list empty |
| IconCache.InsertionsNeverTrim | ui-contrib/src/main/java/com/kotcrab/vis/ui/contrib/widget/file/CachingFileChooserIconProvider.java:38-42 | requests for n new distinct files add exactly n records, with no trimming |
| IconCache.CacheGrowsPastCapacity | ui-contrib/src/main/java/com/kotcrab/vis/ui/contrib/widget/file/CachingFileChooserIconProvider.java:38-42 | from empty, requests for more than 600 distinct files leave more than 600 records |
| IconCache.RepeatedRequestReschedules | ui-contrib/src/main/java/com/kotcrab/vis/ui/contrib/widget/file/CachingFileChooserIconProvider.java:44-46 | a request that schedules is followed by an identical one that schedules the same job again |
| IconCache.CompleteThenHit | ui-contrib/src/main/java/com/kotcrab/vis/ui/contrib/widget/file/CachingFileChooserIconProvider.java:44 | after a scheduled job completes, the next request returns its drawable and schedules nothing |
| IconCache.EvictedJobIgnored | ui-contrib/src/main/java/com/kotcrab/vis/ui/contrib/widget/file/CachingFileChooserIconProvider.java:92-99 | a job whose record was trimmed completes without changing the cache |
| IconCache.EvictedFileRescheduled | ui-contrib/src/main/java/com/kotcrab/vis/ui/contrib/widget/file/CachingFileChooserIconProvider.java:38-46 | an evicted file requested again gets a new record that the old job does not fill |
| IconCache.TrimKeepsNewest | ui-contrib/src/main/java/com/kotcrab/vis/ui/contrib/widget/file/CachingFileChooserIconProvider.java:94-97 | every kept record is newer than every removed one |
| WindowsProvider.NativePath | ui-contrib/src/main/java/com/kotcrab/vis/ui/contrib/widget/file/WindowsFileChooserIconProvider.java:30 | every '/' becomes '\\': length kept, no '/' left, other characters unchanged |
| WindowsProvider.NativePathIdempotent | ui-contrib/src/main/java/com/kotcrab/vis/ui/contrib/widget/file/WindowsFileChooserIconProvider.java:30 | rewriting twice is rewriting once, and a path without '/' is unchanged |
| WindowsProvider.DecodeAsWritten | ui-contrib/src/main/java/com/kotcrab/vis/ui/contrib/widget/file/WindowsFileChooserIconProvider.java:41-52 | data[0] and data[1] are width and height; entry i ≥ 2 is drawn at x = (i−2) mod width, y = height − (i−2) div width |
| WindowsProvider.NativeStep | ui-contrib/src/main/java/com/kotcrab/vis/ui/contrib/widget/file/WindowsFileChooserIconProvider.java:46-51 | the x counter resets to 0 exactly when it reaches the width, and only then does the row advance |
| WindowsProvider.FlipOffByOne | ui-contrib/src/main/java/com/kotcrab/vis/ui/contrib/widget/file/WindowsFileChooserIconProvider.java:46 | for a full buffer, the first source row lands at y = height, outside the pixmap, and nothing lands at y = 0 |
| WindowsProvider.DecodeNative | ui-contrib/src/main/java/com/kotcrab/vis/ui/contrib/widget/file/WindowsFileChooserIconProvider.java:41-52 | corrected decoding: entry k is drawn at (k mod width, height − 1 − k div width) |
| WindowsProvider.DecodeNativeCovers | ui-contrib/src/main/java/com/kotcrab/vis/ui/contrib/widget/file/WindowsFileChooserIconProvider.java:41-52 | with the corrected flip, a full buffer draws every cell exactly once, and cell (x, y) gets source row height − 1 − y |
| WindowsProvider.RunNativeJob | ui-contrib/src/main/java/com/kotcrab/vis/ui/contrib/widget/file/WindowsFileChooserIconProvider.java:26-35 | the platform gets the rewritten path and the size of the run-time view mode; a null result changes nothing; otherwise the texture is stored under the mode captured at scheduling |

## Left out

- Threads are not modelled: the executor, `shutdownNow`, the restart of the pool and the `Gdx.app.postRunnable` handoff. A request returns the job it schedules, and a completion is an explicit call (`IconCache.Complete`). A restart is modelled only as trimming the cache.
- Foreign library calls are not modelled: ImageIO decoding, `Scalr.resize` and the temporary PNG write. The texture a job ends up with is a parameter of `ImgScalr.RunJob`; `None` stands for a caught creation error.
- GPU resources are opaque handles (`Thumbnails.Texture`). Disposal is the list of handles freed.
- Floating-point colour is not modelled: the `/ 255f` scaling and `Color.rgba8888`. Drawn pixels carry integer channels 0..255 instead.
- The masks and unsigned shifts of the channel extraction are written as division and remainder on the unsigned bit pattern. The two are equal for every Java `int`.
- The thumbnail size is a real number, so NaN and infinities are not modelled.
- `InputStream.skip` is modelled as skipping exactly the requested count, past the end if need be. A count of zero or less skips nothing. Short skips are not modelled.
- ImageInfo.JpegWalk: uses the corrected pass `JpegStep`, which stops at a segment length below 2, instead of the backward seek of the Java loop. The as-written pass is `JpegStepAsWritten`, on the `FileInputStream` seek `FileSkip`; see Findings.
- The view modes and their grid sizes come from `FileChooser`, which is not part of this model. Five modes are assumed, of which the three icon modes are the thumbnail modes. The grid size is a parameter.
- `super.getImageIcon` of `HighResFileChooserIconProvider` is not part of this model. Its icon is the constant `Fallback`.
- `FileHandle.equals` is modelled as equality of paths.
- `Array.removeRange(0, n)` is taken to be end-inclusive, as libGDX defines it. So the removed prefix is exactly the disposed one.
- The platform call `WinThumbnailProvider.getThumbnail` and `isPlatformSupported` are not modelled. The returned buffer is a parameter of `WindowsProvider.RunNativeJob`.
- A buffer shorter than two entries is modelled as completing nothing; in the Java code this is an uncaught index error on the render thread.
- A pixmap is modelled even for a width or height of zero or less. libGDX may refuse to allocate one.
- WindowsProvider.RunNativeJob: decodes with the corrected flip (`DecodeNative`), not the one in the Java code. The as-written decoding is `DecodeAsWritten`; see Findings.
- Thumbnails.AddThumb: requires a thumbnail mode. For any other mode the Java code fails with an array index error.
- `Pin.java`, the lml `Pin` tag and `RegexodusHighlightRule` are outside the thumbnail layer.

## Findings

| source | as written | input that shows it | evidently intended | confidence | as-written member | corrected member |
|---|---|---|---|---|---|---|
| ui-contrib/src/main/java/com/kotcrab/vis/ui/contrib/widget/file/WindowsFileChooserIconProvider.java:46 | the pixel row is flipped as `height - column` | buffer `[1, 1, c]`: the only pixel is drawn at (0, 1), outside the 1×1 pixmap; in general the first source row is lost and row 0 stays blank | `height - 1 - column`, the mirror image within 0..height−1 | not executed | WindowsProvider.FlipOffByOne | WindowsProvider.DecodeNativeCovers |
| ui-contrib/src/main/java/com/kotcrab/vis/ui/contrib/widget/file/ImgScalrFileChooserIconProvider.java:227 | `is.skip(len - 2)` with the segment length unchecked; on a `FileInputStream` a negative count seeks backwards | the file FF D8 FF 00 00: the marker is 0, the length reads `(0 << 8) \| -1 == -1`, and `skip(-3)` returns from offset 5 to offset 2, where 0xFF is read again, forever, holding the provider's single worker thread | a length below 2 ends the walk with nothing detected, as does the end of the stream, so every pass that continues moves forward and the walk always ends (on this file with both dimensions -1, `ImageInfo.SpinningJpegStops`) | not executed | ImageInfo.SpinningJpegNeverEnds | ImageInfo.JpegStep |
