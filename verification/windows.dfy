/** The Windows icon provider: thumbnails come from the operating system
    as an `int[]` whose first two entries are the width and height and whose
    remaining entries are RGBA8888 pixels, bottom row first. The native
    call itself is a parameter here. */
module WindowsProvider {
  import opened Options
  import opened JavaInts
  import opened Pixmaps
  import opened Thumbnails
  import opened IconCache

  // ---------------------------------------------------------------------
  // The request

  /** `path.replace("/", "\\")`. */
  function NativePath(path: string): (r: string)
    ensures |r| == |path|
    ensures forall i :: 0 <= i < |r| ==> r[i] != '/'
    ensures forall i :: 0 <= i < |r| && path[i] != '/' ==> r[i] == path[i]
    ensures forall i :: 0 <= i < |r| && path[i] == '/' ==> r[i] == '\\'
  {
    if path == [] then []
    else [if path[0] == '/' then '\\' else path[0]] + NativePath(path[1..])
  }

  /** Rewriting twice is rewriting once; a path without '/' is kept. */
  lemma {:induction false} NativePathIdempotent(path: string)
    ensures NativePath(NativePath(path)) == NativePath(path)
    ensures (forall i :: 0 <= i < |path| ==> path[i] != '/') ==> NativePath(path) == path
    decreases |path|
  {
    if path != [] {
      NativePathIdempotent(path[1..]);
      assert NativePath(path)[1..] == NativePath(path[1..]);
      if forall i :: 0 <= i < |path| ==> path[i] != '/' {
        assert forall i :: 0 <= i < |path[1..]| ==> path[1..][i] == path[i + 1];
      }
    }
  }

  /** What is asked of the platform: the rewritten path and a size. */
  datatype NativeRequest = NativeRequest(path: string, size: int)

  // ---------------------------------------------------------------------
  // Decoding the buffer, as the Java code does it

  /** The x coordinate of pixel entry `k`: the counter goes back to 0 once
      it reaches the width (for a width of 0 or less, after every entry). */
  function NativeX(k: nat, width: int): (x: nat)
    ensures width >= 1 ==> x < width
  {
    if width >= 1 then k % width else 0
  }

  /** The number of full rows before pixel entry `k`. */
  function NativeLine(k: nat, width: int): nat {
    if width >= 1 then k / width else k
  }

  /** `updateImageFromData`'s pixmap, as written: entry `k` (buffer index
      `k + 2`) is drawn at `(k mod width, height - k div width)`. A buffer
      without the two size entries fails before anything is drawn. */
  method DecodeAsWritten(data: seq<int>) returns (p: Option<Pixmap<int>>)
    ensures p.None? <==> |data| < 2
    ensures p.Some? ==> var pm := p.value;
      && pm.width == data[0] && pm.height == data[1] && pm.format == RGBA8888
      && |pm.draws| == |data| - 2
      && forall k :: 0 <= k < |pm.draws| ==>
           pm.draws[k] == Draw(NativeX(k, data[0]), data[1] - NativeLine(k, data[0]), data[k + 2])
  {
    if |data| < 2 {
      return None;
    }
    var width, height := data[0], data[1];
    var draws: seq<Draw<int>> := [];
    var row, column := 0, 0;
    var i := 2;
    while i < |data|
      invariant 2 <= i <= |data| && |draws| == i - 2
      invariant row == NativeX(i - 2, width) && column == NativeLine(i - 2, width)
      invariant forall k :: 0 <= k < |draws| ==>
                  draws[k] == Draw(NativeX(k, width), height - NativeLine(k, width), data[k + 2])
    {
      draws := draws + [Draw(row, height - column, data[i])];
      NativeStep(i - 2, width);
      row := row + 1;
      if row >= width {
        row := 0;
        column := column + 1;
      }
      i := i + 1;
    }
    return Some(Pixmap(width, height, RGBA8888, draws));
  }

  /** One step of the two counters. */
  lemma NativeStep(k: nat, width: int)
    ensures NativeX(k, width) + 1 >= width ==>
              NativeX(k + 1, width) == 0 && NativeLine(k + 1, width) == NativeLine(k, width) + 1
    ensures NativeX(k, width) + 1 < width ==>
              NativeX(k + 1, width) == NativeX(k, width) + 1 && NativeLine(k + 1, width) == NativeLine(k, width)
  {
    if width >= 1 {
      NextEntry(k, width);
    }
  }

  /** The flip as written is off by one: for a full buffer the first
      source row is drawn at `y = height`, just outside the pixmap, and no
      entry is drawn at `y = 0`, so the top row stays blank and the first
      row is lost. */
  lemma FlipOffByOne(data: seq<int>, p: Pixmap<int>)
    requires |data| >= 2 && data[0] >= 1 && data[1] >= 1
    requires |data| == 2 + data[0] * data[1]
    requires p.width == data[0] && p.height == data[1] && |p.draws| == |data| - 2
    requires forall k :: 0 <= k < |p.draws| ==>
               p.draws[k] == Draw(NativeX(k, data[0]), data[1] - NativeLine(k, data[0]), data[k + 2])
    ensures forall k :: 0 <= k < data[0] ==> p.draws[k].y == p.height && !InBounds(p, p.draws[k])
    ensures forall k :: 0 <= k < |p.draws| ==> p.draws[k].y != 0
    ensures !AllInBounds(p)
  {
    var w, h := data[0], data[1];
    forall k | 0 <= k < w
      ensures p.draws[k].y == p.height
    {
      DivModUnique(k, w, 0, k);
    }
    forall k | 0 <= k < |p.draws|
      ensures p.draws[k].y != 0
    {
      EntryRowBelow(k, w, h);
    }
    assert !InBounds(p, p.draws[0]);
  }

  /** The smallest case: a one-pixel thumbnail's only pixel falls outside
      its pixmap. */
  lemma OnePixelLost(color: int, p: Pixmap<int>)
    requires p.width == 1 && p.height == 1 && |p.draws| == 1
    requires p.draws[0] == Draw(NativeX(0, 1), 1 - NativeLine(0, 1), color)
    ensures p.draws[0] == Draw(0, 1, color) && !InBounds(p, p.draws[0])
  {
  }

  // ---------------------------------------------------------------------
  // Decoding the buffer with the flip the layout calls for

  /** The decoding the buffer layout calls for: entry `k` is drawn at
      `(k mod width, height - 1 - k div width)`, the mirror image of the
      row-major position. */
  method DecodeNative(data: seq<int>) returns (p: Option<Pixmap<int>>)
    ensures p.None? <==> |data| < 2
    ensures p.Some? ==> var pm := p.value;
      && pm.width == data[0] && pm.height == data[1] && pm.format == RGBA8888
      && |pm.draws| == |data| - 2
      && forall k :: 0 <= k < |pm.draws| ==>
           pm.draws[k] == Draw(NativeX(k, data[0]), data[1] - 1 - NativeLine(k, data[0]), data[k + 2])
  {
    if |data| < 2 {
      return None;
    }
    var width, height := data[0], data[1];
    var draws: seq<Draw<int>> := [];
    var row, column := 0, 0;
    var i := 2;
    while i < |data|
      invariant 2 <= i <= |data| && |draws| == i - 2
      invariant row == NativeX(i - 2, width) && column == NativeLine(i - 2, width)
      invariant forall k :: 0 <= k < |draws| ==>
                  draws[k] == Draw(NativeX(k, width), height - 1 - NativeLine(k, width), data[k + 2])
    {
      draws := draws + [Draw(row, height - 1 - column, data[i])];
      NativeStep(i - 2, width);
      row := row + 1;
      if row >= width {
        row := 0;
        column := column + 1;
      }
      i := i + 1;
    }
    return Some(Pixmap(width, height, RGBA8888, draws));
  }

  /** The buffer entry that belongs at `(x, y)`: rows come bottom first. */
  function FlippedEntry(x: int, y: int, width: int, height: int): int {
    (height - 1 - y) * width + x
  }

  /** With the corrected flip a full buffer fills the pixmap exactly: every
      entry lands inside, no two on the same cell, and cell `(x, y)` gets
      the entry of row `height - 1 - y`. */
  lemma DecodeNativeCovers(data: seq<int>, p: Pixmap<int>)
    requires |data| >= 2 && data[0] >= 1 && data[1] >= 0
    requires |data| == 2 + data[0] * data[1]
    requires p.width == data[0] && p.height == data[1] && |p.draws| == |data| - 2
    requires forall k :: 0 <= k < |p.draws| ==>
               p.draws[k] == Draw(NativeX(k, data[0]), data[1] - 1 - NativeLine(k, data[0]), data[k + 2])
    ensures CoversEachCellOnce(p)
    ensures forall x, y :: 0 <= x < p.width && 0 <= y < p.height ==>
              var k := FlippedEntry(x, y, p.width, p.height);
              0 <= k < |p.draws| && p.draws[k] == Draw(x, y, data[k + 2])
  {
    NativeInBounds(data[0], data[1]);
    NativeInjective(data[0], |p.draws|);
    NativeCells(data[0], data[1]);
  }

  /** Each entry of a full buffer lands on a row of the pixmap. */
  lemma NativeInBounds(width: int, height: int)
    requires width >= 1 && height >= 0
    ensures forall k: nat :: k < width * height ==> NativeLine(k, width) < height
  {
    forall k: nat | k < width * height
      ensures NativeLine(k, width) < height
    {
      EntryRowBelow(k, width, height);
    }
  }

  /** Distinct entries have distinct (x, line) positions. */
  lemma NativeInjective(width: int, n: nat)
    requires width >= 1
    ensures forall i: nat, j: nat :: i < j < n ==>
              (NativeX(i, width), NativeLine(i, width)) != (NativeX(j, width), NativeLine(j, width))
  {
    forall i: nat, j: nat | i < j < n
      ensures (NativeX(i, width), NativeLine(i, width)) != (NativeX(j, width), NativeLine(j, width))
    {
      assert i == NativeLine(i, width) * width + NativeX(i, width);
      assert j == NativeLine(j, width) * width + NativeX(j, width);
    }
  }

  /** Cell `(x, y)` is where the flipped entry lands. */
  lemma NativeCells(width: int, height: int)
    requires width >= 1 && height >= 0
    ensures forall x, y :: 0 <= x < width && 0 <= y < height ==>
              var k := FlippedEntry(x, y, width, height);
              0 <= k < width * height && NativeX(k, width) == x && height - 1 - NativeLine(k, width) == y
  {
    forall x, y | 0 <= x < width && 0 <= y < height
      ensures var k := FlippedEntry(x, y, width, height);
              0 <= k < width * height && NativeX(k, width) == x && height - 1 - NativeLine(k, width) == y
    {
      CellEntry(x, height - 1 - y, width, height);
    }
  }

  // ---------------------------------------------------------------------
  // The job

  /** A scheduled job on Windows. The size asked of the platform is the
      grid size of the view mode current when the job runs
      (`runtimeGridSize`), while the texture is stored under the mode the
      job was scheduled in. `result` is what the platform returns (`None`
      for null); a null result, or a buffer too short to hold the size
      entries, completes nothing. `tex` is the texture made from the
      decoded pixmap. */
  method RunNativeJob(c: Cache, job: Job, runtimeGridSize: real, result: Option<seq<int>>, tex: Texture)
      returns (request: NativeRequest, r: Cache, shown: Option<Region>)
    requires Valid(c) && IsThumbnailMode(job.viewMode)
    ensures Valid(r)
    ensures request.path == NativePath(job.file) && request.size == FloatToInt(runtimeGridSize)
    ensures result.None? || |result.value| < 2 ==> r == c && shown.None?
    ensures result.Some? && |result.value| >= 2 ==>
              r == Complete(c, job, tex).cache && shown == Some(Region(tex))
    ensures result.Some? && |result.value| >= 2 && FindId(c.thumbnails, job.recordId).Some? ==>
              GetThumbnail(r.thumbnails[FindId(c.thumbnails, job.recordId).value], job.viewMode) == Some(Region(tex))
  {
    request := NativeRequest(NativePath(job.file), FloatToInt(runtimeGridSize));
    r, shown := c, None;
    if result.Some? {
      var pixmap := DecodeNative(result.value);
      if pixmap.Some? {
        var done := Complete(c, job, tex);
        r, shown := done.cache, Some(done.shown);
      }
    }
  }
}
