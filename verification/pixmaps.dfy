/** The part of libGDX's `Pixmap` the thumbnail code touches: a pixmap is
    created with a width, a height and a format, and is then written by
    `drawPixel` calls. A pixmap is modelled as the list of those calls; a call
    whose coordinates fall outside the pixmap draws nothing. */
module Pixmaps {
  import opened JavaInts

  datatype Format = RGBA8888 | RGB888

  /** One `drawPixel(x, y, color)` call. */
  datatype Draw<C> = Draw(x: int, y: int, color: C)

  datatype Pixmap<C> = Pixmap(width: int, height: int, format: Format, draws: seq<Draw<C>>)

  /** Whether a drawn pixel lands inside the pixmap (libGDX ignores the rest). */
  predicate InBounds<C>(p: Pixmap<C>, d: Draw<C>) {
    0 <= d.x < p.width && 0 <= d.y < p.height
  }

  /** Every call of `p` lands inside it. */
  predicate AllInBounds<C>(p: Pixmap<C>) {
    forall k :: 0 <= k < |p.draws| ==> InBounds(p, p.draws[k])
  }

  /** Every cell of `p` is written by exactly one call and no call misses
      the pixmap: the calls are a bijection onto the cells. */
  predicate CoversEachCellOnce<C>(p: Pixmap<C>) {
    && AllInBounds(p)
    && |p.draws| == p.width * p.height
    && (forall i, j :: 0 <= i < j < |p.draws| ==>
          (p.draws[i].x, p.draws[i].y) != (p.draws[j].x, p.draws[j].y))
  }

  /** Channels of a colour, each 0..255, as libGDX's `Color` holds them
      (there as floats scaled to 0..1). */
  datatype Rgba = Rgba(r: int, g: int, b: int, a: int)

  predicate IsChannel(c: int) {
    0 <= c < 256
  }

  predicate ValidRgba(c: Rgba) {
    IsChannel(c.r) && IsChannel(c.g) && IsChannel(c.b) && IsChannel(c.a)
  }

  // ---------------------------------------------------------------------
  // Row-major layout: entry `k` of a raster `width` wide sits in column
  // `k % width` of row `k / width`. Both pixel loops lay entries out so.

  /** The next entry is one column to the right, or at the start of the
      next row once the column reaches the width. */
  lemma NextEntry(k: nat, width: int)
    requires width > 0
    ensures k % width + 1 == width ==> (k + 1) % width == 0 && (k + 1) / width == k / width + 1
    ensures k % width + 1 != width ==> (k + 1) % width == k % width + 1 && (k + 1) / width == k / width
  {
    var q, r := k / width, k % width;
    if r + 1 == width {
      DivModUnique(k + 1, width, q + 1, 0);
    } else {
      DivModUnique(k + 1, width, q, r + 1);
    }
  }

  /** Every entry of a width × height raster lies on one of its rows. */
  lemma EntryRowBelow(k: nat, width: int, height: int)
    requires width > 0 && k < width * height
    ensures k / width < height
  {
    if k / width >= height {
      MulMonotone(height, k / width, width);
    }
  }

  lemma MulMonotone(a: int, b: int, w: int)
    requires 0 <= a <= b && w > 0
    ensures a * w <= b * w
  {
  }

  /** Cell `(x, y)` of a width × height raster holds entry `y * width + x`. */
  lemma CellEntry(x: int, y: int, width: int, height: int)
    requires 0 <= x < width && 0 <= y < height
    ensures 0 <= y * width + x < width * height
    ensures (y * width + x) % width == x && (y * width + x) / width == y
  {
    MulMonotone(y + 1, height, width);
    DivModUnique(y * width + x, width, y, x);
  }
}
