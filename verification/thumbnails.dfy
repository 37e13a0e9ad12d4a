/** The per-file record of the caching icon provider (`Thumbnail`): the
    file it belongs to and a three-slot tier table, one slot per icon size,
    each holding a texture and the drawable region made from it. */
module Thumbnails {
  import opened Options
  import opened JavaInts

  /** The file chooser's view modes. The three icon modes are the ones with
      thumbnails. */
  datatype ViewMode = Details | BigIcons | MediumIcons | SmallIcons | List

  predicate IsThumbnailMode(m: ViewMode) {
    m == SmallIcons || m == MediumIcons || m == BigIcons
  }

  /** A texture, identified by its handle; its pixels are not modelled. */
  type Texture = nat

  /** A `TextureRegionDrawable` over the whole of a texture. */
  datatype Region = Region(texture: Texture)

  const TIERS: nat := 3

  /** `id` stands for the record's object identity: a job holds on to the
      record object it was scheduled for, not to the file. */
  datatype Thumbnail = Thumbnail(id: nat, file: string, textures: seq<Option<Texture>>, regions: seq<Option<Region>>)

  predicate WellFormed(t: Thumbnail) {
    |t.textures| == TIERS && |t.regions| == TIERS
  }

  /** Each slot's region is the region of that slot's texture. */
  predicate Consistent(t: Thumbnail)
    requires WellFormed(t)
  {
    forall i :: 0 <= i < TIERS ==> t.regions[i] == RegionOf(t.textures[i])
  }

  function RegionOf(tex: Option<Texture>): (r: Option<Region>)
    ensures r.Some? <==> tex.Some?
    ensures r.Some? ==> r.value.texture == tex.value
  {
    match tex
    case None => None
    case Some(x) => Some(Region(x))
  }

  /** A fresh record: all three slots empty. */
  function NewThumbnail(id: nat, file: string): (t: Thumbnail)
    ensures WellFormed(t) && Consistent(t)
    ensures t.id == id && t.file == file
    ensures forall m :: GetThumbnail(t, m).None?
  {
    Thumbnail(id, file, [None, None, None], [None, None, None])
  }

  /** The slot of a thumbnail mode: small 0, medium 1, big 2; -1 for the
      other modes. */
  function TierIndex(m: ViewMode): (i: int)
    ensures IsThumbnailMode(m) <==> 0 <= i < TIERS
    ensures !IsThumbnailMode(m) ==> i == -1
  {
    if m == SmallIcons then 0
    else if m == MediumIcons then 1
    else if m == BigIcons then 2
    else -1
  }

  /** `addThumb`: stores a texture and its region in the mode's slot. The
      texture previously in that slot, if any, is dropped without being
      disposed. A mode without a slot makes the Java code throw an index
      error, so it is excluded here. */
  function AddThumb(t: Thumbnail, m: ViewMode, tex: Texture): (r: Thumbnail)
    requires WellFormed(t) && IsThumbnailMode(m)
    ensures WellFormed(r) && r.id == t.id && r.file == t.file
    ensures Consistent(t) ==> Consistent(r)
    ensures GetThumbnail(r, m) == Some(Region(tex))
    ensures forall m' :: m' != m ==> GetThumbnail(r, m') == GetThumbnail(t, m')
  {
    var i := TierIndex(m);
    t.(textures := t.textures[i := Some(tex)], regions := t.regions[i := Some(Region(tex))])
  }

  /** `getThumbnail(viewMode)`: the region in the mode's slot; `None` for
      an empty slot and for a mode without a slot. */
  function GetThumbnail(t: Thumbnail, m: ViewMode): (r: Option<Region>)
    requires WellFormed(t)
    ensures !IsThumbnailMode(m) ==> r.None?
  {
    var i := TierIndex(m);
    if i < 0 then None else t.regions[i]
  }

  /** `dispose()` of a record: the textures disposed, in slot order. */
  function DisposeThumbnail(t: Thumbnail): (disposed: seq<Texture>)
    requires WellFormed(t)
    ensures |disposed| <= TIERS
    ensures forall x :: x in disposed <==> Some(x) in t.textures
  {
    SlotTexture(t.textures[0]) + SlotTexture(t.textures[1]) + SlotTexture(t.textures[2])
  }

  function SlotTexture(tex: Option<Texture>): (s: seq<Texture>) {
    match tex
    case None => []
    case Some(x) => [x]
  }

  // ---------------------------------------------------------------------
  // Laws of the tier table

  /** In a consistent record the drawable of a mode is present exactly
      when its texture is, and is made from that texture. */
  lemma DrawableHasTexture(t: Thumbnail, m: ViewMode)
    requires WellFormed(t) && Consistent(t) && IsThumbnailMode(m)
    ensures GetThumbnail(t, m).Some? <==> t.textures[TierIndex(m)].Some?
    ensures GetThumbnail(t, m).Some? ==> GetThumbnail(t, m).value.texture == t.textures[TierIndex(m)].value
  {
  }

  /** Storing twice into the same mode keeps only the second texture: the
      first is neither reachable nor disposed with the record. */
  lemma OverwriteDropsTexture(t: Thumbnail, m: ViewMode, first: Texture, second: Texture)
    requires WellFormed(t) && IsThumbnailMode(m)
    requires first != second
    requires forall i :: 0 <= i < TIERS ==> t.textures[i] != Some(first)
    requires forall m' :: m' != m ==> GetThumbnail(t, m') != Some(Region(first))
    ensures var r := AddThumb(AddThumb(t, m, first), m, second);
      && GetThumbnail(r, m) == Some(Region(second))
      && first !in DisposeThumbnail(r)
      && forall m' :: GetThumbnail(r, m') != Some(Region(first))
  {
    var r := AddThumb(AddThumb(t, m, first), m, second);
    var k := TierIndex(m);
    forall i | 0 <= i < TIERS
      ensures r.textures[i] != Some(first)
    {
      if i != k {
        assert r.textures[i] == t.textures[i];
      }
    }
  }
}
