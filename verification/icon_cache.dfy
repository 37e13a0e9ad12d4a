/** The caching icon provider: an insertion-ordered list of per-file
    records, looked up by a linear scan, grown by one record on every miss
    and trimmed from the oldest end only when generation is restarted.
    Generation itself is asynchronous; here a request returns the job it
    schedules, and `Complete` is what the job does once its texture exists. */
module IconCache {
  import opened Options
  import opened JavaInts
  import opened Thumbnails

  const MAX_CACHED: nat := 600

  datatype Cache = Cache(thumbnails: seq<Thumbnail>, nextId: nat)

  /** The empty cache of a new provider. */
  const EMPTY: Cache := Cache([], 0)

  predicate RecordsWellFormed(ts: seq<Thumbnail>) {
    forall i :: 0 <= i < |ts| ==> WellFormed(ts[i]) && Consistent(ts[i])
  }

  predicate UniqueFiles(ts: seq<Thumbnail>) {
    forall i, j :: 0 <= i < j < |ts| ==> ts[i].file != ts[j].file
  }

  /** Records are in creation order: older records come first. */
  predicate IdsIncreasing(ts: seq<Thumbnail>) {
    forall i, j :: 0 <= i < j < |ts| ==> ts[i].id < ts[j].id
  }

  /** The invariant of the record list: well-formed records, at most one
      per file, in creation order, all created before `nextId`. */
  predicate Valid(c: Cache) {
    && RecordsWellFormed(c.thumbnails)
    && UniqueFiles(c.thumbnails)
    && IdsIncreasing(c.thumbnails)
    && (forall i :: 0 <= i < |c.thumbnails| ==> c.thumbnails[i].id < c.nextId)
  }

  /** `getThumbnail(file)`: the position of the first record for `file`. */
  function Find(ts: seq<Thumbnail>, file: string): (r: Option<nat>)
    ensures r.Some? ==> r.value < |ts| && ts[r.value].file == file
    ensures r.Some? ==> forall j :: 0 <= j < r.value ==> ts[j].file != file
    ensures r.None? <==> forall j :: 0 <= j < |ts| ==> ts[j].file != file
  {
    if ts == [] then None
    else if ts[0].file == file then Some(0)
    else
      match Find(ts[1..], file)
      case None => None
      case Some(i) => Some(i + 1)
  }

  /** The position of the record object with identity `id`, if it is still
      in the list. */
  function FindId(ts: seq<Thumbnail>, id: nat): (r: Option<nat>)
    ensures r.Some? ==> r.value < |ts| && ts[r.value].id == id
    ensures r.None? <==> forall j :: 0 <= j < |ts| ==> ts[j].id != id
  {
    if ts == [] then None
    else if ts[0].id == id then Some(0)
    else
      match FindId(ts[1..], id)
      case None => None
      case Some(i) => Some(i + 1)
  }

  /** The icon a request returns: a generated thumbnail, or the provider's
      ordinary (non-thumbnail) icon. */
  datatype Icon = Thumb(region: Region) | Fallback

  /** A scheduled generation job: the record it will fill, the file, the
      view mode and thumbnail size at scheduling time. */
  datatype Job = Job(recordId: nat, file: string, viewMode: ViewMode, thumbSize: real)

  datatype IconResult = IconResult(cache: Cache, icon: Icon, scheduled: Option<Job>)

  /** The record for `file` after a lookup that inserts on a miss. */
  function RecordFor(c: Cache, file: string): (r: Cache)
    requires Valid(c)
    ensures Valid(r)
    ensures Find(c.thumbnails, file).Some? ==> r == c
    ensures Find(c.thumbnails, file).None? ==>
              r == Cache(c.thumbnails + [NewThumbnail(c.nextId, file)], c.nextId + 1)
    ensures Find(r.thumbnails, file).Some?
  {
    match Find(c.thumbnails, file)
    case Some(_) => c
    case None =>
      var r := Cache(c.thumbnails + [NewThumbnail(c.nextId, file)], c.nextId + 1);
      assert r.thumbnails[|c.thumbnails|].file == file;
      r
  }

  /** `getImageIcon(item)`. In a thumbnail mode the file's record is found,
      or appended when missing; its drawable for the mode is returned when
      there is one, and otherwise a job is scheduled (on every such call:
      pending jobs are not tracked) and the ordinary icon returned. In any
      other mode nothing changes and the ordinary icon is returned. */
  function GetImageIcon(c: Cache, file: string, mode: ViewMode, thumbSize: real): (r: IconResult)
    requires Valid(c)
    ensures Valid(r.cache)
    ensures !IsThumbnailMode(mode) ==> r == IconResult(c, Fallback, None)
    ensures IsThumbnailMode(mode) ==> r.cache == RecordFor(c, file)
    ensures IsThumbnailMode(mode) ==> (r.icon.Thumb? <==> r.scheduled.None?)
    ensures r.icon.Thumb? ==>
              var i := Find(r.cache.thumbnails, file).value;
              GetThumbnail(r.cache.thumbnails[i], mode) == Some(r.icon.region)
    ensures r.scheduled.Some? ==>
              var i := Find(r.cache.thumbnails, file).value;
              && GetThumbnail(r.cache.thumbnails[i], mode).None?
              && r.scheduled.value == Job(r.cache.thumbnails[i].id, file, mode, thumbSize)
  {
    if !IsThumbnailMode(mode) then IconResult(c, Fallback, None)
    else
      var c' := RecordFor(c, file);
      var t := c'.thumbnails[Find(c'.thumbnails, file).value];
      match GetThumbnail(t, mode)
      case Some(region) => IconResult(c', Thumb(region), None)
      case None => IconResult(c', Fallback, Some(Job(t.id, file, mode, thumbSize)))
  }

  /** What a job's completion does on the render thread. */
  datatype Completion = Completion(cache: Cache, shown: Region)

  /** A job completes with a new texture: `addThumb` on the record object
      the job holds, then the item shows that record's drawable for the
      job's mode. If the record has since been evicted, the detached object
      is the one updated and the list is unchanged. */
  function Complete(c: Cache, job: Job, tex: Texture): (r: Completion)
    requires Valid(c) && IsThumbnailMode(job.viewMode)
    ensures Valid(r.cache) && r.cache.nextId == c.nextId && |r.cache.thumbnails| == |c.thumbnails|
    ensures r.shown == Region(tex)
    ensures FindId(c.thumbnails, job.recordId).None? ==> r.cache == c
    ensures FindId(c.thumbnails, job.recordId).Some? ==>
              var i := FindId(c.thumbnails, job.recordId).value;
              && r.cache.thumbnails[i] == AddThumb(c.thumbnails[i], job.viewMode, tex)
              && forall j :: 0 <= j < |c.thumbnails| && j != i ==> r.cache.thumbnails[j] == c.thumbnails[j]
  {
    match FindId(c.thumbnails, job.recordId)
    case None => Completion(c, Region(tex))
    case Some(i) =>
      var t := AddThumb(c.thumbnails[i], job.viewMode, tex);
      Completion(Cache(c.thumbnails[i := t], c.nextId), Region(tex))
  }

  /** The textures disposed by disposing every record of `ts` in order:
      exactly those held by some record. */
  function DisposeAll(ts: seq<Thumbnail>): (disposed: seq<Texture>)
    requires forall i :: 0 <= i < |ts| ==> WellFormed(ts[i])
    ensures forall x :: x in disposed <==> exists i :: 0 <= i < |ts| && Some(x) in ts[i].textures
  {
    if ts == [] then []
    else
      var front := ts[..|ts| - 1];
      var last := ts[|ts| - 1];
      var d := DisposeAll(front) + DisposeThumbnail(last);
      assert forall x :: x in d <==> exists i :: 0 <= i < |ts| && Some(x) in ts[i].textures by {
        forall x
          ensures x in d <==> exists i :: 0 <= i < |ts| && Some(x) in ts[i].textures
        {
          if x in DisposeAll(front) {
            var i :| 0 <= i < |front| && Some(x) in front[i].textures;
            assert ts[i] == front[i];
          }
          if exists i :: 0 <= i < |ts| && Some(x) in ts[i].textures {
            var i :| 0 <= i < |ts| && Some(x) in ts[i].textures;
            if i < |ts| - 1 {
              assert front[i] == ts[i];
            }
          }
        }
      }
      d
  }

  datatype Trim = Trim(cache: Cache, disposed: seq<Texture>)

  /** How many of the oldest records a trim removes from a list of `size`
      records: indices 0 through `size - 600` inclusive. */
  function EvictedCount(size: nat): (n: nat)
    requires size > MAX_CACHED
    ensures n == size - (MAX_CACHED - 1)
  {
    size - MAX_CACHED + 1
  }

  /** `optimizeCache()`: when there are more than 600 records, the oldest
      are disposed and removed, leaving the newest 599 in their order. */
  function OptimizeCache(c: Cache): (r: Trim)
    requires Valid(c)
    ensures Valid(r.cache) && r.cache.nextId == c.nextId
    ensures |r.cache.thumbnails| <= MAX_CACHED
    ensures |c.thumbnails| <= MAX_CACHED ==> r == Trim(c, [])
    ensures |c.thumbnails| > MAX_CACHED ==>
              var n := EvictedCount(|c.thumbnails|);
              && |r.cache.thumbnails| == MAX_CACHED - 1
              && c.thumbnails == c.thumbnails[..n] + r.cache.thumbnails
              && r.disposed == DisposeAll(c.thumbnails[..n])
  {
    var ts := c.thumbnails;
    if |ts| <= MAX_CACHED then Trim(c, [])
    else
      var n := EvictedCount(|ts|);
      assert ts == ts[..n] + ts[n..];
      Trim(Cache(ts[n..], c.nextId), DisposeAll(ts[..n]))
  }

  /** `restartThumbnailGeneration()`, run on a directory or view-mode
      change: pending jobs are dropped (not modelled) and the cache is
      trimmed. */
  function RestartThumbnailGeneration(c: Cache): (r: Trim)
    requires Valid(c)
    ensures Valid(r.cache) && |r.cache.thumbnails| <= MAX_CACHED
    ensures r == OptimizeCache(c)
  {
    OptimizeCache(c)
  }

  /** `dispose()` of the provider: every record's textures are disposed,
      then the list is emptied. */
  function DisposeProvider(c: Cache): (r: Trim)
    requires Valid(c)
    ensures Valid(r.cache) && r.cache.thumbnails == []
    ensures forall x :: x in r.disposed <==> exists i :: 0 <= i < |c.thumbnails| && Some(x) in c.thumbnails[i].textures
  {
    Trim(Cache([], c.nextId), DisposeAll(c.thumbnails))
  }

  // ---------------------------------------------------------------------
  // Requests over time

  /** Requests for each of `files` in turn, in one mode. */
  function RequestAll(c: Cache, files: seq<string>, mode: ViewMode, thumbSize: real): (r: Cache)
    requires Valid(c)
    ensures Valid(r)
    decreases |files|
  {
    if files == [] then c
    else RequestAll(GetImageIcon(c, files[0], mode, thumbSize).cache, files[1..], mode, thumbSize)
  }

  /** Requests never trim: in a thumbnail mode, requests for files the
      cache does not hold add one record each, past 600 if need be. */
  lemma {:induction false} InsertionsNeverTrim(c: Cache, files: seq<string>, mode: ViewMode, thumbSize: real)
    requires Valid(c) && IsThumbnailMode(mode)
    requires forall i, j :: 0 <= i < j < |files| ==> files[i] != files[j]
    requires forall i, j :: 0 <= i < |files| && 0 <= j < |c.thumbnails| ==> files[i] != c.thumbnails[j].file
    ensures |RequestAll(c, files, mode, thumbSize).thumbnails| == |c.thumbnails| + |files|
    decreases |files|
  {
    if files != [] {
      var c' := GetImageIcon(c, files[0], mode, thumbSize).cache;
      assert Find(c.thumbnails, files[0]).None?;
      assert c'.thumbnails == c.thumbnails + [NewThumbnail(c.nextId, files[0])];
      forall i, j | 0 <= i < |files[1..]| && 0 <= j < |c'.thumbnails|
        ensures files[1..][i] != c'.thumbnails[j].file
      {
        if j == |c.thumbnails| {
          assert files[1..][i] == files[i + 1];
        } else {
          assert c'.thumbnails[j] == c.thumbnails[j];
        }
      }
      InsertionsNeverTrim(c', files[1..], mode, thumbSize);
    }
  }

  /** From an empty cache, requests for more than 600 distinct files leave
      more than 600 records. */
  lemma CacheGrowsPastCapacity(files: seq<string>, mode: ViewMode, thumbSize: real)
    requires IsThumbnailMode(mode)
    requires forall i, j :: 0 <= i < j < |files| ==> files[i] != files[j]
    requires |files| > MAX_CACHED
    ensures |RequestAll(EMPTY, files, mode, thumbSize).thumbnails| > MAX_CACHED
  {
    InsertionsNeverTrim(EMPTY, files, mode, thumbSize);
  }

  /** A request that schedules a job leaves nothing that stops the next
      request for the same file from scheduling the same job again. */
  lemma RepeatedRequestReschedules(c: Cache, file: string, mode: ViewMode, thumbSize: real)
    requires Valid(c)
    requires GetImageIcon(c, file, mode, thumbSize).scheduled.Some?
    ensures var r1 := GetImageIcon(c, file, mode, thumbSize);
      var r2 := GetImageIcon(r1.cache, file, mode, thumbSize);
      r2 == r1
  {
  }

  /** Once a scheduled job completes, the next request for the file in
      that mode returns the new drawable and schedules nothing. */
  lemma CompleteThenHit(c: Cache, file: string, mode: ViewMode, thumbSize: real, tex: Texture, later: real)
    requires Valid(c)
    requires GetImageIcon(c, file, mode, thumbSize).scheduled.Some?
    ensures var r1 := GetImageIcon(c, file, mode, thumbSize);
      var done := Complete(r1.cache, r1.scheduled.value, tex);
      var r2 := GetImageIcon(done.cache, file, mode, later);
      r2.icon == Thumb(Region(tex)) && r2.scheduled.None? && r2.cache == done.cache
  {
    var r1 := GetImageIcon(c, file, mode, thumbSize);
    var ts := r1.cache.thumbnails;
    var i := Find(ts, file).value;
    var job := r1.scheduled.value;
    assert FindId(ts, job.recordId) == Some(i) by {
      IdLocates(ts, i);
    }
    var done := Complete(r1.cache, job, tex);
    assert done.cache.thumbnails[i].file == file;
    assert Find(done.cache.thumbnails, file) == Some(i) by {
      forall j | 0 <= j < i
        ensures done.cache.thumbnails[j].file != file
      {
        assert done.cache.thumbnails[j] == ts[j];
      }
    }
  }

  /** In a list with increasing ids, the record at `i` is the one found by
      its id. */
  lemma IdLocates(ts: seq<Thumbnail>, i: nat)
    requires IdsIncreasing(ts) && i < |ts|
    ensures FindId(ts, ts[i].id) == Some(i)
  {
  }

  /** A job whose record was evicted by a trim completes without effect
      on the cache: its texture ends up in no record, so no later trim or
      dispose frees it. */
  lemma EvictedJobIgnored(c: Cache, job: Job, tex: Texture, i: nat)
    requires Valid(c) && IsThumbnailMode(job.viewMode)
    requires |c.thumbnails| > MAX_CACHED
    requires i < EvictedCount(|c.thumbnails|) && c.thumbnails[i].id == job.recordId
    ensures var trimmed := OptimizeCache(c).cache;
      Complete(trimmed, job, tex).cache == trimmed
  {
    EvictedAbsent(c, i);
  }

  /** Requesting an evicted file again creates a new record that the old
      job cannot fill: after the old job completes, the request still
      finds no drawable and schedules once more. */
  lemma EvictedFileRescheduled(c: Cache, job: Job, tex: Texture, i: nat, thumbSize: real)
    requires Valid(c) && IsThumbnailMode(job.viewMode)
    requires |c.thumbnails| > MAX_CACHED
    requires i < EvictedCount(|c.thumbnails|) && c.thumbnails[i].id == job.recordId
    requires c.thumbnails[i].file == job.file
    ensures var trimmed := OptimizeCache(c).cache;
      var r1 := GetImageIcon(trimmed, job.file, job.viewMode, thumbSize);
      var done := Complete(r1.cache, job, tex);
      GetImageIcon(done.cache, job.file, job.viewMode, thumbSize).scheduled.Some?
  {
    var trimmed := OptimizeCache(c).cache;
    EvictedAbsent(c, i);
    var r1 := GetImageIcon(trimmed, job.file, job.viewMode, thumbSize);
    assert r1.cache.thumbnails == trimmed.thumbnails + [NewThumbnail(c.nextId, job.file)];
    assert FindId(r1.cache.thumbnails, job.recordId).None?;
  }

  /** After a trim, no kept record has the file or the identity of an
      evicted one. */
  lemma EvictedAbsent(c: Cache, i: nat)
    requires Valid(c) && |c.thumbnails| > MAX_CACHED
    requires i < EvictedCount(|c.thumbnails|)
    ensures var kept := OptimizeCache(c).cache.thumbnails;
      forall j :: 0 <= j < |kept| ==> kept[j].file != c.thumbnails[i].file && kept[j].id != c.thumbnails[i].id
  {
    var n := EvictedCount(|c.thumbnails|);
    var kept := OptimizeCache(c).cache.thumbnails;
    forall j | 0 <= j < |kept|
      ensures kept[j].file != c.thumbnails[i].file && kept[j].id != c.thumbnails[i].id
    {
      assert kept[j] == c.thumbnails[n + j];
    }
  }

  /** Every record a trim keeps is newer than every record it removes. */
  lemma TrimKeepsNewest(c: Cache)
    requires Valid(c) && |c.thumbnails| > MAX_CACHED
    ensures var n := EvictedCount(|c.thumbnails|);
      var kept := OptimizeCache(c).cache.thumbnails;
      forall i, j :: 0 <= i < n && 0 <= j < |kept| ==> c.thumbnails[i].id < kept[j].id
  {
    var n := EvictedCount(|c.thumbnails|);
    var kept := OptimizeCache(c).cache.thumbnails;
    forall i, j | 0 <= i < n && 0 <= j < |kept|
      ensures c.thumbnails[i].id < kept[j].id
    {
      assert kept[j] == c.thumbnails[n + j];
    }
  }
}
