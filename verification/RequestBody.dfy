/**
 Creating a body storage (common/body_storage.go, lines 241-303) and caching it on
 a request (common/gin.go, lines 36-106).
 */
module RequestBody {
  import opened BodyStorage
  import opened Numbers
  import opened Wrappers

  /** A request body on the wire. */
  class BodyReader {
    var rest: seq<Byte>
    var open: bool
    const broken: bool   // reading it reports an error

    constructor (rest: seq<Byte>, broken: bool)
      ensures this.rest == rest && open && this.broken == broken
    {
      this.rest, this.open, this.broken := rest, true, broken;
    }

    ghost predicate Readable()
      reads this
    {
      open && !broken
    }

    /** Reads to the end, or up to limit bytes. */
    method ReadLimited(limit: int) returns (data: seq<Byte>, ok: bool)
      modifies this`rest
      ensures ok == old(Readable())
      ensures ok ==> data == old(rest)[..Min(Max(0, limit), |old(rest)|)] && rest == old(rest)[|data|..]
    {
      data, ok := [], open && !broken;
      if ok {
        var n := Min(Max(0, limit), |rest|);
        data, rest := rest[..n], rest[n..];
      }
    }

    method Close()
      modifies this`open
      ensures !open
    {
      open := false;
    }
  }

  datatype Created = Stored(storage: Storage) | TooLarge | Failed

  /** Exactly one storage is open that was not before. */
  twostate predicate Opened(cache: Cache, new s: Storage)
    reads cache
  {
    match s
    case InMemory(m) => cache.openMemory == old(cache.openMemory) + {m} && cache.openDisk == old(cache.openDisk)
    case OnDisk(d) => cache.openDisk == old(cache.openDisk) + {d} && cache.openMemory == old(cache.openMemory)
  }

  /** Whether data of this size goes to disk. */
  ghost predicate GoesToDisk(cache: Cache, size: int)
    reads cache
  {
    cache.enabled && size >= cache.ThresholdBytes() && cache.DiskCacheAvailable(size)
  }

  method CreateBodyStorage(cache: Cache, data: seq<Byte>, diskFails: bool) returns (s: Storage)
    requires cache.Valid()
    modifies cache
    ensures cache.Valid() && s.Valid() && s.Owner() == cache && fresh(s.Parts())
    ensures s.View() == Buffer(data, 0, false)
    ensures s.OnDisk? <==> old(GoesToDisk(cache, |data|)) && !diskFails
    ensures s.OnDisk? <==> && old(cache.enabled) && |data| >= old(cache.thresholdMB) * 1_048_576
                           && old(cache.currentDiskUsageBytes) + |data| <= old(cache.maxSizeMB) * 1_048_576
                           && !diskFails
    ensures Opened(cache, s) && cache.Apart() == old(cache.Apart())
    ensures cache.currentDiskUsageBytes == old(cache.currentDiskUsageBytes) + if s.OnDisk? then |data| else 0
  {
    hide Cache.Valid;
    var size := |data|;
    var threshold := cache.ThresholdBytes();
    if cache.enabled && size >= threshold && cache.DiskCacheAvailable(size) {
      if !diskFails {
        var d := new DiskStorage(cache, data);
        return OnDisk(d);
      }
      // a failing disk falls back to memory
    }
    var m := new MemoryStorage(cache, data);
    return InMemory(m);
  }

  /** Whether a body announced with this length is streamed to disk. */
  ghost predicate StreamsToDisk(cache: Cache, contentLength: int)
    reads cache
  {
    contentLength > 0 && GoesToDisk(cache, contentLength)
  }

  /** Streams a body to a new file; one that is too large or cannot be read is
      not counted. */
  method NewDiskStorageFromReader(cache: Cache, reader: BodyReader, maxBytes: int, diskFails: bool)
    returns (r: Created)
    requires cache.Valid()
    modifies cache, reader`rest
    ensures cache.Valid()
    ensures r.Stored? <==> old(reader.Readable()) && !diskFails && |old(reader.rest)| <= maxBytes
    ensures r.TooLarge? <==> old(reader.Readable()) && !diskFails && |old(reader.rest)| > maxBytes
    ensures !r.Stored? ==> unchanged(cache)
    ensures r.Stored? ==>
              && r.storage.OnDisk? && r.storage.Valid() && r.storage.Owner() == cache && fresh(r.storage.Parts())
              && r.storage.View() == Buffer(old(reader.rest), 0, false)
              && Opened(cache, r.storage) && cache.Apart() == old(cache.Apart())
              && cache.currentDiskUsageBytes == old(cache.currentDiskUsageBytes) + |old(reader.rest)|
  {
    hide Cache.Valid;
    if diskFails {
      return Failed;
    }
    var written, ok := reader.ReadLimited(maxBytes + 1);
    if !ok {
      return Failed;
    }
    if |written| > maxBytes {
      return TooLarge;
    }
    assert written == old(reader.rest);
    var d := new DiskStorage(cache, written);
    return Stored(OnDisk(d));
  }

  /** Reads a body into memory first, then decides where it goes. */
  method StoreReadBody(cache: Cache, reader: BodyReader, maxBytes: int, diskFails: bool)
    returns (r: Created)
    requires cache.Valid()
    modifies cache, reader`rest
    ensures cache.Valid()
    ensures r.Stored? <==> old(reader.Readable()) && |old(reader.rest)| <= maxBytes
    ensures r.TooLarge? <==> old(reader.Readable()) && |old(reader.rest)| > maxBytes
    ensures !r.Stored? ==> unchanged(cache)
    ensures r.Stored? ==>
              && r.storage.Valid() && r.storage.Owner() == cache && fresh(r.storage.Parts())
              && r.storage.View() == Buffer(old(reader.rest), 0, false)
              && (r.storage.OnDisk? <==> old(GoesToDisk(cache, |reader.rest|)) && !diskFails)
              && Opened(cache, r.storage) && cache.Apart() == old(cache.Apart())
              && cache.currentDiskUsageBytes
                 == old(cache.currentDiskUsageBytes) + if r.storage.OnDisk? then |old(reader.rest)| else 0
  {
    hide Cache.Valid;
    var data, ok := reader.ReadLimited(maxBytes + 1);
    if !ok {
      return Failed;
    }
    if |data| > maxBytes {
      return TooLarge;
    }
    assert data == old(reader.rest);
    var storage := CreateBodyStorage(cache, data, diskFails);
    return Stored(storage);
  }

  /** The counters apart from the open storages, after one more hit. */
  function WithHit(f: Fixed, disk: bool): Fixed {
    if disk then f.(diskCacheHits := f.diskCacheHits + 1) else f.(memoryCacheHits := f.memoryCacheHits + 1)
  }

  /** Which bodies are stored: those that can be read and have at most maxBytes
      bytes, unless they are streamed to a disk that fails. */
  ghost predicate Storable(cache: Cache, reader: BodyReader, contentLength: int, maxBytes: int, diskFails: bool)
    reads cache, reader
  {
    reader.Readable() && |reader.rest| <= maxBytes && !(StreamsToDisk(cache, contentLength) && diskFails)
  }

  /** One more hit of the storage's kind. */
  method CountHit(cache: Cache, s: Storage)
    requires cache.Valid() && s.Valid() && s.Owner() == cache
    modifies cache`diskCacheHits, cache`memoryCacheHits
    ensures cache.Valid() && s.Valid()
    ensures cache.Apart() == WithHit(old(cache.Apart()), s.OnDisk?)
  {
    if s.InMemory? {
      cache.IncrementMemoryCacheHits();
    } else {
      cache.IncrementDiskCacheHits();
    }
  }

  /** A body that is streamed to disk under an announced length that fits, but is
      itself too long to fit. */
  ghost predicate OverQuota(cache: Cache, reader: BodyReader, contentLength: int)
    reads cache, reader
    ensures |reader.rest| <= contentLength ==> !OverQuota(cache, reader, contentLength)
  {
    StreamsToDisk(cache, contentLength) && cache.currentDiskUsageBytes + |reader.rest| > cache.MaxSizeBytes()
  }

  /** Streams a body to disk or reads it first, by its announced length. */
  method StoreBody(cache: Cache, reader: BodyReader, contentLength: int, maxBytes: int, diskFails: bool)
    returns (r: Created)
    requires cache.Valid()
    modifies cache, reader`rest
    ensures cache.Valid()
    ensures r.Stored? <==> old(Storable(cache, reader, contentLength, maxBytes, diskFails))
    ensures !r.Stored? ==> unchanged(cache)
    ensures r.TooLarge? <==> old(reader.Readable()) && |old(reader.rest)| > maxBytes
                             && !(old(StreamsToDisk(cache, contentLength)) && diskFails)
    ensures r.Stored? ==>
              && r.storage.Valid() && r.storage.Owner() == cache && fresh(r.storage.Parts())
              && r.storage.View() == Buffer(old(reader.rest), 0, false)
              && (r.storage.OnDisk? <==> old(StreamsToDisk(cache, contentLength))
                                         || (old(GoesToDisk(cache, |reader.rest|)) && !diskFails))
              && Opened(cache, r.storage) && cache.Apart() == old(cache.Apart())
              && cache.currentDiskUsageBytes
                 == old(cache.currentDiskUsageBytes) + if r.storage.OnDisk? then |old(reader.rest)| else 0
  {
    hide Cache.Valid;
    var threshold := cache.ThresholdBytes();
    if cache.enabled && contentLength > 0 && contentLength >= threshold && cache.DiskCacheAvailable(contentLength) {
      r := NewDiskStorageFromReader(cache, reader, maxBytes, diskFails);
    } else {
      r := StoreReadBody(cache, reader, maxBytes, diskFails);
    }
  }

  method CreateBodyStorageFromReader(cache: Cache, reader: BodyReader,
                                     contentLength: int, maxBytes: int, diskFails: bool)
    returns (r: Created)
    requires cache.Valid()
    modifies cache, reader`rest
    ensures cache.Valid()
    // all or nothing
    ensures r.Stored? <==> old(Storable(cache, reader, contentLength, maxBytes, diskFails))
    ensures r.Stored? <==> && old(reader.open) && !reader.broken && |old(reader.rest)| <= maxBytes
                           && !(old(StreamsToDisk(cache, contentLength)) && diskFails)
    ensures !r.Stored? ==> unchanged(cache)
    ensures r.TooLarge? <==> old(reader.Readable()) && |old(reader.rest)| > maxBytes
                             && !(old(StreamsToDisk(cache, contentLength)) && diskFails)
    // a body is streamed to disk, without having been read, by its announced length
    ensures old(StreamsToDisk(cache, contentLength)) <==>
              && old(cache.enabled) && contentLength > 0 && contentLength >= old(cache.thresholdMB) * 1_048_576
              && old(cache.currentDiskUsageBytes) + contentLength <= old(cache.maxSizeMB) * 1_048_576
    // the whole body, rewound, and exactly one hit
    ensures r.Stored? ==>
              && r.storage.Valid() && r.storage.Owner() == cache && fresh(r.storage.Parts())
              && r.storage.View() == Buffer(old(reader.rest), 0, false)
              && (r.storage.OnDisk? <==> old(StreamsToDisk(cache, contentLength))
                                         || (old(GoesToDisk(cache, |reader.rest|)) && !diskFails))
              && Opened(cache, r.storage)
              && cache.Apart() == WithHit(old(cache.Apart()), r.storage.OnDisk?)
    ensures r.Stored? ==>
              && cache.diskCacheHits == old(cache.diskCacheHits) + (if r.storage.OnDisk? then 1 else 0)
              && cache.memoryCacheHits == old(cache.memoryCacheHits) + (if r.storage.OnDisk? then 0 else 1)
    // the disk quota is checked against the announced length
    ensures cache.currentDiskUsageBytes
         == old(cache.currentDiskUsageBytes) + if r.Stored? && r.storage.OnDisk? then |old(reader.rest)| else 0
    ensures old(cache.currentDiskUsageBytes <= cache.MaxSizeBytes()) ==>
              (cache.currentDiskUsageBytes <= cache.MaxSizeBytes()
               <==> !(r.Stored? && old(OverQuota(cache, reader, contentLength))))
  {
    hide Cache.Valid, StreamsToDisk, GoesToDisk, Storable;
    StorageChoice(cache, reader, contentLength, maxBytes, diskFails);
    ghost var over, streams := OverQuota(cache, reader, contentLength), StreamsToDisk(cache, contentLength);
    ghost var used, size, quota := cache.currentDiskUsageBytes, |reader.rest|, cache.MaxSizeBytes();
    assert over <==> streams && used + size > quota;
    assert GoesToDisk(cache, size) ==> used + size <= quota by { DiskHasRoom(cache, size); }
    r := StoreBody(cache, reader, contentLength, maxBytes, diskFails);
    if r.Stored? {
      CountHit(cache, r.storage);
      assert cache.MaxSizeBytes() == quota;
    }
  }

  lemma StorageChoice(cache: Cache, reader: BodyReader, contentLength: int, maxBytes: int, diskFails: bool)
    ensures StreamsToDisk(cache, contentLength) <==>
              && cache.enabled && contentLength > 0 && contentLength >= cache.thresholdMB * 1_048_576
              && cache.currentDiskUsageBytes + contentLength <= cache.maxSizeMB * 1_048_576
    ensures Storable(cache, reader, contentLength, maxBytes, diskFails) <==>
              && reader.open && !reader.broken && |reader.rest| <= maxBytes
              && !(StreamsToDisk(cache, contentLength) && diskFails)
  {
  }

  lemma DiskHasRoom(cache: Cache, size: int)
    ensures GoesToDisk(cache, size) ==> cache.currentDiskUsageBytes + size <= cache.MaxSizeBytes()
  {
  }

  const MEGABYTE := 0x10_0000

  const DEFAULT_MAX_MB := 128

  /** For example: a compressed body is replaced by its decompressed contents while
      its announced length stays (middleware/gzip.go, lines 50-66).  With a quota of
      one megabyte and one byte announced, a longer body within the largest request
      goes to disk whole and exceeds the quota. */
  method AnnouncedTooShort(decompressed: seq<Byte>) returns (cache: Cache, r: Created)
    requires MEGABYTE < |decompressed| <= DEFAULT_MAX_MB * MEGABYTE
    ensures fresh(cache) && cache.Valid()
    ensures r.Stored? && r.storage.OnDisk? && r.storage.Valid() && r.storage.Owner() == cache
    ensures r.storage.View() == Buffer(decompressed, 0, false) && cache.openDisk == {r.storage.d}
    ensures cache.maxSizeMB == 1 && cache.currentDiskUsageBytes == |decompressed| > 1_048_576
  {
    cache := new Cache(true, 0, 1);
    var body := new BodyReader(decompressed, false);
    r := CreateBodyStorageFromReader(cache, body, 1, DEFAULT_MAX_MB * MEGABYTE, false);
  }

  /** A request and the storage cached on it. */
  class RequestContext {
    const cache: Cache
    const body: BodyReader
    const contentLength: int
    const maxRequestBodyMB: int
    const cached: Option<seq<Byte>>   // the older way of caching a body
    var storage: Option<Storage>

    ghost function Parts(): set<object>
      reads this
    {
      if storage.Some? then storage.value.Parts() else {}
    }

    ghost predicate Valid()
      reads this, cache, cache.openMemory, cache.openDisk, Parts()
    {
      && cache.Valid()
      && (storage.Some? ==> storage.value.Owner() == cache && storage.value.Valid())
    }

    /** The open storages that are not this request's. */
    ghost function OtherMemory(): set<MemoryStorage>
      reads this, cache
    {
      if storage.Some? && storage.value.InMemory? then cache.openMemory - {storage.value.m} else cache.openMemory
    }

    ghost function OtherDisk(): set<DiskStorage>
      reads this, cache
    {
      if storage.Some? && storage.value.OnDisk? then cache.openDisk - {storage.value.d} else cache.openDisk
    }

    function MaxBytes(): int {
      (if maxRequestBodyMB <= 0 then DEFAULT_MAX_MB else maxRequestBodyMB) * MEGABYTE
    }

    constructor (cache: Cache, body: BodyReader, contentLength: int, maxRequestBodyMB: int, cached: Option<seq<Byte>>)
      requires cache.Valid()
      ensures Valid() && storage.None?
      ensures this.cache == cache && this.body == body && this.contentLength == contentLength
      ensures this.maxRequestBodyMB == maxRequestBodyMB && this.cached == cached
    {
      this.cache, this.body, this.contentLength := cache, body, contentLength;
      this.maxRequestBodyMB, this.cached, this.storage := maxRequestBodyMB, cached, None;
    }

    method GetRequestBody(diskFails: bool) returns (r: Created)
      requires Valid()
      modifies this, cache, body, Parts()
      ensures Valid()
      ensures OtherMemory() == old(OtherMemory()) && OtherDisk() == old(OtherDisk())
      // the storage is created once, and handed out rewound
      ensures old(storage).Some? ==>
                && storage == old(storage) && unchanged(cache) && unchanged(body)
                && r == (if old(storage.value.View().closed) then Failed else Stored(storage.value))
                && storage.value.View() == (if r.Stored? then old(storage.value.View()).(pos := 0)
                                            else old(storage.value.View()))
      ensures old(storage).None? ==>
                && storage == (if r.Stored? then Some(r.storage) else None)
                && (r.Stored? ==> fresh(r.storage.Parts()))
                && (r.Stored? ==>
                      r.storage.View() == Buffer(if cached.Some? then cached.value else old(body.rest), 0, false))
                && (r.Stored? <==> cached.Some? || old(Storable(cache, body, contentLength, MaxBytes(), diskFails)))
                && (cached.None? && r.Stored? ==>
                      |old(body.rest)| <= (if maxRequestBodyMB <= 0 then 128 else maxRequestBodyMB) * 1_048_576)
                && (cached.None? && r.TooLarge? ==>
                      |old(body.rest)| > (if maxRequestBodyMB <= 0 then 128 else maxRequestBodyMB) * 1_048_576)
                && (!r.Stored? ==> unchanged(cache))
    {
      hide Cache.Valid;
      if storage.Some? {
        var at := storage.value.Seek(0, 0);
        if at == StorageClosed {
          return Failed;
        }
        return Stored(storage.value);
      }
      if cached.Some? {
        var s := CreateBodyStorage(cache, cached.value, diskFails);
        storage := Some(s);
        return Stored(s);
      }
      r := CreateBodyStorageFromReader(cache, body, contentLength, MaxBytes(), diskFails);
      body.Close();
      if r.Stored? {
        storage := Some(r.storage);
      }
    }

    method CleanupBodyStorage()
      requires Valid()
      modifies this, cache, Parts()
      ensures Valid() && storage.None?
      ensures cache.openMemory == old(OtherMemory()) && cache.openDisk == old(OtherDisk())
    {
      hide Cache.Valid;
      if storage.Some? {
        var _ := storage.value.Close();
        storage := None;
      }
    }

    /** A whole request: the body is asked for any number of times, with the disk
        failing at any of them, and cleaned up at the end.  The counters come
        back to what they were. */
    method Serve(diskFails: seq<bool>)
      requires Valid() && storage.None?
      modifies this, cache, body
      ensures Valid() && storage.None?
      ensures cache.openMemory == old(cache.openMemory) && cache.openDisk == old(cache.openDisk)
      ensures cache.activeMemoryBuffers == old(cache.activeMemoryBuffers)
      ensures cache.currentMemoryUsageBytes == old(cache.currentMemoryUsageBytes)
      ensures cache.activeDiskFiles == old(cache.activeDiskFiles)
      ensures cache.currentDiskUsageBytes == old(cache.currentDiskUsageBytes)
    {
      for i := 0 to |diskFails|
        invariant Valid()
        invariant storage.Some? ==> fresh(Parts())
        invariant OtherMemory() == old(cache.openMemory) && OtherDisk() == old(cache.openDisk)
      {
        var _ := GetRequestBody(diskFails[i]);
      }
      CleanupBodyStorage();
    }
  }
}
