/** What a finished save or delete means for the store seen as a map from (folder, subfolder, filename). */
module S3Refinement {
  import opened Common
  import opened Parts
  import opened S3Keys
  import opened S3Service
  import opened S3Storage
  import Arithmetic

  type Objects = map<string, Object>

  /** The content stored under a logical name, if any. */
  function Lookup(b: S3StorageBackend, objects: Objects, folder: string, subfolder: string, filename: string)
    : Option<Bytes>
  {
    var key := b.Key(folder, subfolder, filename);
    if key in objects then Some(objects[key].body) else None
  }

  ghost function Listed(b: S3StorageBackend, objects: Objects, folder: string, subfolder: string): set<string> {
    Children(objects.Keys, b.FolderPrefix(folder, subfolder))
  }

  /** A successful save sets exactly one logical entry and adds its name to exactly one folder's listing. */
  lemma SaveRefinesMap(b: S3StorageBackend, objects: Objects, now: Objects, before: seq<Call>, calls: seq<Call>,
                       id: nat, f: string, s: string, n: string, content: Bytes, overwrite: bool,
                       g: string, t: string, m: string)
    requires b.Configured() && IsSha256(b.hash) && CollisionFree(b.hash, {f, s, g, t}) && PlainName(n)
    requires b.Saved(objects, now, before, calls, id, b.Key(f, s, n), content, overwrite)
    ensures Lookup(b, now, g, t, m) == if g == f && t == s && m == n then Some(content) else Lookup(b, objects, g, t, m)
    ensures Listed(b, now, g, t) == Listed(b, objects, g, t) + (if g == f && t == s then {n} else {})
    ensures !overwrite ==> Lookup(b, objects, f, s, n) == None
  {
    KeyInjective(b.hash, b.prefix, f, s, n, g, t, m);
    ListingAfterSave(b.hash, b.prefix, objects.Keys, f, s, n, g, t);
    assert now.Keys == objects.Keys + {b.Key(f, s, n)};
  }

  /** A successful delete removes exactly one logical entry, from exactly one folder's listing. */
  lemma DeleteRefinesMap(b: S3StorageBackend, objects: Objects, f: string, s: string, n: string,
                         g: string, t: string, m: string)
    requires IsSha256(b.hash) && CollisionFree(b.hash, {f, s, g, t}) && PlainName(n)
    ensures var now := objects - {b.Key(f, s, n)};
            Lookup(b, now, g, t, m) == (if g == f && t == s && m == n then None else Lookup(b, objects, g, t, m))
            && Listed(b, now, g, t) == Listed(b, objects, g, t) - (if g == f && t == s then {n} else {})
  {
    KeyInjective(b.hash, b.prefix, f, s, n, g, t, m);
    ListingAfterSave(b.hash, b.prefix, objects.Keys, f, s, n, g, t);
    assert (objects - {b.Key(f, s, n)}).Keys == objects.Keys - {b.Key(f, s, n)};
  }

  /** A successful save leaves no untruthful digest tag, whether or not tagging succeeded. */
  lemma SaveKeepsTagsTruthful(b: S3StorageBackend, objects: Objects, now: Objects, before: seq<Call>, calls: seq<Call>,
                              id: nat, key: string, content: Bytes, overwrite: bool)
    requires b.Configured() && IsSha256(b.hash) && TagsTruthful(b.hash, objects)
    requires b.Saved(objects, now, before, calls, id, key, content, overwrite)
    ensures TagsTruthful(b.hash, now)
  {
    OwnTagIsTruthful(b.hash, content, now[key].modified);
    assert now[key] == Object(now[key].body, now[key].tags, now[key].modified);
  }

  /**
   * The size limit alone decides which content fits exactly when the largest content it allows is small enough
   * for one PUT or for 10000 parts.  Otherwise that very size is within the limit and does not fit.
   */
  lemma SizeLimitDecidesIff(b: S3StorageBackend)
    requires b.Configured()
    ensures (forall size: nat :: b.Fits(size) <==> size <= b.maxSize)
            <==> b.maxSize < b.multipartThreshold || b.maxSize <= MAX_PART_NUMBER * b.multipartChunkSize
  {
    forall size: nat
      ensures CeilDiv(size, b.multipartChunkSize) <= MAX_PART_NUMBER
              <==> size <= MAX_PART_NUMBER * b.multipartChunkSize
    {
      Arithmetic.CeilDivAtMost(size, b.multipartChunkSize, MAX_PART_NUMBER);
    }
    assert b.Fits(b.maxSize) <==>
           b.maxSize < b.multipartThreshold || CeilDiv(b.maxSize, b.multipartChunkSize) <= MAX_PART_NUMBER;
  }

  /** The parts of a finished multipart upload, as the trace of `Saved` shows them. */
  lemma UploadedParts(b: S3StorageBackend, id: nat, content: Bytes, tagging: Call)
    requires b.Configured() && |content| > 0
    ensures var n := CeilDiv(|content|, b.multipartChunkSize);
            var trace := b.UploadTrace(id, content, tagging);
            |trace| == n + 3
            && (forall i :: 1 <= i <= n ==> trace[i].SendPart? && trace[i].number == i
                                            && 1 <= |trace[i].body| <= b.multipartChunkSize
                                            && (i < n ==> |trace[i].body| == b.multipartChunkSize))
            && Flatten(Chunks(content, b.multipartChunkSize)) == content
  {
    ChunksReassemble(content, b.multipartChunkSize);
  }
}
