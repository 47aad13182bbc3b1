/** The S3 storage backend of `vsem_fms/app/storage/s3.py`. */
module S3Storage {
  import Arithmetic
  import opened Common
  import opened Names
  import opened Paging
  import opened Parts
  import opened S3Keys
  import opened S3Listing
  import opened S3Service
  import opened Streams

  const SHA256_TAG := "sha256"
  const LIST_PAGE: nat := 1000

  /** The calls made since `before`. */
  ghost function Since(before: seq<Call>, now: seq<Call>): seq<Call>
    requires before <= now
  {
    now[|before|..]
  }

  predicate IsNotFound(e: Error) {
    e.ClientError? && e.code in {"404", "NoSuchKey", "NotFound"}
  }

  predicate IsPreconditionFailed(e: Error) {
    e.ClientError? && e.code in {"412", "PreconditionFailed"}
  }

  /** How many objects a listing with a target stops at: at least one is taken before the count is looked at. */
  predicate Reached(count: nat, target: Option<int>) {
    target.Some? && count >= Max(1, target.value)
  }

  ghost function Wanted(keys: seq<string>, target: Option<int>): seq<string> {
    if target.Some? then Take(keys, Max(1, target.value)) else keys
  }

  function Filenames(items: seq<Metadata>): (names: seq<string>)
    ensures |names| == |items|
  {
    seq(|items|, i requires 0 <= i < |items| => items[i].filename)
  }

  lemma FilenamesAppend(items: seq<Metadata>, m: Metadata)
    ensures Filenames(items + [m]) == Filenames(items) + [m.filename]
  {
  }

  // ---- Digest tags ----

  function LowerChar(c: char): char {
    if 'A' <= c <= 'Z' then (c as int + 32) as char else c
  }

  function Lower(s: string): (t: string)
    ensures |t| == |s|
  {
    seq(|s|, i requires 0 <= i < |s| => LowerChar(s[i]))
  }

  predicate LooksLikeDigest(value: string) {
    IsHexDigest(Lower(value))
  }

  function FirstDigest(tags: seq<Tag>): (r: Option<string>)
    ensures r.Some? ==> IsHexDigest(r.value)
  {
    if |tags| == 0 then None
    else if tags[0].key == SHA256_TAG && LooksLikeDigest(tags[0].value) then Some(Lower(tags[0].value))
    else FirstDigest(tags[1..])
  }

  /** A tag of the digest's key whose value is 64 hexadecimal digits of either case. */
  ghost predicate DigestTag(t: Tag) {
    t.key == "sha256" && |t.value| == 64
    && forall k :: 0 <= k < |t.value| ==>
         '0' <= t.value[k] <= '9' || 'a' <= t.value[k] <= 'f' || 'A' <= t.value[k] <= 'F'
  }

  ghost predicate FirstDigestTag(tags: seq<Tag>, i: nat)
    requires i < |tags|
  {
    DigestTag(tags[i]) && forall j :: 0 <= j < i ==> !DigestTag(tags[j])
  }

  /** `digest` is `value` with the letters A to F in lower case. */
  ghost predicate LoweredTo(value: string, digest: string) {
    |digest| == |value|
    && forall k :: 0 <= k < |value| ==>
         digest[k] as int == value[k] as int + if 'A' <= value[k] <= 'F' then 32 else 0
  }

  lemma LooksLikeDigestMeans(t: Tag)
    ensures t.key == SHA256_TAG && LooksLikeDigest(t.value) <==> DigestTag(t)
    ensures DigestTag(t) ==> LoweredTo(t.value, Lower(t.value))
  {
    assert |Lower(t.value)| == |t.value|;
    forall k | 0 <= k < |t.value|
      ensures var c := t.value[k];
              '0' <= Lower(t.value)[k] <= '9' || 'a' <= Lower(t.value)[k] <= 'f'
              <==> '0' <= c <= '9' || 'a' <= c <= 'f' || 'A' <= c <= 'F'
    {
    }
  }

  /** The digest among an object's tags: none without such a tag, else the first one's value in lower case. */
  lemma {:induction false} FirstDigestMeans(tags: seq<Tag>)
    ensures FirstDigest(tags) == None <==> forall t :: t in tags ==> !DigestTag(t)
    ensures forall i :: 0 <= i < |tags| && FirstDigestTag(tags, i) ==>
              FirstDigest(tags).Some? && LoweredTo(tags[i].value, FirstDigest(tags).value)
  {
    if |tags| > 0 {
      LooksLikeDigestMeans(tags[0]);
      var rest := tags[1..];
      FirstDigestMeans(rest);
      assert tags == [tags[0]] + rest;
      forall i | 0 <= i < |tags| && FirstDigestTag(tags, i)
        ensures FirstDigest(tags).Some? && LoweredTo(tags[i].value, FirstDigest(tags).value)
      {
        if i > 0 {
          assert forall j :: 0 <= j < i - 1 ==> rest[j] == tags[j + 1];
          assert FirstDigestTag(rest, i - 1);
        }
      }
    }
  }

  /** No stored object carries a digest tag that is not the digest of its body. */
  ghost predicate TagsTruthful(hash: Hash, objects: map<string, Object>) {
    forall k :: k in objects ==> Truthful(hash, objects[k])
  }

  ghost predicate Truthful(hash: Hash, o: Object) {
    FirstDigest(o.tags) == None || FirstDigest(o.tags) == Some(hash(o.body))
  }

  /** The digest that the metadata endpoint reports when no call fails: the tag, else that of the streamed body. */
  function ReportedDigest(hash: Hash, o: Object): string {
    var tag := FirstDigest(o.tags);
    if tag.Some? then tag.value else hash(o.body)
  }

  lemma OwnTagIsTruthful(hash: Hash, body: Bytes, modified: Option<real>)
    requires IsSha256(hash)
    ensures Truthful(hash, Object(body, [Tag(SHA256_TAG, hash(body))], modified))
    ensures Truthful(hash, Object(body, [], modified))
  {
    assert IsHexDigest(hash(body));
    assert Lower(hash(body)) == hash(body);
  }

  // ---- The trace a save leaves ----

  /** Parts numbered from 1, in order. */
  function PartCalls(id: nat, bodies: seq<Bytes>): (c: seq<Call>)
    ensures |c| == |bodies|
  {
    seq(|bodies|, i requires 0 <= i < |bodies| => SendPart(id, i + 1, bodies[i]))
  }

  function PartAt(etags: seq<nat>, bodies: seq<Bytes>, number: nat): Part
    requires |etags| == |bodies| && 1 <= number <= |bodies|
  {
    Part(etags[number - 1], bodies[number - 1])
  }

  /** What S3 holds of an upload after these parts. */
  function SentParts(etags: seq<nat>, bodies: seq<Bytes>): map<nat, Part>
    requires |etags| == |bodies|
  {
    map n: nat | 1 <= n <= |bodies| :: PartAt(etags, bodies, n)
  }

  /** What a completion request names: every part sent, in order. */
  function Refs(etags: seq<nat>): (r: seq<PartRef>)
    ensures |r| == |etags|
  {
    seq(|etags|, i requires 0 <= i < |etags| => PartRef(etags[i], i + 1))
  }

  lemma {:induction false} AssembleSuffix(etags: seq<nat>, bodies: seq<Bytes>, k: nat)
    requires |etags| == |bodies| && k <= |bodies|
    ensures Assemble(SentParts(etags, bodies), Refs(etags)[k..]) == Flatten(bodies[k..])
    decreases |bodies| - k
  {
    if k < |bodies| {
      AssembleSuffix(etags, bodies, k + 1);
      assert Refs(etags)[k..][1..] == Refs(etags)[k + 1..];
      assert bodies[k..][1..] == bodies[k + 1..];
    }
  }

  lemma AssembleSent(etags: seq<nat>, bodies: seq<Bytes>)
    requires |etags| == |bodies|
    ensures Assemble(SentParts(etags, bodies), Refs(etags)) == Flatten(bodies)
  {
    AssembleSuffix(etags, bodies, 0);
    assert Refs(etags)[0..] == Refs(etags) && bodies[0..] == bodies;
  }

  lemma SentPartsAreValid(etags: seq<nat>, bodies: seq<Bytes>)
    requires |etags| == |bodies| > 0
    requires forall i :: 0 <= i < |bodies| - 1 ==> |bodies[i]| >= MIN_PART_SIZE
    ensures ValidParts(SentParts(etags, bodies), Refs(etags))
  {
  }

  lemma OneMorePart(id: nat, etags: seq<nat>, bodies: seq<Bytes>, etag: nat, body: Bytes)
    requires |etags| == |bodies|
    ensures PartCalls(id, bodies + [body]) == PartCalls(id, bodies) + [SendPart(id, |bodies| + 1, body)]
    ensures Refs(etags + [etag]) == Refs(etags) + [PartRef(etag, |bodies| + 1)]
    ensures SentParts(etags + [etag], bodies + [body]) == SentParts(etags, bodies)[|bodies| + 1 := Part(etag, body)]
  {
  }

  class S3StorageBackend {
    const client: S3Client
    const hash: Hash
    const prefix: string
    const multipartThreshold: nat
    const multipartChunkSize: nat
    const downloadChunkSize: nat
    const maxSize: nat
    const maxAgeHours: nat

    /** The bounds `config.py` puts on the settings (lines 35-37, 42-46, 109-110). */
    predicate Configured() {
      multipartChunkSize >= MIN_PART_SIZE && multipartThreshold >= multipartChunkSize
      && downloadChunkSize > 0 && maxSize > 0
    }

    constructor (client: S3Client, hash: Hash, prefix: string, threshold: nat, chunk: nat, download: nat, maxSize: nat,
                 maxAgeHours: nat)
      requires chunk >= MIN_PART_SIZE && threshold >= chunk && download > 0 && maxSize > 0
      ensures Configured() && this.client == client && this.hash == hash && this.prefix == prefix
      ensures multipartThreshold == threshold && multipartChunkSize == chunk && downloadChunkSize == download
              && this.maxSize == maxSize && this.maxAgeHours == maxAgeHours
    {
      this.client, this.hash, this.prefix := client, hash, prefix;
      multipartThreshold, multipartChunkSize, downloadChunkSize := threshold, chunk, download;
      this.maxSize, this.maxAgeHours := maxSize, maxAgeHours;
    }

    /** Nothing read yet is lost: the digest and the running size have seen exactly the bytes read. */
    ghost predicate InStep(file: ByteSource, digest: Digest, total: nat)
      reads file, digest
    {
      file.pos <= |file.content| && digest.absorbed == file.content[..file.pos] && total == file.pos && total <= maxSize
    }

    /** `_read_upload_chunk`. */
    method ReadUploadChunk(file: ByteSource, size: nat, digest: Digest, total: nat)
      returns (r: Result<(Bytes, nat), Error>)
      requires size > 0 && InStep(file, digest, total)
      modifies file, digest
      ensures file.pos >= old(file.pos) && file.pos <= |file.content|
      ensures r.Ok? ==> InStep(file, digest, r.value.1) && file.faults == old(file.faults)
                        && r.value.0 == file.content[old(file.pos)..file.pos] && |r.value.0| <= size
                        && (r.value.0 == [] <==> old(file.pos) == |file.content|)
      ensures r.Err? ==> (r.error == ReadFailed && file.faults > old(file.faults))
                         || (file.pos > maxSize && r.error == FileTooLarge(file.pos, maxSize)
                             && file.faults == old(file.faults))
    {
      var read := file.Read(size);
      if read.Err? { return Err(read.error); }
      var chunk := read.value;
      if chunk == [] { return Ok(([], total)); }
      var newTotal := total + |chunk|;
      if newTotal > maxSize { return Err(FileTooLarge(newTotal, maxSize)); }
      digest.Update(chunk);
      assert file.content[..old(file.pos)] + chunk == file.content[..file.pos];
      r := Ok((chunk, newTotal));
    }

    /** Everything read so far has gone through the buffer. */
    ghost predicate Fed(file: ByteSource, buffer: Buffer)
      reads file, buffer
    {
      file.pos <= |file.content| && buffer.Valid() && buffer.taken == file.content[..file.pos]
    }

    /** Read the next chunk into the buffer; the result says whether the stream has ended. */
    method ReadInto(file: ByteSource, buffer: Buffer, size: nat, digest: Digest, total: nat)
      returns (r: Result<(bool, nat), Error>)
      requires size > 0 && InStep(file, digest, total) && Fed(file, buffer)
      modifies file, digest, buffer
      ensures file.pos >= old(file.pos) && file.pos <= |file.content| && buffer.Valid()
      ensures r.Ok? ==> InStep(file, digest, r.value.1) && Fed(file, buffer) && file.faults == old(file.faults)
                        && buffer.bytes == old(buffer.bytes) + file.content[old(file.pos)..file.pos]
                        && |buffer.bytes| <= old(|buffer.bytes|) + size
                        && buffer.peak == Max(old(buffer.peak), |buffer.bytes|)
                        && (r.value.0 <==> old(file.pos) == |file.content|)
                        && (r.value.0 <==> file.pos == old(file.pos))
      ensures r.Err? ==> buffer.taken == file.content[..old(file.pos)] && buffer.peak == old(buffer.peak)
                         && ((r.error == ReadFailed && file.faults > old(file.faults))
                             || (|file.content| > maxSize && r.error.FileTooLarge? && file.faults == old(file.faults)))
    {
      var read := ReadUploadChunk(file, size, digest, total);
      if read.Err? { return Err(read.error); }
      if read.value.0 == [] {
        assert old(buffer.bytes) + [] == buffer.bytes;
        return Ok((true, read.value.1));
      }
      assert file.content[..old(file.pos)] + read.value.0 == file.content[..file.pos];
      buffer.Extend(read.value.0);
      r := Ok((false, read.value.1));
    }

    /**
     * Everything read is either in a sent part or still in the buffer, S3 holds exactly the sent parts,
     * and sending them is all that has been asked of it since `before`.
     */
    ghost predicate Progress(file: ByteSource, buffer: Bytes, etags: seq<nat>, sent: seq<Bytes>, id: nat, key: string,
                             before: seq<Call>)
      reads file, client
    {
      file.pos <= |file.content| && Flatten(sent) + buffer == file.content[..file.pos]
      && |etags| == |sent| <= MAX_PART_NUMBER
      && id in client.uploads && client.uploads[id] == Upload(key, SentParts(etags, sent))
      && client.calls == before + PartCalls(id, sent)
    }

    predicate FullParts(sent: seq<Bytes>) {
      forall i :: 0 <= i < |sent| ==> |sent[i]| == multipartChunkSize
    }

    /** Why an upload can fail although no call failed and no read raised. */
    ghost predicate RefusedFor(e: Error, size: nat, taken: bool)
      requires multipartChunkSize > 0
    {
      (e.FileTooLarge? && size > maxSize)
      || (IsPreconditionFailed(e) && taken)
      || (e.ClientError? && !IsPreconditionFailed(e) && CeilDiv(size, multipartChunkSize) > MAX_PART_NUMBER)
    }

    /** One part more: the payload goes to S3, the rest stays buffered. */
    method UploadNextPart(file: ByteSource, payload: Bytes, etags: seq<nat>, id: nat, key: string,
                          ghost rest: Bytes, ghost sent: seq<Bytes>, ghost before: seq<Call>)
      returns (r: Result<nat, Error>)
      requires Configured() && |payload| > 0 && FullParts(sent)
      requires Progress(file, payload + rest, etags, sent, id, key, before)
      modifies client`uploads, client`calls
      ensures client.uploads - {id} == old(client.uploads) - {id} && id in client.uploads
      ensures r.Ok? ==> Progress(file, rest, etags + [r.value], sent + [payload], id, key, before)
      ensures r.Err? ==> r.error.ClientError? && before <= client.calls
                         && (!NoFaults(Since(before, client.calls)) || RefusedFor(r.error, |file.content|, false))
    {
      ghost var calls := client.calls;
      r := client.UploadPart(id, |etags| + 1, payload);
      assert Since(before, client.calls)[|calls| - |before|] == client.calls[|calls|];
      if r.Ok? {
        OneMorePart(id, etags, sent, r.value, payload);
        FlattenAppend(sent, payload);
        assert Flatten(sent) + (payload + rest) == Flatten(sent) + payload + rest;
      } else if !client.calls[|calls|].Failed? {
        FullPartsLength(sent, multipartChunkSize);
        assert file.content == file.content[..file.pos] + file.content[file.pos..];
        Arithmetic.CeilDivIs(|file.content|, multipartChunkSize, MAX_PART_NUMBER);
      }
    }

    /** The inner loop: full parts go out until less than one is left in the buffer. */
    method DrainBuffer(file: ByteSource, buffer: Buffer, initialEtags: seq<nat>, id: nat, key: string,
                       ghost initialSent: seq<Bytes>, ghost before: seq<Call>)
      returns (r: Result<(), Error>, etags: seq<nat>, ghost sent: seq<Bytes>)
      requires Configured() && FullParts(initialSent) && buffer.Valid()
      requires Progress(file, buffer.bytes, initialEtags, initialSent, id, key, before)
      modifies client`uploads, client`calls, buffer`bytes
      ensures client.uploads - {id} == old(client.uploads) - {id} && id in client.uploads && buffer.Valid()
      ensures r.Ok? ==> Progress(file, buffer.bytes, etags, sent, id, key, before) && FullParts(sent)
                        && |buffer.bytes| < multipartChunkSize
      ensures r.Err? ==> before <= client.calls
                         && (!NoFaults(Since(before, client.calls)) || RefusedFor(r.error, |file.content|, false))
    {
      etags, sent := initialEtags, initialSent;
      while |buffer.bytes| >= multipartChunkSize
        invariant Progress(file, buffer.bytes, etags, sent, id, key, before) && FullParts(sent) && buffer.Valid()
        invariant client.uploads - {id} == old(client.uploads) - {id}
        decreases |buffer.bytes|
      {
        var payload := buffer.bytes[..multipartChunkSize];
        assert buffer.bytes == payload + buffer.bytes[multipartChunkSize..];
        buffer.DropFront(multipartChunkSize);
        var uploaded := UploadNextPart(file, payload, etags, id, key, buffer.bytes, sent, before);
        if uploaded.Err? { return Err(uploaded.error), etags, sent; }
        etags, sent := etags + [uploaded.value], sent + [payload];
      }
      r := Ok(());
    }

    /**
     * What a transfer may do to its buffer: only bytes of the stream go through it, in order, and it never
     * grows beyond this size.
     */
    ghost predicate Bounded(buffer: Buffer, content: Bytes, size: nat)
      reads buffer
    {
      buffer.Valid() && buffer.taken <= content && buffer.peak <= size
    }

    /** The largest buffer that reading on in chunks can make of one with this peak. */
    function PeakAfter(peak: nat): nat
      requires multipartChunkSize > 0
    {
      Max(peak, 2 * multipartChunkSize - 1)
    }

    /** Read on: what is sent and buffered is still what was read. */
    method FeedBuffer(file: ByteSource, buffer: Buffer, digest: Digest, total: nat, etags: seq<nat>, id: nat,
                      key: string, ghost sent: seq<Bytes>, ghost before: seq<Call>)
      returns (r: Result<(bool, nat), Error>)
      requires Configured() && InStep(file, digest, total) && Fed(file, buffer) && |buffer.bytes| < multipartChunkSize
      requires Progress(file, buffer.bytes, etags, sent, id, key, before)
      modifies file, digest, buffer
      ensures old(file.pos) <= file.pos <= |file.content| && Bounded(buffer, file.content, PeakAfter(old(buffer.peak)))
      ensures r.Ok? ==> InStep(file, digest, r.value.1) && Fed(file, buffer) && file.faults == old(file.faults)
                        && Progress(file, buffer.bytes, etags, sent, id, key, before)
                        && if r.value.0 then file.pos == |file.content| && buffer.bytes == old(buffer.bytes)
                           else file.pos > old(file.pos)
      ensures r.Err? ==> file.faults >= old(file.faults)
                         && (file.faults > old(file.faults) || RefusedFor(r.error, |file.content|, false))
    {
      r := ReadInto(file, buffer, multipartChunkSize, digest, total);
      ReadOn(file.content, Flatten(sent), old(buffer.bytes), old(file.pos), file.pos);
    }

    /** The loop invariant of the transfer. */
    ghost predicate Underway(file: ByteSource, buffer: Buffer, digest: Digest, total: nat, etags: seq<nat>,
                             sent: seq<Bytes>, id: nat, key: string, before: seq<Call>)
      reads file, buffer, digest, client
    {
      Progress(file, buffer.bytes, etags, sent, id, key, before) && FullParts(sent) && InStep(file, digest, total)
      && Fed(file, buffer)
    }

    /** One round of the outer loop: full parts go out, then one chunk is read; true at the end of the stream. */
    method TransferStep(file: ByteSource, buffer: Buffer, digest: Digest, total: nat, initialEtags: seq<nat>, id: nat,
                        key: string, ghost initialSent: seq<Bytes>, ghost before: seq<Call>)
      returns (r: Result<(bool, nat), Error>, etags: seq<nat>, ghost sent: seq<Bytes>)
      requires Configured() && Underway(file, buffer, digest, total, initialEtags, initialSent, id, key, before)
      modifies client`uploads, client`calls, file, digest, buffer
      ensures client.uploads - {id} == old(client.uploads) - {id} && id in client.uploads
      ensures old(file.pos) <= file.pos <= |file.content| && before <= client.calls
      ensures Bounded(buffer, file.content, PeakAfter(old(buffer.peak)))
      ensures r.Ok? ==> Underway(file, buffer, digest, r.value.1, etags, sent, id, key, before)
                        && file.faults == old(file.faults)
                        && if r.value.0 then file.pos == |file.content| && |buffer.bytes| < multipartChunkSize
                           else file.pos > old(file.pos)
      ensures r.Err? ==> file.faults >= old(file.faults)
                         && (!NoFaults(Since(before, client.calls)) || file.faults > old(file.faults)
                             || RefusedFor(r.error, |file.content|, false))
    {
      var drained;
      drained, etags, sent := DrainBuffer(file, buffer, initialEtags, id, key, initialSent, before);
      if drained.Err? { return Err(drained.error), etags, sent; }
      r := FeedBuffer(file, buffer, digest, total, etags, id, key, sent, before);
    }

    /** The outer loop: send full parts, then read on until the stream ends. */
    method TransferParts(file: ByteSource, buffer: Buffer, digest: Digest, initialTotal: nat, id: nat, key: string,
                         ghost before: seq<Call>)
      returns (r: Result<(), Error>, etags: seq<nat>, ghost sent: seq<Bytes>)
      requires Configured() && Underway(file, buffer, digest, initialTotal, [], [], id, key, before)
      modifies client`uploads, client`calls, file, digest, buffer
      ensures client.uploads - {id} == old(client.uploads) - {id} && id in client.uploads
      ensures file.pos <= |file.content| && before <= client.calls && file.faults >= old(file.faults)
      ensures Bounded(buffer, file.content, PeakAfter(old(buffer.peak)))
      ensures r.Ok? ==> file.pos == |file.content| && |buffer.bytes| < multipartChunkSize
                        && file.faults == old(file.faults)
                        && Underway(file, buffer, digest, |file.content|, etags, sent, id, key, before)
      ensures r.Err? ==> !NoFaults(Since(before, client.calls)) || file.faults > old(file.faults)
                         || RefusedFor(r.error, |file.content|, false)
    {
      etags, sent := [], [];
      var total := initialTotal;
      while true
        invariant Underway(file, buffer, digest, total, etags, sent, id, key, before)
        invariant file.faults == old(file.faults) && client.uploads - {id} == old(client.uploads) - {id}
        invariant buffer.peak <= PeakAfter(old(buffer.peak))
        decreases |file.content| - file.pos
      {
        var moved;
        moved, etags, sent := TransferStep(file, buffer, digest, total, etags, id, key, sent, before);
        if moved.Err? { return Err(moved.error), etags, sent; }
        total := moved.value.1;
        if moved.value.0 { break; }
      }
      r := Ok(());
    }

    /** After the loop: the rest, if any, is the last part; then the upload is completed. */
    method CompleteParts(file: ByteSource, buffer: Bytes, initialEtags: seq<nat>, id: nat, key: string,
                         overwrite: bool, ghost initialSent: seq<Bytes>, ghost before: seq<Call>)
      returns (r: Result<(), Error>)
      requires Configured() && FullParts(initialSent) && |buffer| < multipartChunkSize
      requires |file.content| > 0 && file.pos == |file.content|
      requires Progress(file, buffer, initialEtags, initialSent, id, key, before)
      modifies client`objects, client`uploads, client`calls
      ensures client.uploads - {id} == old(client.uploads) - {id} && before <= client.calls
      ensures r.Ok? ==>
                id !in client.uploads && CeilDiv(|file.content|, multipartChunkSize) <= MAX_PART_NUMBER
                && (overwrite || key !in old(client.objects))
                && key in client.objects && client.objects[key].body == file.content && client.objects[key].tags == []
                && client.objects == old(client.objects)[key := client.objects[key]]
                && client.calls == before + PartCalls(id, Chunks(file.content, multipartChunkSize)) + [Complete(id)]
      ensures r.Err? ==>
                client.objects == old(client.objects) && id in client.uploads
                && (!NoFaults(Since(before, client.calls))
                    || RefusedFor(r.error, |file.content|, !overwrite && key in old(client.objects)))
    {
      var etags := initialEtags;
      ghost var sent := initialSent;
      FullBlocksAreChunks(sent, buffer, multipartChunkSize);
      assert file.content[..file.pos] == file.content;
      if |buffer| > 0 {
        assert buffer + [] == buffer;
        var uploaded := UploadNextPart(file, buffer, etags, id, key, [], sent, before);
        if uploaded.Err? { return Err(uploaded.error); }
        etags, sent := etags + [uploaded.value], sent + [buffer];
      } else {
        assert Flatten(sent) + buffer == Flatten(sent);
      }
      r := CompleteUpload(file, etags, id, key, overwrite, sent, before);
    }

    /** Ask S3 to put the parts together. */
    method CompleteUpload(file: ByteSource, etags: seq<nat>, id: nat, key: string, overwrite: bool,
                          ghost sent: seq<Bytes>, ghost before: seq<Call>)
      returns (r: Result<(), Error>)
      requires Configured() && |file.content| > 0 && sent == Chunks(file.content, multipartChunkSize)
      requires Progress(file, [], etags, sent, id, key, before)
      modifies client`objects, client`uploads, client`calls
      ensures client.uploads - {id} == old(client.uploads) - {id} && before <= client.calls
      ensures r.Ok? ==>
                id !in client.uploads && CeilDiv(|file.content|, multipartChunkSize) <= MAX_PART_NUMBER
                && (overwrite || key !in old(client.objects))
                && key in client.objects && client.objects[key].body == file.content && client.objects[key].tags == []
                && client.objects == old(client.objects)[key := client.objects[key]]
                && client.calls == before + PartCalls(id, Chunks(file.content, multipartChunkSize)) + [Complete(id)]
      ensures r.Err? ==>
                client.objects == old(client.objects) && id in client.uploads
                && (!NoFaults(Since(before, client.calls))
                    || RefusedFor(r.error, |file.content|, !overwrite && key in old(client.objects)))
    {
      ChunksReassemble(file.content, multipartChunkSize);
      assert |sent| > 0;
      SentPartsAreValid(etags, sent);
      AssembleSent(etags, sent);
      ghost var calls := client.calls;
      r := client.CompleteMultipartUpload(key, id, Refs(etags), !overwrite);
      assert Since(before, client.calls)[|calls| - |before|] == client.calls[|calls|];
    }

    /** The object a finished save leaves: the content, tagged with its digest unless tagging failed. */
    ghost predicate StoredAs(o: Object, content: Bytes, tagged: bool) {
      o.body == content && o.tags == if tagged then [Tag("sha256", hash(content))] else []
    }

    /** `_set_sha256_tag`: a failure is only logged. */
    method SetSha256Tag(key: string, digest: string, ghost content: Bytes)
      requires key in client.objects && digest == hash(content) && StoredAs(client.objects[key], content, false)
      modifies client`objects, client`calls
      ensures |client.calls| == |old(client.calls)| + 1 && old(client.calls) <= client.calls
      ensures var call := client.calls[|old(client.calls)|];
              (call == SetTags(key) || IsFailure(call, TagOp))
              && key in client.objects && StoredAs(client.objects[key], content, call == SetTags(key))
              && client.objects == old(client.objects)[key := client.objects[key]]
    {
      var r := client.PutObjectTagging(key, [Tag(SHA256_TAG, digest)]);
    }

    /** The whole trace of a multipart upload that completed. */
    ghost function UploadTrace(id: nat, content: Bytes, tagging: Call): seq<Call>
      requires multipartChunkSize > 0
    {
      [Create(id)] + PartCalls(id, Chunks(content, multipartChunkSize)) + [Complete(id)] + [tagging]
    }

    /** The `try` block of `_multipart_upload`. */
    method TryUpload(file: ByteSource, buffer: Buffer, digest: Digest, totalSize: nat, id: nat, key: string,
                     overwrite: bool, ghost before: seq<Call>)
      returns (r: Result<(), Error>)
      requires Configured() && InStep(file, digest, totalSize) && |buffer.bytes| > 0
      requires Fed(file, buffer)
      requires Progress(file, buffer.bytes, [], [], id, key, before)
      modifies client`objects, client`uploads, client`calls, file, digest, buffer
      ensures client.uploads - {id} == old(client.uploads) - {id} && before <= client.calls
      ensures Bounded(buffer, file.content, PeakAfter(old(buffer.peak))) && (r.Ok? ==> buffer.taken == file.content)
      ensures r.Ok? ==>
                id !in client.uploads && digest.absorbed == file.content && |file.content| <= maxSize
                && CeilDiv(|file.content|, multipartChunkSize) <= MAX_PART_NUMBER
                && (overwrite || key !in old(client.objects))
                && key in client.objects && StoredAs(client.objects[key], file.content, false)
                && client.objects == old(client.objects)[key := client.objects[key]]
                && client.calls == before + PartCalls(id, Chunks(file.content, multipartChunkSize)) + [Complete(id)]
      ensures r.Err? ==>
                client.objects == old(client.objects)
                && (!NoFaults(Since(before, client.calls)) || file.faults > old(file.faults)
                    || RefusedFor(r.error, |file.content|, !overwrite && key in old(client.objects)))
    {
      var etags;
      ghost var sent;
      assert |file.content| > 0;
      r, etags, sent := TransferParts(file, buffer, digest, totalSize, id, key, before);
      if r.Ok? {
        assert file.content[..file.pos] == file.content;
        r := CompleteParts(file, buffer.bytes, etags, id, key, overwrite, sent, before);
      }
    }

    /** No object changed, and no upload stays open unless its abort call failed. */
    ghost predicate NothingStored(objects: map<string, Object>, uploads: map<nat, Upload>, before: seq<Call>, id: nat)
      reads client
    {
      client.objects == objects
      && (client.uploads == uploads
          || (client.calls != before && |client.calls| > 0 && IsFailure(client.calls[|client.calls| - 1], AbortOp)
              && client.uploads - {id} == uploads))
    }

    /** One object replaced by an upload of this content, its tag set or not, and nothing else changed. */
    ghost predicate Replaced(objects: map<string, Object>, now: map<string, Object>, key: string, content: Bytes,
                             overwrite: bool, tagging: Call)
      requires multipartChunkSize > 0
    {
      |content| <= maxSize && CeilDiv(|content|, multipartChunkSize) <= MAX_PART_NUMBER
      && (overwrite || key !in objects)
      && (tagging == SetTags(key) || IsFailure(tagging, TagOp))
      && key in now && now == objects[key := now[key]] && StoredAs(now[key], content, tagging == SetTags(key))
    }

    /** Give an upload up: unless this call itself fails, none of its parts stay behind. */
    method AbortUpload(id: nat, ghost others: map<nat, Upload>)
      requires client.uploads - {id} == others
      modifies client`uploads, client`calls
      ensures |client.calls| == |old(client.calls)| + 1 && old(client.calls) <= client.calls
      ensures client.uploads == others
              || (IsFailure(client.calls[|old(client.calls)|], AbortOp) && client.uploads - {id} == others)
    {
      var aborted := client.AbortMultipartUpload(id);
    }

    /** `_multipart_upload` from line 197 on: try, abort and re-raise on any failure, tag on success. */
    method UploadOrAbort(file: ByteSource, buffer: Buffer, digest: Digest, totalSize: nat, id: nat, key: string,
                         overwrite: bool, ghost before: seq<Call>, ghost others: map<nat, Upload>)
      returns (r: Result<string, Error>)
      requires Configured() && InStep(file, digest, totalSize) && |buffer.bytes| > 0
      requires Fed(file, buffer)
      requires Progress(file, buffer.bytes, [], [], id, key, before)
      requires client.uploads - {id} == others && id !in others
      modifies client`objects, client`uploads, client`calls, file, digest, buffer
      ensures before < client.calls
      ensures Bounded(buffer, file.content, PeakAfter(old(buffer.peak))) && (r.Ok? ==> buffer.taken == file.content)
      ensures r.Ok? ==>
                r.value == hash(file.content) && client.uploads == others
                && var last := client.calls[|client.calls| - 1];
                Replaced(old(client.objects), client.objects, key, file.content, overwrite, last)
                && client.calls ==
                   before + PartCalls(id, Chunks(file.content, multipartChunkSize)) + [Complete(id)] + [last]
      ensures r.Err? ==>
                NothingStored(old(client.objects), others, before, id)
                && (!NoFaults(Since(before, client.calls)) || file.faults > old(file.faults)
                    || RefusedFor(r.error, |file.content|, !overwrite && key in old(client.objects)))
    {
      var tried := TryUpload(file, buffer, digest, totalSize, id, key, overwrite, before);
      if tried.Err? {
        ghost var calls := client.calls;
        AbortUpload(id, others);
        TraceExtends(before, before, calls, client.calls);
        return Err(tried.error);
      }
      assert client.uploads - {id} == client.uploads;
      r := Ok(hash(digest.absorbed));
      SetSha256Tag(key, hash(digest.absorbed), file.content);
    }

    /** Open an upload: nothing sent yet. */
    method OpenUpload(file: ByteSource, buffer: Buffer, key: string) returns (r: Result<nat, Error>)
      requires Fed(file, buffer) && buffer.bytes == buffer.taken
      modifies client`uploads, client`calls
      ensures r.Ok? ==> client.calls == old(client.calls) + [Create(r.value)] && r.value !in old(client.uploads)
                        && client.uploads - {r.value} == old(client.uploads)
                        && Progress(file, buffer.bytes, [], [], r.value, key, client.calls)
      ensures r.Err? ==> client.uploads == old(client.uploads) && r.error.ClientError?
                         && old(client.calls) < client.calls && !NoFaults(Since(old(client.calls), client.calls))
    {
      r := client.CreateMultipartUpload(key);
      if r.Err? {
        assert Since(old(client.calls), client.calls)[0].Failed?;
        return;
      }
      assert SentParts([], []) == map[] && PartCalls(r.value, []) == [];
      assert client.calls == client.calls + PartCalls(r.value, []);
    }

    lemma WholeTrace(before: seq<Call>, id: nat, content: Bytes, tagging: Call)
      requires multipartChunkSize > 0
      ensures before + [Create(id)] + PartCalls(id, Chunks(content, multipartChunkSize)) + [Complete(id)] + [tagging]
              == before + UploadTrace(id, content, tagging)
    {
    }

    /** An upload that has just been opened, up to its end. */
    method RunUpload(file: ByteSource, buffer: Buffer, digest: Digest, totalSize: nat, id: nat, key: string,
                     overwrite: bool, ghost start: seq<Call>, ghost others: map<nat, Upload>)
      returns (r: Result<string, Error>)
      requires Configured() && InStep(file, digest, totalSize) && Fed(file, buffer) && |buffer.bytes| > 0
      requires client.calls == start + [Create(id)] && client.uploads - {id} == others && id !in others
      requires Progress(file, buffer.bytes, [], [], id, key, client.calls)
      modifies client`objects, client`uploads, client`calls, file, digest, buffer
      ensures start < client.calls
      ensures Bounded(buffer, file.content, PeakAfter(old(buffer.peak))) && (r.Ok? ==> buffer.taken == file.content)
      ensures r.Ok? ==>
                r.value == hash(file.content) && client.uploads == others
                && var last := client.calls[|client.calls| - 1];
                Replaced(old(client.objects), client.objects, key, file.content, overwrite, last)
                && client.calls == start + UploadTrace(id, file.content, last)
      ensures r.Err? ==>
                NothingStored(old(client.objects), others, start, id)
                && (!NoFaults(Since(start, client.calls)) || file.faults > old(file.faults)
                    || RefusedFor(r.error, |file.content|, !overwrite && key in old(client.objects)))
    {
      ghost var before := client.calls;
      r := UploadOrAbort(file, buffer, digest, totalSize, id, key, overwrite, before, others);
      if r.Err? {
        TraceExtends(start, before, client.calls, client.calls);
        return;
      }
      WholeTrace(start, id, file.content, client.calls[|client.calls| - 1]);
    }

    /** `_multipart_upload`. */
    method MultipartUpload(file: ByteSource, key: string, initialBuffer: Buffer, digest: Digest, totalSize: nat,
                           overwrite: bool)
      returns (r: Result<string, Error>, ghost id: nat)
      requires Configured() && InStep(file, digest, totalSize) && Fed(file, initialBuffer)
      requires initialBuffer.bytes == initialBuffer.taken && |initialBuffer.bytes| > 0
      modifies client`objects, client`uploads, client`calls, file, digest, initialBuffer
      ensures old(client.calls) < client.calls
      ensures Bounded(initialBuffer, file.content, PeakAfter(old(initialBuffer.peak)))
              && (r.Ok? ==> initialBuffer.taken == file.content)
      ensures r.Ok? ==>
                r.value == hash(file.content) && client.uploads == old(client.uploads)
                && var last := client.calls[|client.calls| - 1];
                Replaced(old(client.objects), client.objects, key, file.content, overwrite, last)
                && client.calls == old(client.calls) + UploadTrace(id, file.content, last)
      ensures r.Err? ==>
                NothingStored(old(client.objects), old(client.uploads), old(client.calls), id)
                && (!NoFaults(Since(old(client.calls), client.calls)) || file.faults > old(file.faults)
                    || RefusedFor(r.error, |file.content|, !overwrite && key in old(client.objects)))
    {
      id := 0;
      var created := OpenUpload(file, initialBuffer, key);
      if created.Err? { return Err(created.error), id; }
      id := created.value;
      r := RunUpload(file, initialBuffer, digest, totalSize, created.value, key, overwrite, old(client.calls),
                     old(client.uploads));
    }

    /** `_object_exists`. */
    method ObjectExists(key: string) returns (r: Result<bool, Error>)
      modifies client`calls
      ensures |client.calls| == |old(client.calls)| + 1 && old(client.calls) <= client.calls
      ensures var call := client.calls[|old(client.calls)|];
              if IsFailure(call, HeadOp)
              then r == if call.code in {"404", "NoSuchKey", "NotFound"} then Ok(false) else Err(ClientError(call.code))
              else call in [Head(key), Refused(HeadOp)] && r == Ok(key in client.objects)
    {
      var head := client.HeadObject(key);
      if head.Ok? { return Ok(true); }
      if IsNotFound(head.error) { return Ok(false); }
      r := Err(head.error);
    }

    function Key(folder: string, subfolder: string, filename: string): string {
      ObjectKey(hash, prefix, folder, subfolder, filename)
    }

    /** The content fits the size limit, and the part limit if it has to go in parts. */
    predicate Fits(size: nat)
      requires multipartChunkSize > 0
    {
      size <= maxSize && (size < multipartThreshold || CeilDiv(size, multipartChunkSize) <= MAX_PART_NUMBER)
    }

    /** Fill the buffer up to the threshold; an earlier end of the stream means a small object. */
    method FillInitial(file: ByteSource, digest: Digest, initial: Buffer)
      returns (r: Result<bool, Error>, total: nat)
      requires Configured() && file.pos == 0 && digest.absorbed == []
      requires initial.Valid() && initial.bytes == initial.taken == [] && initial.peak == 0
      modifies file, digest, initial
      ensures file.pos <= |file.content| && file.faults >= old(file.faults)
      ensures Bounded(initial, file.content, multipartThreshold)
      ensures r.Ok? ==> InStep(file, digest, total) && initial.bytes == initial.taken == file.content[..file.pos]
                        && file.faults == old(file.faults)
                        && (if r.value then file.pos == |file.content| < multipartThreshold
                            else |initial.bytes| == multipartThreshold)
      ensures r.Err? ==> file.faults > old(file.faults) || (r.error.FileTooLarge? && |file.content| > maxSize)
    {
      total := 0;
      while |initial.bytes| < multipartThreshold
        invariant InStep(file, digest, total) && Fed(file, initial) && initial.bytes == file.content[..file.pos]
        invariant |initial.bytes| <= multipartThreshold && initial.peak <= multipartThreshold
        invariant file.faults == old(file.faults)
        decreases |file.content| - file.pos
      {
        ghost var pos := file.pos;
        var size := Min(multipartChunkSize, multipartThreshold - |initial.bytes|);
        var read := ReadInto(file, initial, size, digest, total);
        if read.Err? { return Err(read.error), total; }
        total := read.value.1;
        ReadOn(file.content, [], file.content[..pos], pos, file.pos);
        if read.value.0 { return Ok(true), total; }
      }
      r := Ok(false);
    }

    /** What a successful save did: one object replaced, by one PUT or one multipart upload. */
    ghost predicate Saved(objects: map<string, Object>, now: map<string, Object>, before: seq<Call>, calls: seq<Call>,
                          id: nat, key: string, content: Bytes, overwrite: bool)
      requires multipartChunkSize > 0
    {
      Fits(|content|) && (overwrite || key !in objects)
      && key in now && now == objects[key := now[key]]
      && if |content| < multipartThreshold
         then calls == before + [Put(key)] && StoredAs(now[key], content, true)
         else |calls| > |before|
              && var last := calls[|calls| - 1];
              calls == before + UploadTrace(id, content, last) && Replaced(objects, now, key, content, overwrite, last)
    }

    /** Why a save can be refused although nothing failed. */
    ghost predicate Unacceptable(e: Error, size: nat, taken: bool)
      requires multipartChunkSize > 0
    {
      (e.FileTooLarge? && size > maxSize) || (e == FileExists && taken) || (e == OSError && !Fits(size))
    }

    /** How `save_file` reports an error of the calls that store the object. */
    function Raised(e: Error): Error {
      if !e.ClientError? then e else if IsPreconditionFailed(e) then FileExists else OSError
    }

    /** The stream ended below the threshold: one conditional PUT. */
    method StoreSmall(key: string, content: Bytes, digest: string, overwrite: bool) returns (r: Result<(), Error>)
      requires Configured() && |content| < multipartThreshold && |content| <= maxSize && digest == hash(content)
      modifies client`objects, client`calls
      ensures old(client.calls) < client.calls
      ensures r.Ok? ==> Saved(old(client.objects), client.objects, old(client.calls), client.calls, 0, key, content,
                              overwrite)
      ensures r.Err? ==> client.objects == old(client.objects)
                         && (!NoFaults(Since(old(client.calls), client.calls))
                             || Unacceptable(r.error, |content|, !overwrite && key in old(client.objects)))
      ensures |client.calls| == |old(client.calls)| + 1
      ensures var call := client.calls[|old(client.calls)|];
              call.Failed? ==> r == Err(if call.code in {"412", "PreconditionFailed"} then FileExists else OSError)
    {
      var put := client.PutObject(key, content, [Tag(SHA256_TAG, digest)], !overwrite);
      assert Since(old(client.calls), client.calls)[0] == client.calls[|old(client.calls)|];
      if put.Err? { return Err(Raised(put.error)); }
      r := Ok(());
    }

    /** The threshold was reached: a multipart upload of the buffer and the rest of the stream. */
    method StoreLarge(file: ByteSource, key: string, initial: Buffer, digest: Digest, total: nat, overwrite: bool)
      returns (r: Result<(), Error>, ghost id: nat)
      requires Configured() && InStep(file, digest, total) && Fed(file, initial)
      requires initial.bytes == file.content[..file.pos] && |initial.bytes| == multipartThreshold
      modifies client`objects, client`uploads, client`calls, file, digest, initial
      ensures old(client.calls) < client.calls
      ensures Bounded(initial, file.content, PeakAfter(old(initial.peak))) && (r.Ok? ==> initial.taken == file.content)
      ensures r.Ok? ==> Saved(old(client.objects), client.objects, old(client.calls), client.calls, id, key,
                              file.content, overwrite)
                        && client.uploads == old(client.uploads)
      ensures r.Err? ==> NothingStored(old(client.objects), old(client.uploads), old(client.calls), id)
                         && Cause(file, r.error, old(client.calls), old(file.faults),
                                  !overwrite && key in old(client.objects))
    {
      assert |file.content| >= multipartThreshold;
      var uploaded;
      uploaded, id := MultipartUpload(file, key, initial, digest, total, overwrite);
      r := if uploaded.Ok? then Ok(()) else Err(Raised(uploaded.error));
    }

    /** Why a save raised: a call failed, a read raised, or the content or the key did not allow it. */
    ghost predicate Cause(file: ByteSource, e: Error, before: seq<Call>, faults: nat, taken: bool)
      requires multipartChunkSize > 0
      reads client, file
    {
      before <= client.calls
      && (!NoFaults(Since(before, client.calls)) || file.faults > faults || Unacceptable(e, |file.content|, taken))
    }

    /** Fill the buffer, then store what it holds, or it and the rest of the stream. */
    method StoreFrom(file: ByteSource, key: string, overwrite: bool, digest: Digest, initial: Buffer)
      returns (r: Result<(), Error>, ghost id: nat)
      requires Configured() && file.pos == 0 && digest.absorbed == []
      requires initial.Valid() && initial.bytes == initial.taken == [] && initial.peak == 0
      modifies client`objects, client`uploads, client`calls, file, digest, initial
      ensures old(client.calls) <= client.calls
      ensures Bounded(initial, file.content, PeakAfter(multipartThreshold)) && (r.Ok? ==> initial.taken == file.content)
      ensures r.Ok? ==> Saved(old(client.objects), client.objects, old(client.calls), client.calls, id, key,
                              file.content, overwrite)
                        && client.uploads == old(client.uploads)
      ensures r.Err? ==> NothingStored(old(client.objects), old(client.uploads), old(client.calls), id)
                         && Cause(file, r.error, old(client.calls), old(file.faults),
                                  !overwrite && key in old(client.objects))
    {
      id := 0;
      var filled, total := FillInitial(file, digest, initial);
      if filled.Err? { return Err(filled.error), id; }
      if filled.value {
        assert file.content[..file.pos] == file.content;
        r := StoreSmall(key, initial.bytes, hash(digest.absorbed), overwrite);
      } else {
        r, id := StoreLarge(file, key, initial, digest, total, overwrite);
      }
    }

    /** `save_file` once the existence check has passed. */
    method StoreFile(file: ByteSource, key: string, overwrite: bool)
      returns (r: Result<(), Error>, ghost id: nat, ghost buffer: Buffer)
      requires Configured() && file.pos == 0
      modifies client`objects, client`uploads, client`calls, file
      ensures old(client.calls) <= client.calls
      ensures fresh(buffer) && Bounded(buffer, file.content, PeakAfter(multipartThreshold))
              && (r.Ok? ==> buffer.taken == file.content)
      ensures r.Ok? ==> Saved(old(client.objects), client.objects, old(client.calls), client.calls, id, key,
                              file.content, overwrite)
                        && client.uploads == old(client.uploads)
      ensures r.Err? ==> NothingStored(old(client.objects), old(client.uploads), old(client.calls), id)
                         && Cause(file, r.error, old(client.calls), old(file.faults),
                                  !overwrite && key in old(client.objects))
    {
      var digest := new Digest();
      var initial := new Buffer();
      buffer := initial;
      r, id := StoreFrom(file, key, overwrite, digest, initial);
    }

    /** `save_file`.  `buffer` is the buffer it used, if it came to read anything. */
    method SaveFile(file: ByteSource, filename: string, folder: string, subfolder: string, overwrite: bool)
      returns (r: Result<(), Error>, ghost id: nat, ghost checked: seq<Call>, ghost buffer: Buffer?)
      requires Configured() && file.pos == 0
      modifies client`objects, client`uploads, client`calls, file
      ensures !PlainName(filename) ==>
                r == Err(InvalidFileName) && client.calls == old(client.calls)
                && client.objects == old(client.objects) && client.uploads == old(client.uploads)
      ensures if buffer == null then r.Err? && file.pos == 0
              else fresh(buffer) && Bounded(buffer, file.content, PeakAfter(multipartThreshold))
                   && (r.Ok? ==> buffer.taken == file.content)
      ensures old(client.calls) <= checked <= client.calls
              && |checked| <= |old(client.calls)| + (if overwrite then 0 else 1)
      ensures r.Ok? ==>
                PlainName(filename) && client.uploads == old(client.uploads)
                && Saved(old(client.objects), client.objects, checked, client.calls, id,
                         Key(folder, subfolder, filename), file.content, overwrite)
      ensures r.Err? ==> NothingStored(old(client.objects), old(client.uploads), old(client.calls), id)
      ensures PlainName(filename) && NoFaults(Since(old(client.calls), client.calls))
              && file.faults == old(file.faults) ==>
                var taken := !overwrite && Key(folder, subfolder, filename) in old(client.objects);
                (r.Ok? <==> Fits(|file.content|) && !taken)
                && (r.Err? ==> Unacceptable(r.error, |file.content|, taken))
    {
      id, checked, buffer := 0, client.calls, null;
      if !ValidFilename(filename) { return Err(InvalidFileName), id, checked, buffer; }
      var key := Key(folder, subfolder, filename);
      if !overwrite {
        var found := ObjectExists(key);
        checked := client.calls;
        assert Since(old(client.calls), checked)[0] == client.calls[|old(client.calls)|];
        if found.Err? { return Err(found.error), id, checked, buffer; }
        if found.value { return Err(FileExists), id, checked, buffer; }
      }
      r, id, buffer := StoreFile(file, key, overwrite);
      TraceExtends(old(client.calls), checked, client.calls, client.calls);
      TraceExtends(old(client.calls), old(client.calls), checked, client.calls);
    }

    /** `read_file`. */
    method ReadFile(folder: string, subfolder: string, filename: string) returns (r: Result<Bytes, Error>)
      modifies client`calls
      ensures r.Ok? ==> PlainName(filename) && Key(folder, subfolder, filename) in client.objects
                        && r.value == client.objects[Key(folder, subfolder, filename)].body
      ensures old(client.calls) <= client.calls
      ensures !PlainName(filename) ==> r == Err(InvalidFileName) && client.calls == old(client.calls)
      ensures PlainName(filename) ==>
                |client.calls| == |old(client.calls)| + 1
                && var call := client.calls[|old(client.calls)|];
                call.Failed? ==> r == Err(if call.code in {"404", "NoSuchKey", "NotFound"} then FileNotFound
                                          else ClientError(call.code))
      ensures NoFaults(Since(old(client.calls), client.calls)) && r.Err? ==>
                r.error == if PlainName(filename) then FileNotFound else InvalidFileName
      ensures NoFaults(Since(old(client.calls), client.calls)) && PlainName(filename) ==>
                (r.Ok? <==> Key(folder, subfolder, filename) in client.objects)
    {
      if !ValidFilename(filename) { return Err(InvalidFileName); }
      var got := client.GetObject(Key(folder, subfolder, filename));
      assert Since(old(client.calls), client.calls)[0] == client.calls[|old(client.calls)|];
      if got.Err? && IsNotFound(got.error) { return Err(FileNotFound); }
      r := got;
    }

    /** `delete_file`. */
    method DeleteFile(folder: string, subfolder: string, filename: string) returns (r: Result<(), Error>)
      modifies client`objects, client`calls
      ensures old(client.calls) <= client.calls
      ensures r.Ok? ==> PlainName(filename)
                        && client.objects == old(client.objects) - {Key(folder, subfolder, filename)}
      ensures r.Err? ==> client.objects == old(client.objects)
      ensures NoFaults(Since(old(client.calls), client.calls)) ==>
                (r.Ok? <==> PlainName(filename) && Key(folder, subfolder, filename) in old(client.objects))
                && (r.Err? ==> r.error == if PlainName(filename) then FileNotFound else InvalidFileName)
    {
      if !ValidFilename(filename) { return Err(InvalidFileName); }
      var key := Key(folder, subfolder, filename);
      var found := ObjectExists(key);
      assert Since(old(client.calls), client.calls)[0] == client.calls[|old(client.calls)|];
      if found.Err? { return Err(found.error); }
      if !found.value { return Err(FileNotFound); }
      ghost var calls := client.calls;
      var deleted := client.DeleteObject(key);
      assert Since(old(client.calls), client.calls)[0] == client.calls[|old(client.calls)|];
      assert Since(old(client.calls), client.calls)[1] == client.calls[|calls|];
      r := deleted;
    }

    /** One page's items: nested keys are skipped, and the target may be reached half-way. */
    method CollectPage(contents: seq<Item>, found: seq<Item>, keyPrefix: string, target: Option<int>,
                       ghost seen: seq<string>)
      returns (direct: seq<Item>, full: bool)
      requires Keys(found) == Filter(seen, Direct(keyPrefix)) && !Reached(|found|, target)
      ensures full <==> Reached(|direct|, target)
      ensures !full ==> Keys(direct) == Filter(seen + Keys(contents), Direct(keyPrefix))
      ensures full ==> Keys(direct) == Wanted(Filter(seen + Keys(contents), Direct(keyPrefix)), target)
                       && |direct| == Max(1, target.value)
                       && Keys(direct) <= Filter(seen + Keys(contents), Direct(keyPrefix))
    {
      direct, full := found, false;
      var i := 0;
      assert seen + Keys(contents)[..0] == seen;
      while i < |contents|
        invariant 0 <= i <= |contents| && !Reached(|direct|, target)
        invariant Keys(direct) == Filter(seen + Keys(contents)[..i], Direct(keyPrefix))
      {
        var key := contents[i].key;
        SeenOneMore(seen, Keys(contents), i, Direct(keyPrefix));
        i := i + 1;
        if !IsDirect(key, keyPrefix) { continue; }
        direct := direct + [contents[i - 1]];
        if Reached(|direct|, target) {
          SeenInPart(seen, Keys(contents), i, Direct(keyPrefix));
          return direct, true;
        }
      }
      assert Keys(contents)[..i] == Keys(contents);
    }

    /** What `_list_direct_objects` is for: the direct children after the mark, in key order, up to the target. */
    ghost function DirectKeys(folder: string, subfolder: string, target: Option<int>, after: Option<string>)
      : seq<string>
      reads client`objects
    {
      var p := FolderPrefix(folder, subfolder);
      Wanted(Filter(Ordered(ListableKeys(client.objects.Keys, p, StartKey(p, after))), Direct(p)), target)
    }

    function FolderPrefix(folder: string, subfolder: string): string {
      FolderKeyPrefix(hash, prefix, folder, subfolder)
    }

    /** All keys a listing from `start` is to return. */
    ghost function AllKeys(keyPrefix: string, start: Option<string>): seq<string>
      reads client`objects
    {
      Ordered(ListableKeys(client.objects.Keys, keyPrefix, start))
    }

    /** The first `i` keys have been returned; the next request resumes behind them. */
    ghost predicate ListedUpTo(keyPrefix: string, start: Option<string>, token: Option<Token>, i: nat)
      reads client`objects
    {
      var all := AllKeys(keyPrefix, start);
      i <= |all| && (token.None? ==> i == 0) && (token.Some? ==> i > 0 && token.value == Token(all[i - 1]))
      && AllKeys(keyPrefix, if token.Some? then Some(token.value.after) else start) == all[i..]
    }

    /** One `list_objects_v2` request of a loop: `StartAfter` is sent only while there is no token. */
    method NextPage(keyPrefix: string, start: Option<string>, token: Option<Token>, ghost i: nat)
      returns (r: Result<ListResponse, Error>, ghost n: nat)
      requires ListedUpTo(keyPrefix, start, token, i)
      modifies client`calls
      ensures |client.calls| == |old(client.calls)| + 1 && old(client.calls) <= client.calls
      ensures var call := client.calls[|old(client.calls)|];
              if r.Ok? then call == List(keyPrefix, 1000, if token.Some? then None else start, token)
              else IsFailure(call, ListOp) && r == Err(ClientError(call.code))
      ensures r.Ok? ==>
                var all := AllKeys(keyPrefix, start);
                i <= n <= |all| && all[..i] + Keys(r.value.contents) == all[..n]
                && Recorded(r.value.contents, client.objects)
                && (r.value.isTruncated <==> n < |all|)
                && (r.value.isTruncated ==>
                      n > i && r.value.next.Some? && ListedUpTo(keyPrefix, start, r.value.next, n))
    {
      r := client.ListObjectsV2(keyPrefix, LIST_PAGE, if token.Some? then None else start, token);
      n := i;
      if r.Ok? {
        ghost var from := if token.Some? then Some(token.value.after) else start;
        Advance(client.objects.Keys, keyPrefix, start, from, i, r.value, LIST_PAGE, client.objects);
        n := i + |r.value.contents|;
      }
    }

    /** `_list_direct_objects`. */
    method ListDirectObjects(folder: string, subfolder: string, target: Option<int>, after: Option<string>)
      returns (r: Result<seq<Item>, Error>)
      modifies client`calls
      ensures old(client.calls) <= client.calls
      ensures r.Ok? ==> Keys(r.value) == DirectKeys(folder, subfolder, target, after)
      ensures r.Err? ==> !NoFaults(Since(old(client.calls), client.calls))
    {
      var keyPrefix := FolderPrefix(folder, subfolder);
      var start := StartKey(keyPrefix, after);
      ghost var all := AllKeys(keyPrefix, start);
      var token: Option<Token> := None;
      var direct: seq<Item> := [];
      ghost var i := 0;
      while true
        invariant old(client.calls) <= client.calls && all == AllKeys(keyPrefix, start)
        invariant ListedUpTo(keyPrefix, start, token, i)
        invariant Keys(direct) == Filter(all[..i], Direct(keyPrefix)) && !Reached(|direct|, target)
        decreases |all| - i
      {
        ghost var n;
        ghost var calls := client.calls;
        var listed;
        listed, n := NextPage(keyPrefix, start, token, i);
        if listed.Err? {
          FailedSince(old(client.calls), calls, client.calls);
          return Err(listed.error);
        }
        var response := listed.value;
        var full;
        direct, full := CollectPage(response.contents, direct, keyPrefix, target, all[..i]);
        if full {
          assert Keys(direct) == DirectKeys(folder, subfolder, target, after) by {
            StopEarly(all, n, keyPrefix, target, Keys(direct));
          }
          return Ok(direct);
        }
        i := n;
        if !response.isTruncated { break; }
        token := response.next;
        if token.None? { break; }
      }
      assert Keys(direct) == DirectKeys(folder, subfolder, target, after) by {
        EndWithoutTarget(all, i, keyPrefix, target, Keys(direct));
      }
      r := Ok(direct);
    }

    /** Names of the folder's files, as the key listing shows them. */
    ghost function Names(folder: string, subfolder: string): set<string>
      reads client`objects
    {
      Children(client.objects.Keys, FolderPrefix(folder, subfolder))
    }

    /** The loop that turns listed objects into names. */
    function NamesOf(items: seq<Item>, keyPrefix: string): (names: seq<string>)
      requires forall k :: k in Keys(items) ==> keyPrefix <= k
    {
      Relative(Keys(items), keyPrefix)
    }

    // The names found are the folder's names after the mark, up to the target.
    lemma FoundNames(folder: string, subfolder: string, target: Option<int>, after: Option<string>)
      ensures var p, found := FolderPrefix(folder, subfolder), DirectKeys(folder, subfolder, target, after);
              (forall k :: k in found ==> p <= k)
              && Relative(found, p) == Wanted(Ordered(AfterSet(Names(folder, subfolder), after)), target)
    {
      var p := FolderPrefix(folder, subfolder);
      KeysListNames(client.objects.Keys, p, after);
      var all := Filter(Ordered(ListableKeys(client.objects.Keys, p, StartKey(p, after))), Direct(p));
      assert forall k :: k in Wanted(all, target) ==> k in all;
    }

    /** `_folder_has_objects`. */
    method FolderHasObjects(folder: string, subfolder: string) returns (r: Result<bool, Error>)
      modifies client`calls
      ensures old(client.calls) <= client.calls
      ensures r.Ok? ==> r.value == (Names(folder, subfolder) != {})
      ensures r.Err? ==> !NoFaults(Since(old(client.calls), client.calls))
    {
      var objects := ListDirectObjects(folder, subfolder, Some(1), None);
      if objects.Err? { return Err(objects.error); }
      FoundNames(folder, subfolder, Some(1), None);
      WholeListing(Names(folder, subfolder), 0);
      OrderedLength(Names(folder, subfolder));
      r := Ok(objects.value != []);
    }

    /** `list_files`. */
    method ListFiles(folder: string, subfolder: string) returns (r: Result<seq<string>, Error>)
      modifies client`calls
      ensures old(client.calls) <= client.calls
      ensures r.Ok? || NoFaults(Since(old(client.calls), client.calls)) ==>
                r == if Names(folder, subfolder) == {} then Err(FolderNotFound)
                     else Ok(Ordered(Names(folder, subfolder)))
    {
      var objects := ListDirectObjects(folder, subfolder, None, None);
      if objects.Err? { return Err(objects.error); }
      FoundNames(folder, subfolder, None, None);
      WholeListing(Names(folder, subfolder), 0);
      OrderedLength(Names(folder, subfolder));
      if objects.value == [] { return Err(FolderNotFound); }
      r := Ok(NamesOf(objects.value, FolderPrefix(folder, subfolder)));
    }

    /** `list_files_page`: unless a listing call fails, the page the folder's names alone determine. */
    method ListFilesPage(folder: string, subfolder: string, limit: nat, after: Option<string>)
      returns (r: Result<Page, Error>)
      modifies client`calls
      ensures old(client.calls) <= client.calls
      ensures r.Ok? || NoFaults(Since(old(client.calls), client.calls)) ==>
                r == S3ListFilesPage(Names(folder, subfolder), limit, after)
    {
      var listed := ListDirectObjects(folder, subfolder, Some(limit + 1), after);
      if listed.Err? { return Err(listed.error); }
      FoundNames(folder, subfolder, Some(limit + 1), after);
      var names := NamesOf(listed.value, FolderPrefix(folder, subfolder));
      if listed.value == [] {
        if after.Some? {
          ghost var calls := client.calls;
          var some := FolderHasObjects(folder, subfolder);
          if some.Err? {
            TraceExtends(old(client.calls), calls, client.calls, client.calls);
            return Err(some.error);
          }
          if some.value { return Ok(Page([], false)); }
        }
        return Err(FolderNotFound);
      }
      r := Ok(Page(Take(names, limit), |names| > limit));
    }

    /** `_get_sha256_tag`: the first digest tag that looks like a digest, in lower case. */
    method GetSha256Tag(key: string) returns (r: Option<string>)
      modifies client`calls
      ensures old(client.calls) <= client.calls
      ensures r.Some? ==> key in client.objects && r == FirstDigest(client.objects[key].tags)
      ensures NoFaults(Since(old(client.calls), client.calls)) && key in client.objects && r.None? ==>
                forall t :: t in client.objects[key].tags ==> !DigestTag(t)
      ensures NoFaults(Since(old(client.calls), client.calls)) && key in client.objects ==>
                r == FirstDigest(client.objects[key].tags)
    {
      var response := client.GetObjectTagging(key);
      assert Since(old(client.calls), client.calls)[0] == client.calls[|old(client.calls)|];
      if response.Err? { return None; }
      FirstDigestMeans(response.value);
      var i := 0;
      while i < |response.value|
        invariant 0 <= i <= |response.value|
        invariant FirstDigest(response.value) == FirstDigest(response.value[i..])
      {
        var tag := response.value[i];
        assert response.value[i..][0] == tag && response.value[i..][1..] == response.value[i + 1..];
        if tag.key == SHA256_TAG && LooksLikeDigest(tag.value) { return Some(Lower(tag.value)); }
        i := i + 1;
      }
      r := None;
    }

    /** What may be reported as an object's digest: its tag or its body's digest, the latter if its tag is truthful. */
    ghost predicate DigestOf(digest: string, o: Object) {
      (digest == ReportedDigest(hash, o) || digest == hash(o.body)) && (Truthful(hash, o) ==> digest == hash(o.body))
    }

    /**
     * What a reported checksum is, told by the object's tags: without a digest tag that of the body, and if the
     * tags could be read the first digest tag in lower case; always 64 lower-case hexadecimal digits.
     */
    ghost predicate ChecksumFor(digest: string, o: Object, tagsRead: bool) {
      ((forall t :: t in o.tags ==> !DigestTag(t)) ==> digest == hash(o.body))
      && (tagsRead ==>
            forall i :: 0 <= i < |o.tags| && FirstDigestTag(o.tags, i) ==> LoweredTo(o.tags[i].value, digest))
      && (IsSha256(hash) ==> IsHexDigest(digest))
    }

    lemma DigestOfMeans(digest: string, o: Object)
      requires DigestOf(digest, o)
      ensures ChecksumFor(digest, o, digest == ReportedDigest(hash, o))
    {
      FirstDigestMeans(o.tags);
    }

    /** `_calculate_sha256`: the tag if there is one, else the digest of the streamed body. */
    method CalculateSha256(key: string) returns (r: Result<string, Error>)
      requires downloadChunkSize > 0
      modifies client`calls
      ensures old(client.calls) <= client.calls
      ensures r.Ok? ==> key in client.objects && DigestOf(r.value, client.objects[key])
      ensures NoFaults(Since(old(client.calls), client.calls)) && r.Ok? ==>
                r.value == ReportedDigest(hash, client.objects[key])
      ensures NoFaults(Since(old(client.calls), client.calls)) && r.Err? ==>
                r.error == ReadFailed || (r.error == FileNotFound && key !in client.objects)
      ensures r.Ok? ==> ChecksumFor(r.value, client.objects[key], NoFaults(Since(old(client.calls), client.calls)))
    {
      var tagged := GetSha256Tag(key);
      if tagged.Some? && tagged.value != "" {
        DigestOfMeans(tagged.value, client.objects[key]);
        return Ok(tagged.value);
      }
      ghost var calls := client.calls;
      var response := client.GetObject(key);
      assert Since(old(client.calls), client.calls)[|calls| - |old(client.calls)|] == client.calls[|calls|];
      TraceExtends(old(client.calls), old(client.calls), calls, client.calls);
      ghost var fetched := client.calls;
      if response.Err? { return Err(if IsNotFound(response.error) then FileNotFound else response.error); }
      var body := new ByteSource(response.value);
      var digest := new Digest();
      while true
        invariant fresh(body) && fresh(digest) && body.pos <= |body.content|
        invariant digest.absorbed == body.content[..body.pos] && client.calls == fetched
        decreases |body.content| - body.pos
      {
        ghost var pos := body.pos;
        var chunk := body.Read(downloadChunkSize);
        if chunk.Err? { return Err(chunk.error); }
        if chunk.value == [] { break; }
        digest.Update(chunk.value);
        assert body.content[..pos] + chunk.value == body.content[..body.pos];
      }
      assert body.content[..body.pos] == body.content;
      r := Ok(hash(digest.absorbed));
      DigestOfMeans(r.value, client.objects[key]);
    }

    /** The size of the body stored under this name, and its digest. */
    ghost predicate Describes(m: Metadata, folder: string, subfolder: string)
      reads client`objects
    {
      var key := Key(folder, subfolder, m.filename);
      key in client.objects && m.size == |client.objects[key].body| && DigestOf(m.sha256, client.objects[key])
    }

    /** The checksum is the tag if there is one. */
    ghost predicate DescribesByTag(m: Metadata, folder: string, subfolder: string)
      reads client`objects
    {
      var key := Key(folder, subfolder, m.filename);
      key in client.objects && m.sha256 == ReportedDigest(hash, client.objects[key])
    }

    /** `get_file_metadata`: size and checksum are those of the stored body. */
    method GetFileMetadata(folder: string, subfolder: string, filename: string)
      returns (r: Result<Metadata, Error>)
      requires downloadChunkSize > 0
      modifies client`calls
      ensures old(client.calls) <= client.calls
      ensures r.Ok? ==> PlainName(filename) && r.value.filename == filename && Describes(r.value, folder, subfolder)
      ensures NoFaults(Since(old(client.calls), client.calls)) && r.Ok? ==> DescribesByTag(r.value, folder, subfolder)
      ensures r.Ok? ==> ChecksumFor(r.value.sha256, client.objects[Key(folder, subfolder, filename)],
                                    NoFaults(Since(old(client.calls), client.calls)))
      ensures NoFaults(Since(old(client.calls), client.calls)) && r.Err? ==>
                r.error == ReadFailed
                || (PlainName(filename) && r.error == FileNotFound
                    && Key(folder, subfolder, filename) !in client.objects)
                || (!PlainName(filename) && r.error == InvalidFileName)
    {
      if !ValidFilename(filename) { return Err(InvalidFileName); }
      var key := Key(folder, subfolder, filename);
      var head := client.HeadObject(key);
      ghost var calls := client.calls;
      assert Since(old(client.calls), calls)[0] == calls[|old(client.calls)|];
      if head.Err? { return Err(if IsNotFound(head.error) then FileNotFound else head.error); }
      var sha256 := CalculateSha256(key);
      TraceExtends(old(client.calls), old(client.calls), calls, client.calls);
      TraceExtends(old(client.calls), calls, client.calls, client.calls);
      if sha256.Err? { return Err(sha256.error); }
      r := Ok(Metadata(filename, head.value, sha256.value));
    }

    // Every name on a page is in the folder, so its object is in the store.
    lemma PagedNamesAreStored(folder: string, subfolder: string, limit: nat, after: Option<string>)
      ensures var page := S3ListFilesPage(Names(folder, subfolder), limit, after);
              page.Ok? ==> forall i :: 0 <= i < |page.value.names| ==>
                             page.value.names[i] in Names(folder, subfolder)
                             && Key(folder, subfolder, page.value.names[i]) in client.objects
    {
      var page := S3ListFilesPage(Names(folder, subfolder), limit, after);
      if page.Ok? {
        var all := Ordered(AfterSet(Names(folder, subfolder), after));
        forall i | 0 <= i < |page.value.names|
          ensures page.value.names[i] in Names(folder, subfolder)
                  && Key(folder, subfolder, page.value.names[i]) in client.objects
        {
          assert page.value.names[i] == all[i] && all[i] in Elements(all);
          ChildOfKey(client.objects.Keys, FolderPrefix(folder, subfolder), all[i]);
        }
      }
    }

    /** The metadata of these names, one by one. */
    method CollectMetadata(folder: string, subfolder: string, names: seq<string>)
      returns (r: Result<seq<Metadata>, Error>)
      requires downloadChunkSize > 0
      requires forall n :: n in names ==> Key(folder, subfolder, n) in client.objects
      modifies client`calls
      ensures old(client.calls) <= client.calls
      ensures r.Ok? ==> Filenames(r.value) == names && forall m :: m in r.value ==> Describes(m, folder, subfolder)
      ensures r.Ok? && NoFaults(Since(old(client.calls), client.calls)) ==>
                forall m :: m in r.value ==> DescribesByTag(m, folder, subfolder)
      ensures NoFaults(Since(old(client.calls), client.calls)) && r.Err? ==>
                r.error == ReadFailed || (r.error == InvalidFileName && exists n :: n in names && !PlainName(n))
    {
      var items: seq<Metadata> := [];
      var i := 0;
      while i < |names|
        invariant 0 <= i <= |names| && Filenames(items) == names[..i] && old(client.calls) <= client.calls
        invariant forall m :: m in items ==> Describes(m, folder, subfolder)
        invariant NoFaults(Since(old(client.calls), client.calls)) ==>
                    forall m :: m in items ==> DescribesByTag(m, folder, subfolder)
      {
        ghost var calls := client.calls;
        var metadata := GetFileMetadata(folder, subfolder, names[i]);
        TraceExtends(old(client.calls), calls, client.calls, client.calls);
        TraceExtends(old(client.calls), old(client.calls), calls, client.calls);
        if metadata.Err? { return Err(metadata.error); }
        FilenamesAppend(items, metadata.value);
        items := items + [metadata.value];
        i := i + 1;
      }
      assert names[..i] == names;
      r := Ok(items);
    }

    /** `list_file_metadata_page`: the names of the page, each with the size and checksum of its stored body. */
    method ListFileMetadataPage(folder: string, subfolder: string, limit: nat, after: Option<string>)
      returns (r: Result<(seq<Metadata>, bool), Error>)
      requires downloadChunkSize > 0
      modifies client`calls
      ensures old(client.calls) <= client.calls
      ensures r.Ok? ==>
                S3ListFilesPage(Names(folder, subfolder), limit, after) == Ok(Page(Filenames(r.value.0), r.value.1))
      ensures r.Ok? ==> forall m :: m in r.value.0 ==> Describes(m, folder, subfolder)
      ensures r.Ok? && NoFaults(Since(old(client.calls), client.calls)) ==>
                forall m :: m in r.value.0 ==> DescribesByTag(m, folder, subfolder)
      ensures NoFaults(Since(old(client.calls), client.calls)) && r.Err? ==>
                S3ListFilesPage(Names(folder, subfolder), limit, after) == Err(r.error) || r.error == ReadFailed
                || (r.error == InvalidFileName && exists n :: n in Names(folder, subfolder) && !PlainName(n))
    {
      var page := ListFilesPage(folder, subfolder, limit, after);
      if page.Err? { return Err(page.error); }
      PagedNamesAreStored(folder, subfolder, limit, after);
      ghost var calls := client.calls;
      var items := CollectMetadata(folder, subfolder, page.value.names);
      TraceExtends(old(client.calls), calls, client.calls, client.calls);
      if items.Err? { return Err(items.error); }
      r := Ok((items.value, page.value.hasMore));
    }

    /** What the cleanup is for: objects under the configured prefix that are older than the allowed hours. */
    ghost predicate Stale(key: string, o: Object, now: real) {
      (prefix == "" || prefix + "/" <= key)
      && o.modified.Some? && now - o.modified.value > 3600.0 * maxAgeHours as real
    }

    /** Keys the cleanup is to remove: under the cleanup prefix and last modified before the cutoff. */
    ghost function ExpiredKeys(objects: map<string, Object>, cutoff: real): set<string> {
      set k | k in objects && CleanupPrefix(prefix) <= k && Expired(objects, cutoff)(k)
    }

    /** The listing loop of `cleanup_old_files`. */
    method ListExpired(cutoff: real) returns (r: Result<seq<string>, Error>)
      modifies client`calls
      ensures old(client.calls) <= client.calls
      ensures Requested(Since(old(client.calls), client.calls)) == []
      ensures Reported(Since(old(client.calls), client.calls)) == {}
      ensures r.Ok? ==> r.value == Ordered(ExpiredKeys(client.objects, cutoff))
      ensures r.Err? ==> !NoFaults(Since(old(client.calls), client.calls))
    {
      var keyPrefix := CleanupPrefix(prefix);
      ghost var all := AllKeys(keyPrefix, None);
      ghost var test := Expired(client.objects, cutoff);
      var token: Option<Token> := None;
      var keys: seq<string> := [];
      ghost var i := 0;
      assert all[..0] == [] && all[0..] == all;
      while true
        invariant old(client.calls) <= client.calls && all == AllKeys(keyPrefix, None)
        invariant Requested(Since(old(client.calls), client.calls)) == []
        invariant Reported(Since(old(client.calls), client.calls)) == {}
        invariant ListedUpTo(keyPrefix, None, token, i)
        invariant keys == Filter(all[..i], test)
        decreases |all| - i
      {
        ghost var n;
        ghost var calls := client.calls;
        var listed;
        listed, n := NextPage(keyPrefix, None, token, i);
        RequestedOne(old(client.calls), calls, client.calls);
        if listed.Err? {
          FailedSince(old(client.calls), calls, client.calls);
          return Err(listed.error);
        }
        keys := CollectExpired(listed.value.contents, keys, cutoff, all[..i]);
        i := n;
        if !listed.value.isTruncated { break; }
        token := listed.value.next;
        if token.None? { break; }
      }
      assert all[..i] == all;
      ExpiredIsFiltered(all, cutoff);
      r := Ok(keys);
    }

    lemma ExpiredIsFiltered(all: seq<string>, cutoff: real)
      requires all == AllKeys(CleanupPrefix(prefix), None)
      ensures Filter(all, Expired(client.objects, cutoff)) == Ordered(ExpiredKeys(client.objects, cutoff))
    {
      var test := Expired(client.objects, cutoff);
      FilterElements(all, test);
      FilterSorted(all, test);
      OrderedIs(Filter(all, test));
      forall k
        ensures k in Filter(all, test) <==> k in ExpiredKeys(client.objects, cutoff)
      {
        assert k in all <==> k in Elements(all);
      }
      assert Elements(Filter(all, test)) == ExpiredKeys(client.objects, cutoff);
    }

    /** One page's items: those with a modification time before the cutoff are noted. */
    method CollectExpired(contents: seq<Item>, found: seq<string>, cutoff: real, ghost seen: seq<string>)
      returns (keys: seq<string>)
      requires Recorded(contents, client.objects) && found == Filter(seen, Expired(client.objects, cutoff))
      ensures keys == Filter(seen + Keys(contents), Expired(client.objects, cutoff))
    {
      keys := found;
      var i := 0;
      assert seen + Keys(contents)[..0] == seen;
      while i < |contents|
        invariant 0 <= i <= |contents|
        invariant keys == Filter(seen + Keys(contents)[..i], Expired(client.objects, cutoff))
      {
        var item := contents[i];
        SeenOneMore(seen, Keys(contents), i, Expired(client.objects, cutoff));
        if item.modified.Some? && item.modified.value < cutoff { keys := keys + [item.key]; }
        i := i + 1;
      }
      assert Keys(contents)[..i] == Keys(contents);
    }

    /** The requested keys that were not reported back, as the source counts them. */
    function CountRemoved(batch: seq<string>, refused: set<string>): nat {
      if |batch| == 0 then 0
      else CountRemoved(batch[..|batch| - 1], refused) + (if batch[|batch| - 1] in refused then 0 else 1)
    }

    lemma {:induction false} CountIsSize(batch: seq<string>, refused: set<string>)
      requires Distinct(batch)
      ensures CountRemoved(batch, refused) == |Elements(batch) - refused|
    {
      if |batch| > 0 {
        var init, last := batch[..|batch| - 1], batch[|batch| - 1];
        CountIsSize(init, refused);
        assert last !in Elements(init);
        assert Elements(batch) == Elements(init) + {last};
        if last in refused {
          assert Elements(batch) - refused == Elements(init) - refused;
        } else {
          assert Elements(batch) - refused == (Elements(init) - refused) + {last};
        }
      }
    }

    /** One `delete_objects` request after `gone` keys were removed from `initial`. */
    method DeleteBatch(batch: seq<string>, ghost initial: map<string, Object>, ghost gone: set<string>,
                       ghost before: seq<Call>)
      returns (r: Result<set<string>, Error>)
      requires |batch| <= LIST_PAGE && client.objects == initial - gone && before <= client.calls
      modifies client`objects, client`calls
      ensures before <= client.calls && |client.calls| == |old(client.calls)| + 1
      ensures r.Ok? ==> r.value <= Elements(batch)
                        && client.objects == initial - (gone + (Elements(batch) - r.value))
                        && Requested(Since(before, client.calls)) == Requested(Since(before, old(client.calls))) + batch
                        && Reported(Since(before, client.calls)) == Reported(Since(before, old(client.calls))) + r.value
      ensures r.Err? ==> client.objects == initial - gone && !NoFaults(Since(before, client.calls))
    {
      ghost var calls := client.calls;
      r := client.DeleteObjects(batch);
      RequestedOne(before, calls, client.calls);
      if r.Ok? {
        MinusTwice(initial, gone, Elements(batch) - r.value);
      } else {
        FailedSince(before, calls, client.calls);
      }
    }

    /** The first `start` keys have been requested, and those not refused are gone from `initial`. */
    ghost predicate DeletedUpTo(keys: seq<string>, start: nat, initial: map<string, Object>, refused: set<string>,
                                gone: set<string>, before: seq<Call>)
      reads client
    {
      start <= |keys| && before <= client.calls
      && refused <= Elements(keys[..start]) && gone == Elements(keys[..start]) - refused
      && client.objects == initial - gone
      && Requested(Since(before, client.calls)) == keys[..start]
      && Reported(Since(before, client.calls)) == refused
    }

    /** One round of the deleting loop: the next at most 1000 keys. */
    method DeleteNextBatch(keys: seq<string>, start: nat, ghost initial: map<string, Object>,
                           ghost refused: set<string>, ghost gone: set<string>, ghost before: seq<Call>)
      returns (r: Result<nat, Error>, ghost refusedNow: set<string>, ghost goneNow: set<string>)
      requires Distinct(keys) && start < |keys| && DeletedUpTo(keys, start, initial, refused, gone, before)
      modifies client`objects, client`calls
      ensures |client.calls| == |old(client.calls)| + 1
      ensures r.Ok? ==> DeletedUpTo(keys, Min(start + LIST_PAGE, |keys|), initial, refusedNow, goneNow, before)
                        && r.value == |goneNow| - |gone|
      ensures r.Err? ==> before <= client.calls && !NoFaults(Since(before, client.calls))
                         && client.objects == old(client.objects)
    {
      refusedNow, goneNow := refused, gone;
      var next := Min(start + LIST_PAGE, |keys|);
      var batch := keys[start..next];
      var result := DeleteBatch(batch, initial, gone, before);
      if result.Err? { return Err(result.error), refusedNow, goneNow; }
      SplitKeys(keys, start, next);
      BatchRemoved(keys[..start], batch, refused, result.value);
      refusedNow, goneNow := refused + result.value, gone + (Elements(batch) - result.value);
      r := Ok(CountRemoved(batch, result.value));
    }

    /**
     * The deleting loop of `cleanup_old_files`: ceil(n / 1000) requests of at most 1000 keys each; `gone` is
     * what was removed.
     */
    method DeleteKeys(keys: seq<string>)
      returns (r: Result<nat, Error>, ghost refused: set<string>, ghost gone: set<string>)
      requires Distinct(keys)
      modifies client`objects, client`calls
      ensures old(client.calls) <= client.calls && refused <= Elements(keys) && gone <= Elements(keys)
      ensures client.objects == old(client.objects) - gone
      ensures r.Ok? ==> gone == Elements(keys) - refused && r.value == |gone|
                        && Requested(Since(old(client.calls), client.calls)) == keys
                        && Reported(Since(old(client.calls), client.calls)) == refused
                        && |client.calls| == |old(client.calls)| + CeilDiv(|keys|, 1000)
      ensures r.Err? ==> !NoFaults(Since(old(client.calls), client.calls))
    {
      refused, gone := {}, {};
      var deleted := 0;
      var start := 0;
      ghost var rounds := 0;
      assert keys[..0] == [] && Elements(keys[..0]) == {};
      while start < |keys|
        invariant DeletedUpTo(keys, start, old(client.objects), refused, gone, old(client.calls))
        invariant deleted == |gone| && |client.calls| == |old(client.calls)| + rounds
        invariant AfterRounds(rounds, start, |keys|)
        decreases |keys| - start
      {
        DeletedWithin(keys, start, old(client.objects), refused, gone, old(client.calls));
        var removed: Result<nat, Error>;
        ghost var refusedNow, goneNow;
        removed, refusedNow, goneNow :=
          DeleteNextBatch(keys, start, old(client.objects), refused, gone, old(client.calls));
        if removed.Err? { return Err(removed.error), refused, gone; }
        refused, gone, deleted := refusedNow, goneNow, deleted + removed.value;
        OneMoreRound(rounds, start, |keys|);
        start, rounds := Min(start + LIST_PAGE, |keys|), rounds + 1;
      }
      AllRounds(rounds, |keys|);
      DeletedWithin(keys, start, old(client.objects), refused, gone, old(client.calls));
      r := Ok(deleted);
    }

    lemma DeletedWithin(keys: seq<string>, start: nat, initial: map<string, Object>, refused: set<string>,
                        gone: set<string>, before: seq<Call>)
      requires DeletedUpTo(keys, start, initial, refused, gone, before)
      ensures refused <= Elements(keys) && gone <= Elements(keys)
      ensures start == |keys| ==> gone == Elements(keys) - refused && Requested(Since(before, client.calls)) == keys
    {
      assert Elements(keys[..start]) <= Elements(keys);
      if start == |keys| { assert keys[..start] == keys; }
    }

    /** Where the loop over `n` keys stands after so many full steps. */
    predicate AfterRounds(rounds: nat, start: nat, n: nat) {
      start == Min(rounds * LIST_PAGE, n) && (rounds > 0 ==> (rounds - 1) * LIST_PAGE < n)
    }

    lemma OneMoreRound(rounds: nat, start: nat, n: nat)
      requires AfterRounds(rounds, start, n) && start < n
      ensures AfterRounds(rounds + 1, Min(start + LIST_PAGE, n), n)
    {
    }

    lemma AllRounds(rounds: nat, n: nat)
      requires AfterRounds(rounds, n, n)
      ensures rounds == CeilDiv(n, LIST_PAGE)
    {
    }

    lemma SplitKeys(keys: seq<string>, start: nat, next: nat)
      requires start <= next <= |keys| && Distinct(keys)
      ensures keys[..start] + keys[start..next] == keys[..next]
      ensures Distinct(keys[..next]) && Elements(keys[..next]) <= Elements(keys)
    {
    }

    lemma BatchRemoved(done: seq<string>, batch: seq<string>, refused: set<string>, more: set<string>)
      requires Distinct(done + batch) && refused <= Elements(done) && more <= Elements(batch)
      ensures refused + more <= Elements(done + batch)
      ensures var gone, now := Elements(done) - refused, Elements(batch) - more;
              Elements(done + batch) - (refused + more) == gone + now
              && |gone + now| == |gone| + CountRemoved(batch, more)
    {
      ElementsConcat(done, batch);
      BlocksDisjoint(done, batch);
      CountIsSize(batch, more);
      DifferenceOfUnion(Elements(done), Elements(batch), refused, more);
    }

    lemma BlocksDisjoint(done: seq<string>, batch: seq<string>)
      requires Distinct(done + batch)
      ensures Elements(done) !! Elements(batch) && Distinct(batch)
    {
      forall i, j | 0 <= i < |done| && 0 <= j < |batch|
        ensures done[i] != batch[j]
      {
        assert (done + batch)[i] != (done + batch)[|done| + j];
      }
      forall i, j | 0 <= i < j < |batch|
        ensures batch[i] != batch[j]
      {
        assert (done + batch)[|done| + i] != (done + batch)[|done| + j];
      }
    }

    lemma DifferenceOfUnion(a: set<string>, b: set<string>, r: set<string>, m: set<string>)
      requires a !! b && r <= a && m <= b
      ensures (a + b) - (r + m) == (a - r) + (b - m)
      ensures |(a - r) + (b - m)| == |a - r| + |b - m|
    {
      assert (a - r) !! (b - m);
    }

    /**
     * `cleanup_old_files`: with no other client at work, exactly the expired objects that S3 did not refuse
     * are removed, each requested once, and the count returned is the number removed.
     */
    method CleanupOldFiles(now: real)
      returns (r: Result<nat, Error>, ghost refused: set<string>, ghost gone: set<string>)
      modifies client`objects, client`calls
      ensures old(client.calls) <= client.calls
      ensures client.objects == old(client.objects) - gone
              && forall k :: k in gone ==> k in old(client.objects) && Stale(k, old(client.objects)[k], now)
      ensures r.Ok? ==>
                (forall k :: k in old(client.objects) ==>
                   (k in client.objects <==> k in refused || !Stale(k, old(client.objects)[k], now)))
                && r.value == |gone| == |old(client.objects)| - |client.objects|
                && Requested(Since(old(client.calls), client.calls))
                   == Ordered(set k | k in old(client.objects) && Stale(k, old(client.objects)[k], now))
                && Reported(Since(old(client.calls), client.calls)) == refused
      ensures r.Err? ==> !NoFaults(Since(old(client.calls), client.calls))
    {
      refused, gone := {}, {};
      var cutoff := now - 3600.0 * maxAgeHours as real;
      ghost var stale := set k | k in client.objects && Stale(k, client.objects[k], now);
      assert ExpiredKeys(client.objects, cutoff) == stale;
      var listed := ListExpired(cutoff);
      if listed.Err? {
        assert client.objects == client.objects - {};
        return Err(listed.error), refused, gone;
      }
      ghost var calls := client.calls;
      SortedIsDistinct(listed.value);
      r, refused, gone := DeleteKeys(listed.value);
      CleanupTrace(old(client.calls), calls, client.calls);
      MapMinus(old(client.objects), gone);
    }
  }

  lemma MinusTwice(objects: map<string, Object>, a: set<string>, b: set<string>)
    ensures objects - a - b == objects - (a + b)
  {
  }

  lemma MapMinus(objects: map<string, Object>, gone: set<string>)
    requires gone <= objects.Keys
    ensures |objects - gone| == |objects| - |gone|
  {
    assert (objects - gone).Keys == objects.Keys - gone;
    assert |objects - gone| == |(objects - gone).Keys|;
  }

  lemma SortedIsDistinct(keys: seq<string>)
    requires Sorted(keys)
    ensures Distinct(keys)
  {
    forall i, j | 0 <= i < j < |keys|
      ensures keys[i] != keys[j]
    {
      BeforeIrreflexive(keys[i]);
    }
  }

  /** All keys that deletion requests named, in order. */
  ghost function Requested(calls: seq<Call>): seq<string> {
    if |calls| == 0 then []
    else Requested(calls[..|calls| - 1])
         + (if calls[|calls| - 1].DeleteMany? then calls[|calls| - 1].keys else [])
  }

  /** All keys that deletion requests reported as not removed. */
  ghost function Reported(calls: seq<Call>): set<string> {
    if |calls| == 0 then {}
    else Reported(calls[..|calls| - 1])
         + (if calls[|calls| - 1].DeleteMany? then calls[|calls| - 1].refused else {})
  }

  lemma {:induction false} RequestedConcat(x: seq<Call>, y: seq<Call>)
    ensures Requested(x + y) == Requested(x) + Requested(y) && Reported(x + y) == Reported(x) + Reported(y)
  {
    if |y| == 0 {
      assert x + y == x;
    } else {
      assert (x + y)[..|x + y| - 1] == x + y[..|y| - 1];
      RequestedConcat(x, y[..|y| - 1]);
    }
  }

  lemma RequestedAppend(a: seq<Call>, b: seq<Call>, c: seq<Call>)
    requires a <= b <= c
    ensures Requested(Since(a, c)) == Requested(Since(a, b)) + Requested(Since(b, c))
    ensures Reported(Since(a, c)) == Reported(Since(a, b)) + Reported(Since(b, c))
  {
    assert Since(a, c) == Since(a, b) + Since(b, c);
    RequestedConcat(Since(a, b), Since(b, c));
  }

  lemma CleanupTrace(a: seq<Call>, b: seq<Call>, c: seq<Call>)
    requires a <= b <= c && Requested(Since(a, b)) == [] && Reported(Since(a, b)) == {}
    ensures Requested(Since(a, c)) == Requested(Since(b, c)) && Reported(Since(a, c)) == Reported(Since(b, c))
    ensures !NoFaults(Since(b, c)) ==> !NoFaults(Since(a, c))
  {
    RequestedAppend(a, b, c);
    TraceExtends(a, b, c, c);
  }

  // What one more call adds to the deletion requests.
  lemma RequestedOne(a: seq<Call>, b: seq<Call>, c: seq<Call>)
    requires a <= b <= c && |c| == |b| + 1
    ensures Requested(Since(a, c)) == Requested(Since(a, b)) + (if c[|b|].DeleteMany? then c[|b|].keys else [])
    ensures Reported(Since(a, c)) == Reported(Since(a, b)) + (if c[|b|].DeleteMany? then c[|b|].refused else {})
  {
    RequestedAppend(a, b, c);
    var one := Since(b, c);
    assert |one| == 1 && one[0] == c[|b|] && one[..0] == [];
  }

  // The target reached within the first `n` keys is what all keys would have given.
  lemma StopEarly(all: seq<string>, n: nat, keyPrefix: string, target: Option<int>, got: seq<string>)
    requires n <= |all| && target.Some? && |got| == Max(1, target.value)
    requires got <= Filter(all[..n], Direct(keyPrefix))
    ensures got == Wanted(Filter(all, Direct(keyPrefix)), target)
  {
    FilterPrefix(all, n, Direct(keyPrefix));
  }

  lemma SeenOneMore(seen: seq<string>, keys: seq<string>, i: nat, test: string -> bool)
    requires i < |keys|
    ensures Filter(seen + keys[..i + 1], test) ==
            Filter(seen + keys[..i], test) + (if test(keys[i]) then [keys[i]] else [])
  {
    FilterAppend(seen + keys[..i], keys[i], test);
    assert seen + keys[..i + 1] == seen + keys[..i] + [keys[i]];
  }

  lemma SeenInPart(seen: seq<string>, keys: seq<string>, i: nat, test: string -> bool)
    requires i <= |keys|
    ensures Filter(seen + keys[..i], test) <= Filter(seen + keys, test)
  {
    FilterPrefix(seen + keys, |seen| + i, test);
    assert (seen + keys)[..|seen| + i] == seen + keys[..i];
  }

  // Nothing is cut off where the target was not reached.
  lemma EndWithoutTarget(all: seq<string>, n: nat, keyPrefix: string, target: Option<int>, got: seq<string>)
    requires n == |all| && got == Filter(all[..n], Direct(keyPrefix)) && !Reached(|got|, target)
    ensures got == Wanted(Filter(all, Direct(keyPrefix)), target)
  {
    assert all[..n] == all;
  }

  // Reading on moves the stream into the buffer.
  lemma ReadOn(content: Bytes, sent: Bytes, held: Bytes, a: nat, b: nat)
    requires a <= b <= |content| && sent + held == content[..a]
    ensures sent + (held + content[a..b]) == content[..b]
  {
    assert sent + (held + content[a..b]) == (sent + held) + content[a..b];
  }

  lemma FailedSince(before: seq<Call>, calls: seq<Call>, now: seq<Call>)
    requires before <= calls <= now && |now| == |calls| + 1 && now[|calls|].Failed?
    ensures !NoFaults(Since(before, now))
  {
    assert Since(before, now)[|calls| - |before|] == now[|calls|];
  }

  // A failed call stays in the trace however it grows.
  lemma TraceExtends(a: seq<Call>, b: seq<Call>, c: seq<Call>, d: seq<Call>)
    requires a <= b <= c <= d
    ensures !NoFaults(Since(b, c)) ==> !NoFaults(Since(a, d))
  {
    if !NoFaults(Since(b, c)) {
      var i :| 0 <= i < |Since(b, c)| && Since(b, c)[i].Failed?;
      assert Since(a, d)[|b| - |a| + i] == Since(b, c)[i];
    }
  }
}
