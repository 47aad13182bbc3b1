# Verification of the file service's storage engine and pagination protocol

This project models, in Dafny 4.11, the two storage backends of the VSEM file service and the cursor
pagination above them, and proves what they promise their callers.

* **Cursor codec** (`Utf8`, `Base64`, `Pagination`): UTF-8 (section 3 of RFC 3629), unpadded base64url
  (sections 3.2 and 5 of RFC 4648) and the versioned cursor payload are written out as functions; decoding inverts
  encoding, and the strings that decoding accepts but encoding never issues are characterised exactly.
* **Paging** (`Lex`, `Names`, `Paging`): code-point order, the sorted directory listing, `bisect_right` and the page
  windows of both backends, all compared with one reference page. `BackendsAgreeIff` says when the two backends
  cannot be told apart.
* **The client's run** (`FileService`): a client follows `next_cursor` while the folder changes in any way between
  requests. Names arrive strictly increasing, each was there when its page was taken, and a file that is there
  throughout arrives exactly once. On an unchanging folder the number and size of the pages are exact.
* **S3 backend** (`S3Service`, `Streams`, `Parts`, `S3Keys`, `S3Listing`, `S3Storage`, `S3Refinement`): the class
  `S3StorageBackend` has the loops of `s3.py`, working on a mutable store, a byte source that returns short reads and a
  running digest. The client model keeps a trace of its calls, so contracts speak about the requests made as well as
  about their result. Any call may fail at any time.
* **Local backend** (`FileSystem`, `LocalNames`, `LocalStorage`): the class `LocalStorageBackend` over a file system of
  directory entries that point to files, with the legacy v1.0.0 names.
* **Interleavings** (`Exclusive`, `Presence`, `S3Protocol`, `LocalProtocol`, `LocalMisses`): both backends as step relations in which each call is
  one atomic step and any number of savers, readers, deleters and cleaners interleave; what holds in every reachable
  state, and concrete runs in which something tempting does not hold.

`hash` stands for SHA-256 over bytes, as 64 lower-case hexadecimal digits (`IsSha256`); nothing else is assumed of it.
Where distinct texts must have distinct digests, the lemma asks for `CollisionFree` over the UTF-8 of the few texts it
mentions. A digest object is the bytes it has absorbed. Times are real numbers of seconds. `uuid4` is a name not used
before. A `char` is a Unicode scalar value, so a name with a lone surrogate (which `str.encode` rejects) does not occur.

## What turned out false

Each of these is stated with the code as it is, and with the exact condition.

* `encode_cursor(decode_cursor(c)) == c` fails for a cursor with kept padding (`Pagination.NotEveryCursorIsReissued`);
  it holds exactly for canonical cursors (`Pagination.ReissuedIffCanonical`).
* "Switching backends does not change the public HTTP API" (the repository's README.md, line 162) fails for an existing
  empty folder (an empty page locally, `FolderNotFoundError` on S3) and for names that start with `.upload-` (hidden
  locally, listed on S3). `Paging.BackendsAgreeIff` shows that there is no other difference in listing pages.
* Saving one file leaves every other file of the folder alone exactly when neither name is the other's legacy name and
  the two have different legacy names (`LocalNames.SaveKeepsOtherIff`).
* A reader can report a file as missing that was there all the time, in three ways: a save moves it from its legacy to
  its current name between the two looks (`LocalMisses.LookCanMiss`) or between finding and opening the legacy file
  (`LocalMisses.OpenCanMissLegacy`), or the current file goes between finding and opening it while a legacy copy stays
  (`LocalMisses.OpenCanMissCurrent`). `LocalMisses.LegacyMissIsRightIff` and `LocalMisses.CurrentMissIsRightIff` say, over
  the events of a run, exactly when a reported miss is right; `LocalMisses.EveryMissIsCovered` says that there are no
  other misses.
* Two overlapping multipart saves of one key can leave the digest of the wrong body as its tag
  (`S3Protocol.OverlappingSavesLeaveStaleTag`). `S3Protocol.TaggingTruthfulIff` gives the exact condition for one tagging
  call, `S3Protocol.ChecksumsTruthfulIff` for whole runs, and `S3Protocol.TruthfulIffTagsFollowCommits` the same in terms
  of the commits, deletions and tagging calls alone; `S3Protocol.ChecksumsTruthful` is the simpler sufficient condition
  that saves of a key do not overlap.
* A content within `MAX_FILE_SIZE_MB` can still be refused, because it needs more than 10000 parts: no setting rules this
  out. `S3StorageBackend.Fits` is the exact condition for one content, and `S3Refinement.SizeLimitDecidesIff` says exactly
  for which settings the size limit alone decides.

## Model

| member | source | states |
|---|---|---|
| `Utf8.DecodeEncode` | vsem_fms/app/core/pagination.py:11 | Strict UTF-8 decoding gives back every encoded name |
| `Utf8.EncodeDecode` | vsem_fms/app/core/pagination.py:26 | What the decoder accepts is exactly what the encoder writes: no overlong forms, no surrogates |
| `Utf8.EncodedBytes` | vsem_fms/app/core/pagination.py:11 | Each character becomes the bytes that the table of RFC 3629 gives it |
| `Utf8.OrderPreserved` | vsem_fms/app/storage/s3.py:367 | Byte order of UTF-8 encodings is code-point order, so a `StartAfter` key and a Python string comparison agree |
| `Base64.StripInvertsPadding` | vsem_fms/app/core/pagination.py:18 | Stripping removes exactly the padding that `-len % 4` restores |
| `Base64.UnpaddedRoundTrip` | vsem_fms/app/core/pagination.py:12-23 | The stripped base64url text, padded again, decodes to the same bytes |
| `Base64.UrlAlphabet` | vsem_fms/app/core/pagination.py:12 | The 64 characters of Table 2 of RFC 4648, in order |
| `Base64.DigitAlphabet` | vsem_fms/app/core/pagination.py:19-23 | The decoder also takes plus and slash, with the values of minus and underscore, and no other character |
| `Base64.SameBits` | vsem_fms/app/core/pagination.py:12 | Three bytes and their four characters carry the same 24 bits; a short final group is filled up with zero bits |
| `Base64.AcceptedIff` | vsem_fms/app/core/pagination.py:18-23 | Accepted are exactly whole groups of four: digits, then at most two padding characters |
| `Base64.ReencodeIffCanonical` | vsem_fms/app/core/pagination.py:18-23 | Encoding reproduces an accepted text exactly when it uses only the URL-safe alphabet and its spare bits are zero |
| `Pagination.RoundTrip` | vsem_fms/app/core/pagination.py:9-32 | `decode_cursor(encode_cursor(f)) == f` for every non-empty name; for the empty name it fails |
| `Pagination.Injective` | vsem_fms/app/core/pagination.py:9-12 | Different names have different cursors |
| `Pagination.ReissuedIffCanonical` | vsem_fms/app/core/pagination.py:15-32 | A decoded name is not empty, and re-encoding it gives the cursor back exactly when the cursor is canonical |
| `Pagination.KeptPaddingAccepted` | vsem_fms/app/core/pagination.py:18-23 | A cursor that kept its padding decodes to the same name |
| `Pagination.StandardAlphabetAccepted` | vsem_fms/app/core/pagination.py:19-23 | A cursor written with plus and slash decodes to the same name |
| `Pagination.DecodesIff` | vsem_fms/app/core/pagination.py:15-32 | A cursor decodes to a name exactly when the name is not empty and its base64 content is the version prefix and the name's UTF-8 |
| `Pagination.NotEveryCursorIsReissued` | vsem_fms/app/core/pagination.py:15-32 | A concrete accepted cursor that encoding never issues |
| `Pagination.CursorSize` | vsem_fms/app/routes/get_files_list.py:41-44 | A cursor for b bytes has ceil(4(b+3)/3) characters, all URL-safe, and fits the 2048 limit exactly when b <= 1533 |
| `Pagination.CursorStart` | vsem_fms/app/core/pagination.py:6-12 | Every issued cursor starts with `djEA` |
| `Names.KeyOrderIsNameOrder` | vsem_fms/app/storage/s3.py:354-369 | S3 lists keys in the order in which Python compares the names |
| `Names.SortedUnique` | vsem_fms/app/storage/local.py:210-220 | A set of names has one strictly increasing listing |
| `Names.InsertionSortIsOrdered` | vsem_fms/app/storage/local.py:210-220 | Sorting the directory entries gives the ordered listing of their set, whatever order they were enumerated in |
| `Names.AfterIsSuffix` | vsem_fms/app/storage/local.py:231-232 | The names after a mark are a suffix of the listing |
| `Names.MarkSplits` | vsem_fms/app/storage/local.py:231-232 | Marking a listed name splits the listing right behind it |
| `Paging.BisectRightSplits` | vsem_fms/app/storage/local.py:231 | `bisect_right` splits a sorted list into the names up to the mark and those after it |
| `Paging.LocalPageIsSpec` | vsem_fms/app/storage/local.py:222-233 | The window of `limit + 1` names gives the first `limit` names after the mark, and `has_more` exactly when more follow |
| `Paging.BackendPageIsSpec` | vsem_fms/app/storage/s3.py:398-413 | Each backend answers with the reference page of its visible names, or reports the folder missing |
| `Paging.BackendsAgree` | vsem_fms/app/storage/local.py:240-251 | Both backends return the same page of the same non-empty set of names, none hidden, for every limit and mark |
| `Paging.BackendsAgreeIff` | vsem_fms/app/storage/s3.py:408-413 | They agree on all requests exactly when there is a name and none starts with `.upload-` |
| `FileService.PageSizeHonoured` | vsem_fms/app/services/file_service.py:82-89 | The answer is the reference page of exactly the limit asked for, and of 100 names for a missing or zero limit |
| `FileService.PageSizeBound` | vsem_fms/app/services/file_service.py:82-89 | An answer has at most that many names, and exactly that many if more follow |
| `FileService.UnreadableCursor` | vsem_fms/app/services/file_service.py:55-62 | A cursor that does not decode raises the invalid-cursor error whatever the folder, and no other cursor does |
| `FileService.MetadataContinuesAlike` | vsem_fms/app/services/file_service.py:177 | A metadata page continues where the name page of the same names would |
| `FileService.CursorMarksLastName` | vsem_fms/app/services/file_service.py:64-71 | `next_cursor` is there exactly when more names follow, and decodes to the last name of the page |
| `FileService.NextMark` | vsem_fms/app/services/file_service.py:73-89 | Every request of a run is answered with the reference page after the last name received before it |
| `FileService.NextPageAnswers` | vsem_fms/app/services/file_service.py:73-89 | A run that is not finished can continue whatever was saved or deleted meanwhile, unless the folder is reported missing |
| `FileService.StrictlyIncreasing` | vsem_fms/app/services/file_service.py:73-89 | However the folder changes between requests, the names of a run are strictly increasing |
| `FileService.EachWasPresent` | vsem_fms/app/services/file_service.py:82-89 | Each name was visible in the folder when its page was taken |
| `FileService.ExactlyOnce` | vsem_fms/app/services/file_service.py:73-89 | On a finished run every file visible throughout is returned exactly once |
| `FileService.FixedFolder` | vsem_fms/app/services/file_service.py:65-89 | On an unchanging folder of n names a run whose requests all carry the same limit (or none, for 100) finishes after exactly max(1, ceil(n / limit)) pages, returns the whole listing, and all pages but the last are full |
| `Parts.ChunksReassemble` | vsem_fms/app/storage/s3.py:197-232 | The blocks of a content put together are the content; there are ceil(n / chunk), all full but the last, which holds 1 to chunk bytes |
| `Parts.FullBlocksAreChunks` | vsem_fms/app/storage/s3.py:199-232 | Full blocks sent during reading, then the rest of the buffer, are exactly the blocks of the whole content |
| `S3Keys.PrefixesAreDisjoint` | vsem_fms/app/storage/s3.py:68-72 | The key prefix of a folder is a prefix of a key of another folder only if the folders are the same |
| `S3Keys.KeyLayout` | vsem_fms/app/storage/s3.py:64-79 | A key is the configured prefix, the digests of the whole folder and subfolder texts, and the file name |
| `S3Keys.ValidFilename` | vsem_fms/app/storage/s3.py:58-62 | Accepted are exactly the names that are one path component: not empty, no dot name, no separator, no NUL |
| `S3Keys.KeyInjective` | vsem_fms/app/storage/s3.py:74-76 | Two files have one key exactly when folder, subfolder and name are equal; the name is what follows the prefix |
| `S3Keys.ChildOfKey` | vsem_fms/app/storage/s3.py:370-374 | A name is listed exactly when its key is stored and the name is not empty and has no slash |
| `S3Keys.ListingAfterSave` | vsem_fms/app/storage/s3.py:338-396 | Storing or deleting one object changes its own folder's listing by that name, and no other listing |
| `S3Listing.Advance` | vsem_fms/app/storage/s3.py:358-383 | Whatever page the server cuts, the loop is one stretch further in the key sequence: at the end, or with a token that resumes there |
| `S3Listing.KeysListNames` | vsem_fms/app/storage/s3.py:354-374 | Keys after `prefix + after` in byte order, nested ones skipped and the prefix sliced off, are the folder's names after the mark in name order |
| `S3Service.KeyOrderedIsOrdered` | vsem_fms/app/storage/s3.py:369 | Byte order and name order give the same listing of a set of keys |
| `S3Service.S3Client.ListObjectsV2` | vsem_fms/app/storage/s3.py:359-369 | Environment: a page is a first part, of any length from 1 to `MaxKeys`, of the keys after the token or `StartAfter` |
| `S3Service.S3Client.PutObject` | vsem_fms/app/storage/s3.py:155-173 | Environment: with `IfNoneMatch` the body and tags are stored only if the key is absent |
| `S3Service.S3Client.CompleteMultipartUpload` | vsem_fms/app/storage/s3.py:234-242 | Environment: the named parts, in order, become an untagged object; with `IfNoneMatch` only if the key is absent |
| `S3Service.S3Client.DeleteObjects` | vsem_fms/app/storage/s3.py:515-522 | Environment: a request of at most 1000 keys removes all of them except those reported as errors |
| `Streams.ByteSource.Read` | vsem_fms/app/storage/s3.py:145 | Environment: `read(n)` returns any 1 to n next bytes, nothing at the end, or raises |
| `Streams.Buffer.Extend` | vsem_fms/app/storage/s3.py:221 | Environment: appending raises the recorded largest size of the buffer to its new size if that is larger |
| `Streams.Buffer.DropFront` | vsem_fms/app/storage/s3.py:201 | Environment: `del buffer[:n]` takes exactly the first n bytes |
| `S3Storage.S3StorageBackend.constructor` | vsem_fms/app/storage/s3.py:28-35 | The thresholds are those given, and satisfy the bounds that the settings validation imposes |
| `S3Storage.S3StorageBackend.ReadUploadChunk` | vsem_fms/app/storage/s3.py:144-153 | Digest and running size have seen exactly the bytes read; the read that passes the limit raises with that size and limit |
| `S3Storage.S3StorageBackend.ReadInto` | vsem_fms/app/storage/s3.py:213-221 | The chunk read is appended to the buffer, through which exactly the bytes read have gone; at the end nothing changes |
| `S3Storage.S3StorageBackend.UploadNextPart` | vsem_fms/app/storage/s3.py:200-211 | The payload taken from the buffer becomes the next numbered part; a refusal means the content needs more than 10000 parts |
| `S3Storage.S3StorageBackend.DrainBuffer` | vsem_fms/app/storage/s3.py:199-211 | Full parts go out until less than one is buffered; nothing read is lost |
| `S3Storage.S3StorageBackend.FeedBuffer` | vsem_fms/app/storage/s3.py:213-221 | A chunk read onto less than one part keeps the buffer below two chunks, and sent parts plus buffer are what was read |
| `S3Storage.S3StorageBackend.TransferStep` | vsem_fms/app/storage/s3.py:198-221 | One round keeps the transfer invariant and either reads on or is at the end of the stream |
| `S3Storage.S3StorageBackend.TransferParts` | vsem_fms/app/storage/s3.py:197-221 | For all short reads: sent parts and buffer are what was read, all parts are full, and the largest size the buffer ever had is at most max(before, 2 * chunk - 1) |
| `S3Storage.S3StorageBackend.CompleteParts` | vsem_fms/app/storage/s3.py:223-242 | The rest becomes the last part; the parts numbered 1..n are the blocks of the content, and the stored body is the content |
| `S3Storage.S3StorageBackend.CompleteUpload` | vsem_fms/app/storage/s3.py:234-242 | Completion stores exactly the content, untagged, and closes the upload; with `overwrite=False` only where the key was absent |
| `S3Storage.S3StorageBackend.SetSha256Tag` | vsem_fms/app/storage/s3.py:131-142 | One tagging call; whether it works or fails, nothing but the tag of this object changes |
| `S3Storage.S3StorageBackend.TryUpload` | vsem_fms/app/storage/s3.py:197-242 | On success the content is stored, in one completion after the part calls; on failure no object changed and there is a cause |
| `S3Storage.S3StorageBackend.AbortUpload` | vsem_fms/app/storage/s3.py:243-253 | After an abort the upload is gone, unless the abort call itself failed |
| `S3Storage.S3StorageBackend.OpenUpload` | vsem_fms/app/storage/s3.py:186-195 | A fresh upload without parts, or a failed call and no upload |
| `S3Storage.S3StorageBackend.UploadOrAbort` | vsem_fms/app/storage/s3.py:197-257 | Stored and tagged, or aborted with the store as it was and no upload of its own left open unless the abort failed |
| `S3Storage.S3StorageBackend.RunUpload` | vsem_fms/app/storage/s3.py:197-257 | From the opened upload to its end: the whole trace on success, nothing stored and a cause otherwise |
| `S3Storage.S3StorageBackend.MultipartUpload` | vsem_fms/app/storage/s3.py:175-257 | The calls of a successful upload are create, parts 1..n, complete, tag, and nothing else; the digest is that of the whole content |
| `S3Storage.S3StorageBackend.ObjectExists` | vsem_fms/app/storage/s3.py:93-100 | One HEAD request: present or absent as stored; a failure counts as absent exactly for the three not-found codes, else it is raised |
| `S3Storage.S3StorageBackend.FillInitial` | vsem_fms/app/storage/s3.py:274-301 | The buffer holds the whole content exactly when that is shorter than the threshold, else its first threshold bytes, and was never larger |
| `S3Storage.S3StorageBackend.StoreSmall` | vsem_fms/app/storage/s3.py:285-300 | One conditional PUT of the tagged content, or nothing changed; a failure is raised as file-exists exactly for the two precondition codes |
| `S3Storage.S3StorageBackend.StoreLarge` | vsem_fms/app/storage/s3.py:303-318 | A multipart upload of the buffer and the rest of the stream, or nothing stored and there is a cause |
| `S3Storage.S3StorageBackend.StoreFrom` | vsem_fms/app/storage/s3.py:278-318 | All or nothing from an empty buffer, with one PUT exactly below the threshold |
| `S3Storage.S3StorageBackend.StoreFile` | vsem_fms/app/storage/s3.py:273-318 | All or nothing; the whole content goes through one buffer whose largest size is at most max(threshold, 2 * chunk - 1) |
| `S3Storage.S3StorageBackend.SaveFile` | vsem_fms/app/storage/s3.py:259-320 | Without faults it succeeds exactly when the name is valid, the content fits and, with `overwrite=False`, the key is free; if it raises, every object is as before; its buffer never exceeds max(threshold, 2 * chunk - 1) |
| `S3Storage.S3StorageBackend.ReadFile` | vsem_fms/app/storage/s3.py:322-325 | Returns the stored body, or raises not-found exactly when there is none or S3 answers with a not-found code |
| `S3Storage.S3StorageBackend.DeleteFile` | vsem_fms/app/storage/s3.py:338-344 | Removes exactly this object; raises not-found exactly when there is none, and then nothing changes |
| `S3Storage.S3StorageBackend.CollectPage` | vsem_fms/app/storage/s3.py:370-377 | The direct children among the keys seen so far, stopping as soon as the target is reached |
| `S3Storage.S3StorageBackend.NextPage` | vsem_fms/app/storage/s3.py:358-383 | One request of the loop, for this prefix and at most 1000 keys, with `StartAfter` exactly while there is no token, advances through the keys without gap or repeat |
| `S3Storage.S3StorageBackend.ListDirectObjects` | vsem_fms/app/storage/s3.py:346-385 | For every way to cut pages: exactly the first `target_count` direct children after the mark, in order; the loop ends |
| `S3Storage.S3StorageBackend.FolderHasObjects` | vsem_fms/app/storage/s3.py:387-389 | True exactly when the folder has a direct child |
| `S3Storage.S3StorageBackend.ListFiles` | vsem_fms/app/storage/s3.py:391-396 | The ordered names of the folder, or folder-not-found exactly when there are none |
| `S3Storage.S3StorageBackend.ListFilesPage` | vsem_fms/app/storage/s3.py:398-413 | The page that the folder's names alone determine, for every limit and mark |
| `S3Storage.FirstDigestMeans` | vsem_fms/app/storage/s3.py:420-425 | None exactly when no tag has key `sha256` and 64 hexadecimal digits; else the first such tag, in lower case |
| `S3Storage.S3StorageBackend.GetSha256Tag` | vsem_fms/app/storage/s3.py:415-425 | That digest; nothing, without faults, exactly when the object has no such tag |
| `S3Storage.S3StorageBackend.CalculateSha256` | vsem_fms/app/storage/s3.py:427-443 | Without a digest tag the digest of the body; without faults the first digest tag in lower case; always 64 lower-case hexadecimal digits |
| `S3Storage.S3StorageBackend.GetFileMetadata` | vsem_fms/app/storage/s3.py:455-469 | Size of the stored body and that digest; without faults it raises only for an invalid name, a missing object or a failed read |
| `S3Storage.S3StorageBackend.CollectMetadata` | vsem_fms/app/storage/s3.py:484 | The metadata of exactly the given names, in order |
| `S3Storage.S3StorageBackend.ListFileMetadataPage` | vsem_fms/app/storage/s3.py:475-485 | The names of the name page, each with its own object's size and digest, whatever tags other objects carry |
| `S3Storage.S3StorageBackend.ListExpired` | vsem_fms/app/storage/s3.py:493-510 | For every way to cut pages: exactly the keys under the cleanup prefix last modified before the cutoff, each once |
| `S3Storage.S3StorageBackend.CollectExpired` | vsem_fms/app/storage/s3.py:498-504 | Of one page, exactly the items with a modification time before the cutoff |
| `S3Storage.S3StorageBackend.CountIsSize` | vsem_fms/app/storage/s3.py:523 | Counting the requested keys that were not reported counts the objects removed |
| `S3Storage.S3StorageBackend.DeleteBatch` | vsem_fms/app/storage/s3.py:513-523 | One batch removes exactly its keys that were not reported |
| `S3Storage.S3StorageBackend.DeleteNextBatch` | vsem_fms/app/storage/s3.py:513-523 | One round requests the next 1000 keys, or what is left of them, and adds the number removed |
| `S3Storage.S3StorageBackend.DeleteKeys` | vsem_fms/app/storage/s3.py:512-525 | ceil(n / 1000) requests of at most 1000 keys name each key once; the count is the number removed |
| `S3Storage.S3StorageBackend.CleanupOldFiles` | vsem_fms/app/storage/s3.py:487-525 | Removed are exactly the objects under the prefix last modified more than `MAX_FILE_AGE_HOURS` before now and not reported as errors, each requested once, and the result is their number |
| `S3Refinement.SaveRefinesMap` | vsem_fms/app/storage/s3.py:259-320 | A successful save sets one entry of the map from (folder, subfolder, filename) and adds its name to one listing; all else stays |
| `S3Refinement.DeleteRefinesMap` | vsem_fms/app/storage/s3.py:338-344 | A successful delete removes one entry and one name from one listing; all else stays |
| `S3Refinement.SaveKeepsTagsTruthful` | vsem_fms/app/storage/s3.py:131-173 | No save leaves a digest tag that is not the digest of the body, also when tagging failed |
| `S3Refinement.SizeLimitDecidesIff` | vsem_fms/app/config.py:35-46 | The size limit alone decides what fits exactly when it is below the threshold or at most 10000 chunks |
| `S3Refinement.UploadedParts` | vsem_fms/app/storage/s3.py:195-242 | The trace of an upload has ceil(s / chunk) parts numbered from 1, all of chunk bytes but the last, which together are the content |
| `Exclusive.CreationsBounded` | vsem_fms/app/storage/s3.py:171-173 | If creation needs absence, creations exceed removals by at most one, and only while the name is present |
| `Exclusive.WinnersBounded` | vsem_fms/app/storage/s3.py:240-242 | Processes that won the name number at most its creations |
| `S3Protocol.StepKeepsTruth` | vsem_fms/app/storage/s3.py:242-257 | One step keeps all reported digests right, if no save commits to a key whose tagging is outstanding |
| `S3Protocol.ChecksumsTruthful` | vsem_fms/app/storage/s3.py:415-443 | If no save commits to a key whose tagging is outstanding, every reachable state reports the digest of the body, also between completion and tagging and after failed tagging |
| `S3Protocol.TaggingTruthfulIff` | vsem_fms/app/storage/s3.py:255-257 | A tagging call keeps the reports right exactly when the key is gone or holds a body with that digest |
| `S3Protocol.ChecksumsTruthfulIff` | vsem_fms/app/storage/s3.py:255-257 | All states of a run report truthfully exactly when at every tagging call the key is gone or holds a body with that digest |
| `S3Protocol.LastTouchStands` | vsem_fms/app/storage/s3.py:240-257 | What a key holds is what the last commit to it stored, or nothing if it was deleted since |
| `S3Protocol.TagFitsIff` | vsem_fms/app/storage/s3.py:242-256 | A tagging call fits exactly when the last commit to its key, if not deleted since, stored content of that digest |
| `S3Protocol.TruthfulIffTagsFollowCommits` | vsem_fms/app/storage/s3.py:242-257 | All states of a run report truthfully exactly when every tagging call sets the digest of what the last commit to its key stored, unless it was deleted since |
| `S3Protocol.OverlappingSavesLeaveStaleTag` | vsem_fms/app/storage/s3.py:242-257 | A run of two multipart saves of one key that ends with the wrong digest reported |
| `S3Protocol.CreatesBounded` | vsem_fms/app/storage/s3.py:171-173 | Under every interleaving, commits with `overwrite=False` exceed removals of the key by at most one |
| `S3Protocol.SuccessesBounded` | vsem_fms/app/storage/s3.py:240-242 | Under every interleaving, successful saves with `overwrite=False` number at most one more than the removals |
| `LocalNames.TempIsNoLegacyName` | vsem_fms/app/storage/local.py:114 | A temporary name is hidden from listings and is never a legacy name |
| `LocalNames.LegacyInjective` | vsem_fms/app/storage/local.py:47-50 | Different names have different legacy names |
| `LocalNames.LegacyNameMeans` | vsem_fms/app/storage/local.py:47-50 | A legacy name is the digest of the whole name and its extension: from the last dot, if something other than dots stands before it |
| `LocalNames.LegacyNameOf` | vsem_fms/app/storage/local.py:47-50 | The legacy name of stem, dot and tail is the digest, a dot and the tail |
| `LocalNames.LookupMeans` | vsem_fms/app/storage/local.py:83-93 | A name stands for its current file; failing that for the file under digest and extension, or the bare digest without one; failing that for nothing |
| `LocalNames.SaveRefinesMap` | vsem_fms/app/storage/local.py:145-173 | Without aliasing in its folder, a save sets one entry of the map from (folder, subfolder, filename) and drops its legacy copy; every other entry of every folder stays |
| `LocalNames.DeleteRefinesMap` | vsem_fms/app/storage/local.py:193-208 | Without aliasing in its folder, a delete removes one entry, whichever copies existed; every other entry of every folder stays |
| `LocalNames.AliasedIsLost` | vsem_fms/app/storage/local.py:62-67 | A directory content on which saving a name disturbs an aliased one |
| `LocalNames.SaveKeepsOtherIff` | vsem_fms/app/storage/local.py:145-173 | Saving one name leaves another alone, whatever is on disk, exactly when the two do not alias |
| `FileSystem.FileSystem.Replace` | vsem_fms/app/storage/local.py:134 | Environment: `os.replace` renames over the target in one step |
| `FileSystem.FileSystem.Link` | vsem_fms/app/storage/local.py:138 | Environment: `os.link` adds a name only if it is free |
| `FileSystem.FileSystem.Append` | vsem_fms/app/storage/local.py:123 | Environment: a write through an open file shows under every name of that file |
| `LocalStorage.LocalStorageBackend.EnsureStorageCapacity` | vsem_fms/app/storage/local.py:95-106 | Passes exactly when no reserve is set or free space minus the incoming bytes is at least the reserve |
| `LocalStorage.LocalStorageBackend.WriteChunks` | vsem_fms/app/storage/local.py:112-123 | For every chunking the file holds exactly the bytes read; accepted are exactly the uploads within size and capacity limits; no write, also of a rejected upload, leaves less free space than the reserve |
| `LocalStorage.LocalStorageBackend.WriteFileStream` | vsem_fms/app/storage/local.py:108-129 | A complete temporary file of its own, or every entry as before |
| `LocalStorage.LocalStorageBackend.CommitTempFile` | vsem_fms/app/storage/local.py:131-143 | The target holds the complete file and the temporary name is gone, or no other file changed; link only where the target was absent |
| `LocalStorage.LocalStorageBackend.WriteAndCommit` | vsem_fms/app/storage/local.py:161-171 | The target set and the legacy copy gone, or every file as before and there is a cause |
| `LocalStorage.LocalStorageBackend.SaveFile` | vsem_fms/app/storage/local.py:145-173 | Without faults it succeeds exactly for a valid name, a content within the size limit that leaves the reserve free, and, with `overwrite=False`, a free name; the files are then the reference save, else as before; no temporary file stays; free space never falls below the reserve |
| `LocalStorage.LocalStorageBackend.ResolveFilePath` | vsem_fms/app/storage/local.py:83-93 | The current path, else the legacy path; otherwise the first of the three errors that applies |
| `LocalStorage.LocalStorageBackend.ReadFile` | vsem_fms/app/storage/local.py:187-191 | Returns the current file, else the one under the digest and extension of the name; otherwise the first of the three errors that applies |
| `LocalStorage.LocalStorageBackend.GetFileMetadata` | vsem_fms/app/storage/local.py:254-278 | Size and streamed checksum of the file that the name resolves to |
| `LocalStorage.LocalStorageBackend.UnlinkEach` | vsem_fms/app/storage/local.py:198-202 | All given paths are gone whichever order they come in; reported exactly when one existed |
| `LocalStorage.LocalStorageBackend.DeleteFile` | vsem_fms/app/storage/local.py:193-208 | Succeeds exactly when a current or legacy copy exists, removes both, and changes nothing otherwise |
| `LocalStorage.LocalStorageBackend.ListVisibleFilePaths` | vsem_fms/app/storage/local.py:210-220 | The ordered listing of the names that are not hidden, whatever order the directory yields |
| `LocalStorage.LocalStorageBackend.ListFilesPage` | vsem_fms/app/storage/local.py:240-251 | The page that the directory's entries alone determine |
| `LocalStorage.LocalStorageBackend.UnlinkIfTooOld` | vsem_fms/app/storage/local.py:312-317 | One file goes exactly if it is older than the limit |
| `LocalStorage.LocalStorageBackend.UnlinkStale` | vsem_fms/app/storage/local.py:311-318 | The loop removes exactly the entries that are too old and counts them |
| `LocalStorage.LocalStorageBackend.CleanupOldFiles` | vsem_fms/app/storage/local.py:305-320 | Exactly the files last modified more than the allowed hours before now go, all others keep their bytes, and their number is returned |
| `LocalProtocol.WritesStayTemporary` | vsem_fms/app/storage/local.py:114-123 | Whenever the bytes of a named file change, that name is the temporary name of the writing saver |
| `LocalProtocol.CompleteIsStable` | vsem_fms/app/storage/local.py:131-143 | A complete file keeps its bytes in every later step, whatever happens to its names |
| `LocalProtocol.CommittedIsComplete` | vsem_fms/app/storage/local.py:131-143 | What a saver commits is a complete, size-checked file |
| `LocalProtocol.StepKeepsInv` | vsem_fms/app/storage/local.py:108-171 | Every step of every process keeps the invariant |
| `LocalProtocol.RunKeepsInv` | vsem_fms/app/storage/local.py:108-171 | The invariant holds in every reachable state |
| `LocalProtocol.NamesHoldWholeFiles` | vsem_fms/app/storage/local.py:145-173 | In every reachable state a name that is no saver's temporary name holds an earlier file or one whole size-checked upload |
| `LocalProtocol.ReadsAreWhole` | vsem_fms/app/storage/local.py:187-191 | A read of such a name, chunk by chunk, has got the front of one whole file, never a mixture or a torn file |
| `LocalProtocol.StepKeepsOwned` | vsem_fms/app/storage/local.py:108-171 | Every step keeps files with the names they belong to, if no save targets a temporary name |
| `LocalProtocol.NamesHoldOwnFiles` | vsem_fms/app/storage/local.py:145-173 | Then a name that is not temporary holds its own file in every reachable state: the one it had at the start or a whole upload of that very name |
| `LocalProtocol.ReadsAreOwn` | vsem_fms/app/storage/local.py:187-191 | Then a read of such a name has got the front of that name's own file |
| `LocalProtocol.CreatesBounded` | vsem_fms/app/storage/local.py:131-143 | Under every interleaving, commits with `overwrite=False` exceed removals of the name by at most one |
| `LocalProtocol.SuccessesBounded` | vsem_fms/app/storage/local.py:158-164 | Under every interleaving, successful saves with `overwrite=False` number at most one more than the removals |
| `LocalMisses.StepEffect` | vsem_fms/app/storage/local.py:131-171 | A name is there after a step exactly when the step installs it, or it was there and the step does not remove it |
| `LocalMisses.AbsentIff` | vsem_fms/app/storage/local.py:83-93 | A name is absent exactly when every installation since some state was undone and what was there then was removed |
| `LocalMisses.LegacyMissIsRightIff` | vsem_fms/app/storage/local.py:88-93 | A read that found no current and then no legacy file, or could not open the legacy file, is right exactly when every commit of the name since its first look was undone |
| `LocalMisses.CurrentMissIsRightIff` | vsem_fms/app/storage/local.py:187-191 | A read that could not open the current file it had found is right exactly when no legacy file was there any more |
| `LocalMisses.EveryMissIsCovered` | vsem_fms/app/storage/local.py:83-93 | Every reported miss of every run is of one of these two kinds |
| `LocalMisses.LookCanMiss` | vsem_fms/app/storage/local.py:88-93 | A run in which the file exists in every state and the look for the legacy name misses it |
| `LocalMisses.OpenCanMissLegacy` | vsem_fms/app/storage/local.py:187-191 | A run in which the file exists in every state and opening the legacy file that was found fails |
| `LocalMisses.OpenCanMissCurrent` | vsem_fms/app/storage/local.py:187-191 | A run in which the file exists in every state and opening the current file that was found fails |

## Left out

- Routes, authentication, logging, settings parsing, container files, exception-to-status mapping, MIME types, date
  formats and response headers: no property beyond one branch.
- `get_download`, `_iter_body`, `prepare_response`: streaming a body to the client; the checksum loops, which read
  bodies the same way, are modelled.
- `list_file_metadata` of both backends, and the local `list_file_metadata_page`: a loop over operations that are
  modelled. The local unpaginated `list_files` is `ListVisibleFilePaths`.
- Cancellation, and an exception other than `ClientError` from the client: a failed client call raises `ClientError`
  and has no effect. In particular a tagging call that raises anything else, after which `save_file` raises although
  the object is stored, is not modelled, nor is a call that takes effect and then reports a failure.
- Other clients during one call of the class models: `S3Storage` and `LocalStorage` describe one call at a time.
  Interleaving is the subject of `S3Protocol` and `LocalProtocol`, which model a save by its commit and the calls
  around it, not by its reads of the upload stream. Multipart parts are not visible in `S3Protocol`.
- `S3Storage.S3StorageBackend.CleanupOldFiles` and `LocalStorage.LocalStorageBackend.CleanupOldFiles` say nothing about
  a save during the cleanup: the age of a file is checked before it is deleted, and a fresh file saved in between goes.
- `LocalProtocol` is about one directory. Any entry may be unlinked at any time, which covers deleters, the cleaner and
  more. Checking that a path exists and unlinking it are one step. A save whose clean-up raises after its commit is a
  save that stops there; in `LocalStorage` `unlink` does not fail.
- `LocalMisses` follows `read_file`: two looks and then the opening. `get_file_metadata` (which opens the file after
  asking for its size) and the response that opens a path from `get_download` are not separate readers. The look for the
  folder itself is left out, as the directory stays once created.
- `LocalStorage.LocalStorageBackend.SaveFile` takes the temporary name as a parameter that is not in use and is not the
  logical name being saved.
- `LocalStorage` treats every directory entry as a regular file, and models no disk activity but its own calls; files
  elsewhere under the base directory do not occur.
- `S3Service.S3Client.ListObjectsV2`: the server may cut pages anywhere, but a page is not empty while keys remain, has
  at most `MaxKeys` keys, and is marked truncated exactly when keys remain. The numeric tokens of the test suite's fake
  client are not followed.
- `S3Service.S3Client.CompleteMultipartUpload`: part numbers 1 to 10000 and parts of at least 5 MiB except the last are
  the service's published limits; other reasons to refuse a part are failures with any code.
- `Base64.Decode` is `b64decode(..., validate=True)` by its documented rule: digits, then at most two `=`, in groups of
  four. More padding than that is refused.
- `FileService`: `limit` is any number; the route's bounds (1 to 500) are not needed. Folders contain no empty name.
- One source function with several loops is several methods here: `_multipart_upload` is `MultipartUpload`,
  `OpenUpload`, `RunUpload`, `UploadOrAbort`, `TryUpload`, `TransferParts`, `TransferStep`, `DrainBuffer`, `FeedBuffer`,
  `UploadNextPart`, `CompleteParts`, `CompleteUpload` and `AbortUpload`; `save_file` on S3 is `SaveFile`, `StoreFile`,
  `StoreFrom`, `FillInitial`, `StoreSmall` and `StoreLarge`, and on disk `SaveFile` and `WriteAndCommit`;
  `cleanup_old_files` on S3 is `CleanupOldFiles`, `ListExpired`, `CollectExpired`, `DeleteKeys`, `DeleteNextBatch` and
  `DeleteBatch`.
