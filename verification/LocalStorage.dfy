/** The local storage backend of `vsem_fms/app/storage/local.py`, with no other process at work. */
module LocalStorage {
  import opened Common
  import opened Names
  import opened Paging
  import opened Parts
  import opened S3Keys
  import opened FileSystem
  import opened LocalNames
  import opened Streams

  const WRITE_CHUNK: nat := 1024 * 1024

  class LocalStorageBackend {
    const fs: FileSystem
    const hash: Hash
    const maxSize: nat
    const reserve: nat
    const maxAgeHours: nat

    constructor (fs: FileSystem, hash: Hash, maxSize: nat, reserve: nat, maxAgeHours: nat)
      ensures this.fs == fs && this.hash == hash && this.maxSize == maxSize && this.reserve == reserve
              && this.maxAgeHours == maxAgeHours
    {
      this.fs, this.hash, this.maxSize, this.reserve, this.maxAgeHours := fs, hash, maxSize, reserve, maxAgeHours;
    }

    /** `_ensure_storage_capacity`. */
    method EnsureStorageCapacity(incoming: nat) returns (r: Result<(), Error>)
      requires incoming > 0
      ensures r.Ok? <==> reserve == 0 || fs.free - incoming >= reserve
      ensures r.Err? ==> r.error == InsufficientStorage(fs.free, reserve + incoming)
    {
      if reserve <= 0 { return Ok(()); }
      if fs.free - incoming < reserve { return Err(InsufficientStorage(fs.free, reserve + incoming)); }
      r := Ok(());
    }

    /** Why a save can be refused although no call failed and no read raised. */
    ghost predicate Refused(e: Error, size: nat, free: int) {
      (e.FileTooLarge? && size > maxSize)
      || (e.InsufficientStorage? && reserve > 0 && size > 0 && free - size < reserve)
    }

    /** `if await path.exists(): await path.unlink()`. */
    method Discard(path: Path)
      requires fs.Valid()
      modifies fs`entries, fs`free
      ensures fs.Valid() && fs.entries == old(fs.entries) - {path} && fs.Files() == old(fs.Files()) - {path}
      ensures fs.free >= old(fs.free)
    {
      ContentsMinus(fs.entries, fs.data, {path});
      if path in fs.entries { fs.Unlink(path); }
    }

    /** No write has left less free space than the reserve: not the last one, and none before it. */
    ghost predicate ReserveKept(lowest: int, free: int)
      reads fs
    {
      reserve > 0 ==> fs.lowest >= Min(lowest, reserve) && (fs.free < free ==> fs.free >= reserve)
    }

    /** The loop of `_write_file_stream`: what was read is exactly what the new file holds. */
    method WriteChunks(file: ByteSource, inode: nat) returns (r: Result<(), Error>)
      requires file.pos == 0 && fs.Valid() && inode in fs.data && fs.data[inode] == []
      modifies file, fs`data, fs`free, fs`faults, fs`lowest
      ensures ReserveKept(old(fs.lowest), old(fs.free))
      ensures fs.Valid() && fs.data.Keys == old(fs.data).Keys && fs.data - {inode} == old(fs.data) - {inode}
      ensures fs.faults >= old(fs.faults) && file.faults >= old(file.faults)
      ensures r.Ok? ==> fs.data[inode] == file.content && fs.free == old(fs.free) - |file.content|
                        && |file.content| <= maxSize
                        && (reserve == 0 || file.content == [] || old(fs.free) - |file.content| >= reserve)
                        && fs.faults == old(fs.faults) && file.faults == old(file.faults)
      ensures r.Err? ==> fs.faults > old(fs.faults) || file.faults > old(file.faults)
                         || Refused(r.error, |file.content|, old(fs.free))
    {
      var total := 0;
      while true
        invariant total == file.pos <= |file.content| && total <= maxSize
        invariant fs.Valid() && fs.data.Keys == old(fs.data).Keys && fs.data - {inode} == old(fs.data) - {inode}
        invariant fs.data[inode] == file.content[..total]
        invariant fs.free == old(fs.free) - total && (reserve == 0 || total == 0 || old(fs.free) - total >= reserve)
        invariant fs.faults == old(fs.faults) && file.faults == old(file.faults)
        invariant ReserveKept(old(fs.lowest), old(fs.free))
        decreases |file.content| - file.pos
      {
        var chunk := file.Read(WRITE_CHUNK);
        if chunk.Err? { return Err(chunk.error); }
        if chunk.value == [] { break; }
        ghost var before := total;
        total := total + |chunk.value|;
        if total > maxSize { return Err(FileTooLarge(total, maxSize)); }
        var room := EnsureStorageCapacity(|chunk.value|);
        if room.Err? { return Err(room.error); }
        var written := fs.Append(inode, chunk.value);
        if written.Err? { return Err(written.error); }
        assert file.content[..before] + chunk.value == file.content[..total];
      }
      assert file.content[..total] == file.content;
      r := Ok(());
    }

    /** `_write_file_stream`: a complete temporary file, or no file at all. */
    method WriteFileStream(file: ByteSource, temp: Path) returns (r: Result<(), Error>)
      requires file.pos == 0 && fs.Valid() && temp !in fs.entries
      modifies file, fs
      ensures ReserveKept(old(fs.lowest), old(fs.free))
      ensures fs.Valid() && temp.dir in fs.dirs && old(fs.dirs) <= fs.dirs
      ensures fs.faults >= old(fs.faults) && file.faults >= old(file.faults)
      ensures r.Ok? ==> fs.Files() == old(fs.Files())[temp := file.content]
                        && temp in fs.entries && fs.entries - {temp} == old(fs.entries)
                        && (forall p :: p in old(fs.entries) ==> fs.entries[temp] != fs.entries[p])
                        && fs.free == old(fs.free) - |file.content|
                        && |file.content| <= maxSize
                        && (reserve == 0 || file.content == [] || old(fs.free) - |file.content| >= reserve)
                        && fs.faults == old(fs.faults) && file.faults == old(file.faults)
      ensures r.Err? ==> fs.Files() == old(fs.Files()) && fs.entries == old(fs.entries)
                         && (fs.faults > old(fs.faults) || file.faults > old(file.faults)
                             || Refused(r.error, |file.content|, old(fs.free)))
    {
      fs.Mkdir(temp.dir);
      var created := fs.OpenExclusive(temp);
      if created.Err? { return Err(created.error); }
      var inode := created.value;
      r := WriteChunks(file, inode);
      assert fs.entries - {temp} == old(fs.entries);
      forall p | p in old(fs.entries)
        ensures fs.entries[p] == old(fs.entries[p]) && fs.entries[p] != inode
                && fs.data[fs.entries[p]] == old(fs.data[fs.entries[p]])
      {
        assert old(fs.entries[p]) in fs.data - {inode};
      }
      if r.Err? {
        Discard(temp);
        assert fs.Files() == old(fs.Files());
      }
    }

    /** `_commit_temp_file`: rename over the target, or link to it only if it is absent; the temporary name goes. */
    method CommitTempFile(temp: Path, final: Path, overwrite: bool) returns (r: Result<(), Error>)
      requires fs.Valid() && temp in fs.entries && temp != final
      requires forall p :: p in fs.entries && p != temp ==> fs.entries[p] != fs.entries[temp]
      modifies fs
      ensures fs.Valid() && fs.dirs == old(fs.dirs) && fs.faults >= old(fs.faults)
      ensures fs.lowest == old(fs.lowest) && fs.free >= old(fs.free)
      ensures r.Ok? ==> fs.Files() == (old(fs.Files()) - {temp})[final := old(fs.Files())[temp]]
                        && (overwrite || final !in old(fs.entries)) && fs.faults == old(fs.faults)
      ensures r.Err? ==> (fs.Files() == old(fs.Files()) || fs.Files() == old(fs.Files()) - {temp})
                         && (fs.faults > old(fs.faults)
                             || (r.error == FileExists && !overwrite && final in old(fs.entries)))
    {
      if overwrite {
        r := fs.Replace(temp, final);
        return;
      }
      r := fs.Link(temp, final);
      Discard(temp);
    }

    function DirOf(folder: string, subfolder: string): Dir {
      StorageDir(hash, folder, subfolder)
    }

    /** The name is already taken, under its current or its legacy path. */
    predicate Taken(entries: map<Path, nat>, dir: Dir, filename: string) {
      Path(dir, filename) in entries || Path(dir, LegacyName(hash, filename)) in entries
    }

    /** `save_file` from line 161 on: write, commit and drop the legacy copy; or drop the temporary file and raise. */
    method WriteAndCommit(file: ByteSource, temp: Path, final: Path, legacy: Path, overwrite: bool)
      returns (r: Result<(), Error>)
      requires file.pos == 0 && fs.Valid() && temp !in fs.entries && temp != final && temp != legacy
      modifies file, fs
      ensures fs.Valid() && old(fs.dirs) <= fs.dirs && ReserveKept(old(fs.lowest), old(fs.free))
      ensures fs.faults >= old(fs.faults) && file.faults >= old(file.faults)
      ensures r.Ok? ==>
                |file.content| <= maxSize
                && (reserve == 0 || file.content == [] || old(fs.free) - |file.content| >= reserve) && temp.dir in fs.dirs
                && (overwrite || final !in old(fs.entries))
                && fs.Files() == old(fs.Files())[final := file.content] - (if legacy != final then {legacy} else {})
      ensures r.Err? ==> fs.Files() == old(fs.Files())
                         && (fs.faults > old(fs.faults) || file.faults > old(file.faults)
                             || (r.error == FileExists && !overwrite && final in old(fs.entries))
                             || Refused(r.error, |file.content|, old(fs.free)))
    {
      ghost var before := fs.Files();
      r := WriteFileStream(file, temp);
      if r.Err? { return; }
      assert fs.Files() - {temp} == before;
      r := CommitTempFile(temp, final, overwrite);
      if r.Err? {
        Discard(temp);
        assert fs.Files() == before;
        return;
      }
      assert fs.Files() == before[final := file.content];
      if legacy != final { Discard(legacy); }
    }

    /**
     * `save_file`.  `uuid` is the fresh random name `uuid4` gives.  Success sets the file and drops its legacy
     * copy; any exception leaves every file as it was; either way no temporary file stays behind.
     */
    method SaveFile(file: ByteSource, filename: string, folder: string, subfolder: string, overwrite: bool,
                    uuid: string)
      returns (r: Result<(), Error>)
      requires file.pos == 0 && fs.Valid() && IsSha256(hash)
      requires Path(DirOf(folder, subfolder), TempName(uuid)) !in fs.entries && filename != TempName(uuid)
      modifies file, fs
      ensures fs.Valid() && old(fs.dirs) <= fs.dirs && ReserveKept(old(fs.lowest), old(fs.free))
      ensures r.Ok? ==>
                PlainName(filename) && |file.content| <= maxSize
                        && (reserve == 0 || file.content == [] || old(fs.free) - |file.content| >= reserve)
                && (overwrite || !Taken(old(fs.entries), DirOf(folder, subfolder), filename))
                && DirOf(folder, subfolder) in fs.dirs
                && fs.Files() == AfterSave(hash, old(fs.Files()), DirOf(folder, subfolder), filename, file.content)
      ensures r.Err? ==> fs.Files() == old(fs.Files())
      ensures fs.faults == old(fs.faults) && file.faults == old(file.faults) ==>
                (r.Ok? <==> PlainName(filename) && |file.content| <= maxSize
                            && (reserve == 0 || file.content == [] || old(fs.free) - |file.content| >= reserve)
                            && (overwrite || !Taken(old(fs.entries), DirOf(folder, subfolder), filename)))
                && (r.Err? ==> (r.error == InvalidFileName && !PlainName(filename))
                               || (r.error == FileExists && !overwrite
                                   && Taken(old(fs.entries), DirOf(folder, subfolder), filename))
                               || Refused(r.error, |file.content|, old(fs.free)))
    {
      if !ValidFilename(filename) { return Err(InvalidFileName); }
      var dir := DirOf(folder, subfolder);
      var final, legacy := Path(dir, filename), Path(dir, LegacyName(hash, filename));
      fs.Mkdir(dir);
      if !overwrite && (final in fs.entries || legacy in fs.entries) { return Err(FileExists); }
      var temp := Path(dir, TempName(uuid));
      TempIsNoLegacyName(hash, uuid, filename);
      r := WriteAndCommit(file, temp, final, legacy, overwrite);
    }

    /** `_resolve_file_path`: the current path first, then the legacy path. */
    method ResolveFilePath(folder: string, subfolder: string, filename: string) returns (r: Result<Path, Error>)
      requires fs.Valid()
      ensures r.Ok? ==> PlainName(filename) && DirOf(folder, subfolder) in fs.dirs && r.value in fs.entries
                        && Lookup(hash, fs.Files(), DirOf(folder, subfolder), filename) == Some(fs.Files()[r.value])
      ensures r.Err? ==>
                r.error == (if !PlainName(filename) then InvalidFileName
                            else if DirOf(folder, subfolder) !in fs.dirs then FolderNotFound else FileNotFound)
                && (r.error == FileNotFound ==> Lookup(hash, fs.Files(), DirOf(folder, subfolder), filename) == None)
    {
      if !ValidFilename(filename) { return Err(InvalidFileName); }
      var dir := DirOf(folder, subfolder);
      if dir !in fs.dirs { return Err(FolderNotFound); }
      if Path(dir, filename) in fs.entries { return Ok(Path(dir, filename)); }
      if Path(dir, LegacyName(hash, filename)) in fs.entries { return Ok(Path(dir, LegacyName(hash, filename))); }
      r := Err(FileNotFound);
    }

    /** `read_file`. */
    method ReadFile(folder: string, subfolder: string, filename: string) returns (r: Result<Bytes, Error>)
      requires fs.Valid()
      ensures r.Ok? <==> PlainName(filename) && DirOf(folder, subfolder) in fs.dirs
                         && Lookup(hash, fs.Files(), DirOf(folder, subfolder), filename).Some?
      ensures r.Ok? ==> Lookup(hash, fs.Files(), DirOf(folder, subfolder), filename) == Some(r.value)
      ensures r.Err? ==> r.error == if !PlainName(filename) then InvalidFileName
                                    else if DirOf(folder, subfolder) !in fs.dirs then FolderNotFound else FileNotFound
      ensures PlainName(filename) && DirOf(folder, subfolder) in fs.dirs ==>
                StandsFor(hash, fs.Files(), DirOf(folder, subfolder), filename, if r.Ok? then Some(r.value) else None)
    {
      LookupMeans(hash, fs.Files(), DirOf(folder, subfolder), filename);
      var path := ResolveFilePath(folder, subfolder, filename);
      if path.Err? { return Err(path.error); }
      r := Ok(fs.data[fs.entries[path.value]]);
    }

    /** `get_file_metadata`: size and streamed checksum of the file that the name resolves to. */
    method GetFileMetadata(folder: string, subfolder: string, filename: string) returns (r: Result<Metadata, Error>)
      requires fs.Valid()
      ensures r.Ok? ==> var found := Lookup(hash, fs.Files(), DirOf(folder, subfolder), filename);
                        found.Some? && r.value == Metadata(filename, |found.value|, hash(found.value))
      ensures r.Err? ==>
                r.error == ReadFailed
                || (r.error == (if !PlainName(filename) then InvalidFileName
                                else if DirOf(folder, subfolder) !in fs.dirs then FolderNotFound else FileNotFound)
                    && (r.error == FileNotFound ==>
                          Lookup(hash, fs.Files(), DirOf(folder, subfolder), filename) == None))
    {
      var path := ResolveFilePath(folder, subfolder, filename);
      if path.Err? { return Err(path.error); }
      var file := new ByteSource(fs.data[fs.entries[path.value]]);
      var digest := new Digest();
      while true
        invariant fresh(file) && fresh(digest) && file.pos <= |file.content|
        invariant digest.absorbed == file.content[..file.pos]
        decreases |file.content| - file.pos
      {
        ghost var pos := file.pos;
        var chunk := file.Read(WRITE_CHUNK);
        if chunk.Err? { return Err(chunk.error); }
        if chunk.value == [] { break; }
        digest.Update(chunk.value);
        assert file.content[..pos] + chunk.value == file.content[..file.pos];
      }
      assert file.content[..file.pos] == file.content;
      r := Ok(Metadata(filename, |file.content|, hash(digest.absorbed)));
    }

    /** The loop of `delete_file`: both paths go, in whichever order the set yields them. */
    method UnlinkEach(all: set<Path>) returns (deleted: bool)
      requires fs.Valid()
      modifies fs`entries, fs`free
      ensures fs.Valid() && fs.entries == old(fs.entries) - all
      ensures deleted <==> exists p :: p in all && p in old(fs.entries)
    {
      var paths := all;
      deleted := false;
      while paths != {}
        invariant fs.Valid() && paths <= all
        invariant forall p :: p in fs.entries <==> p in old(fs.entries) && (p in paths || p !in all)
        invariant forall p :: p in fs.entries ==> fs.entries[p] == old(fs.entries)[p]
        invariant deleted <==> exists p :: p in all && p !in paths && p in old(fs.entries)
        decreases |paths|
      {
        var path :| path in paths;
        paths := paths - {path};
        if path in fs.entries {
          fs.Unlink(path);
          deleted := true;
        }
      }
    }

    /** `delete_file`. */
    method DeleteFile(folder: string, subfolder: string, filename: string) returns (r: Result<(), Error>)
      requires fs.Valid()
      modifies fs`entries, fs`free
      ensures fs.Valid()
      ensures r.Ok? <==> PlainName(filename) && DirOf(folder, subfolder) in fs.dirs
                         && Taken(old(fs.entries), DirOf(folder, subfolder), filename)
      ensures fs.Files() == if r.Ok? then AfterDelete(hash, old(fs.Files()), DirOf(folder, subfolder), filename)
                            else old(fs.Files())
      ensures r.Err? ==> r.error == if !PlainName(filename) then InvalidFileName
                                    else if DirOf(folder, subfolder) !in fs.dirs then FolderNotFound else FileNotFound
    {
      if !ValidFilename(filename) { return Err(InvalidFileName); }
      var dir := DirOf(folder, subfolder);
      if dir !in fs.dirs { return Err(FolderNotFound); }
      var paths := {Path(dir, filename), Path(dir, LegacyName(hash, filename))};
      ContentsMinus(fs.entries, fs.data, paths);
      assert Taken(fs.entries, dir, filename) <==> exists p :: p in paths && p in fs.entries;
      assert !Taken(fs.entries, dir, filename) ==> fs.entries - paths == fs.entries;
      var deleted := UnlinkEach(paths);
      if !deleted { return Err(FileNotFound); }
      r := Ok(());
    }

    /** Names of the files in one directory. */
    ghost function Entries(dir: Dir): set<string>
      reads fs
    {
      set p | p in fs.entries && p.dir == dir :: p.name
    }

    /** `_list_visible_file_paths`: entries come in any order, hidden ones are skipped, the rest are sorted. */
    method ListVisibleFilePaths(folder: string, subfolder: string) returns (r: Result<seq<string>, Error>)
      ensures r == if DirOf(folder, subfolder) !in fs.dirs then Err(FolderNotFound)
                   else Ok(Ordered(set n | n in Entries(DirOf(folder, subfolder)) && !(".upload-" <= n)))
    {
      var dir := DirOf(folder, subfolder);
      if dir !in fs.dirs { return Err(FolderNotFound); }
      var files: seq<string> := [];
      var rest := set p | p in fs.entries.Keys && p.dir == dir;
      ghost var seen: set<string> := {};
      while rest != {}
        invariant forall p :: p in rest ==> p in fs.entries && p.dir == dir && p.name !in seen
        invariant forall n :: n in Entries(dir) <==> n in seen || Path(dir, n) in rest
        invariant Distinct(files) && Elements(files) == set n | n in seen && !Hidden(n)
        decreases |rest|
      {
        var path :| path in rest;
        assert path.name !in Elements(files);
        if !Hidden(path.name) {
          ElementsConcat(files, [path.name]);
          files := files + [path.name];
        }
        seen := seen + {path.name};
        rest := rest - {path};
        assert path == Path(dir, path.name);
      }
      assert seen == Entries(dir);
      assert Elements(files) == set n | n in Entries(dir) && !(".upload-" <= n);
      InsertionSortIsOrdered(files);
      r := Ok(InsertionSort(files));
    }

    /** `list_files_page`: the page the directory's entries alone determine. */
    method ListFilesPage(folder: string, subfolder: string, limit: nat, after: Option<string>)
      returns (r: Result<Page, Error>)
      ensures r == LocalListFilesPage(DirOf(folder, subfolder) in fs.dirs, Entries(DirOf(folder, subfolder)), limit,
                                      after)
    {
      var files := ListVisibleFilePaths(folder, subfolder);
      if files.Err? { return Err(files.error); }
      ghost var entries := Entries(DirOf(folder, subfolder));
      assert Visible(LocalDir(true, entries)) == set n | n in entries && !(".upload-" <= n);
      r := Ok(PageFilePaths(files.value, limit, after));
    }

    /** Last modified more than the allowed number of hours before `now`. */
    predicate TooOld(path: Path, now: real)
      requires fs.Valid() && path in fs.entries
      reads fs
    {
      (now - fs.modified[fs.entries[path]]) / 3600.0 > maxAgeHours as real
    }

    ghost function Stale(now: real): set<Path>
      requires fs.Valid()
      reads fs
    {
      set p | p in fs.entries && TooOld(p, now)
    }

    /** `cleanup_old_files`: exactly the files that are too old go, and their number is returned. */
    method CleanupOldFiles(now: real) returns (deleted: nat)
      requires fs.Valid()
      modifies fs`entries, fs`free
      ensures fs.Valid() && fs.Files() == old(fs.Files()) - old(Stale(now)) && deleted == |old(Stale(now))|
      ensures forall p :: p in old(fs.entries) ==>
                (p in fs.entries <==> now - old(fs.modified[fs.entries[p]]) <= 3600.0 * maxAgeHours as real)
    {
      ghost var entries := fs.entries;
      assert forall p :: p in entries ==>
               (p in Stale(now) <==> now - fs.modified[entries[p]] > 3600.0 * maxAgeHours as real);
      ContentsMinus(fs.entries, fs.data, Stale(now));
      deleted := UnlinkStale(now);
    }

    /** One file of the loop: unlinked if it is too old. */
    method UnlinkIfTooOld(path: Path, now: real) returns (gone: nat)
      requires fs.Valid() && path in fs.entries
      modifies fs`entries, fs`free
      ensures fs.Valid() && gone == if old(TooOld(path, now)) then 1 else 0
      ensures fs.entries == old(fs.entries) - if old(TooOld(path, now)) then {path} else {}
    {
      gone := 0;
      if TooOld(path, now) {
        fs.Unlink(path);
        gone := 1;
      }
    }

    /** The loop of `cleanup_old_files`, over the directory tree in any order. */
    method UnlinkStale(now: real) returns (deleted: nat)
      requires fs.Valid()
      modifies fs`entries, fs`free
      ensures fs.Valid() && fs.entries == old(fs.entries) - old(Stale(now)) && deleted == |old(Stale(now))|
    {
      deleted := 0;
      var rest := fs.entries.Keys;
      ghost var stale := Stale(now);
      assert stale - rest == {};
      while rest != {}
        invariant fs.Valid() && rest <= old(fs.entries).Keys
        invariant fs.entries == old(fs.entries) - (stale - rest) && deleted == |stale - rest|
        decreases |rest|
      {
        var path :| path in rest;
        OneFewer(old(fs.entries), stale, rest, path);
        assert fs.entries[path] == old(fs.entries)[path];
        assert TooOld(path, now) <==> path in stale;
        var gone := UnlinkIfTooOld(path, now);
        rest := rest - {path};
        deleted := deleted + gone;
      }
      assert stale - rest == stale;
    }
  }

  lemma OneFewer(initial: map<Path, nat>, stale: set<Path>, rest: set<Path>, path: Path)
    requires path in rest && rest <= initial.Keys
    ensures path in initial - (stale - rest)
    ensures initial - (stale - rest) - (if path in stale then {path} else {}) == initial - (stale - (rest - {path}))
    ensures |stale - (rest - {path})| == |stale - rest| + (if path in stale then 1 else 0)
  {
    if path in stale {
      assert stale - (rest - {path}) == (stale - rest) + {path};
    } else {
      assert stale - (rest - {path}) == stale - rest;
    }
  }
}
