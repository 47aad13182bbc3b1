/** The filesystem calls that the local backend makes, each atomic; a call that raises changes nothing. */
module FileSystem {
  import opened Common
  import opened Parts

  /** A storage directory: the hashed folder and subfolder under the base directory. */
  datatype Dir = Dir(folder: string, subfolder: string)
  datatype Path = Path(dir: Dir, name: string)

  ghost function Contents(entries: map<Path, nat>, data: map<nat, Bytes>): map<Path, Bytes>
    requires forall p :: p in entries ==> entries[p] in data
  {
    map p | p in entries :: data[entries[p]]
  }

  /** Taking names away takes exactly their files out of sight. */
  lemma ContentsMinus(entries: map<Path, nat>, data: map<nat, Bytes>, gone: set<Path>)
    requires forall p :: p in entries ==> entries[p] in data
    ensures Contents(entries - gone, data) == Contents(entries, data) - gone
  {
  }

  class FileSystem {
    var dirs: set<Dir>
    var entries: map<Path, nat>
    var data: map<nat, Bytes>
    var modified: map<nat, real>
    var free: int
    ghost var faults: nat
    /** The least free space there has been after a write. */
    ghost var lowest: int

    /** Every entry names a file that exists. */
    ghost predicate Valid()
      reads this
    {
      lowest <= free && forall p :: p in entries ==> entries[p] in data && entries[p] in modified
    }

    /** What each path holds. */
    ghost function Files(): map<Path, Bytes>
      requires Valid()
      reads this
    {
      Contents(entries, data)
    }

    constructor (free: int)
      ensures Valid() && Files() == map[] && dirs == {} && this.free == free == lowest && faults == 0
    {
      dirs, entries, data, modified, this.free, faults, lowest := {}, map[], map[], map[], free, 0, free;
    }

    method Mkdir(dir: Dir)
      modifies this`dirs
      ensures dirs == old(dirs) + {dir}
    {
      dirs := dirs + {dir};
    }

    /** `open(path, "xb")`. */
    method OpenExclusive(path: Path) returns (r: Result<nat, Error>)
      requires Valid()
      modifies this`entries, this`data, this`modified, this`faults
      ensures Valid()
      ensures r.Ok? ==> path !in old(entries) && r.value !in old(data) && faults == old(faults)
                        && entries == old(entries)[path := r.value] && data == old(data)[r.value := []]
                        && Files() == old(Files())[path := []]
      ensures r.Err? ==> entries == old(entries) && data == old(data) && Files() == old(Files())
                         && ((path in old(entries) && r.error == FileExists && faults == old(faults))
                             || (r.error == OSError && faults == old(faults) + 1))
    {
      if * {
        faults := faults + 1;
        return Err(OSError);
      }
      if path in entries { return Err(FileExists); }
      var inode := FreshInode();
      var now: real := *;
      entries, data, modified := entries[path := inode], data[inode := []], modified[inode := now];
      r := Ok(inode);
    }

    method FreshInode() returns (inode: nat)
      ensures inode !in data
    {
      inode := 0;
      var rest := data.Keys;
      while rest != {}
        invariant forall k :: k in data && k !in rest ==> k < inode
        decreases |rest|
      {
        var k :| k in rest;
        rest := rest - {k};
        if k >= inode { inode := k + 1; }
      }
    }

    /** Append through an open file; every name of that file shows the new bytes. */
    method Append(inode: nat, chunk: Bytes) returns (r: Result<(), Error>)
      requires Valid() && inode in data
      modifies this`data, this`free, this`faults, this`lowest
      ensures Valid() && lowest == Min(old(lowest), free)
      ensures r.Ok? ==> data == old(data)[inode := old(data)[inode] + chunk] && free == old(free) - |chunk|
                        && faults == old(faults)
      ensures r.Err? ==> r.error == OSError && data == old(data) && free == old(free) && faults == old(faults) + 1
    {
      if * {
        faults := faults + 1;
        return Err(OSError);
      }
      data := data[inode := data[inode] + chunk];
      free := free - |chunk|;
      lowest := Min(lowest, free);
      r := Ok(());
    }

    /** `os.replace(a, b)`; the space of a file that is replaced may come free. */
    method Replace(a: Path, b: Path) returns (r: Result<(), Error>)
      requires Valid() && a in entries && a != b
      requires b in entries ==> entries[b] != entries[a]
      modifies this`entries, this`free, this`faults
      ensures Valid()
      ensures r.Ok? ==> Files() == (old(Files()) - {a})[b := old(Files())[a]]
                        && free >= old(free) && faults == old(faults)
      ensures r.Err? ==> r.error == OSError && entries == old(entries) && Files() == old(Files()) && free == old(free)
                         && faults == old(faults) + 1
    {
      if * {
        faults := faults + 1;
        return Err(OSError);
      }
      var freed: int := *;
      entries := (entries - {a})[b := entries[a]];
      free := free + (if freed > 0 then freed else 0);
      r := Ok(());
    }

    /** `os.link(a, b)`: a second name for the same file, only if that name is free. */
    method Link(a: Path, b: Path) returns (r: Result<(), Error>)
      requires Valid() && a in entries
      modifies this`entries, this`faults
      ensures Valid()
      ensures r.Ok? ==> b !in old(entries) && entries == old(entries)[b := old(entries)[a]]
                        && Files() == old(Files())[b := old(Files())[a]] && faults == old(faults)
      ensures r.Err? ==> entries == old(entries) && Files() == old(Files())
                         && ((b in entries && r.error == FileExists && faults == old(faults))
                             || (r.error == OSError && faults == old(faults) + 1))
    {
      if * {
        faults := faults + 1;
        return Err(OSError);
      }
      if b in entries { return Err(FileExists); }
      entries := entries[b := entries[a]];
      r := Ok(());
    }

    method Unlink(path: Path)
      requires Valid() && path in entries
      modifies this`entries, this`free
      ensures Valid() && entries == old(entries) - {path} && free >= old(free)
    {
      var freed: int := *;
      entries := entries - {path};
      free := free + (if freed > 0 then freed else 0);
    }
  }
}
