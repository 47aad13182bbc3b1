/** Names the local backend uses on disk (`vsem_fms/app/storage/local.py`). */
module LocalNames {
  import opened Common
  import opened S3Keys
  import opened Paging
  import opened FileSystem
  import opened Parts
  import Utf8

  /** Position of the last dot, or -1. */
  function LastDot(s: string): (i: int)
    ensures -1 <= i < |s|
  {
    if |s| == 0 then -1 else if s[|s| - 1] == '.' then |s| - 1 else LastDot(s[..|s| - 1])
  }

  /** `os.path.splitext(s)[1]` for a name without slashes: nothing if only dots stand before the last dot. */
  function Extension(s: string): string {
    var dot := LastDot(s);
    if dot >= 0 && exists i :: 0 <= i < dot && s[i] != '.' then s[dot..] else ""
  }

  /** `_get_hashed_filename`: the name a v1.0.0 server stored the file under. */
  function LegacyName(hash: Hash, filename: string): string {
    HashSegment(hash, filename) + Extension(filename)
  }

  function TempName(uuid: string): string {
    ".upload-" + uuid + ".tmp"
  }

  function StorageDir(hash: Hash, folder: string, subfolder: string): Dir {
    Dir(HashSegment(hash, folder), HashSegment(hash, subfolder))
  }

  /** A temporary name is hidden, and is never a legacy name. */
  lemma TempIsNoLegacyName(hash: Hash, uuid: string, filename: string)
    requires IsSha256(hash)
    ensures Hidden(TempName(uuid)) && TempName(uuid) != LegacyName(hash, filename)
    ensures !Hidden(LegacyName(hash, filename))
  {
    var h := HashSegment(hash, filename);
    assert IsHexDigest(h);
    assert LegacyName(hash, filename)[0] == h[0];
    assert TempName(uuid)[..8] == ".upload-";
  }

  lemma LegacyInjective(hash: Hash, a: string, b: string)
    requires IsSha256(hash) && CollisionFree(hash, {a, b}) && LegacyName(hash, a) == LegacyName(hash, b)
    ensures a == b
  {
    assert IsHexDigest(HashSegment(hash, a)) && IsHexDigest(HashSegment(hash, b));
    assert LegacyName(hash, a)[..64] == HashSegment(hash, a);
    assert LegacyName(hash, b)[..64] == HashSegment(hash, b);
  }

  // ---- The directory as a map from logical names ----

  type Files = map<Path, Bytes>

  /** `_resolve_file_path`: the current file, else the legacy file. */
  function Lookup(hash: Hash, files: Files, dir: Dir, filename: string): Option<Bytes> {
    var current, legacy := Path(dir, filename), Path(dir, LegacyName(hash, filename));
    if current in files then Some(files[current])
    else if legacy in files then Some(files[legacy])
    else None
  }

  /** The name ends in an extension that starts at `d`: its last dot, with something other than dots before it. */
  ghost predicate ExtensionAt(filename: string, d: nat) {
    d < |filename| && filename[d] == '.' && (forall i :: d < i < |filename| ==> filename[i] != '.')
    && exists i :: 0 <= i < d && filename[i] != '.'
  }

  lemma {:induction false} LastDotMeans(s: string)
    ensures forall i :: LastDot(s) < i < |s| ==> s[i] != '.'
    ensures LastDot(s) >= 0 ==> s[LastDot(s)] == '.'
  {
    if |s| > 0 && s[|s| - 1] != '.' {
      var t := s[..|s| - 1];
      LastDotMeans(t);
      forall i | LastDot(s) < i < |s|
        ensures s[i] != '.'
      {
        if i < |t| { assert t[i] == s[i]; }
      }
    }
  }

  /** A legacy name is the digest of the whole name followed by its extension, if it has one. */
  lemma LegacyNameMeans(hash: Hash, filename: string)
    ensures forall d: nat :: ExtensionAt(filename, d) ==>
              LegacyName(hash, filename) == hash(Utf8.Encode(filename)) + filename[d..]
    ensures (forall d: nat :: !ExtensionAt(filename, d)) ==> LegacyName(hash, filename) == hash(Utf8.Encode(filename))
  {
    LastDotMeans(filename);
    var dot := LastDot(filename);
    forall d: nat | ExtensionAt(filename, d)
      ensures d == dot
    {
    }
    if Extension(filename) != "" {
      assert ExtensionAt(filename, dot);
    } else {
      assert hash(Utf8.Encode(filename)) + "" == hash(Utf8.Encode(filename));
    }
  }

  lemma TailStartsAt(stem: string, tail: string)
    requires '.' !in tail && exists i :: 0 <= i < |stem| && stem[i] != '.'
    ensures var filename := stem + "." + tail; ExtensionAt(filename, |stem|) && filename[|stem|..] == "." + tail
  {
    var filename := stem + "." + tail;
    var i :| 0 <= i < |stem| && stem[i] != '.';
    assert filename[i] == stem[i];
    forall j | |stem| < j < |filename|
      ensures filename[j] != '.'
    {
      assert filename[j] == tail[j - |stem| - 1];
    }
  }

  /** With a stem that is not all dots and a tail without dots, the legacy name is the digest, a dot and the tail. */
  lemma LegacyNameOf(hash: Hash, stem: string, tail: string)
    requires '.' !in tail && exists i :: 0 <= i < |stem| && stem[i] != '.'
    ensures var filename := stem + "." + tail;
            LegacyName(hash, filename) == hash(Utf8.Encode(filename)) + "." + tail
  {
    var filename := stem + "." + tail;
    TailStartsAt(stem, tail);
    LegacyNameMeans(hash, filename);
    assert hash(Utf8.Encode(filename)) + ("." + tail) == hash(Utf8.Encode(filename)) + "." + tail;
  }

  /**
   * What a name stands for, told by the paths on disk: the file under the name itself; failing that, the one under
   * the digest of the name and its extension, or under the bare digest if it has none; failing that, nothing.
   */
  ghost predicate StandsFor(hash: Hash, files: Files, dir: Dir, filename: string, found: Option<Bytes>) {
    var current, digest := Path(dir, filename), hash(Utf8.Encode(filename));
    (current in files ==> found == Some(files[current]))
    && (current !in files ==>
          (forall d: nat :: ExtensionAt(filename, d) ==>
             var legacy := Path(dir, digest + filename[d..]);
             found == if legacy in files then Some(files[legacy]) else None)
          && ((forall d: nat :: !ExtensionAt(filename, d)) ==>
                var legacy := Path(dir, digest);
                found == if legacy in files then Some(files[legacy]) else None))
  }

  lemma LookupMeans(hash: Hash, files: Files, dir: Dir, filename: string)
    ensures StandsFor(hash, files, dir, filename, Lookup(hash, files, dir, filename))
  {
    LegacyNameMeans(hash, filename);
  }

  /** The files after a finished save: the current file is set, its legacy copy is gone. */
  function AfterSave(hash: Hash, files: Files, dir: Dir, filename: string, content: Bytes): Files {
    var legacy := LegacyName(hash, filename);
    var saved := files[Path(dir, filename) := content];
    if legacy != filename then saved - {Path(dir, legacy)} else saved
  }

  function AfterDelete(hash: Hash, files: Files, dir: Dir, filename: string): Files {
    files - {Path(dir, filename), Path(dir, LegacyName(hash, filename))}
  }

  /** The hypothesis that no name in use is the legacy name of another. */
  ghost predicate NoAlias(hash: Hash, names: set<string>) {
    forall a, b :: a in names && b in names && a != b ==> a != LegacyName(hash, b)
  }

  /** Saving `n` with this content on these files leaves what `m` stands for alone. */
  predicate Kept(hash: Hash, files: Files, dir: Dir, n: string, content: Bytes, m: string) {
    Lookup(hash, AfterSave(hash, files, dir, n, content), dir, m) == Lookup(hash, files, dir, m)
  }

  lemma UnaliasedIsKept(hash: Hash, files: Files, dir: Dir, n: string, content: Bytes, m: string)
    requires m != n
    requires m != LegacyName(hash, n) && LegacyName(hash, m) != n && LegacyName(hash, m) != LegacyName(hash, n)
    ensures Kept(hash, files, dir, n, content, m)
  {
  }

  lemma UnaliasedSurvivesDelete(hash: Hash, files: Files, dir: Dir, n: string, m: string)
    requires m != n
    requires m != LegacyName(hash, n) && LegacyName(hash, m) != n && LegacyName(hash, m) != LegacyName(hash, n)
    ensures Lookup(hash, AfterDelete(hash, files, dir, n), dir, m) == Lookup(hash, files, dir, m)
  {
  }

  lemma UsedNamesDoNotAlias(hash: Hash, used: set<string>, n: string, m: string)
    requires IsSha256(hash) && CollisionFree(hash, used) && NoAlias(hash, used) && n in used && m in used && m != n
    ensures m != LegacyName(hash, n) && LegacyName(hash, m) != n && LegacyName(hash, m) != LegacyName(hash, n)
  {
    if LegacyName(hash, m) == LegacyName(hash, n) { LegacyInjective(hash, m, n); }
  }

  lemma DirsDiffer(hash: Hash, f: string, s: string, g: string, t: string)
    requires CollisionFree(hash, {f, s, g, t})
    ensures StorageDir(hash, f, s) == StorageDir(hash, g, t) <==> f == g && s == t
    ensures StorageDir(hash, f, s) == Dir(hash(Utf8.Encode(f)), hash(Utf8.Encode(s)))
  {
    var texts := {f, s, g, t};
    assert forall a, b :: a in texts && b in texts && hash(Utf8.Encode(a)) == hash(Utf8.Encode(b)) ==> a == b;
  }

  /**
   * Without aliasing in its folder, a save sets exactly one entry of the map from (folder, subfolder, filename)
   * and drops its legacy copy; every other entry of this and of every other folder stays.
   */
  lemma SaveRefinesMap(hash: Hash, files: Files, f: string, s: string, n: string, content: Bytes, used: set<string>,
                       g: string, t: string, m: string)
    requires IsSha256(hash) && CollisionFree(hash, {f, s, g, t})
    requires CollisionFree(hash, used) && NoAlias(hash, used) && n in used && (f == g && s == t ==> m in used)
    ensures var dir := StorageDir(hash, f, s);
            var now := AfterSave(hash, files, dir, n, content);
            Lookup(hash, now, StorageDir(hash, g, t), m) ==
              (if f == g && s == t && m == n then Some(content) else Lookup(hash, files, StorageDir(hash, g, t), m))
            && (LegacyName(hash, n) != n ==> Path(dir, LegacyName(hash, n)) !in now)
  {
    DirsDiffer(hash, f, s, g, t);
    if f == g && s == t && m != n {
      UsedNamesDoNotAlias(hash, used, n, m);
      UnaliasedIsKept(hash, files, StorageDir(hash, f, s), n, content, m);
    }
  }

  /**
   * Without aliasing in its folder, a delete removes exactly one entry of that map, whichever copies existed;
   * every other entry of this and of every other folder stays.
   */
  lemma DeleteRefinesMap(hash: Hash, files: Files, f: string, s: string, n: string, used: set<string>,
                         g: string, t: string, m: string)
    requires IsSha256(hash) && CollisionFree(hash, {f, s, g, t})
    requires CollisionFree(hash, used) && NoAlias(hash, used) && n in used && (f == g && s == t ==> m in used)
    ensures Lookup(hash, AfterDelete(hash, files, StorageDir(hash, f, s), n), StorageDir(hash, g, t), m) ==
            if f == g && s == t && m == n then None else Lookup(hash, files, StorageDir(hash, g, t), m)
  {
    DirsDiffer(hash, f, s, g, t);
    if f == g && s == t && m != n {
      UsedNamesDoNotAlias(hash, used, n, m);
      UnaliasedSurvivesDelete(hash, files, StorageDir(hash, f, s), n, m);
    }
  }

  // One directory content on which aliased names disturb each other.
  function Witness(hash: Hash, dir: Dir, n: string, m: string): Files {
    if m == LegacyName(hash, n) then map[Path(dir, m) := []]
    else if LegacyName(hash, m) == n then map[]
    else map[Path(dir, LegacyName(hash, m)) := []]
  }

  lemma AliasedIsLost(hash: Hash, dir: Dir, n: string, m: string)
    requires m != n
    requires m == LegacyName(hash, n) || LegacyName(hash, m) == n || LegacyName(hash, m) == LegacyName(hash, n)
    ensures !Kept(hash, Witness(hash, dir, n, m), dir, n, [0], m)
  {
  }

  /** Saving one name leaves another's entry alone, whatever is on disk, exactly when the two do not alias. */
  lemma SaveKeepsOtherIff(hash: Hash, dir: Dir, n: string, m: string)
    requires m != n
    ensures (forall files: Files, content: Bytes :: Kept(hash, files, dir, n, content, m))
            <==> m != LegacyName(hash, n) && LegacyName(hash, m) != n && LegacyName(hash, m) != LegacyName(hash, n)
  {
    if m != LegacyName(hash, n) && LegacyName(hash, m) != n && LegacyName(hash, m) != LegacyName(hash, n) {
      forall files: Files, content: Bytes ensures Kept(hash, files, dir, n, content, m) {
        UnaliasedIsKept(hash, files, dir, n, content, m);
      }
    } else {
      AliasedIsLost(hash, dir, n, m);
    }
  }
}
