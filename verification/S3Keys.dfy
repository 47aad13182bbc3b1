/** Object keys of `vsem_fms/app/storage/s3.py`, and which folder a key belongs to. */
module S3Keys {
  import opened Common
  import opened Names
  import Utf8

  /** A digest function, given as the hexadecimal text of the digest of a byte string. */
  type Hash = seq<byte> -> string

  predicate IsHexDigest(s: string) {
    |s| == 64 && forall i :: 0 <= i < |s| ==> '0' <= s[i] <= '9' || 'a' <= s[i] <= 'f'
  }

  ghost predicate IsSha256(hash: Hash) {
    forall b: seq<byte> :: IsHexDigest(hash(b))
  }

  /** A name that is one path component: not empty, not a dot name, no separator and no NUL. */
  ghost predicate PlainName(filename: string) {
    filename !in {"", ".", ".."} && forall i :: 0 <= i < |filename| ==> filename[i] !in {'/', '\\', '\0'}
  }

  predicate ValidFilename(filename: string)
    ensures ValidFilename(filename) <==> PlainName(filename)
  {
    filename != "" && filename != "." && filename != ".."
    && '/' !in filename && '\\' !in filename && '\0' !in filename
  }

  function HashSegment(hash: Hash, value: string): string {
    hash(Utf8.Encode(value))
  }

  /** The hypothesis that no two of these texts share a digest. */
  ghost predicate CollisionFree(hash: Hash, texts: set<string>) {
    forall a, b :: a in texts && b in texts && hash(Utf8.Encode(a)) == hash(Utf8.Encode(b)) ==> a == b
  }

  function FolderKeyPrefix(hash: Hash, prefix: string, folder: string, subfolder: string): string {
    CleanupPrefix(prefix) + HashSegment(hash, folder) + "/" + HashSegment(hash, subfolder) + "/"
  }

  function CleanupPrefix(prefix: string): string {
    if prefix == "" then "" else prefix + "/"
  }

  function ObjectKey(hash: Hash, prefix: string, folder: string, subfolder: string, filename: string): string {
    FolderKeyPrefix(hash, prefix, folder, subfolder) + filename
  }

  /** The layout of a key: configured prefix, digests of the whole folder and subfolder texts, file name. */
  lemma KeyLayout(hash: Hash, prefix: string, folder: string, subfolder: string, filename: string)
    ensures ObjectKey(hash, prefix, folder, subfolder, filename) ==
            (if prefix == "" then "" else prefix + "/")
            + hash(Utf8.Encode(folder)) + "/" + hash(Utf8.Encode(subfolder)) + "/" + filename
  {
  }

  lemma PrefixParts(hash: Hash, prefix: string, folder: string, subfolder: string)
    requires IsSha256(hash)
    ensures var p, n := FolderKeyPrefix(hash, prefix, folder, subfolder), |CleanupPrefix(prefix)|;
            |p| == n + 130 && p[n..n + 64] == HashSegment(hash, folder)
            && p[n + 65..n + 129] == HashSegment(hash, subfolder) && CleanupPrefix(prefix) <= p
  {
    assert IsHexDigest(HashSegment(hash, folder)) && IsHexDigest(HashSegment(hash, subfolder));
  }

  /** No folder's key prefix is a prefix of another folder's, nor of a key in another folder. */
  lemma PrefixesAreDisjoint(hash: Hash, prefix: string, f: string, s: string, g: string, t: string, rest: string)
    requires IsSha256(hash) && CollisionFree(hash, {f, s, g, t})
    ensures FolderKeyPrefix(hash, prefix, f, s) <= FolderKeyPrefix(hash, prefix, g, t) + rest <==> f == g && s == t
  {
    var p, q := FolderKeyPrefix(hash, prefix, f, s), FolderKeyPrefix(hash, prefix, g, t);
    PrefixParts(hash, prefix, f, s);
    PrefixParts(hash, prefix, g, t);
    assert (q + rest)[..|q|] == q;
    if p <= q + rest {
      assert p == q;
    }
  }

  /** Distinct files have distinct keys, and the name is what follows the folder's prefix. */
  lemma KeyInjective(hash: Hash, prefix: string, f: string, s: string, n: string, g: string, t: string, m: string)
    requires IsSha256(hash) && CollisionFree(hash, {f, s, g, t})
    ensures ObjectKey(hash, prefix, f, s, n) == ObjectKey(hash, prefix, g, t, m) <==> f == g && s == t && n == m
    ensures var p := FolderKeyPrefix(hash, prefix, f, s);
            p <= ObjectKey(hash, prefix, f, s, n) && ObjectKey(hash, prefix, f, s, n)[|p|..] == n
  {
    PrefixesAreDisjoint(hash, prefix, f, s, g, t, m);
    var p, q := FolderKeyPrefix(hash, prefix, f, s), FolderKeyPrefix(hash, prefix, g, t);
    assert (p + n)[|p|..] == n && (q + m)[|q|..] == m;
  }

  /** A key names a direct child of the folder: something follows the prefix, without a further slash. */
  predicate IsDirect(key: string, prefix: string) {
    prefix <= key && key != prefix && '/' !in key[|prefix|..]
  }

  /** Names of the folder's direct children. */
  ghost function Children(keys: set<string>, prefix: string): set<string> {
    set k | k in keys && IsDirect(k, prefix) :: k[|prefix|..]
  }

  lemma ChildOfKey(keys: set<string>, prefix: string, name: string)
    ensures name in Children(keys, prefix) <==> prefix + name in keys && name != "" && '/' !in name
  {
    var k := prefix + name;
    assert k[|prefix|..] == name && k[..|prefix|] == prefix;
    if name in Children(keys, prefix) {
      var c :| c in keys && IsDirect(c, prefix) && c[|prefix|..] == name;
      assert c == prefix + c[|prefix|..];
    }
  }

  // Adding or taking one key adds or takes the one name it stands for in this folder.
  lemma ChildrenAfter(keys: set<string>, prefix: string, name: string)
    requires name != "" && '/' !in name
    ensures Children(keys + {prefix + name}, prefix) == Children(keys, prefix) + {name}
    ensures Children(keys - {prefix + name}, prefix) == Children(keys, prefix) - {name}
  {
    var key := prefix + name;
    forall m
      ensures m in Children(keys + {key}, prefix) <==> m in Children(keys, prefix) || m == name
      ensures m in Children(keys - {key}, prefix) <==> m in Children(keys, prefix) && m != name
    {
      ChildOfKey(keys, prefix, m);
      ChildOfKey(keys + {key}, prefix, m);
      ChildOfKey(keys - {key}, prefix, m);
      assert (prefix + m)[|prefix|..] == m && key[|prefix|..] == name;
    }
  }

  // A key outside the folder changes nothing in its listing.
  lemma ChildrenUnchanged(keys: set<string>, prefix: string, key: string)
    requires !(prefix <= key)
    ensures Children(keys + {key}, prefix) == Children(keys, prefix) == Children(keys - {key}, prefix)
  {
    forall m
      ensures m in Children(keys + {key}, prefix) <==> m in Children(keys, prefix)
      ensures m in Children(keys - {key}, prefix) <==> m in Children(keys, prefix)
    {
      ChildOfKey(keys, prefix, m);
      ChildOfKey(keys + {key}, prefix, m);
      ChildOfKey(keys - {key}, prefix, m);
      assert prefix <= prefix + m;
    }
  }

  /** Storing or removing one object changes the listing of its own folder by that name, and no other folder's. */
  lemma ListingAfterSave(hash: Hash, prefix: string, keys: set<string>, f: string, s: string, n: string,
                         g: string, t: string)
    requires IsSha256(hash) && CollisionFree(hash, {f, s, g, t}) && PlainName(n)
    ensures var key, p := ObjectKey(hash, prefix, f, s, n), FolderKeyPrefix(hash, prefix, g, t);
            Children(keys + {key}, p) == Children(keys, p) + (if f == g && s == t then {n} else {})
            && Children(keys - {key}, p) == Children(keys, p) - (if f == g && s == t then {n} else {})
  {
    PrefixesAreDisjoint(hash, prefix, g, t, f, s, n);
    if f == g && s == t {
      ChildrenAfter(keys, FolderKeyPrefix(hash, prefix, f, s), n);
    } else {
      ChildrenUnchanged(keys, FolderKeyPrefix(hash, prefix, g, t), ObjectKey(hash, prefix, f, s, n));
    }
  }
}
