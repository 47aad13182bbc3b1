/** How each backend cuts one page out of a folder (`local.py`, `s3.py`), and that they agree. */
module Paging {
  import opened Common
  import opened Names

  /** `bisect.bisect_right(a, x)` on the window `[lo, hi)`. */
  function BisectRight(a: seq<string>, x: string, lo: nat, hi: nat): (k: nat)
    requires lo <= hi <= |a|
    ensures lo <= k <= hi
    decreases hi - lo
  {
    if lo == hi then lo
    else
      var mid := (lo + hi) / 2;
      if Before(x, a[mid]) then BisectRight(a, x, lo, mid) else BisectRight(a, x, mid + 1, hi)
  }

  /** `_page_file_paths`: one window of the sorted names, with one extra name to see whether more follow. */
  function PageFilePaths(files: seq<string>, limit: nat, after: Option<string>): Page {
    var start := if after.Some? then BisectRight(files, after.value, 0, |files|) else 0;
    var window := Take(files[start..], limit + 1);
    Page(Take(window, limit), |window| > limit)
  }

  lemma {:induction false} BisectRightSplits(a: seq<string>, x: string, lo: nat, hi: nat)
    requires lo <= hi <= |a| && Sorted(a)
    requires forall i :: 0 <= i < lo ==> !Before(x, a[i])
    requires forall i :: hi <= i < |a| ==> Before(x, a[i])
    ensures var k := BisectRight(a, x, lo, hi);
            (forall i :: 0 <= i < k ==> !Before(x, a[i])) && (forall i :: k <= i < |a| ==> Before(x, a[i]))
    decreases hi - lo
  {
    if lo < hi {
      var mid := (lo + hi) / 2;
      if Before(x, a[mid]) {
        forall i | mid <= i < hi ensures Before(x, a[i]) {
          if i > mid { BeforeTransitive(x, a[mid], a[i]); }
        }
        BisectRightSplits(a, x, lo, mid);
      } else {
        forall i | lo <= i <= mid ensures !Before(x, a[i]) {
          if i < mid && Before(x, a[i]) { BeforeTransitive(x, a[i], a[mid]); }
        }
        BisectRightSplits(a, x, mid + 1, hi);
      }
    }
  }

  /** The local page is the reference page. */
  lemma LocalPageIsSpec(names: set<string>, limit: nat, after: Option<string>)
    ensures PageFilePaths(Ordered(names), limit, after) == SpecPage(names, limit, after)
  {
    var l := Ordered(names);
    var start := if after.Some? then BisectRight(l, after.value, 0, |l|) else 0;
    if after.Some? { BisectRightSplits(l, after.value, 0, |l|); }
    AfterIsSuffix(l, after, start);
    assert Take(Take(l[start..], limit + 1), limit) == Take(l[start..], limit);
  }

  /** What one folder looks like to a backend when a page is taken. */
  datatype Snapshot =
    | LocalDir(present: bool, entries: set<string>)
    | S3Folder(names: set<string>)

  predicate Hidden(name: string) {
    ".upload-" <= name
  }

  ghost function Visible(s: Snapshot): set<string> {
    match s
    case LocalDir(_, entries) => set n | n in entries && !Hidden(n)
    case S3Folder(names) => names
  }

  /** `LocalStorageBackend.list_files_page`. */
  ghost function LocalListFilesPage(present: bool, entries: set<string>, limit: nat, after: Option<string>)
    : Result<Page, Error>
  {
    if !present then Err(FolderNotFound)
    else Ok(PageFilePaths(Ordered(Visible(LocalDir(true, entries))), limit, after))
  }

  /** `S3StorageBackend.list_files_page`, given the names of the folder's direct children. */
  ghost function S3ListFilesPage(names: set<string>, limit: nat, after: Option<string>): Result<Page, Error> {
    var found := Take(Ordered(AfterSet(names, after)), limit + 1);
    if found == [] then
      if after.Some? && names != {} then Ok(Page([], false)) else Err(FolderNotFound)
    else Ok(Page(Take(found, limit), |found| > limit))
  }

  ghost function BackendPage(s: Snapshot, limit: nat, after: Option<string>): Result<Page, Error> {
    match s
    case LocalDir(e, entries) => LocalListFilesPage(e, entries, limit, after)
    case S3Folder(names) => S3ListFilesPage(names, limit, after)
  }

  /** A folder that is reported missing: no directory locally, no object at all in S3. */
  predicate Missing(s: Snapshot) {
    match s
    case LocalDir(e, _) => !e
    case S3Folder(names) => names == {}
  }

  /** Either backend answers with the reference page, or reports a missing folder. */
  lemma BackendPageIsSpec(s: Snapshot, limit: nat, after: Option<string>)
    ensures BackendPage(s, limit, after) ==
            if Missing(s) then Err(FolderNotFound) else Ok(SpecPage(Visible(s), limit, after))
  {
    match s
    case LocalDir(_, _) =>
      LocalPageIsSpec(Visible(s), limit, after);
    case S3Folder(names) =>
      var rest := Ordered(AfterSet(names, after));
      assert Take(Take(rest, limit + 1), limit) == Take(rest, limit);
      if rest == [] {
        assert Elements(rest) == {};
        assert names == {} || after.Some? by {
          if after.None? { assert AfterSet(names, after) == names; }
        }
      } else {
        assert rest[0] in AfterSet(names, after);
      }
  }

  /** Both backends page alike on the same non-empty set of names, none of them hidden. */
  lemma BackendsAgree(names: set<string>, limit: nat, after: Option<string>)
    requires names != {} && forall n :: n in names ==> !(".upload-" <= n)
    ensures BackendPage(LocalDir(true, names), limit, after) == BackendPage(S3Folder(names), limit, after)
  {
    BackendPageIsSpec(LocalDir(true, names), limit, after);
    BackendPageIsSpec(S3Folder(names), limit, after);
    assert Visible(LocalDir(true, names)) == names;
  }

  /** The exact condition: they agree on every request exactly when some name exists and none is hidden. */
  lemma BackendsAgreeIff(names: set<string>)
    ensures (forall limit: nat, after: Option<string> | limit > 0 ::
               BackendPage(LocalDir(true, names), limit, after) == BackendPage(S3Folder(names), limit, after))
            <==> names != {} && forall n :: n in names ==> !(".upload-" <= n)
  {
    var l, s := LocalDir(true, names), S3Folder(names);
    if names != {} && forall n :: n in names ==> !Hidden(n) {
      forall limit: nat, after: Option<string> | limit > 0
        ensures BackendPage(l, limit, after) == BackendPage(s, limit, after)
      {
        BackendsAgree(names, limit, after);
      }
    } else {
      var limit := |names| + |Visible(l)| + 1;
      BackendPageIsSpec(l, limit, None);
      BackendPageIsSpec(s, limit, None);
      WholeListing(Visible(l), limit);
      WholeListing(names, limit);
      if names != {} {
        assert Visible(l) != names;
        assert Elements(Ordered(Visible(l))) != Elements(Ordered(names));
      }
    }
  }

  lemma WholeListing(names: set<string>, limit: nat)
    ensures AfterSet(names, None) == names
    ensures limit >= |names| ==> SpecPage(names, limit, None).names == Ordered(names)
  {
    assert AfterSet(names, None) == names;
    OrderedLength(names);
  }
}
