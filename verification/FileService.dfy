/** The cursor-pagination protocol of `vsem_fms/app/services/file_service.py` over a changing folder. */
module FileService {
  import opened Arithmetic
  import opened Common
  import opened Names
  import opened Paging
  import opened Pagination

  datatype Response = Response(files: seq<string>, hasMore: bool, nextCursor: Option<string>)

  /** `_page_response`. */
  function PageResponse(page: Page): Response {
    var next := if page.hasMore && |page.names| > 0 then Some(EncodeCursor(page.names[|page.names| - 1])) else None;
    Response(page.names, page.hasMore, next)
  }

  /** `list_file_metadata_page`: the same protocol step, with metadata in place of names. */
  function MetadataNextCursor(items: seq<Metadata>, hasMore: bool): Option<string> {
    if hasMore && |items| > 0 then Some(EncodeCursor(items[|items| - 1].filename)) else None
  }

  /** A metadata page continues exactly where the name page of the same names would. */
  lemma MetadataContinuesAlike(items: seq<Metadata>, page: Page)
    requires |items| == |page.names| && forall i :: 0 <= i < |items| ==> items[i].filename == page.names[i]
    ensures MetadataNextCursor(items, page.hasMore) == PageResponse(page).nextCursor
  {
  }

  /** `_decode_cursor`. */
  function DecodeAfter(cursor: Option<string>): Result<Option<string>, Error> {
    match cursor
    case None => Ok(None)
    case Some(c) => if DecodeCursor(c).Ok? then Ok(Some(DecodeCursor(c).value)) else Err(InvalidCursorError)
  }

  /** `limit or DEFAULT_PAGE_SIZE`: a missing or zero limit means the default. */
  function EffectiveLimit(limit: Option<nat>): (n: nat)
    ensures n > 0
  {
    if limit.Some? && limit.value > 0 then limit.value else DEFAULT_PAGE_SIZE
  }

  /** `list_files_page` on the folder as it is at that moment. */
  ghost function ListFilesPage(s: Snapshot, limit: Option<nat>, cursor: Option<string>): Result<Response, Error> {
    match DecodeAfter(cursor)
    case Err(e) => Err(e)
    case Ok(after) =>
      match BackendPage(s, EffectiveLimit(limit), after)
      case Err(e) => Err(e)
      case Ok(page) => Ok(PageResponse(page))
  }

  /** What a request with a readable cursor is answered, for the page size it asked for, or 100 if for none. */
  ghost function PageOf(s: Snapshot, size: nat, after: Option<string>): Result<Response, Error> {
    if Missing(s) then Err(FolderNotFound) else Ok(PageResponse(SpecPage(Visible(s), size, after)))
  }

  /** The page size of every answer: the limit asked for, and 100 for a missing or zero limit. */
  lemma PageSizeHonoured(s: Snapshot, limit: nat, cursor: Option<string>, after: Option<string>)
    requires DecodeAfter(cursor) == Ok(after)
    ensures limit > 0 ==> ListFilesPage(s, Some(limit), cursor) == PageOf(s, limit, after)
    ensures ListFilesPage(s, Some(0), cursor) == ListFilesPage(s, None, cursor) == PageOf(s, 100, after)
  {
    if limit > 0 { AnswerIsPage(s, Some(limit), cursor, after); }
    AnswerIsPage(s, Some(0), cursor, after);
    AnswerIsPage(s, None, cursor, after);
  }

  /** An answer never has more names than asked for (100 if nothing was asked), and that many if more follow. */
  lemma PageSizeBound(s: Snapshot, limit: Option<nat>, size: nat, cursor: Option<string>)
    requires (limit == Some(size) && size > 0) || (limit in {None, Some(0)} && size == 100)
    ensures var r := ListFilesPage(s, limit, cursor);
            r.Ok? ==> |r.value.files| <= size && (r.value.hasMore ==> |r.value.files| == size)
  {
    if DecodeAfter(cursor).Ok? {
      PageSizeHonoured(s, size, cursor, DecodeAfter(cursor).value);
      PageNames(Visible(s), size, DecodeAfter(cursor).value);
    }
  }

  /** An unreadable cursor is an error of its own, whatever the folder; a missing cursor starts from the beginning. */
  lemma UnreadableCursor(s: Snapshot, limit: Option<nat>, cursor: string)
    ensures DecodeCursor(cursor).Err? ==> ListFilesPage(s, limit, Some(cursor)) == Err(InvalidCursorError)
    ensures DecodeCursor(cursor).Ok? ==>
              DecodeAfter(Some(cursor)) == Ok(Some(DecodeCursor(cursor).value))
              && ListFilesPage(s, limit, Some(cursor)) != Err(InvalidCursorError)
    ensures DecodeAfter(None) == Ok(None)
  {
    if DecodeCursor(cursor).Ok? { AnswerIsPage(s, limit, Some(cursor), Some(DecodeCursor(cursor).value)); }
  }

  /** One answered page request: the folder it saw, the limit it carried and the response. */
  datatype Request = Request(folder: Snapshot, limit: Option<nat>, response: Response)

  /** No stored file has an empty name. */
  ghost predicate Named(s: Snapshot) {
    "" !in Visible(s)
  }

  function Cursor(run: seq<Request>, i: nat): Option<string>
    requires i <= |run|
  {
    if i == 0 then None else run[i - 1].response.nextCursor
  }

  /** A client follows `next_cursor`; between requests the folder may change in any way. */
  ghost predicate IsRun(run: seq<Request>) {
    forall i :: 0 <= i < |run| ==> Follows(run, i)
  }

  ghost predicate Follows(run: seq<Request>, i: nat)
    requires i < |run|
  {
    Named(run[i].folder)
    && (i > 0 ==> Cursor(run, i).Some?)
    && ListFilesPage(run[i].folder, run[i].limit, Cursor(run, i)) == Ok(run[i].response)
  }

  ghost predicate Complete(run: seq<Request>) {
    IsRun(run) && |run| > 0 && run[|run| - 1].response.nextCursor == None
  }

  /** All names the client has received, in the order it received them. */
  function Returned(run: seq<Request>): seq<string> {
    if |run| == 0 then [] else Returned(run[..|run| - 1]) + run[|run| - 1].response.files
  }

  /** The last name received before request `i`, which is what its cursor stands for. */
  function Mark(run: seq<Request>, i: nat): Option<string>
    requires i <= |run|
  {
    if i == 0 || |run[i - 1].response.files| == 0 then None
    else Some(run[i - 1].response.files[|run[i - 1].response.files| - 1])
  }

  lemma PageNames(names: set<string>, limit: nat, after: Option<string>)
    requires limit > 0
    ensures var p := SpecPage(names, limit, after);
            Sorted(p.names) && |p.names| <= limit && (p.hasMore ==> |p.names| == limit)
            && (forall n :: n in p.names ==> n in names && IsAfter(n, after))
            && (forall n :: n in names && IsAfter(n, after) && n !in p.names ==>
                  p.hasMore && Before(p.names[|p.names| - 1], n))
  {
    var rest := Ordered(AfterSet(names, after));
    var p := SpecPage(names, limit, after);
    forall n | n in p.names
      ensures n in names && IsAfter(n, after)
    {
      assert n in Elements(rest);
    }
    forall n | n in names && IsAfter(n, after) && n !in p.names
      ensures p.hasMore && Before(p.names[|p.names| - 1], n)
    {
      assert n in Elements(rest);
      var i :| 0 <= i < |rest| && rest[i] == n;
      assert forall j :: 0 <= j < |p.names| ==> p.names[j] == rest[j] && p.names[j] != n;
      assert i >= limit;
      assert Before(rest[limit - 1], rest[i]);
    }
  }

  // ---- From cursors to marks: the only lemmas that look inside the cursor codec ----

  lemma AnswerIsPage(s: Snapshot, limit: Option<nat>, cursor: Option<string>, after: Option<string>)
    requires DecodeAfter(cursor) == Ok(after)
    ensures ListFilesPage(s, limit, cursor) ==
            if Missing(s) then Err(FolderNotFound)
            else Ok(PageResponse(SpecPage(Visible(s), EffectiveLimit(limit), after)))
  {
    BackendPageIsSpec(s, EffectiveLimit(limit), after);
  }

  lemma DecodeAfterIssued(name: string)
    requires name != ""
    ensures DecodeAfter(Some(EncodeCursor(name))) == Ok(Some(name))
  {
    RoundTrip(name);
  }

  lemma CursorOfFullPage(page: Page, last: string)
    requires page.hasMore && |page.names| > 0 && page.names[|page.names| - 1] == last
    ensures PageResponse(page).nextCursor == Some(EncodeCursor(last))
  {
  }

  /** A page's `next_cursor` is there exactly when more names follow, and decodes to the page's last name. */
  lemma CursorMarksLastName(page: Page)
    requires page.hasMore ==> |page.names| > 0 && page.names[|page.names| - 1] != ""
    ensures PageResponse(page).nextCursor.Some? <==> page.hasMore
    ensures page.hasMore ==> DecodeAfter(PageResponse(page).nextCursor) == Ok(Some(page.names[|page.names| - 1]))
  {
    if page.hasMore {
      var last := page.names[|page.names| - 1];
      CursorOfFullPage(page, last);
      DecodeAfterIssued(last);
    }
  }

  /** Request `i` was answered with the reference page after the last name received before it. */
  ghost predicate Paged(run: seq<Request>, i: nat)
    requires i < |run|
  {
    var r := run[i];
    var p := SpecPage(Visible(r.folder), EffectiveLimit(r.limit), Mark(run, i));
    !Missing(r.folder) && r.response.files == p.names && r.response.hasMore == p.hasMore
    && (r.response.nextCursor.Some? <==> p.hasMore)
    && (i > 0 ==> run[i - 1].response.hasMore && Mark(run, i).Some?)
  }

  ghost predicate PagedRun(run: seq<Request>) {
    forall i :: 0 <= i < |run| ==> Paged(run, i)
  }

  lemma LastNameIsNamed(names: set<string>, limit: nat, after: Option<string>)
    requires limit > 0 && "" !in names
    ensures var p := SpecPage(names, limit, after);
            p.hasMore ==> |p.names| > 0 && p.names[|p.names| - 1] != ""
  {
    PageNames(names, limit, after);
    var p := SpecPage(names, limit, after);
    assert p.hasMore ==> p.names[|p.names| - 1] in p.names;
  }

  lemma AnswerAt(run: seq<Request>, i: nat)
    requires i < |run| && Follows(run, i) && DecodeAfter(Cursor(run, i)) == Ok(Mark(run, i))
    ensures !Missing(run[i].folder)
    ensures run[i].response ==
            PageResponse(SpecPage(Visible(run[i].folder), EffectiveLimit(run[i].limit), Mark(run, i)))
  {
    AnswerIsPage(run[i].folder, run[i].limit, Cursor(run, i), Mark(run, i));
  }

  // One request whose cursor decodes to the last name received.
  lemma PageStep(run: seq<Request>, i: nat)
    requires i < |run| && Follows(run, i) && DecodeAfter(Cursor(run, i)) == Ok(Mark(run, i))
    requires i > 0 ==> run[i - 1].response.hasMore && Mark(run, i).Some?
    ensures Paged(run, i)
    ensures run[i].response.nextCursor.Some? ==>
            Mark(run, i + 1).Some? && DecodeAfter(Cursor(run, i + 1)) == Ok(Mark(run, i + 1))
  {
    AnswerAt(run, i);
    var r := run[i];
    LastNameIsNamed(Visible(r.folder), EffectiveLimit(r.limit), Mark(run, i));
    CursorMarksLastName(SpecPage(Visible(r.folder), EffectiveLimit(r.limit), Mark(run, i)));
  }

  /** The cursor a client sends next decodes to the last name it received. */
  lemma {:induction false} NextMark(run: seq<Request>, i: nat)
    requires IsRun(run) && i < |run|
    ensures Paged(run, i)
    ensures run[i].response.nextCursor.Some? ==>
            Mark(run, i + 1).Some? && DecodeAfter(Cursor(run, i + 1)) == Ok(Mark(run, i + 1))
  {
    assert Follows(run, i);
    if i > 0 { NextMark(run, i - 1); }
    PageStep(run, i);
  }

  lemma RunIsPaged(run: seq<Request>)
    requires IsRun(run)
    ensures PagedRun(run)
  {
    forall i | 0 <= i < |run| ensures Paged(run, i) { NextMark(run, i); }
  }

  /** A run that has not finished can always take its next page while the folder is not reported missing. */
  lemma NextPageAnswers(run: seq<Request>, s: Snapshot, limit: Option<nat>)
    requires IsRun(run) && |run| > 0 && run[|run| - 1].response.nextCursor.Some? && !Missing(s)
    ensures ListFilesPage(s, limit, Cursor(run, |run|)).Ok?
  {
    NextMark(run, |run| - 1);
    AnswerIsPage(s, limit, Cursor(run, |run|), Mark(run, |run|));
  }

  // ---- What a whole run returns ----

  lemma PagedPrefix(run: seq<Request>, k: nat)
    requires PagedRun(run) && k <= |run|
    ensures PagedRun(run[..k])
  {
    forall i | 0 <= i < k
      ensures Paged(run[..k], i)
    {
      assert Paged(run, i) && Mark(run[..k], i) == Mark(run, i);
    }
  }

  lemma PageAt(run: seq<Request>, i: nat)
    requires PagedRun(run) && i < |run|
    ensures var r, after := run[i], Mark(run, i);
            Sorted(r.response.files)
            && (forall n :: n in r.response.files ==> n in Visible(r.folder) && IsAfter(n, after))
            && (r.response.hasMore ==> Mark(run, i + 1).Some?)
            && (forall n :: n in Visible(r.folder) && IsAfter(n, after) && n !in r.response.files ==>
                  r.response.hasMore && IsAfter(n, Mark(run, i + 1)))
  {
    assert Paged(run, i);
    PageNames(Visible(run[i].folder), EffectiveLimit(run[i].limit), Mark(run, i));
  }

  lemma {:induction false} PagedIncreasing(run: seq<Request>)
    requires PagedRun(run)
    ensures Sorted(Returned(run))
    decreases |run|
  {
    if |run| > 0 {
      var k := |run| - 1;
      var before := run[..k];
      PagedPrefix(run, k);
      PagedIncreasing(before);
      PageAt(run, k);
      assert Paged(run, k);
      SortedConcat(Returned(before), run[k].response.files);
    }
  }

  /** However the folder changes between requests, names arrive strictly increasing: in order, never twice. */
  lemma StrictlyIncreasing(run: seq<Request>)
    requires IsRun(run)
    ensures Sorted(Returned(run))
  {
    RunIsPaged(run);
    PagedIncreasing(run);
  }

  /** Every name received was visible in the folder when its page was taken. */
  lemma EachWasPresent(run: seq<Request>, i: nat, n: string)
    requires IsRun(run) && i < |run| && n in run[i].response.files
    ensures n in Visible(run[i].folder)
  {
    RunIsPaged(run);
    PageAt(run, i);
  }

  // A file present in every snapshot is either already received or still ahead of the cursor.
  lemma {:induction false} ReceivedOrAhead(run: seq<Request>, n: string)
    requires PagedRun(run) && |run| > 0
    requires forall i :: 0 <= i < |run| ==> n in Visible(run[i].folder)
    ensures n in Returned(run) || (run[|run| - 1].response.hasMore && IsAfter(n, Mark(run, |run|)))
    decreases |run|
  {
    var k := |run| - 1;
    var before := run[..k];
    PagedPrefix(run, k);
    if k > 0 {
      ReceivedOrAhead(before, n);
      assert Mark(before, k) == Mark(run, k);
    }
    PageAt(run, k);
  }

  /** A file present throughout a finished run is received exactly once. */
  lemma ExactlyOnce(run: seq<Request>, n: string)
    requires Complete(run)
    requires forall i :: 0 <= i < |run| ==> n in Visible(run[i].folder)
    ensures exists k :: 0 <= k < |Returned(run)| && Returned(run)[k] == n
    ensures forall j, k :: 0 <= j < k < |Returned(run)| ==> !(Returned(run)[j] == n && Returned(run)[k] == n)
  {
    RunIsPaged(run);
    assert Paged(run, |run| - 1);
    ReceivedOrAhead(run, n);
    PagedIncreasing(run);
    BeforeIrreflexive(n);
    assert n in Returned(run);
  }

  /** On a folder that stays as it is, with one page size: the limit of every request, or 100 if none has one. */
  ghost predicate Unchanging(run: seq<Request>, names: set<string>, limit: nat) {
    forall i :: 0 <= i < |run| ==>
      Visible(run[i].folder) == names
      && ((run[i].limit == Some(limit) && limit > 0) || (run[i].limit in {None, Some(0)} && limit == 100))
  }

  function PageCount(n: nat, limit: nat): nat
    requires limit > 0
  {
    Max(1, CeilDiv(n, limit))
  }

  /** `i * limit`, the number of names on the first `i` full pages. */
  function Offset(i: nat, limit: nat): nat {
    if i == 0 then 0 else Offset(i - 1, limit) + limit
  }

  // Where the listing `l` continues after a full page that started at `o`.
  lemma NextBlock(run: seq<Request>, i: nat, l: seq<string>, o: nat, limit: nat)
    requires 0 < i <= |run| && Sorted(l) && limit > 0 && o + limit < |l|
    requires run[i - 1].response.files == Take(l[o..], limit)
    ensures Ordered(AfterSet(Elements(l), Mark(run, i))) == l[o + limit..]
  {
    assert Mark(run, i) == Some(l[o + limit - 1]);
    MarkSplits(l, o + limit);
  }

  // Page i of an unchanging folder is the i-th block of its listing.
  lemma {:induction false} FixedPage(run: seq<Request>, names: set<string>, limit: nat, i: nat)
    requires PagedRun(run) && Unchanging(run, names, limit) && limit > 0 && i < |run|
    ensures Offset(i, limit) <= |Ordered(names)| && (i > 0 ==> Offset(i, limit) < |Ordered(names)|)
    ensures Ordered(AfterSet(names, Mark(run, i))) == Ordered(names)[Offset(i, limit)..]
    ensures run[i].response.files == Take(Ordered(names)[Offset(i, limit)..], limit)
    ensures run[i].response.hasMore <==> |Ordered(names)| > Offset(i + 1, limit)
  {
    var l := Ordered(names);
    assert Paged(run, i);
    if i == 0 {
      assert AfterSet(names, None) == names && l[0..] == l;
    } else {
      FixedPage(run, names, limit, i - 1);
      NextBlock(run, i, l, Offset(i - 1, limit), limit);
    }
  }

  lemma TakeBlock(l: seq<string>, o: nat, limit: nat)
    requires o <= |l|
    ensures Take(l, o) + Take(l[o..], limit) == Take(l, o + limit)
  {
  }

  lemma {:induction false} FixedReturned(run: seq<Request>, names: set<string>, limit: nat)
    requires PagedRun(run) && Unchanging(run, names, limit) && limit > 0
    ensures Returned(run) == Take(Ordered(names), Offset(|run|, limit))
    decreases |run|
  {
    if |run| > 0 {
      var k := |run| - 1;
      PagedPrefix(run, k);
      FixedReturned(run[..k], names, limit);
      FixedPage(run, names, limit, k);
      TakeBlock(Ordered(names), Offset(k, limit), limit);
    }
  }

  lemma {:induction false} OffsetIsProduct(i: nat, limit: nat)
    ensures Offset(i, limit) == i * limit
  {
    if i > 0 { OffsetIsProduct(i - 1, limit); }
  }

  lemma PageCountBounds(n: nat, limit: nat, k: nat)
    requires limit > 0
    requires Offset(k, limit) <= n && (k > 0 ==> Offset(k, limit) < n)
    ensures k + 1 <= PageCount(n, limit)
    ensures n <= Offset(k + 1, limit) <==> k + 1 == PageCount(n, limit)
  {
    OffsetIsProduct(k, limit);
    if n > 0 {
      CeilDivIs(n, limit, k);
      if n > Offset(k + 1, limit) {
        OffsetIsProduct(k + 1, limit);
        CeilDivIs(n, limit, k + 1);
      }
    } else {
      assert CeilDiv(n, limit) == 0;
    }
  }

  /**
   * Following cursors over n unchanging names: the run is finished exactly after max(1, ceil(n / limit))
   * pages, never goes further, returns the whole listing, and every page but the last is full.
   */
  lemma FixedFolder(run: seq<Request>, names: set<string>, limit: nat)
    requires IsRun(run) && Unchanging(run, names, limit) && limit > 0 && |run| > 0
    ensures |run| <= PageCount(|names|, limit)
    ensures Complete(run) <==> |run| == PageCount(|names|, limit)
    ensures Complete(run) ==> Returned(run) == Ordered(names)
    ensures forall i :: 0 <= i < |run| - 1 ==> |run[i].response.files| == limit
  {
    var k := |run| - 1;
    RunIsPaged(run);
    assert Paged(run, k);
    FixedPage(run, names, limit, k);
    OrderedLength(names);
    PageCountBounds(|names|, limit, k);
    FixedReturned(run, names, limit);
    forall i | 0 <= i < k
      ensures |run[i].response.files| == limit
    {
      FixedPage(run, names, limit, i);
      assert Paged(run, i + 1);
    }
  }
}
