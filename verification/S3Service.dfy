/**
 * The remote object store as its client sees it: every call takes effect atomically or raises and
 * changes nothing.  A call may fail at any time with any error code; such a failure is recorded in
 * the trace as `Failed`.
 */
module S3Service {
  import opened Common
  import opened Names
  import opened Parts
  import Utf8

  // Limits of the S3 protocol.
  const MIN_PART_SIZE: nat := 5 * 1024 * 1024
  const MAX_PART_NUMBER: nat := 10000
  const MAX_DELETE_KEYS: nat := 1000

  const NO_SUCH_KEY := "404"
  const INVALID_ARGUMENT := "InvalidArgument"
  const INVALID_PART := "InvalidPart"
  const PRECONDITION_FAILED := "PreconditionFailed"

  datatype Tag = Tag(key: string, value: string)
  // `modified` is in seconds since a fixed moment.
  datatype Object = Object(body: Bytes, tags: seq<Tag>, modified: Option<real>)
  datatype Part = Part(etag: nat, body: Bytes)
  datatype PartRef = PartRef(etag: nat, number: nat)
  datatype Upload = Upload(key: string, parts: map<nat, Part>)

  datatype Item = Item(key: string, modified: Option<real>)
  /** A continuation token: listing resumes strictly after this key. */
  datatype Token = Token(after: string)
  datatype ListResponse = ListResponse(contents: seq<Item>, isTruncated: bool, next: Option<Token>)

  datatype Op = HeadOp | GetOp | PutOp | CreateOp | PartOp | CompleteOp | AbortOp | TagOp | GetTagOp | ListOp | DeleteOp

  datatype Call =
    | Head(key: string)
    | Get(key: string)
    | Put(key: string)
    | Create(id: nat)
    | SendPart(id: nat, number: nat, body: Bytes)
    | Complete(id: nat)
    | Abort(id: nat)
    | SetTags(key: string)
    | GetTags(key: string)
    | List(prefix: string, maxKeys: nat, startAfter: Option<string>, token: Option<Token>)
    | Delete(key: string)
    | DeleteMany(keys: seq<string>, refused: set<string>)
    | Refused(op: Op)
    | Failed(op: Op, code: string)

  ghost predicate NoFaults(calls: seq<Call>) {
    forall i :: 0 <= i < |calls| ==> !calls[i].Failed?
  }

  /** A call of this kind that failed. */
  predicate IsFailure(call: Call, op: Op) {
    call.Failed? && call.op == op
  }

  function Keys(items: seq<Item>): (keys: seq<string>)
    ensures |keys| == |items|
  {
    seq(|items|, i requires 0 <= i < |items| => items[i].key)
  }

  /** The parts a completion request names, in the order it names them. */
  function Assemble(parts: map<nat, Part>, refs: seq<PartRef>): Bytes {
    if |refs| == 0 then []
    else (if refs[0].number in parts then parts[refs[0].number].body else []) + Assemble(parts, refs[1..])
  }

  /** What S3 demands of a completion request: ascending known parts, all but the last large enough. */
  predicate ValidParts(parts: map<nat, Part>, refs: seq<PartRef>) {
    |refs| > 0
    && (forall i :: 0 <= i < |refs| ==> refs[i].number in parts && parts[refs[i].number].etag == refs[i].etag)
    && (forall i :: 0 < i < |refs| ==> refs[i - 1].number < refs[i].number)
    && (forall i :: 0 <= i < |refs| - 1 ==> |parts[refs[i].number].body| >= MIN_PART_SIZE)
  }

  /** Byte order of the encoded keys, the order of every listing. */
  ghost predicate InKeyOrder(keys: seq<string>) {
    forall i, j :: 0 <= i < j < |keys| ==> KeyBefore(keys[i], keys[j])
  }

  /** The keys a listing request may return: under the prefix, strictly after its starting point. */
  ghost predicate Listable(key: string, prefix: string, start: Option<string>) {
    prefix <= key && (start.Some? ==> KeyBefore(start.value, key))
  }

  ghost function ListableKeys(keys: set<string>, prefix: string, start: Option<string>): set<string> {
    set k | k in keys && Listable(k, prefix, start)
  }

  lemma InKeyOrderIsSorted(l: seq<string>)
    ensures InKeyOrder(l) <==> Sorted(l)
  {
    forall i, j | 0 <= i < j < |l|
      ensures KeyBefore(l[i], l[j]) <==> Before(l[i], l[j])
    {
      KeyOrderIsNameOrder(l[i], l[j]);
    }
  }

  /** These keys in byte order. */
  ghost function KeyOrdered(keys: set<string>): (l: seq<string>)
    ensures InKeyOrder(l) && Elements(l) == keys
  {
    InKeyOrderIsSorted(Ordered(keys));
    var l :| InKeyOrder(l) && Elements(l) == keys;
    l
  }

  /** Byte order lists the keys as name order does. */
  lemma KeyOrderedIsOrdered(keys: set<string>)
    ensures KeyOrdered(keys) == Ordered(keys)
  {
    InKeyOrderIsSorted(KeyOrdered(keys));
    OrderedIs(KeyOrdered(keys));
  }

  /** Listed items carry the modification times the store holds. */
  ghost predicate Recorded(items: seq<Item>, objects: map<string, Object>) {
    forall i :: 0 <= i < |items| ==>
      items[i].key in objects && items[i].modified == objects[items[i].key].modified
  }

  /** One page of a listing: any first part of the remaining keys that is not empty unless none remain. */
  ghost predicate IsPage(r: ListResponse, remaining: set<string>, maxKeys: nat, objects: map<string, Object>) {
    var l, n := KeyOrdered(remaining), |r.contents|;
    n <= |l| && n <= maxKeys && Keys(r.contents) == l[..n] && (l != [] ==> n > 0)
    && (r.isTruncated <==> n < |l|)
    && (r.isTruncated ==> r.next == Some(Token(l[n - 1])))
    && Recorded(r.contents, objects)
  }

  class S3Client {
    var objects: map<string, Object>
    var uploads: map<nat, Upload>
    ghost var calls: seq<Call>

    constructor ()
      ensures objects == map[] && uploads == map[] && calls == []
    {
      objects, uploads, calls := map[], map[], [];
    }

    method HeadObject(key: string) returns (r: Result<nat, Error>)
      modifies this`calls
      ensures |calls| == |old(calls)| + 1 && old(calls) <= calls
      ensures var call := calls[|calls| - 1];
              (IsFailure(call, HeadOp) && r == Err(ClientError(call.code)))
              || (call == Head(key) && key in objects && r == Ok(|objects[key].body|))
              || (call == Refused(HeadOp) && key !in objects && r == Err(ClientError(NO_SUCH_KEY)))
    {
      if * {
        var code: string := *;
        calls := calls + [Failed(HeadOp, code)];
        return Err(ClientError(code));
      }
      if key !in objects {
        calls := calls + [Refused(HeadOp)];
        return Err(ClientError(NO_SUCH_KEY));
      }
      calls := calls + [Head(key)];
      r := Ok(|objects[key].body|);
    }

    method GetObject(key: string) returns (r: Result<Bytes, Error>)
      modifies this`calls
      ensures |calls| == |old(calls)| + 1 && old(calls) <= calls
      ensures var call := calls[|calls| - 1];
              (IsFailure(call, GetOp) && r == Err(ClientError(call.code)))
              || (call == Get(key) && key in objects && r == Ok(objects[key].body))
              || (call == Refused(GetOp) && key !in objects && r == Err(ClientError(NO_SUCH_KEY)))
    {
      if * {
        var code: string := *;
        calls := calls + [Failed(GetOp, code)];
        return Err(ClientError(code));
      }
      if key !in objects {
        calls := calls + [Refused(GetOp)];
        return Err(ClientError(NO_SUCH_KEY));
      }
      calls := calls + [Get(key)];
      r := Ok(objects[key].body);
    }

    method PutObject(key: string, body: Bytes, tags: seq<Tag>, ifNoneMatch: bool) returns (r: Result<(), Error>)
      modifies this`objects, this`calls
      ensures |calls| == |old(calls)| + 1 && old(calls) <= calls
      ensures var call := calls[|calls| - 1];
              (IsFailure(call, PutOp) && r == Err(ClientError(call.code)) && objects == old(objects))
              || (call == Refused(PutOp) && ifNoneMatch && key in objects
                  && r == Err(ClientError(PRECONDITION_FAILED)) && objects == old(objects))
              || (call == Put(key) && (ifNoneMatch ==> key !in old(objects)) && r == Ok(())
                  && key in objects && objects[key].body == body && objects[key].tags == tags
                  && objects == old(objects)[key := objects[key]])
    {
      if * {
        var code: string := *;
        calls := calls + [Failed(PutOp, code)];
        return Err(ClientError(code));
      }
      if ifNoneMatch && key in objects {
        calls := calls + [Refused(PutOp)];
        return Err(ClientError(PRECONDITION_FAILED));
      }
      var now: real := *;
      objects := objects[key := Object(body, tags, Some(now))];
      calls := calls + [Put(key)];
      r := Ok(());
    }

    method CreateMultipartUpload(key: string) returns (r: Result<nat, Error>)
      modifies this`uploads, this`calls
      ensures |calls| == |old(calls)| + 1 && old(calls) <= calls
      ensures var call := calls[|calls| - 1];
              (IsFailure(call, CreateOp) && r == Err(ClientError(call.code)) && uploads == old(uploads))
              || (r.Ok? && call == Create(r.value) && r.value !in old(uploads)
                  && uploads == old(uploads)[r.value := Upload(key, map[])])
    {
      if * {
        var code: string := *;
        calls := calls + [Failed(CreateOp, code)];
        return Err(ClientError(code));
      }
      var id := FreshId();
      uploads := uploads[id := Upload(key, map[])];
      calls := calls + [Create(id)];
      r := Ok(id);
    }

    method FreshId() returns (id: nat)
      ensures id !in uploads
    {
      id := 0;
      var rest := uploads.Keys;
      while rest != {}
        invariant forall k :: k in uploads && k !in rest ==> k < id
        decreases |rest|
      {
        var k :| k in rest;
        rest := rest - {k};
        if k >= id { id := k + 1; }
      }
    }

    method UploadPart(id: nat, number: nat, body: Bytes) returns (r: Result<nat, Error>)
      modifies this`uploads, this`calls
      ensures |calls| == |old(calls)| + 1 && old(calls) <= calls
      ensures var call := calls[|calls| - 1];
              (IsFailure(call, PartOp) && r == Err(ClientError(call.code)) && uploads == old(uploads))
              || (call == Refused(PartOp) && (id !in uploads || !(1 <= number <= MAX_PART_NUMBER))
                  && r == Err(ClientError(INVALID_ARGUMENT)) && uploads == old(uploads))
              || (call == SendPart(id, number, body) && r.Ok? && id in old(uploads) && 1 <= number <= MAX_PART_NUMBER
                  && uploads == old(uploads)[id := Upload(old(uploads)[id].key,
                                                          old(uploads)[id].parts[number := Part(r.value, body)])])
    {
      if * {
        var code: string := *;
        calls := calls + [Failed(PartOp, code)];
        return Err(ClientError(code));
      }
      if id !in uploads || !(1 <= number <= MAX_PART_NUMBER) {
        calls := calls + [Refused(PartOp)];
        return Err(ClientError(INVALID_ARGUMENT));
      }
      var etag: nat := *;
      uploads := uploads[id := Upload(uploads[id].key, uploads[id].parts[number := Part(etag, body)])];
      calls := calls + [SendPart(id, number, body)];
      r := Ok(etag);
    }

    method CompleteMultipartUpload(key: string, id: nat, refs: seq<PartRef>, ifNoneMatch: bool)
      returns (r: Result<(), Error>)
      modifies this`objects, this`uploads, this`calls
      ensures |calls| == |old(calls)| + 1 && old(calls) <= calls
      ensures r.Err? ==> objects == old(objects) && uploads == old(uploads) && r.error.ClientError?
      ensures var call := calls[|calls| - 1];
              (IsFailure(call, CompleteOp) && r == Err(ClientError(call.code)))
              || (call == Refused(CompleteOp) && r.Err?
                  && if ifNoneMatch && key in objects then r.error.code == PRECONDITION_FAILED
                     else r.error.code == INVALID_PART && (id !in uploads || !ValidParts(uploads[id].parts, refs)))
              || (call == Complete(id) && r.Ok? && id in old(uploads) && ValidParts(old(uploads)[id].parts, refs)
                  && (ifNoneMatch ==> key !in old(objects))
                  && key in objects && objects[key].body == Assemble(old(uploads)[id].parts, refs)
                  && objects[key].tags == []
                  && objects == old(objects)[key := objects[key]] && uploads == old(uploads) - {id})
    {
      if * {
        var code: string := *;
        calls := calls + [Failed(CompleteOp, code)];
        return Err(ClientError(code));
      }
      if ifNoneMatch && key in objects {
        calls := calls + [Refused(CompleteOp)];
        return Err(ClientError(PRECONDITION_FAILED));
      }
      if id !in uploads || !ValidParts(uploads[id].parts, refs) {
        calls := calls + [Refused(CompleteOp)];
        return Err(ClientError(INVALID_PART));
      }
      var now: real := *;
      objects := objects[key := Object(Assemble(uploads[id].parts, refs), [], Some(now))];
      uploads := uploads - {id};
      calls := calls + [Complete(id)];
      r := Ok(());
    }

    method AbortMultipartUpload(id: nat) returns (r: Result<(), Error>)
      modifies this`uploads, this`calls
      ensures |calls| == |old(calls)| + 1 && old(calls) <= calls
      ensures var call := calls[|calls| - 1];
              (IsFailure(call, AbortOp) && r == Err(ClientError(call.code)) && uploads == old(uploads))
              || (call == Abort(id) && r.Ok? && uploads == old(uploads) - {id})
    {
      if * {
        var code: string := *;
        calls := calls + [Failed(AbortOp, code)];
        return Err(ClientError(code));
      }
      uploads := uploads - {id};
      calls := calls + [Abort(id)];
      r := Ok(());
    }

    method PutObjectTagging(key: string, tags: seq<Tag>) returns (r: Result<(), Error>)
      modifies this`objects, this`calls
      ensures |calls| == |old(calls)| + 1 && old(calls) <= calls
      ensures var call := calls[|calls| - 1];
              (IsFailure(call, TagOp) && r == Err(ClientError(call.code)) && objects == old(objects))
              || (call == Refused(TagOp) && key !in objects && r.Err? && r.error.ClientError?
                  && objects == old(objects))
              || (call == SetTags(key) && key in old(objects) && r.Ok?
                  && objects == old(objects)[key := old(objects)[key].(tags := tags)])
    {
      if * {
        var code: string := *;
        calls := calls + [Failed(TagOp, code)];
        return Err(ClientError(code));
      }
      if key !in objects {
        calls := calls + [Refused(TagOp)];
        return Err(ClientError(NO_SUCH_KEY));
      }
      objects := objects[key := objects[key].(tags := tags)];
      calls := calls + [SetTags(key)];
      r := Ok(());
    }

    method GetObjectTagging(key: string) returns (r: Result<seq<Tag>, Error>)
      modifies this`calls
      ensures |calls| == |old(calls)| + 1 && old(calls) <= calls
      ensures var call := calls[|calls| - 1];
              (IsFailure(call, GetTagOp) && r == Err(ClientError(call.code)))
              || (call == GetTags(key) && key in objects && r == Ok(objects[key].tags))
              || (call == Refused(GetTagOp) && key !in objects && r == Err(ClientError(NO_SUCH_KEY)))
    {
      if * {
        var code: string := *;
        calls := calls + [Failed(GetTagOp, code)];
        return Err(ClientError(code));
      }
      if key !in objects {
        calls := calls + [Refused(GetTagOp)];
        return Err(ClientError(NO_SUCH_KEY));
      }
      calls := calls + [GetTags(key)];
      r := Ok(objects[key].tags);
    }

    method DeleteObject(key: string) returns (r: Result<(), Error>)
      modifies this`objects, this`calls
      ensures |calls| == |old(calls)| + 1 && old(calls) <= calls
      ensures var call := calls[|calls| - 1];
              (IsFailure(call, DeleteOp) && r == Err(ClientError(call.code)) && objects == old(objects))
              || (call == Delete(key) && r.Ok? && objects == old(objects) - {key})
    {
      if * {
        var code: string := *;
        calls := calls + [Failed(DeleteOp, code)];
        return Err(ClientError(code));
      }
      objects := objects - {key};
      calls := calls + [Delete(key)];
      r := Ok(());
    }

    /** Some of the requested keys may be refused one by one; those stay and are reported. */
    method DeleteObjects(keys: seq<string>) returns (r: Result<set<string>, Error>)
      requires |keys| <= MAX_DELETE_KEYS
      modifies this`objects, this`calls
      ensures |calls| == |old(calls)| + 1 && old(calls) <= calls
      ensures var call := calls[|calls| - 1];
              (IsFailure(call, DeleteOp) && r == Err(ClientError(call.code)) && objects == old(objects))
              || (r.Ok? && call == DeleteMany(keys, r.value) && r.value <= Elements(keys)
                  && objects == old(objects) - (Elements(keys) - r.value))
    {
      if * {
        var code: string := *;
        calls := calls + [Failed(DeleteOp, code)];
        return Err(ClientError(code));
      }
      var refused: set<string> := {};
      var i := 0;
      while i < |keys|
        invariant 0 <= i <= |keys| && refused <= Elements(keys)
      {
        if * { refused := refused + {keys[i]}; }
        i := i + 1;
      }
      objects := objects - (Elements(keys) - refused);
      calls := calls + [DeleteMany(keys, refused)];
      r := Ok(refused);
    }

    /** `StartAfter` matters only on a request without a continuation token. */
    method ListObjectsV2(prefix: string, maxKeys: nat, startAfter: Option<string>, token: Option<Token>)
      returns (r: Result<ListResponse, Error>)
      requires maxKeys > 0
      modifies this`calls
      ensures |calls| == |old(calls)| + 1 && old(calls) <= calls
      ensures var call := calls[|calls| - 1];
              var start := if token.Some? then Some(token.value.after) else startAfter;
              (IsFailure(call, ListOp) && r == Err(ClientError(call.code)))
              || (call == List(prefix, maxKeys, startAfter, token) && r.Ok?
                  && IsPage(r.value, ListableKeys(objects.Keys, prefix, start), maxKeys, objects))
    {
      if * {
        var code: string := *;
        calls := calls + [Failed(ListOp, code)];
        return Err(ClientError(code));
      }
      var start := if token.Some? then Some(token.value.after) else startAfter;
      var remaining := set k | k in objects.Keys && prefix <= k && IsAfter(k, start);
      ListableInNameOrder(objects.Keys, prefix, start);
      var sorted := SortNames(remaining);
      var n: nat := *;
      n := Min(Max(n, 1), Min(|sorted|, maxKeys));
      assert forall i :: 0 <= i < |sorted| ==> sorted[i] in Elements(sorted);
      var response := FirstPage(sorted, n, objects);
      FirstPageIsPage(sorted, n, maxKeys, objects);
      calls := calls + [List(prefix, maxKeys, startAfter, token)];
      r := Ok(response);
    }
  }

  lemma ListableInNameOrder(keys: set<string>, prefix: string, start: Option<string>)
    ensures ListableKeys(keys, prefix, start) == set k | k in keys && prefix <= k && IsAfter(k, start)
  {
    forall k | start.Some?
      ensures KeyBefore(start.value, k) <==> Before(start.value, k)
    {
      KeyOrderIsNameOrder(start.value, k);
    }
  }

  function FirstPage(sorted: seq<string>, n: nat, objects: map<string, Object>): ListResponse
    requires n <= |sorted| && (n == 0 ==> |sorted| == 0)
    requires forall i :: 0 <= i < |sorted| ==> sorted[i] in objects
  {
    ListResponse(seq(n, i requires 0 <= i < n => Item(sorted[i], objects[sorted[i]].modified)), n < |sorted|,
                 if n < |sorted| then Some(Token(sorted[n - 1])) else None)
  }

  lemma FirstPageIsPage(sorted: seq<string>, n: nat, maxKeys: nat, objects: map<string, Object>)
    requires Sorted(sorted) && n <= |sorted| && n <= maxKeys && (n == 0 ==> |sorted| == 0)
    requires forall i :: 0 <= i < |sorted| ==> sorted[i] in objects
    ensures IsPage(FirstPage(sorted, n, objects), Elements(sorted), maxKeys, objects)
  {
    KeyOrderedIsOrdered(Elements(sorted));
    OrderedIs(sorted);
    assert Keys(FirstPage(sorted, n, objects).contents) == sorted[..n];
  }
}
