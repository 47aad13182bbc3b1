/** What a sequence of listing pages adds up to, whichever way the server cuts them. */
module S3Listing {
  import opened Common
  import opened Names
  import opened S3Keys
  import opened S3Service

  /** The keys that pass a test, in the same order. */
  function Filter(keys: seq<string>, test: string -> bool): seq<string> {
    if |keys| == 0 then []
    else
      var init, last := Filter(keys[..|keys| - 1], test), keys[|keys| - 1];
      if test(last) then init + [last] else init
  }

  lemma FilterAppend(keys: seq<string>, key: string, test: string -> bool)
    ensures Filter(keys + [key], test) == Filter(keys, test) + (if test(key) then [key] else [])
  {
    assert (keys + [key])[..|keys|] == keys;
  }

  lemma {:induction false} FilterElements(keys: seq<string>, test: string -> bool)
    ensures forall k :: k in Filter(keys, test) <==> k in keys && test(k)
  {
    if |keys| > 0 {
      FilterElements(keys[..|keys| - 1], test);
      assert forall k :: k in keys <==> k in keys[..|keys| - 1] || k == keys[|keys| - 1];
    }
  }

  lemma {:induction false} FilterSorted(keys: seq<string>, test: string -> bool)
    requires Sorted(keys)
    ensures Sorted(Filter(keys, test))
  {
    if |keys| > 0 {
      var init, last := keys[..|keys| - 1], keys[|keys| - 1];
      FilterSorted(init, test);
      FilterElements(init, test);
      var d := Filter(init, test);
      forall i | 0 <= i < |d|
        ensures Before(d[i], last)
      {
        assert d[i] in d;
        var j :| 0 <= j < |init| && init[j] == d[i];
        assert keys[j] == d[i];
      }
    }
  }

  lemma {:induction false} FilterPrefix(keys: seq<string>, n: nat, test: string -> bool)
    requires n <= |keys|
    ensures Filter(keys[..n], test) <= Filter(keys, test)
  {
    if n == |keys| {
      assert keys[..n] == keys;
    } else {
      var init := keys[..|keys| - 1];
      FilterPrefix(init, n, test);
      assert init[..n] == keys[..n];
    }
  }

  /** The test that keeps a folder's direct children. */
  function Direct(prefix: string): string -> bool {
    key => IsDirect(key, prefix)
  }

  /** The test that keeps objects last modified before the cutoff. */
  function Expired(objects: map<string, Object>, cutoff: real): string -> bool {
    key => key in objects && objects[key].modified.Some? && objects[key].modified.value < cutoff
  }

  /** The keys after a token are those after it among the keys the listing started with. */
  lemma ResumeAfter(keys: set<string>, prefix: string, start: Option<string>, last: string)
    requires last in ListableKeys(keys, prefix, start)
    ensures ListableKeys(keys, prefix, Some(last)) == AfterSet(ListableKeys(keys, prefix, start), Some(last))
  {
    ListableInNameOrder(keys, prefix, start);
    ListableInNameOrder(keys, prefix, Some(last));
    forall k | start.Some? && Before(last, k)
      ensures Before(start.value, k)
    {
      BeforeTransitive(start.value, last, k);
    }
  }

  /** A listing that has returned the first `i` of all keys advances by one page, to the end or to a resuming token. */
  lemma Advance(keys: set<string>, prefix: string, start: Option<string>, from: Option<string>, i: nat,
                r: ListResponse, maxKeys: nat, objects: map<string, Object>)
    requires var all := Ordered(ListableKeys(keys, prefix, start));
             i <= |all| && Ordered(ListableKeys(keys, prefix, from)) == all[i..]
    requires IsPage(r, ListableKeys(keys, prefix, from), maxKeys, objects)
    ensures var all, n := Ordered(ListableKeys(keys, prefix, start)), i + |r.contents|;
            n <= |all| && Recorded(r.contents, objects) && Keys(r.contents) == all[i..n]
            && all[..i] + Keys(r.contents) == all[..n]
            && (r.isTruncated <==> n < |all|)
            && (r.isTruncated ==>
                  n > i && r.next == Some(Token(all[n - 1]))
                  && Ordered(ListableKeys(keys, prefix, Some(all[n - 1]))) == all[n..])
  {
    var all, n := Ordered(ListableKeys(keys, prefix, start)), i + |r.contents|;
    KeyOrderedIsOrdered(ListableKeys(keys, prefix, from));
    assert all[i..][..n - i] == all[i..n];
    if r.isTruncated {
      assert all[i..][n - i - 1] == all[n - 1];
      assert all[n - 1] in Elements(all);
      ResumeAfter(keys, prefix, start, all[n - 1]);
      MarkSplits(all, n);
    }
  }

  /** The part of every key behind the prefix. */
  function Relative(keys: seq<string>, prefix: string): (names: seq<string>)
    requires forall k :: k in keys ==> prefix <= k
    ensures |names| == |keys|
  {
    seq(|keys|, i requires 0 <= i < |keys| => assert keys[i] in keys; keys[i][|prefix|..])
  }

  /** `StartAfter` behind a cursor name: the prefix cancels, so the listing continues after that name. */
  function StartKey(prefix: string, after: Option<string>): Option<string> {
    if after.Some? then Some(prefix + after.value) else None
  }

  /** Listing keys in byte order and dropping the prefix lists the folder's names in name order. */
  lemma KeysListNames(keys: set<string>, prefix: string, after: Option<string>)
    ensures var found := Filter(Ordered(ListableKeys(keys, prefix, StartKey(prefix, after))), Direct(prefix));
            (forall k :: k in found ==> prefix <= k)
            && Relative(found, prefix) == Ordered(AfterSet(Children(keys, prefix), after))
  {
    var start := StartKey(prefix, after);
    var all := Ordered(ListableKeys(keys, prefix, start));
    var found := Filter(all, Direct(prefix));
    FilterElements(all, Direct(prefix));
    FilterSorted(all, Direct(prefix));
    RelativeSorted(found, prefix);
    ListableInNameOrder(keys, prefix, start);
    var names := Relative(found, prefix);
    var expected := AfterSet(Children(keys, prefix), after);
    forall n
      ensures n in names <==> n in expected
    {
      var k := prefix + n;
      assert k[|prefix|..] == n && k[..|prefix|] == prefix;
      ChildOfKey(keys, prefix, n);
      if after.Some? { PrefixCancels(prefix, after.value, n); }
      assert n in expected <==> k in Elements(all) && IsDirect(k, prefix);
      if n in names {
        var i :| 0 <= i < |names| && names[i] == n;
        assert found[i] in found && found[i] == k;
      }
      if k in found {
        var i :| 0 <= i < |found| && found[i] == k;
        assert names[i] == n;
      }
    }
    assert Elements(names) == expected;
    OrderedIs(names);
  }

  lemma RelativeSorted(keys: seq<string>, prefix: string)
    requires Sorted(keys) && forall k :: k in keys ==> prefix <= k
    ensures Sorted(Relative(keys, prefix))
  {
    var names := Relative(keys, prefix);
    forall i, j | 0 <= i < j < |names|
      ensures Before(names[i], names[j])
    {
      assert keys[i] in keys && keys[j] in keys;
      assert keys[i] == prefix + names[i] && keys[j] == prefix + names[j];
      PrefixCancels(prefix, names[i], names[j]);
    }
  }
}
