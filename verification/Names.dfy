/** Name order, ordered listings of a set of names, and the page both backends should return. */
module Names {
  import opened Common
  import Lex
  import Utf8

  /** Python's `s < t` on strings: code-point order. */
  predicate Before(s: string, t: string) {
    Lex.Less(Utf8.Codes(s), Utf8.Codes(t))
  }

  /** The order S3 lists keys in: byte order of their UTF-8 encodings. */
  predicate KeyBefore(s: string, t: string) {
    Lex.Less(Utf8.Encode(s), Utf8.Encode(t))
  }

  lemma KeyOrderIsNameOrder(s: string, t: string)
    ensures KeyBefore(s, t) <==> Before(s, t)
  {
    Utf8.OrderPreserved(s, t);
  }

  lemma BeforeIrreflexive(s: string)
    ensures !Before(s, s)
  {
    Lex.Irreflexive(Utf8.Codes(s));
  }

  lemma BeforeTransitive(s: string, t: string, u: string)
    requires Before(s, t) && Before(t, u)
    ensures Before(s, u)
  {
    Lex.Transitive(Utf8.Codes(s), Utf8.Codes(t), Utf8.Codes(u));
  }

  lemma BeforeTotal(s: string, t: string)
    ensures Before(s, t) || s == t || Before(t, s)
    ensures !(Before(s, t) && Before(t, s))
  {
    var a, b := Utf8.Codes(s), Utf8.Codes(t);
    Lex.Total(a, b);
    if a == b {
      forall i | 0 <= i < |s| ensures s[i] == t[i] {
        assert a[i] == b[i];
      }
    }
    if Before(s, t) && Before(t, s) {
      BeforeTransitive(s, t, s);
      BeforeIrreflexive(s);
    }
  }

  lemma PrefixCancels(p: string, s: string, t: string)
    ensures Before(p + s, p + t) <==> Before(s, t)
  {
    assert Utf8.Codes(p + s) == Utf8.Codes(p) + Utf8.Codes(s);
    assert Utf8.Codes(p + t) == Utf8.Codes(p) + Utf8.Codes(t);
    Lex.PrefixCancels(Utf8.Codes(p), Utf8.Codes(s), Utf8.Codes(t));
  }

  /** Strictly increasing: in order and without repeats. */
  ghost predicate Sorted(l: seq<string>) {
    forall i, j :: 0 <= i < j < |l| ==> Before(l[i], l[j])
  }

  function Insert(x: string, l: seq<string>): seq<string> {
    if |l| > 0 && Before(l[0], x) then [l[0]] + Insert(x, l[1..]) else [x] + l
  }

  lemma {:induction false} InsertElements(x: string, l: seq<string>)
    ensures Elements(Insert(x, l)) == Elements(l) + {x}
  {
    if |l| > 0 && Before(l[0], x) {
      InsertElements(x, l[1..]);
      var m := Insert(x, l[1..]);
      assert Elements([l[0]] + m) == {l[0]} + Elements(m);
      assert Elements(l) == {l[0]} + Elements(l[1..]);
    } else {
      assert Elements([x] + l) == {x} + Elements(l);
    }
  }

  lemma SortedCons(x: string, l: seq<string>)
    requires Sorted(l) && forall y :: y in l ==> Before(x, y)
    ensures Sorted([x] + l)
  {
    var m := [x] + l;
    forall i, j | 0 <= i < j < |m|
      ensures Before(m[i], m[j])
    {
      if i == 0 { assert m[j] in l; } else { assert m[i] == l[i - 1] && m[j] == l[j - 1]; }
    }
  }

  lemma {:induction false} InsertSorted(x: string, l: seq<string>)
    requires Sorted(l) && x !in l
    ensures Sorted(Insert(x, l))
  {
    if |l| > 0 && Before(l[0], x) {
      InsertSorted(x, l[1..]);
      InsertElements(x, l[1..]);
      var m := Insert(x, l[1..]);
      forall y | y in m
        ensures Before(l[0], y)
      {
        assert y in Elements(m);
        if y != x {
          assert y in l[1..];
          var i :| 0 <= i < |l[1..]| && l[1..][i] == y;
          assert l[i + 1] == y;
        }
      }
      SortedCons(l[0], m);
    } else {
      forall y | y in l
        ensures Before(x, y)
      {
        var i :| 0 <= i < |l| && l[i] == y;
        BeforeTotal(l[0], x);
        if i > 0 { BeforeTransitive(x, l[0], l[i]); }
      }
      SortedCons(x, l);
    }
  }

  lemma {:induction false} SortedUnique(l: seq<string>, m: seq<string>)
    requires Sorted(l) && Sorted(m) && Elements(l) == Elements(m)
    ensures l == m
  {
    if l == [] {
      assert forall i :: 0 <= i < |m| ==> m[i] in Elements(m);
    } else {
      assert l[0] in Elements(l);
      var i :| 0 <= i < |m| && m[i] == l[0];
      assert m[0] in Elements(m);
      var j :| 0 <= j < |l| && l[j] == m[0];
      if i > 0 && j > 0 { BeforeTotal(l[0], m[0]); }
      assert l[0] == m[0];
      TailElements(l);
      TailElements(m);
      SortedUnique(l[1..], m[1..]);
      assert l == [l[0]] + l[1..] && m == [m[0]] + m[1..];
    }
  }

  lemma TailElements(l: seq<string>)
    requires Sorted(l) && |l| > 0
    ensures Sorted(l[1..]) && Elements(l[1..]) == Elements(l) - {l[0]}
  {
    BeforeIrreflexive(l[0]);
    forall x | x in Elements(l) && x != l[0]
      ensures x in l[1..]
    {
      var i :| 0 <= i < |l| && l[i] == x;
      assert l[1..][i - 1] == x;
    }
  }

  lemma {:induction false} SortedExists(names: set<string>) returns (l: seq<string>)
    ensures Sorted(l) && Elements(l) == names
    decreases |names|
  {
    if names == {} {
      l := [];
    } else {
      var x :| x in names;
      l := SortedExists(names - {x});
      assert x !in Elements(l);
      InsertSorted(x, l);
      InsertElements(x, l);
      l := Insert(x, l);
    }
  }

  /** The one strictly increasing sequence with exactly these names. */
  ghost function Ordered(names: set<string>): (l: seq<string>)
    ensures Sorted(l) && Elements(l) == names
  {
    assert exists m :: Sorted(m) && Elements(m) == names by {
      var m := SortedExists(names);
    }
    var m :| Sorted(m) && Elements(m) == names;
    m
  }

  lemma OrderedIs(l: seq<string>)
    requires Sorted(l)
    ensures Ordered(Elements(l)) == l
  {
    SortedUnique(l, Ordered(Elements(l)));
  }

  lemma OrderedLength(names: set<string>)
    ensures |Ordered(names)| == |names|
  {
    SortedLength(Ordered(names));
  }

  lemma {:induction false} SortedLength(l: seq<string>)
    requires Sorted(l)
    ensures |Elements(l)| == |l|
  {
    if |l| > 0 {
      TailElements(l);
      SortedLength(l[1..]);
      assert l[0] in Elements(l);
      assert |Elements(l) - {l[0]}| == |Elements(l)| - 1;
    }
  }

  method SortNames(names: set<string>) returns (l: seq<string>)
    ensures Sorted(l) && Elements(l) == names
  {
    l := [];
    var rest := names;
    while rest != {}
      invariant rest <= names && Sorted(l) && Elements(l) == names - rest
      decreases |rest|
    {
      var x :| x in rest;
      assert x !in Elements(l);
      InsertSorted(x, l);
      InsertElements(x, l);
      l := Insert(x, l);
      rest := rest - {x};
    }
  }

  /** Sorting a directory's entries, as `sorted(files, key=...)`. */
  function InsertionSort(l: seq<string>): seq<string> {
    if |l| == 0 then [] else Insert(l[0], InsertionSort(l[1..]))
  }

  ghost predicate Distinct(l: seq<string>) {
    forall i, j :: 0 <= i < j < |l| ==> l[i] != l[j]
  }

  /** However the entries were enumerated, sorting them gives the ordered listing of their set. */
  lemma {:induction false} InsertionSortIsOrdered(l: seq<string>)
    requires Distinct(l)
    ensures InsertionSort(l) == Ordered(Elements(l))
  {
    if |l| == 0 {
      OrderedIs([]);
      assert Elements(l) == Elements<string>([]);
    } else {
      InsertionSortIsOrdered(l[1..]);
      var m := InsertionSort(l[1..]);
      assert l[0] !in Elements(m) by { assert l[0] !in l[1..]; }
      InsertSorted(l[0], m);
      InsertElements(l[0], m);
      assert Elements(l) == Elements(l[1..]) + {l[0]};
      OrderedIs(InsertionSort(l));
    }
  }

  /** Is `name` strictly after the position a cursor marks? */
  predicate IsAfter(name: string, after: Option<string>) {
    after.None? || Before(after.value, name)
  }

  ghost function AfterSet(names: set<string>, after: Option<string>): set<string> {
    set n | n in names && IsAfter(n, after)
  }

  datatype Page = Page(names: seq<string>, hasMore: bool)

  /** The reference page: the first `limit` names after the mark, and whether any are left. */
  ghost function SpecPage(names: set<string>, limit: nat, after: Option<string>): Page {
    var rest := Ordered(AfterSet(names, after));
    Page(Take(rest, limit), |rest| > limit)
  }

  /** The names after a mark are a suffix of the listing. */
  lemma AfterIsSuffix(l: seq<string>, after: Option<string>, k: nat)
    requires Sorted(l) && k <= |l|
    requires forall i :: 0 <= i < k ==> !IsAfter(l[i], after)
    requires forall i :: k <= i < |l| ==> IsAfter(l[i], after)
    ensures Ordered(AfterSet(Elements(l), after)) == l[k..]
  {
    var s := AfterSet(Elements(l), after);
    forall x
      ensures x in s <==> x in l[k..]
    {
      if x in s {
        var i :| 0 <= i < |l| && l[i] == x;
        assert i >= k && l[k..][i - k] == x;
      }
      if x in l[k..] {
        var i :| 0 <= i < |l[k..]| && l[k..][i] == x;
        assert l[i + k] == x;
      }
    }
    assert s == Elements(l[k..]);
    OrderedIs(l[k..]);
  }

  lemma SortedConcat(l: seq<string>, m: seq<string>)
    requires Sorted(l) && Sorted(m)
    requires |l| > 0 ==> forall n :: n in m ==> Before(l[|l| - 1], n)
    ensures Sorted(l + m)
  {
    var c := l + m;
    forall i, j | 0 <= i < j < |c|
      ensures Before(c[i], c[j])
    {
      if i < |l| && j >= |l| {
        assert c[j] in m;
        if i < |l| - 1 { BeforeTransitive(l[i], l[|l| - 1], c[j]); }
      } else if i >= |l| {
        assert c[i] == m[i - |l|] && c[j] == m[j - |l|];
      }
    }
  }

  /** A mark on one of the names splits the listing right behind it. */
  lemma MarkSplits(l: seq<string>, k: nat)
    requires Sorted(l) && 0 < k <= |l|
    ensures Ordered(AfterSet(Elements(l), Some(l[k - 1]))) == l[k..]
  {
    var mark := Some(l[k - 1]);
    forall j | 0 <= j < k
      ensures !IsAfter(l[j], mark)
    {
      BeforeIrreflexive(l[j]);
      BeforeTotal(l[j], l[k - 1]);
    }
    AfterIsSuffix(l, mark, k);
  }
}
