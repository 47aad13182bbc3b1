/** Lexicographic order on integer sequences, the order Python uses for strings and bytes. */
module Lex {

  predicate Less(a: seq<int>, b: seq<int>) {
    if |b| == 0 then false
    else if |a| == 0 then true
    else if a[0] != b[0] then a[0] < b[0]
    else Less(a[1..], b[1..])
  }

  lemma {:induction false} Irreflexive(a: seq<int>)
    ensures !Less(a, a)
  {
    if |a| > 0 { Irreflexive(a[1..]); }
  }

  lemma {:induction false} Transitive(a: seq<int>, b: seq<int>, c: seq<int>)
    requires Less(a, b) && Less(b, c)
    ensures Less(a, c)
  {
    if |a| > 0 && a[0] == b[0] && b[0] == c[0] {
      Transitive(a[1..], b[1..], c[1..]);
    }
  }

  lemma {:induction false} Total(a: seq<int>, b: seq<int>)
    ensures Less(a, b) || a == b || Less(b, a)
  {
    if |a| > 0 && |b| > 0 && a[0] == b[0] {
      Total(a[1..], b[1..]);
      if a[1..] == b[1..] {
        assert a == [a[0]] + a[1..] && b == [b[0]] + b[1..];
      }
    }
  }

  /** A common prefix cancels on both sides. */
  lemma {:induction false} PrefixCancels(p: seq<int>, a: seq<int>, b: seq<int>)
    ensures Less(p + a, p + b) <==> Less(a, b)
  {
    if |p| == 0 {
      assert p + a == a && p + b == b;
    } else {
      assert (p + a)[1..] == p[1..] + a && (p + b)[1..] == p[1..] + b;
      PrefixCancels(p[1..], a, b);
    }
  }

  /** The first position where two sequences differ decides their order. */
  lemma {:induction false} FirstDifference(a: seq<int>, b: seq<int>, k: nat)
    requires k < |a| && k < |b|
    requires forall i :: 0 <= i < k ==> a[i] == b[i]
    requires a[k] < b[k]
    ensures Less(a, b)
  {
    if k > 0 {
      assert a[0] == b[0];
      FirstDifference(a[1..], b[1..], k - 1);
    }
  }
}
