/** Counting successful exclusive creations of one name over a whole run. */
module Exclusive {

  /** One step as this name sees it. */
  datatype Change = Created | Removed | Other

  /** Exclusive creation needs the name absent and leaves it present; nothing but a removal takes it away. */
  ghost predicate Consistent(present: seq<bool>, changes: seq<Change>) {
    |present| == |changes| + 1
    && (forall i :: 0 <= i < |changes| && changes[i] == Created ==> !present[i] && present[i + 1])
    && (forall i :: 0 <= i < |changes| && present[i] && !present[i + 1] ==> changes[i] == Removed)
  }

  function Count(changes: seq<Change>, c: Change): nat {
    if |changes| == 0 then 0
    else Count(changes[..|changes| - 1], c) + (if changes[|changes| - 1] == c then 1 else 0)
  }

  /** Between two creations lies a removal: creations exceed removals by at most one, and only while present. */
  lemma {:induction false} CreationsBounded(present: seq<bool>, changes: seq<Change>)
    requires Consistent(present, changes) && !present[0]
    ensures Count(changes, Created) <= Count(changes, Removed) + (if present[|changes|] then 1 else 0)
    decreases |changes|
  {
    if |changes| > 0 {
      var k := |changes| - 1;
      CreationsBounded(present[..k + 1], changes[..k]);
    }
  }

  /** How many have created the name: each creation adds at most one, nothing else adds any. */
  ghost predicate Tracked(winners: seq<nat>, changes: seq<Change>) {
    |winners| == |changes| + 1
    && forall i :: 0 <= i < |changes| ==> winners[i + 1] <= winners[i] + (if changes[i] == Created then 1 else 0)
  }

  lemma {:induction false} WinnersBounded(winners: seq<nat>, changes: seq<Change>)
    requires Tracked(winners, changes) && winners[0] == 0
    ensures winners[|changes|] <= Count(changes, Created)
    decreases |changes|
  {
    if |changes| > 0 {
      var k := |changes| - 1;
      WinnersBounded(winners[..k + 1], changes[..k]);
    }
  }

  lemma SubsetSize(a: set<nat>, b: set<nat>)
    requires a <= b
    ensures |a| <= |b|
  {
    assert b == a + (b - a);
    assert |b| == |a| + |b - a|;
  }
}
