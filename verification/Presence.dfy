/** When a name is there, told by the events that install and remove it. */
module Presence {

  /** Present after a step: installed by it, or present before and not removed by it. */
  ghost predicate Tracks(present: seq<bool>, installed: seq<bool>, removed: seq<bool>) {
    |present| == |installed| + 1 && |removed| == |installed|
    && forall k :: 0 <= k < |installed| ==> (present[k + 1] <==> installed[k] || (present[k] && !removed[k]))
  }

  ghost predicate NoneIn(marks: seq<bool>, a: nat, b: nat)
    requires b <= |marks|
  {
    forall l :: a <= l < b ==> !marks[l]
  }

  /** Present at `j`: some installation since `i` was not undone, or present at `i` and never removed. */
  lemma {:induction false} PresentIff(present: seq<bool>, installed: seq<bool>, removed: seq<bool>, i: nat, j: nat)
    requires Tracks(present, installed, removed) && i <= j <= |installed|
    ensures present[j] <==>
            (exists k :: i <= k < j && installed[k] && NoneIn(removed, k + 1, j))
            || (present[i] && NoneIn(removed, i, j))
    decreases j
  {
    if i < j {
      PresentIff(present, installed, removed, i, j - 1);
      if installed[j - 1] {
        assert NoneIn(removed, j, j);
      } else {
        forall a | i <= a <= j - 1
          ensures NoneIn(removed, a, j) <==> NoneIn(removed, a, j - 1) && !removed[j - 1]
        {
        }
      }
    }
  }

  /** The last mark before `j`, if there is one. */
  lemma {:induction false} LastMark(marks: seq<bool>, j: nat) returns (k: nat)
    requires j <= |marks| && exists m :: 0 <= m < j && marks[m]
    ensures k < j && marks[k] && NoneIn(marks, k + 1, j)
    decreases j
  {
    if marks[j - 1] {
      k := j - 1;
    } else {
      k := LastMark(marks, j - 1);
    }
  }
}
