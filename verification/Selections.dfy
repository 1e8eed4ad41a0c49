/** Which elements of a sequence were taken, and that they kept their order. */
module Selections {

  predicate Increasing(at: seq<nat>) {
    forall i, j | 0 <= i < j < |at| :: at[i] < at[j]
  }

  /** The positions of all chosen elements, in order. */
  ghost predicate Selects<T>(at: seq<nat>, s: seq<T>, chosen: T -> bool) {
    && Increasing(at)
    && (forall k | 0 <= k < |at| :: at[k] < |s| && chosen(s[at[k]]))
    && (forall i: nat | i < |s| && chosen(s[i]) :: i in at)
  }

  lemma SelectsMore<T>(at: seq<nat>, s: seq<T>, x: T, chosen: T -> bool)
    requires Selects(at, s, chosen)
    ensures Selects(if chosen(x) then at + [|s|] else at, s + [x], chosen)
  {
    var at' := if chosen(x) then at + [|s|] else at;
    StillIncreasing(at, |s|);
    assert forall k | 0 <= k < |at| :: (s + [x])[at[k]] == s[at[k]];
    forall i: nat | i < |s + [x]| && chosen((s + [x])[i])
      ensures i in at'
    {
      if i == |s| {
        assert at'[|at|] == i;
      } else {
        assert (s + [x])[i] == s[i];
        var k :| 0 <= k < |at| && at[k] == i;
        assert at'[k] == i;
      }
    }
  }

  lemma StillIncreasing(at: seq<nat>, n: nat)
    requires Increasing(at) && forall k | 0 <= k < |at| :: at[k] < n
    ensures Increasing(at + [n])
  {
  }

  /** There is only one such sequence of positions, so whatever is taken in this way is determined. */
  lemma {:induction false} SelectionIsUnique<T>(at1: seq<nat>, at2: seq<nat>, s: seq<T>, chosen: T -> bool)
    requires Selects(at1, s, chosen) && Selects(at2, s, chosen)
    ensures at1 == at2
    decreases |s|
  {
    if s == [] {
      NothingSelected(at1, s, chosen);
      NothingSelected(at2, s, chosen);
    } else {
      var n := |s| - 1;
      var front1 := SelectionFront(at1, s, chosen);
      var front2 := SelectionFront(at2, s, chosen);
      SelectionIsUnique(front1, front2, s[..n], chosen);
    }
  }

  lemma SelectionFront<T>(at: seq<nat>, s: seq<T>, chosen: T -> bool) returns (front: seq<nat>)
    requires Selects(at, s, chosen) && s != []
    ensures Selects(front, s[..|s| - 1], chosen)
    ensures at == if chosen(s[|s| - 1]) then front + [|s| - 1] else front
  {
    var n := |s| - 1;
    if chosen(s[n]) {
      var k :| 0 <= k < |at| && at[k] == n;
      assert at[|at| - 1] <= n && k == |at| - 1;
      front := at[..k];
    } else {
      front := at;
    }
    forall i: nat | i < n && chosen(s[..n][i])
      ensures i in front
    {
      assert s[..n][i] == s[i];
      var k :| 0 <= k < |at| && at[k] == i;
      assert k < |front| && front[k] == i;
    }
  }

  lemma SomethingSelected<T>(at: seq<nat>, s: seq<T>, chosen: T -> bool)
    requires Selects(at, s, chosen) && at != []
    ensures exists i :: 0 <= i < |s| && chosen(s[i])
  {
    assert chosen(s[at[0]]);
  }

  /** Where nothing is chosen nothing is selected. */
  lemma NothingSelected<T>(at: seq<nat>, s: seq<T>, chosen: T -> bool)
    requires Selects(at, s, chosen) && forall i | 0 <= i < |s| :: !chosen(s[i])
    ensures at == []
  {
    if at != [] {
      SomethingSelected(at, s, chosen);
    }
  }
}
