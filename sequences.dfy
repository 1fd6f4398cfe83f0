/** Facts about strictly increasing sequences of positions, shared by both components. */
module Sequences {

  predicate Increasing(x: seq<nat>)
  {
    forall i, j :: 0 <= i < j < |x| ==> x[i] < x[j]
  }

  /** A sequence with no members is empty. */
  lemma NoMemberEmpty(x: seq<nat>)
    requires forall k: nat :: k !in x
    ensures x == []
  {
    var k: nat := if x == [] then 0 else x[0];
    assert x != [] ==> k in x;
  }

  /** Prepending a value below every element keeps a sequence increasing. */
  lemma IncreasingCons(a: nat, x: seq<nat>)
    requires Increasing(x)
    requires forall k :: k in x ==> a < k
    ensures Increasing([a] + x)
  {
    forall i, j | 0 <= i < j < |x| + 1 ensures ([a] + x)[i] < ([a] + x)[j] {
      assert x[j - 1] in x;
    }
  }

  /** Two strictly increasing sequences with the same elements are equal. */
  lemma {:induction false} IncreasingSameElements(x: seq<nat>, y: seq<nat>)
    requires Increasing(x) && Increasing(y)
    requires forall k :: k in x <==> k in y
    ensures x == y
    decreases |x|
  {
    if x == [] {
      NoMemberEmpty(y);
    } else {
      assert x[0] in y;
      var i :| 0 <= i < |y| && y[i] == x[0];
      assert y[0] in x;
      var j :| 0 <= j < |x| && x[j] == y[0];
      assert x[0] <= x[j] && y[0] <= y[i];
      assert x[0] == y[0];
      forall k ensures k in x[1..] <==> k in y[1..] {
        TailMembers(x, k);
        TailMembers(y, k);
      }
      IncreasingSameElements(x[1..], y[1..]);
      assert x == [x[0]] + x[1..];
      assert y == [y[0]] + y[1..];
    }
  }

  /** In a strictly increasing sequence, the tail holds exactly the elements other than the head. */
  lemma TailMembers(x: seq<nat>, k: nat)
    requires Increasing(x) && x != []
    ensures k in x[1..] <==> k in x && k != x[0]
  {
    if k in x[1..] {
      var m :| 0 <= m < |x| - 1 && x[1..][m] == k;
      assert x[m + 1] == k;
    }
    if k in x && k != x[0] {
      var m :| 0 <= m < |x| && x[m] == k;
      assert x[1..][m - 1] == k;
    }
  }

  /** An element occurs at most once in a strictly increasing sequence. */
  lemma {:induction false} IncreasingOccursOnce(x: seq<nat>, k: nat)
    requires Increasing(x)
    ensures multiset(x)[k] == if k in x then 1 else 0
    decreases |x|
  {
    if x != [] {
      IncreasingOccursOnce(x[1..], k);
      assert x == [x[0]] + x[1..];
      assert x[0] !in x[1..];
    }
  }
}
