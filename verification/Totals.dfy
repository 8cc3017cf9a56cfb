/** Sums of natural-number weights over a sequence, and how they react to a point update. */
module Totals {

  function Total<T>(s: seq<T>, weight: T -> nat): nat {
    if s == [] then 0 else weight(s[0]) + Total(s[1..], weight)
  }

  /** Replacing one element exchanges its weight and leaves the rest of the sum alone. */
  lemma {:induction false} TotalUpdate<T>(s: seq<T>, i: nat, x: T, weight: T -> nat)
    requires i < |s|
    ensures Total(s[i := x], weight) + weight(s[i]) == Total(s, weight) + weight(x)
  {
    if i == 0 {
      assert s[i := x][1..] == s[1..];
    } else {
      assert s[i := x][1..] == s[1..][i - 1 := x];
      TotalUpdate(s[1..], i - 1, x, weight);
    }
  }

  /** A sum in which every element weighs the same. */
  lemma {:induction false} TotalConstant<T>(s: seq<T>, weight: T -> nat, k: nat)
    requires forall i :: 0 <= i < |s| ==> weight(s[i]) == k
    ensures Total(s, weight) == |s| * k
  {
    if s != [] {
      TotalConstant(s[1..], weight, k);
    }
  }

  /** A sum of weights of at most one is at most the length, and strictly below it if some element weighs nothing. */
  lemma {:induction false} TotalAtMostLength<T>(s: seq<T>, weight: T -> nat)
    requires forall i :: 0 <= i < |s| ==> weight(s[i]) <= 1
    ensures Total(s, weight) <= |s|
    ensures (exists i :: 0 <= i < |s| && weight(s[i]) == 0) ==> Total(s, weight) < |s|
  {
    if s != [] {
      TotalAtMostLength(s[1..], weight);
      if i :| 0 <= i < |s| && weight(s[i]) == 0 {
        if i > 0 {
          assert s[1..][i - 1] == s[i];
        }
      }
    }
  }

  /** One element's weight never exceeds the sum. */
  lemma {:induction false} TotalCovers<T>(s: seq<T>, i: nat, weight: T -> nat)
    requires i < |s|
    ensures weight(s[i]) <= Total(s, weight)
  {
    if i > 0 {
      TotalCovers(s[1..], i - 1, weight);
    }
  }
}
