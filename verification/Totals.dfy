/** Sums over a sequence, as a measure of the work a set of concurrent parties has left. */
module Totals {

  function Total<T>(work: T -> int, s: seq<T>): int {
    if s == [] then 0 else Total(work, s[..|s| - 1]) + work(s[|s| - 1])
  }

  /** Changing one party changes the total by that party's difference. */
  lemma {:induction false} TotalChanges<T>(work: T -> int, s: seq<T>, i: nat, x: T)
    requires i < |s|
    ensures Total(work, s[i := x]) == Total(work, s) - work(s[i]) + work(x)
  {
    var front := s[..|s| - 1];
    if i == |s| - 1 {
      assert s[i := x][..|s| - 1] == front;
    } else {
      assert s[i := x][..|s| - 1] == front[i := x];
      TotalChanges(work, front, i, x);
    }
  }

  lemma {:induction false} TotalIsNatural<T>(work: T -> int, s: seq<T>)
    requires forall x :: x in s ==> work(x) >= 0
    ensures Total(work, s) >= 0
  {
    if s != [] {
      TotalIsNatural(work, s[..|s| - 1]);
    }
  }
}
