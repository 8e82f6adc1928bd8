/** Facts about sequences that several permutation proofs share. */
module Sequences {

  /** A sequence is its part before position `j`, the element there, and the rest. */
  lemma SplitAt<T>(b: seq<T>, j: int)
    requires 0 <= j < |b|
    ensures b == (b[..j] + [b[j]]) + b[j + 1..]
  {
  }

  /** Dropping the element at position `j` removes exactly one copy of it. */
  lemma MultisetRemove<T>(b: seq<T>, j: int)
    requires 0 <= j < |b|
    ensures multiset(b[..j] + b[j + 1..]) == multiset(b) - multiset{b[j]}
  {
    assert b == b[..j] + [b[j]] + b[j + 1..];
    assert multiset(b) == multiset(b[..j]) + multiset{b[j]} + multiset(b[j + 1..]);
  }

  /** For two permutations of each other, the last element of `a` sits at some position
      `j` of `b`, and what remains of each is again a permutation. */
  lemma MatchLast<T>(a: seq<T>, b: seq<T>) returns (j: int)
    requires multiset(a) == multiset(b)
    requires |a| > 0
    ensures 0 <= j < |b| && b[j] == a[|a| - 1]
    ensures multiset(a[..|a| - 1]) == multiset(b[..j] + b[j + 1..])
  {
    var x := a[|a| - 1];
    assert x in multiset(b);
    j :| 0 <= j < |b| && b[j] == x;
    MultisetRemove(b, j);
    var rest := a[..|a| - 1];
    assert a == rest + [x];
    assert multiset(a) == multiset(rest) + multiset{x};
  }
}
