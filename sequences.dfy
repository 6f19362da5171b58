/** Order and uniqueness facts about sequences, used to state how tag lists
    and issue lists are laid out. */
module Sequences {

  /** `a` is obtained from `b` by deleting elements, keeping the order of the rest. */
  predicate IsSubsequence<T(==)>(a: seq<T>, b: seq<T>)
    decreases |b|
  {
    if a == [] then true
    else if b == [] then false
    else (a[0] == b[0] && IsSubsequence(a[1..], b[1..])) || IsSubsequence(a, b[1..])
  }

  /** No element occurs twice. */
  predicate NoDup<T(==)>(s: seq<T>) {
    forall i, j :: 0 <= i < j < |s| ==> s[i] != s[j]
  }

  /** A subsequence is no longer than the sequence, takes its elements from it,
      and inherits its freedom from duplicates. */
  lemma {:induction false} SubsequenceFacts<T>(a: seq<T>, b: seq<T>)
    requires IsSubsequence(a, b)
    ensures |a| <= |b|
    ensures forall x :: x in a ==> x in b
    ensures NoDup(b) ==> NoDup(a)
    decreases |b|
  {
    if a != [] {
      if a[0] == b[0] && IsSubsequence(a[1..], b[1..]) {
        SubsequenceFacts(a[1..], b[1..]);
        assert a == [a[0]] + a[1..];
        if NoDup(b) {
          assert NoDup(b[1..]);
          assert b[0] !in b[1..];
          assert a[0] !in a[1..];
          forall i, j | 0 <= i < j < |a| ensures a[i] != a[j] {
            if i == 0 {
              assert a[j] in a[1..];
            } else {
              assert a[i] == a[1..][i - 1] && a[j] == a[1..][j - 1];
            }
          }
        }
      } else {
        SubsequenceFacts(a, b[1..]);
        assert NoDup(b) ==> NoDup(b[1..]);
      }
    }
  }
}
