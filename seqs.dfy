/** Sequence helpers shared by the search and the travelling-salesman
    solvers. */
module Seqs {

  /** `s` without its entry at index `i`: the earlier entries stay, the
      later ones shift down by one, and exactly one `s[i]` is gone. */
  function Without<T>(s: seq<T>, i: nat): (r: seq<T>)
    requires i < |s|
    ensures |r| == |s| - 1
    ensures forall j :: 0 <= j < i ==> r[j] == s[j]
    ensures forall j :: i <= j < |r| ==> r[j] == s[j + 1]
    ensures multiset(r) + multiset{s[i]} == multiset(s)
  {
    assert s == s[..i] + [s[i]] + s[i + 1..];
    s[..i] + s[i + 1..]
  }
}
