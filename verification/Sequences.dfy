/** Rearrangements of sequences. */
module Sequences {

  function Without<T>(s: seq<T>, i: nat): (t: seq<T>)
    requires i < |s|
    ensures |t| == |s| - 1
    ensures forall k :: 0 <= k < |t| ==> t[k] == s[if k < i then k else k + 1]
  {
    s[..i] + s[i + 1..]
  }

  lemma WithoutTakesOneOut<T>(s: seq<T>, i: nat)
    requires i < |s|
    ensures multiset(Without(s, i)) == multiset(s) - multiset{s[i]}
  {
    assert s == s[..i] + ([s[i]] + s[i + 1..]);
    assert multiset(s) == multiset(s[..i]) + (multiset{s[i]} + multiset(s[i + 1..]));
  }

  /** Where a rearrangement's other elements came from. */
  lemma CounterpartOf<T>(a: seq<T>, i: nat, b: seq<T>, j: nat, k: nat) returns (l: nat)
    requires multiset(a) == multiset(b) && i < |a| && j < |b| && k < |b| && j != k && a[i] == b[j]
    ensures l < |a| && l != i && a[l] == b[k]
  {
    WithoutTakesOneOut(a, i);
    WithoutTakesOneOut(b, j);
    var rest, others := Without(a, i), Without(b, j);
    assert others[if k < j then k else k - 1] == b[k];
    assert b[k] in multiset(others);
    assert b[k] in multiset(rest);
    var m :| 0 <= m < |rest| && rest[m] == b[k];
    l := if m < i then m else m + 1;
  }
}
