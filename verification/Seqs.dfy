/** Insertion into and removal from sequences, the size of a subset and the smaller of two numbers. */
module Seqs {

  /** The sequence with `a` put in before place `k`. */
  function InsertAt<T>(s: seq<T>, k: nat, a: T): (r: seq<T>)
    requires k <= |s|
    ensures |r| == |s| + 1
    ensures forall j {:trigger r[j]} :: 0 <= j < |r| ==> r[j] == if j < k then s[j] else if j == k then a else s[j - 1]
  {
    s[..k] + [a] + s[k..]
  }

  /** The sequence without its element `k`. */
  function RemoveAt<T>(s: seq<T>, k: nat): (r: seq<T>)
    requires k < |s|
    ensures |r| == |s| - 1
    ensures forall j {:trigger r[j]} :: 0 <= j < |r| ==> r[j] == if j < k then s[j] else s[j + 1]
  {
    s[..k] + s[k + 1..]
  }

  lemma InsertMembers<T>(s: seq<T>, k: nat, a: T)
    requires k <= |s|
    ensures forall x :: x in InsertAt(s, k, a) <==> x in s || x == a
  {
    assert s == s[..k] + s[k..];
  }

  lemma InsertMiddle<T>(s: seq<T>, t: seq<T>, a: T)
    ensures InsertAt(s + t, |s|, a) == s + [a] + t
  {
  }

  lemma RemoveMiddle<T>(s: seq<T>, t: seq<T>, a: T)
    ensures RemoveAt(s + [a] + t, |s|) == s + t
  {
  }

  lemma SubsetSize<T>(a: set<T>, b: set<T>)
    requires a <= b
    ensures |a| <= |b|
  {
    assert b == a + (b - a);
  }

  function Min(a: int, b: int): (m: int) {
    if a < b then a else b
  }
}
