/**
 * The Fisher-Yates shuffle of the answer list. The random choices are an
 * input: `picks[k]` is the index drawn on the k-th pass of the loop.
 */
module Shuffle {

  /** Pass k draws an index below the `n - k` elements still to shuffle. */
  predicate ValidPicks(n: nat, picks: seq<nat>)
  {
    |picks| == n && forall k :: 0 <= k < n ==> picks[k] < n - k
  }

  /** `s` with the elements at `i` and `j` exchanged. */
  function Swap<T>(s: seq<T>, i: nat, j: nat): (r: seq<T>)
    requires i < |s| && j < |s|
    ensures |r| == |s| && r[i] == s[j] && r[j] == s[i]
    ensures forall m :: 0 <= m < |s| && m != i && m != j ==> r[m] == s[m]
  {
    s[i := s[j]][j := s[i]]
  }

  /** The contents after `k` passes of the loop. */
  function ShuffledAfter<T>(s: seq<T>, picks: seq<nat>, k: nat): (r: seq<T>)
    requires ValidPicks(|s|, picks) && k <= |s|
    ensures |r| == |s|
  {
    if k == 0 then s else Swap(ShuffledAfter(s, picks, k - 1), |s| - k, picks[k - 1])
  }

  /** The contents once every position has been shuffled. */
  function Shuffled<T>(s: seq<T>, picks: seq<nat>): seq<T>
    requires ValidPicks(|s|, picks)
  {
    ShuffledAfter(s, picks, |s|)
  }

  /** Exchanging two elements keeps the same elements. */
  lemma SwapPermutes<T>(s: seq<T>, i: nat, j: nat)
    requires i < |s| && j < |s|
    ensures multiset(Swap(s, i, j)) == multiset(s)
  {
    if i != j {
      var r := Swap(s, i, j);
      assert r == s[i := s[j]][j := s[i]];
    }
  }

  /**
   * shuffle: walks `currentIndex` down from the length, swapping the last
   * unshuffled element with the drawn one; returns the same array.
   */
  method Shuffle<T>(a: array<T>, picks: seq<nat>) returns (r: array<T>)
    requires ValidPicks(a.Length, picks)
    modifies a
    ensures r == a
    ensures a[..] == Shuffled(old(a[..]), picks)
    ensures multiset(a[..]) == multiset(old(a[..]))
  {
    var currentIndex := a.Length;
    while currentIndex != 0
      invariant 0 <= currentIndex <= a.Length
      invariant a[..] == ShuffledAfter(old(a[..]), picks, a.Length - currentIndex)
      invariant multiset(a[..]) == multiset(old(a[..]))
    {
      var randomIndex := picks[a.Length - currentIndex];
      currentIndex := currentIndex - 1;
      SwapElements(a, currentIndex, randomIndex);
    }
    r := a;
  }

  /** Exchanges two elements of the array through a temporary. */
  method SwapElements<T>(a: array<T>, i: nat, j: nat)
    requires i < a.Length && j < a.Length
    modifies a
    ensures a[..] == Swap(old(a[..]), i, j)
    ensures multiset(a[..]) == multiset(old(a[..]))
  {
    var tmp := a[i];
    a[i] := a[j];
    a[j] := tmp;
    SwapPermutes(old(a[..]), i, j);
  }
}
