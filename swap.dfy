/**
 * The swap transaction: the identifiers held by two cells are exchanged while
 * the cells themselves stay where they are, so a slot index names a cell.
 */
module Swap {

  /** The sequence with the entries at slots i and j exchanged. */
  function SwapAt<T>(s: seq<T>, i: nat, j: nat): (r: seq<T>)
    requires i < |s| && j < |s|
    ensures |r| == |s|
    ensures r[i] == s[j] && r[j] == s[i]
    ensures forall k :: 0 <= k < |s| && k != i && k != j ==> r[k] == s[k]
  {
    s[i := s[j]][j := s[i]]
  }

  /** A swap neither invents nor discards an identifier. */
  lemma SwapAtPermutes<T>(s: seq<T>, i: nat, j: nat)
    requires i < |s| && j < |s|
    ensures multiset(SwapAt(s, i, j)) == multiset(s)
  {
    var t := s[i := s[j]];
    assert multiset(t) == multiset(s) - multiset{s[i]} + multiset{s[j]};
    assert t[j] == (if i == j then s[j] else s[j]);
    assert multiset(t[j := s[i]]) == multiset(t) - multiset{t[j]} + multiset{s[i]};
  }

  /** Swapping the same two slots again restores the grid. */
  lemma SwapAtInvolution<T>(s: seq<T>, i: nat, j: nat)
    requires i < |s| && j < |s|
    ensures SwapAt(SwapAt(s, i, j), i, j) == s
  {
    var r := SwapAt(SwapAt(s, i, j), i, j);
    forall k | 0 <= k < |s| ensures r[k] == s[k] {
    }
  }

  /** Which of the two cells is named first does not matter. */
  lemma SwapAtSymmetric<T>(s: seq<T>, i: nat, j: nat)
    requires i < |s| && j < |s|
    ensures SwapAt(s, i, j) == SwapAt(s, j, i)
  {
    var r, r' := SwapAt(s, i, j), SwapAt(s, j, i);
    forall k | 0 <= k < |s| ensures r[k] == r'[k] {
    }
  }
}
