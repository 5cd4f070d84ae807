/** The sign of a permutation, by its inversions. */
module Permutations {

  // How many elements of s are below x.
  function CountBelow(s: seq<nat>, x: nat): nat {
    if s == [] then 0 else (if s[0] < x then 1 else 0) + CountBelow(s[1..], x)
  }

  // How many pairs of positions are in the wrong order.
  function Inversions(s: seq<nat>): nat {
    if s == [] then 0 else CountBelow(s[1..], s[0]) + Inversions(s[1..])
  }

  function Sign(s: seq<nat>): int {
    if Inversions(s) % 2 == 0 then 1 else -1
  }

  predicate Distinct(s: seq<nat>) {
    forall i, j :: 0 <= i < j < |s| ==> s[i] != s[j]
  }

  // The elements at p and q exchanged.
  function SwapRows<T>(s: seq<T>, p: nat, q: nat): (r: seq<T>)
    requires p < |s| && q < |s|
    ensures |r| == |s|
  {
    s[p := s[q]][q := s[p]]
  }

  lemma {:induction false} SortedHasNone(s: seq<nat>)
    requires forall i, j :: 0 <= i < j < |s| ==> s[i] < s[j]
    ensures Inversions(s) == 0
  {
    if s != [] {
      SortedHasNone(s[1..]);
      NoneBelow(s[1..], s[0]);
    }
  }

  lemma {:induction false} NoneBelow(s: seq<nat>, x: nat)
    requires forall i :: 0 <= i < |s| ==> x < s[i]
    ensures CountBelow(s, x) == 0
  {
    if s != [] {
      NoneBelow(s[1..], x);
    }
  }

  lemma {:induction false} CountSwap(s: seq<nat>, k: nat, x: nat)
    requires k + 1 < |s|
    ensures CountBelow(SwapRows(s, k, k + 1), x) == CountBelow(s, x)
  {
    var s' := SwapRows(s, k, k + 1);
    if k == 0 {
      assert s'[1..][1..] == s[1..][1..];
    } else {
      assert s'[1..] == SwapRows(s[1..], k - 1, k);
      CountSwap(s[1..], k - 1, x);
    }
  }

  lemma FirstTwo(s: seq<nat>)
    requires |s| >= 2
    ensures Inversions(s) == (if s[1] < s[0] then 1 else 0) + CountBelow(s[2..], s[0]) + CountBelow(s[2..], s[1]) + Inversions(s[2..])
  {
    assert s[1..][1..] == s[2..];
  }

  lemma FirstFlip(s: seq<nat>)
    requires |s| >= 2 && s[0] != s[1]
    ensures Inversions(SwapRows(s, 0, 1)) == Inversions(s) + (if s[0] < s[1] then 1 else -1)
  {
    var s' := SwapRows(s, 0, 1);
    FirstTwo(s);
    FirstTwo(s');
    assert s'[2..] == s[2..] && s'[0] == s[1] && s'[1] == s[0];
  }

  lemma LaterFlip(s: seq<nat>, k: nat)
    requires 0 < k && k + 1 < |s|
    ensures Inversions(SwapRows(s, k, k + 1)) - Inversions(s) == Inversions(SwapRows(s[1..], k - 1, k)) - Inversions(s[1..])
  {
    assert SwapRows(s, k, k + 1)[1..] == SwapRows(s[1..], k - 1, k);
    CountSwap(s[1..], k - 1, s[0]);
  }

  // Exchanging two neighbours adds or removes one inversion.
  lemma {:induction false} NeighboursFlip(s: seq<nat>, k: nat)
    requires k + 1 < |s| && s[k] != s[k + 1]
    ensures Inversions(SwapRows(s, k, k + 1)) == Inversions(s) + (if s[k] < s[k + 1] then 1 else -1)
    ensures Sign(SwapRows(s, k, k + 1)) == -Sign(s)
  {
    if k == 0 {
      FirstFlip(s);
    } else {
      LaterFlip(s, k);
      NeighboursFlip(s[1..], k - 1);
    }
  }

  // Exchanging any two elements turns the sign.
  lemma {:induction false} SwapFlips(s: seq<nat>, i: nat, j: nat)
    requires Distinct(s) && i < j < |s|
    ensures Sign(SwapRows(s, i, j)) == -Sign(s)
    decreases j - i
  {
    if j == i + 1 {
      NeighboursFlip(s, i);
    } else {
      var s1 := SwapRows(s, i, i + 1);
      NeighboursFlip(s, i);
      SwapFlips(s1, i + 1, j);
      var s2 := SwapRows(s1, i + 1, j);
      NeighboursFlip(s2, i);
      assert SwapRows(s2, i, i + 1) == SwapRows(s, i, j);
    }
  }
}
