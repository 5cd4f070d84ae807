/** Cardinality facts about finite sets of ids. */
module FiniteSets {

  lemma {:induction false} SubsetCard(s: set<nat>, t: set<nat>)
    requires s <= t
    ensures |s| <= |t|
  {
    if s != {} {
      var x :| x in s;
      SubsetCard(s - {x}, t - {x});
    }
  }

  // lo, lo + 1, ..., hi - 1
  function Range(lo: nat, hi: nat): (r: set<nat>)
    ensures forall y :: y in r <==> lo <= y < hi
    decreases hi - lo
  {
    if lo >= hi then {} else {lo} + Range(lo + 1, hi)
  }

  lemma {:induction false} RangeCard(lo: nat, hi: nat)
    requires lo <= hi
    ensures |Range(lo, hi)| == hi - lo
    decreases hi - lo
  {
    if lo < hi {
      RangeCard(lo + 1, hi);
    }
  }

  lemma BoundedCard(s: set<nat>, n: nat)
    requires forall x :: x in s ==> x < n
    ensures |s| <= n
  {
    RangeCard(0, n);
    SubsetCard(s, Range(0, n));
  }
}
