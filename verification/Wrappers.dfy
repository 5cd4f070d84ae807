/** Optional values, sequences of equal elements and functions applied over and over. */
module Wrappers {

  datatype Option<+T> = None | Some(value: T)

  // x, x, ..., x
  function Repeated<T>(x: T, n: nat): (r: seq<T>)
    ensures |r| == n && forall i :: 0 <= i < n ==> r[i] == x
  {
    if n == 0 then [] else Repeated(x, n - 1) + [x]
  }

  // f applied n times
  function Iterated<S>(f: S -> S, s: S, n: nat): S {
    if n == 0 then s else f(Iterated(f, s, n - 1))
  }

  lemma {:induction false} IteratedAdd<S>(f: S -> S, s: S, m: nat, n: nat)
    ensures Iterated(f, s, m + n) == Iterated(f, Iterated(f, s, m), n)
  {
    if n > 0 {
      IteratedAdd(f, s, m, n - 1);
    }
  }
}
