/** Finite sums of reals and matrices as sequences of rows. */
module Sums {

  // f(0) + ... + f(n-1)
  ghost function Sum(f: nat -> real, n: nat): real {
    if n == 0 then 0.0 else Sum(f, n - 1) + f(n - 1)
  }

  lemma {:induction false} SumExt(f: nat -> real, g: nat -> real, n: nat)
    requires forall k: nat :: k < n ==> f(k) == g(k)
    ensures Sum(f, n) == Sum(g, n)
  {
    if n > 0 {
      SumExt(f, g, n - 1);
    }
  }

  // Terms that vanish from m on do not matter.
  lemma {:induction false} SumCut(f: nat -> real, m: nat, n: nat)
    requires m <= n && forall k: nat :: m <= k < n ==> f(k) == 0.0
    ensures Sum(f, n) == Sum(f, m)
  {
    if m < n {
      SumCut(f, m, n - 1);
    }
  }

  // Only one term is left.
  lemma {:induction false} SumSingle(f: nat -> real, i: nat, n: nat)
    requires i < n && forall k: nat :: k < n && k != i ==> f(k) == 0.0
    ensures Sum(f, n) == f(i)
  {
    if i == n - 1 {
      SumCut(f, 0, n - 1);
    } else {
      SumSingle(f, i, n - 1);
    }
  }

  // f(lo) + ... + f(n-1)
  ghost function Tail(f: nat -> real, lo: nat, n: nat): real
    decreases n - lo
  {
    if lo >= n then 0.0 else f(lo) + Tail(f, lo + 1, n)
  }

  lemma {:induction false} TailExt(f: nat -> real, g: nat -> real, lo: nat, n: nat)
    requires forall k: nat :: lo <= k < n ==> f(k) == g(k)
    ensures Tail(f, lo, n) == Tail(g, lo, n)
    decreases n - lo
  {
    if lo < n {
      TailExt(f, g, lo + 1, n);
    }
  }

  lemma {:induction false} SumSplit(f: nat -> real, lo: nat, n: nat)
    requires lo <= n
    ensures Sum(f, n) == Sum(f, lo) + Tail(f, lo, n)
    decreases n - lo
  {
    if lo < n {
      SumSplit(f, lo + 1, n);
    }
  }

  // The terms before k vanish.
  lemma SumFrom(f: nat -> real, k: nat, n: nat)
    requires k < n && forall j: nat :: j < k ==> f(j) == 0.0
    ensures Sum(f, n) == f(k) + Tail(f, k + 1, n)
  {
    SumSplit(f, k, n);
    SumCut(f, 0, k);
  }

  ghost function Scaled(f: nat -> real, c: real): nat -> real {
    (k: nat) => c * f(k)
  }

  ghost function Added(f: nat -> real, g: nat -> real): nat -> real {
    (k: nat) => f(k) + g(k)
  }

  lemma {:induction false} SumScale(f: nat -> real, c: real, n: nat)
    ensures Sum(Scaled(f, c), n) == c * Sum(f, n)
  {
    if n > 0 {
      SumScale(f, c, n - 1);
    }
  }

  lemma {:induction false} SumAdd(f: nat -> real, g: nat -> real, n: nat)
    ensures Sum(Added(f, g), n) == Sum(f, n) + Sum(g, n)
  {
    if n > 0 {
      SumAdd(f, g, n - 1);
    }
  }

  ghost function RowOf(f: (nat, nat) -> real, i: nat): nat -> real {
    (j: nat) => f(i, j)
  }

  ghost function ColOf(f: (nat, nat) -> real, j: nat): nat -> real {
    (i: nat) => f(i, j)
  }

  ghost function RowSums(f: (nat, nat) -> real, n: nat): nat -> real {
    (i: nat) => Sum(RowOf(f, i), n)
  }

  ghost function ColSums(f: (nat, nat) -> real, m: nat): nat -> real {
    (j: nat) => Sum(ColOf(f, j), m)
  }

  // The order of two summations does not matter.
  lemma {:induction false} SumSwap(f: (nat, nat) -> real, m: nat, n: nat)
    ensures Sum(RowSums(f, n), m) == Sum(ColSums(f, m), n)
  {
    if m == 0 {
      SumCut(ColSums(f, m), 0, n);
    } else {
      SumSwap(f, m - 1, n);
      SumAdd(ColSums(f, m - 1), RowOf(f, m - 1), n);
      SumExt(Added(ColSums(f, m - 1), RowOf(f, m - 1)), ColSums(f, m), n);
    }
  }

  // ---- Matrices ----

  type Matrix = seq<seq<real>>

  predicate IsMatrix(m: Matrix, rows: nat, cols: nat) {
    |m| == rows && forall i :: 0 <= i < rows ==> |m[i]| == cols
  }

  function At(m: Matrix, i: nat, j: nat): real {
    if i < |m| && j < |m[i]| then m[i][j] else 0.0
  }

  function Set(m: Matrix, i: nat, j: nat, v: real): Matrix
    requires i < |m| && j < |m[i]|
  {
    m[i := m[i][j := v]]
  }

  ghost function ProductTerms(a: Matrix, b: Matrix, i: nat, j: nat): nat -> real {
    (k: nat) => At(a, i, k) * At(b, k, j)
  }

  // Entry (i, j) of the product of two matrices, summed over the first n inner indices.
  ghost function Product(a: Matrix, b: Matrix, n: nat, i: nat, j: nat): real {
    Sum(ProductTerms(a, b, i, j), n)
  }

  function Abs(x: real): real {
    if x < 0.0 then -x else x
  }

  // p is the product of a and b.
  ghost predicate IsProduct(p: Matrix, a: Matrix, b: Matrix, n: nat) {
    forall i: nat, j: nat :: i < |p| && j < |p[i]| ==> p[i][j] == Product(a, b, n, i, j)
  }

  // Entry (i, j) of A (B C) is entry (i, j) of (A B) C, where ab holds row i of A B.
  lemma ProductAssoc(a: Matrix, b: Matrix, c: Matrix, ab: Matrix, bc: Matrix, m: nat, n: nat, i: nat, j: nat)
    requires forall k: nat :: k < m ==> At(bc, k, j) == Product(b, c, n, k, j)
    requires forall l: nat :: l < n ==> At(ab, i, l) == Product(a, b, m, i, l)
    ensures Product(a, bc, m, i, j) == Product(ab, c, n, i, j)
  {
    var f := Triples(a, b, c, i, j);
    OuterRows(a, b, c, bc, m, n, i, j);
    SumSwap(f, m, n);
    OuterColumns(a, b, c, ab, m, n, i, j);
  }

  lemma OuterRows(a: Matrix, b: Matrix, c: Matrix, bc: Matrix, m: nat, n: nat, i: nat, j: nat)
    requires forall k: nat :: k < m ==> At(bc, k, j) == Product(b, c, n, k, j)
    ensures Product(a, bc, m, i, j) == Sum(RowSums(Triples(a, b, c, i, j), n), m)
  {
    var f := Triples(a, b, c, i, j);
    forall k: nat | k < m ensures At(a, i, k) * At(bc, k, j) == Sum(RowOf(f, k), n) {
      TripleRow(a, b, c, n, i, j, k, At(bc, k, j));
    }
    SumExt(ProductTerms(a, bc, i, j), RowSums(f, n), m);
  }

  lemma OuterColumns(a: Matrix, b: Matrix, c: Matrix, ab: Matrix, m: nat, n: nat, i: nat, j: nat)
    requires forall l: nat :: l < n ==> At(ab, i, l) == Product(a, b, m, i, l)
    ensures Product(ab, c, n, i, j) == Sum(ColSums(Triples(a, b, c, i, j), m), n)
  {
    var f := Triples(a, b, c, i, j);
    forall l: nat | l < n ensures Sum(ColOf(f, l), m) == At(ab, i, l) * At(c, l, j) {
      TripleColumn(a, b, c, m, i, j, l, At(ab, i, l));
    }
    SumExt(ColSums(f, m), ProductTerms(ab, c, i, j), n);
  }

  ghost function Triples(a: Matrix, b: Matrix, c: Matrix, i: nat, j: nat): (nat, nat) -> real {
    (k: nat, l: nat) => At(a, i, k) * (At(b, k, l) * At(c, l, j))
  }

  lemma TripleRow(a: Matrix, b: Matrix, c: Matrix, n: nat, i: nat, j: nat, k: nat, p: real)
    requires p == Product(b, c, n, k, j)
    ensures Sum(RowOf(Triples(a, b, c, i, j), k), n) == At(a, i, k) * p
  {
    ScaledProduct(b, c, n, k, j, At(a, i, k), RowOf(Triples(a, b, c, i, j), k), p);
  }

  lemma TripleColumn(a: Matrix, b: Matrix, c: Matrix, m: nat, i: nat, j: nat, l: nat, p: real)
    requires p == Product(a, b, m, i, l)
    ensures Sum(ColOf(Triples(a, b, c, i, j), l), m) == p * At(c, l, j)
  {
    var g := ColOf(Triples(a, b, c, i, j), l);
    forall k: nat | k < m ensures g(k) == At(c, l, j) * (At(a, i, k) * At(b, k, l)) {
      Rotate(At(a, i, k), At(b, k, l), At(c, l, j));
    }
    ScaledProduct(a, b, m, i, l, At(c, l, j), g, p);
  }

  lemma Rotate(x: real, y: real, z: real)
    ensures x * (y * z) == z * (x * y)
  {
  }

  lemma ScaledProduct(a: Matrix, b: Matrix, n: nat, i: nat, j: nat, x: real, g: nat -> real, p: real)
    requires p == Product(a, b, n, i, j) && forall k: nat :: k < n ==> g(k) == x * (At(a, i, k) * At(b, k, j))
    ensures Sum(g, n) == x * p
  {
    SumScale(ProductTerms(a, b, i, j), x, n);
    SumExt(Scaled(ProductTerms(a, b, i, j), x), g, n);
  }
}
