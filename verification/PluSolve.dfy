/** The users of the factorisation in common/matd.c: the factors as matrices, the linear solver and the
  inverse. */
module PluSolve {
  import opened Numbers
  import opened Sums
  import opened Wrappers
  import opened Plu

  // ---- P, L and U ----

  ghost predicate IsP(p: Matrix, piv: seq<nat>, n: nat) {
    IsMatrix(p, n, n) && n == |piv| &&
    forall r: nat, i: nat :: r < n && i < n ==> p[r][i] == if piv[i] == r then 1.0 else 0.0
  }

  ghost predicate IsL(l: Matrix, m: Matrix, n: nat) {
    IsMatrix(l, n, n) &&
    forall i: nat, k: nat :: i < n && k < n ==> l[i][k] == if k < i then At(m, i, k) else if k == i then 1.0 else 0.0
  }

  ghost predicate IsU(u: Matrix, m: Matrix, n: nat) {
    IsMatrix(u, n, n) &&
    forall k: nat, j: nat :: k < n && j < n ==> u[k][j] == if k <= j then At(m, k, j) else 0.0
  }

  // matd_plu_p
  method PermutationMatrix(piv: seq<nat>, ghost inv: seq<nat>) returns (p: Matrix)
    requires IsPermutation(piv, inv)
    ensures IsP(p, piv, |piv|)
  {
    var n := |piv|;
    var P := new Row[n](_ => Repeated(0.0, n));
    for i := 0 to n
      invariant IsMatrix(P[..], n, n)
      invariant forall r: nat, c: nat :: r < n && c < n ==> P[r][c] == if c < i && piv[c] == r then 1.0 else 0.0
    {
      P[piv[i]] := P[piv[i]][i := 1.0];
    }
    p := P[..];
  }

  // matd_plu_l
  method LowerMatrix(lu: array<Row>) returns (l: Matrix)
    requires IsMatrix(lu[..], lu.Length, lu.Length)
    ensures IsL(l, lu[..], lu.Length)
  {
    var n := lu.Length;
    var L := new Row[n](_ => Repeated(0.0, n));
    ghost var m := lu[..];
    for i := 0 to n
      invariant fresh(L) && L != lu && IsMatrix(L[..], n, n) && lu[..] == m
      invariant forall r: nat, k: nat :: r < i && k < n ==>
        L[r][k] == if k < r then At(m, r, k) else if k == r then 1.0 else 0.0
      invariant forall r: nat, k: nat :: i <= r < n && k < n ==> L[r][k] == 0.0
    {
      L[i] := L[i][i := 1.0];
      for j := 0 to i
        invariant fresh(L) && L != lu && IsMatrix(L[..], n, n) && lu[..] == m
        invariant forall r: nat, k: nat :: r < i && k < n ==>
          L[r][k] == if k < r then At(m, r, k) else if k == r then 1.0 else 0.0
        invariant forall k: nat :: k < n ==> L[i][k] == if k < j then At(m, i, k) else if k == i then 1.0 else 0.0
        invariant forall r: nat, k: nat :: i < r < n && k < n ==> L[r][k] == 0.0
      {
        L[i] := L[i][j := lu[i][j]];
      }
    }
    l := L[..];
  }

  // matd_plu_u
  method UpperMatrix(lu: array<Row>) returns (u: Matrix)
    requires IsMatrix(lu[..], lu.Length, lu.Length)
    ensures IsU(u, lu[..], lu.Length)
  {
    var n := lu.Length;
    var U := new Row[n](_ => Repeated(0.0, n));
    ghost var m := lu[..];
    for i := 0 to n
      invariant fresh(U) && U != lu && IsMatrix(U[..], n, n) && lu[..] == m
      invariant forall r: nat, k: nat :: r < i && k < n ==> U[r][k] == if r <= k then At(m, r, k) else 0.0
      invariant forall r: nat, k: nat :: i <= r < n && k < n ==> U[r][k] == 0.0
    {
      for j := 0 to n
        invariant fresh(U) && U != lu && IsMatrix(U[..], n, n) && lu[..] == m
        invariant forall r: nat, k: nat :: r < i && k < n ==> U[r][k] == if r <= k then At(m, r, k) else 0.0
        invariant forall k: nat :: k < n ==> U[i][k] == if k < j && i <= k then At(m, i, k) else 0.0
        invariant forall r: nat, k: nat :: i < r < n && k < n ==> U[r][k] == 0.0
      {
        if i <= j {
          U[i] := U[i][j := lu[i][j]];
        }
      }
    }
    u := U[..];
  }

  // Row i of L times column j of U is entry (piv[i], j) of the factorised matrix, also for singular input.
  lemma RowsOfLU(a: Matrix, m: Matrix, piv: seq<nat>, inv: seq<nat>, singular: bool, l: Matrix, u: Matrix, i: nat, j: nat)
    requires IsPlu(a, m, piv, inv, singular) && IsL(l, m, |piv|) && IsU(u, m, |piv|) && i < |piv| && j < |piv|
    ensures At(a, piv[i], j) == Product(l, u, |piv|, i, j)
  {
    assert CellOk(a, m, piv, |piv|, 0, 0, i, j);
    PackedProduct(m, l, u, |piv|, i, j);
  }

  // Both factors share one matrix.
  lemma PackedProduct(m: Matrix, l: Matrix, u: Matrix, n: nat, i: nat, j: nat)
    requires IsL(l, m, n) && IsU(u, m, n) && i < n && j < n
    ensures Product(l, u, n, i, j) == Stands(m, i, j, Done)
  {
    var q, f, g := Min(i, j), ProductTerms(l, u, i, j), ProductTerms(m, m, i, j);
    forall k: nat | q < k < n ensures f(k) == 0.0 {
      PackedZero(m, l, u, n, i, j, k);
    }
    SumCut(f, q + 1, n);
    forall k: nat | k < q ensures f(k) == g(k) {
      PackedTerm(m, l, u, n, i, j, k);
    }
    SumExt(f, g, q);
    PackedLast(m, l, u, n, i, j);
    assert Sum(f, q + 1) == Sum(f, q) + f(q);
  }

  // Before the diagonal both factors are entries of the shared matrix.
  lemma PackedTerm(m: Matrix, l: Matrix, u: Matrix, n: nat, i: nat, j: nat, k: nat)
    requires IsL(l, m, n) && IsU(u, m, n) && i < n && j < n && k < Min(i, j)
    ensures At(l, i, k) * At(u, k, j) == At(m, i, k) * At(m, k, j)
  {
    assert At(l, i, k) == At(m, i, k) && At(u, k, j) == At(m, k, j);
  }

  lemma PackedLast(m: Matrix, l: Matrix, u: Matrix, n: nat, i: nat, j: nat)
    requires IsL(l, m, n) && IsU(u, m, n) && i < n && j < n
    ensures At(l, i, Min(i, j)) * At(u, Min(i, j), j) == if i <= j then At(m, i, j) else At(m, i, j) * At(m, j, j)
  {
    if i <= j {
      assert At(l, i, i) == 1.0 && At(u, i, j) == At(m, i, j);
    } else {
      assert At(l, i, j) == At(m, i, j) && At(u, j, j) == At(m, j, j);
    }
  }

  // Beyond the diagonal one of the factors is zero.
  lemma PackedZero(m: Matrix, l: Matrix, u: Matrix, n: nat, i: nat, j: nat, k: nat)
    requires IsL(l, m, n) && IsU(u, m, n) && i < n && j < n && Min(i, j) < k < n
    ensures At(l, i, k) * At(u, k, j) == 0.0
  {
    assert l[i][k] == 0.0 || u[k][j] == 0.0;
  }

  // A = P (L U).
  lemma FactorisationHolds(a: Matrix, m: Matrix, piv: seq<nat>, inv: seq<nat>, singular: bool,
                           p: Matrix, l: Matrix, u: Matrix, lu: Matrix, r: nat, j: nat)
    requires IsPlu(a, m, piv, inv, singular) && IsP(p, piv, |piv|) && IsL(l, m, |piv|) && IsU(u, m, |piv|)
    requires IsMatrix(lu, |piv|, |piv|) && IsProduct(lu, l, u, |piv|) && r < |piv| && j < |piv|
    ensures At(a, r, j) == Product(p, lu, |piv|, r, j)
  {
    var i := inv[r];
    RowsOfLU(a, m, piv, inv, singular, l, u, i, j);
    forall k: nat | k < |piv| && k != i ensures At(p, r, k) * At(lu, k, j) == 0.0 {
      assert inv[piv[k]] == k;
      assert At(p, r, k) == 0.0;
    }
    SumSingle(ProductTerms(p, lu, r, j), i, |piv|);
  }

  // ---- matd_plu_solve ----

  function AddScaled(u: Row, v: Row, f: real): (r: Row)
    requires |u| == |v|
    ensures |r| == |u| && forall t :: 0 <= t < |u| ==> r[t] == u[t] + v[t] * f
  {
    seq(|u|, t requires 0 <= t < |u| => u[t] + v[t] * f)
  }

  // x[i, t] += x[k, t] * f for every column t
  method AxpyRow(x: array<Row>, i: nat, k: nat, f: real)
    requires i < x.Length && k < x.Length && i != k && |x[i]| == |x[k]|
    modifies x
    ensures x[..] == old(x[..])[i := AddScaled(old(x[i]), old(x[k]), f)]
  {
    ghost var u, v := x[i], x[k];
    for t := 0 to |x[k]|
      invariant |x[i]| == |u| && x[k] == v
      invariant forall s :: 0 <= s < x.Length && s != i ==> x[s] == old(x[s])
      invariant forall s :: 0 <= s < |u| ==> x[i][s] == if s < t then u[s] + v[s] * f else u[s]
    {
      x[i] := x[i][t := x[i][t] + x[k][t] * f];
    }
    assert forall s :: 0 <= s < |u| ==> x[i][s] == AddScaled(u, v, f)[s];
    assert x[i] == AddScaled(u, v, f);
  }

  // How many multipliers have been applied to row r when step k has reached row i.
  function Used(k: nat, i: nat, r: nat): nat {
    Min(r, if r < i then k + 1 else k)
  }

  // Row r of the permuted right-hand side is row r of x plus what has been subtracted.
  ghost predicate ForwardRow(pb: Matrix, m: Matrix, x: Matrix, k: nat, i: nat, r: nat, cols: nat) {
    forall t: nat :: t < cols ==> At(pb, r, t) == At(x, r, t) + Product(m, x, Used(k, i, r), r, t)
  }

  ghost predicate Forward(pb: Matrix, m: Matrix, x: Matrix, k: nat, i: nat, n: nat, cols: nat) {
    IsMatrix(x, n, cols) && forall r: nat :: r < n ==> ForwardRow(pb, m, x, k, i, r, cols)
  }

  lemma ForwardStep(pb: Matrix, m: Matrix, x: Matrix, k: nat, i: nat, n: nat, cols: nat)
    requires Forward(pb, m, x, k, i, n, cols) && k < i < n
    ensures Forward(pb, m, x[i := AddScaled(x[i], x[k], -At(m, i, k))], k, i + 1, n, cols)
  {
    var x', i' := x[i := AddScaled(x[i], x[k], -At(m, i, k))], i + 1;
    forall r: nat | r < n ensures ForwardRow(pb, m, x', k, i', r, cols) {
      assert ForwardRow(pb, m, x, k, i, r, cols);
      forall t: nat | t < cols
        ensures At(pb, r, t) == At(x', r, t) + Product(m, x', Used(k, i', r), r, t)
      {
        ForwardEntry(m, x, k, i, n, r, t, Used(k, i', r));
      }
    }
  }

  lemma ForwardEntry(m: Matrix, x: Matrix, k: nat, i: nat, n: nat, r: nat, t: nat, used: nat)
    requires k < i < n <= |x| && |x[i]| == |x[k]| && used <= i
    ensures Product(m, x[i := AddScaled(x[i], x[k], -At(m, i, k))], used, r, t) == Product(m, x, used, r, t)
  {
    var x' := x[i := AddScaled(x[i], x[k], -At(m, i, k))];
    SumExt(ProductTerms(m, x', r, t), ProductTerms(m, x, r, t), used);
  }

  lemma ForwardNext(pb: Matrix, m: Matrix, x: Matrix, k: nat, n: nat, cols: nat)
    requires Forward(pb, m, x, k, n, n, cols) && k < n
    ensures Forward(pb, m, x, k + 1, k + 2, n, cols)
  {
    var k', i' := k + 1, k + 2;
    forall r: nat | r < n ensures ForwardRow(pb, m, x, k', i', r, cols) {
      assert ForwardRow(pb, m, x, k, n, r, cols);
      assert Used(k', i', r) == Used(k, n, r);
    }
  }

  // solve L y = P' b, in place
  method ForwardSubstitute(lu: array<Row>, x: array<Row>, ghost pb: Matrix, ghost cols: nat)
    requires lu != x && x.Length == lu.Length && IsMatrix(lu[..], lu.Length, lu.Length)
    requires x[..] == pb && IsMatrix(pb, lu.Length, cols)
    modifies x
    ensures IsMatrix(x[..], lu.Length, cols)
    ensures forall r: nat, t: nat :: r < lu.Length && t < cols ==>
      At(pb, r, t) == At(x[..], r, t) + Product(lu[..], x[..], r, r, t)
  {
    ghost var m, n := lu[..], lu.Length;
    forall r: nat | r < n ensures ForwardRow(pb, m, x[..], 0, 1, r, cols) {
    }
    for k := 0 to lu.Length
      invariant lu[..] == m && Forward(pb, m, x[..], k, k + 1, n, cols)
    {
      for i := k + 1 to lu.Length
        invariant lu[..] == m && Forward(pb, m, x[..], k, i, n, cols)
      {
        ForwardStep(pb, m, x[..], k, i, n, cols);
        AxpyRow(x, i, k, -lu[i][k]);
      }
      ForwardNext(pb, m, x[..], k, n, cols);
    }
    forall r: nat, t: nat | r < n && t < cols
      ensures At(pb, r, t) == At(x[..], r, t) + Product(m, x[..], r, r, t)
    {
      assert ForwardRow(pb, m, x[..], n, n + 1, r, cols);
    }
  }

  // The first unknown that has been eliminated from row r when the back substitution of x[k] has reached row i.
  function FirstUsed(k: nat, i: nat, r: nat): nat {
    if r >= k then r + 1 else if r < i then k else k + 1
  }

  // Row r of y is what is left in x plus the eliminated unknowns; rows from k on hold the solution.
  ghost predicate BackRow(y: Matrix, m: Matrix, x: Matrix, k: nat, i: nat, r: nat, n: nat, cols: nat) {
    forall t: nat :: t < cols ==> At(y, r, t) == BackValue(m, x, k, i, r, n, t)
  }

  ghost function BackValue(m: Matrix, x: Matrix, k: nat, i: nat, r: nat, n: nat, t: nat): real {
    (if r >= k then At(m, r, r) * At(x, r, t) else At(x, r, t))
    + Tail(ProductTerms(m, x, r, t), FirstUsed(k, i, r), n)
  }

  ghost predicate Back(y: Matrix, m: Matrix, x: Matrix, k: nat, i: nat, n: nat, cols: nat) {
    IsMatrix(x, n, cols) && forall r: nat :: r < n ==> BackRow(y, m, x, k, i, r, n, cols)
  }

  function Times(u: Row, f: real): (r: Row)
    ensures |r| == |u| && forall t :: 0 <= t < |u| ==> r[t] == u[t] * f
  {
    seq(|u|, t requires 0 <= t < |u| => u[t] * f)
  }

  // x[k, t] *= f for every column t
  method ScaleRow(x: array<Row>, k: nat, f: real)
    requires k < x.Length
    modifies x
    ensures x[..] == old(x[..])[k := Times(old(x[k]), f)]
  {
    ghost var u := x[k];
    for t := 0 to |x[k]|
      invariant |x[k]| == |u|
      invariant forall s :: 0 <= s < x.Length && s != k ==> x[s] == old(x[s])
      invariant forall s :: 0 <= s < |u| ==> x[k][s] == if s < t then u[s] * f else u[s]
    {
      x[k] := x[k][t := x[k][t] * f];
    }
    assert forall s :: 0 <= s < |u| ==> x[k][s] == Times(u, f)[s];
    assert x[k] == Times(u, f);
  }

  lemma BackScale(y: Matrix, m: Matrix, x: Matrix, k: nat, n: nat, cols: nat, recip: real)
    requires Back(y, m, x, k + 1, k + 1, n, cols) && k < n && recip * At(m, k, k) == 1.0
    ensures Back(y, m, x[k := Times(x[k], recip)], k, 0, n, cols)
  {
    var x' := x[k := Times(x[k], recip)];
    forall r: nat | r < n ensures BackRow(y, m, x', k, 0, r, n, cols) {
      assert BackRow(y, m, x, k + 1, k + 1, r, n, cols);
      forall t: nat | t < cols
        ensures At(y, r, t) == BackValue(m, x', k, 0, r, n, t)
      {
        TailExt(ProductTerms(m, x', r, t), ProductTerms(m, x, r, t), FirstUsed(k, 0, r), n);
        if r == k {
          DivideBack(At(x, k, t), At(m, k, k), recip);
        }
      }
    }
  }

  lemma BackStep(y: Matrix, m: Matrix, x: Matrix, k: nat, i: nat, n: nat, cols: nat)
    requires Back(y, m, x, k, i, n, cols) && i < k < n
    ensures Back(y, m, x[i := AddScaled(x[i], x[k], -At(m, i, k))], k, i + 1, n, cols)
  {
    var x', i' := x[i := AddScaled(x[i], x[k], -At(m, i, k))], i + 1;
    forall r: nat | r < n ensures BackRow(y, m, x', k, i', r, n, cols) {
      assert BackRow(y, m, x, k, i, r, n, cols);
      forall t: nat | t < cols
        ensures At(y, r, t) == BackValue(m, x', k, i', r, n, t)
      {
        TailExt(ProductTerms(m, x', r, t), ProductTerms(m, x, r, t), FirstUsed(k, i', r), n);
      }
    }
  }

  // solve U x = y, in place; no pivot may vanish
  method BackSubstitute(lu: array<Row>, x: array<Row>, ghost y: Matrix, ghost cols: nat)
    requires lu != x && x.Length == lu.Length && IsMatrix(lu[..], lu.Length, lu.Length)
    requires x[..] == y && IsMatrix(y, lu.Length, cols)
    requires forall k: nat :: k < lu.Length ==> At(lu[..], k, k) != 0.0
    modifies x
    ensures IsMatrix(x[..], lu.Length, cols)
    ensures forall r: nat, t: nat :: r < lu.Length && t < cols ==>
      At(y, r, t) == Tail(ProductTerms(lu[..], x[..], r, t), r, lu.Length)
  {
    ghost var m, n := lu[..], lu.Length;
    forall r: nat | r < n ensures BackRow(y, m, x[..], n, n, r, n, cols) {
    }
    for k := lu.Length downto 0
      invariant lu[..] == m && Back(y, m, x[..], k, k, n, cols)
    {
      assert At(m, k, k) != 0.0;
      var LUkk := 1.0 / lu[k][k];
      BackScale(y, m, x[..], k, n, cols, LUkk);
      ScaleRow(x, k, LUkk);
      for i := 0 to k
        invariant lu[..] == m && Back(y, m, x[..], k, i, n, cols)
      {
        BackStep(y, m, x[..], k, i, n, cols);
        AxpyRow(x, i, k, -lu[i][k]);
      }
    }
    forall r: nat, t: nat | r < n && t < cols
      ensures At(y, r, t) == Tail(ProductTerms(m, x[..], r, t), r, n)
    {
      assert BackRow(y, m, x[..], 0, 0, r, n, cols);
    }
  }

  // L, U and L U as matrices, for the specification only.
  ghost function LowerOf(m: Matrix, n: nat): (l: Matrix)
    ensures IsL(l, m, n)
  {
    seq(n, i requires 0 <= i < n => seq(n, k requires 0 <= k < n =>
      if k < i then At(m, i, k) else if k == i then 1.0 else 0.0))
  }

  ghost function UpperOf(m: Matrix, n: nat): (u: Matrix)
    ensures IsU(u, m, n)
  {
    seq(n, i requires 0 <= i < n => seq(n, k requires 0 <= k < n => if i <= k then At(m, i, k) else 0.0))
  }

  // Row i of L y is row i of y plus what forward substitution subtracted.
  lemma LowerRow(m: Matrix, n: nat, y: Matrix, i: nat, t: nat)
    requires i < n
    ensures Product(LowerOf(m, n), y, n, i, t) == At(y, i, t) + Product(m, y, i, i, t)
  {
    var l := LowerOf(m, n);
    SumCut(ProductTerms(l, y, i, t), i + 1, n);
    SumExt(ProductTerms(l, y, i, t), ProductTerms(m, y, i, t), i);
  }

  // Row k of U x is what back substitution leaves of row k.
  lemma UpperRow(m: Matrix, n: nat, x: Matrix, k: nat, t: nat)
    requires k < n
    ensures Product(UpperOf(m, n), x, n, k, t) == Tail(ProductTerms(m, x, k, t), k, n)
  {
    var u := UpperOf(m, n);
    SumSplit(ProductTerms(u, x, k, t), k, n);
    SumCut(ProductTerms(u, x, k, t), 0, k);
    TailExt(ProductTerms(u, x, k, t), ProductTerms(m, x, k, t), k, n);
  }

  // Row i of L (U x) is row r of A x when row i of L U is row r of A.
  lemma RowOfSystem(a: Matrix, l: Matrix, u: Matrix, x: Matrix, y: Matrix, n: nat, i: nat, r: nat, t: nat)
    requires forall j: nat :: j < n ==> At(a, r, j) == Product(l, u, n, i, j)
    requires forall k: nat :: k < n ==> At(y, k, t) == Product(u, x, n, k, t)
    requires i < |l| && r < |a|
    ensures Product(l, y, n, i, t) == Product(a, x, n, r, t)
  {
    var rows, top := [a[r]], [l[i]];
    forall j: nat | j < n ensures At(rows, 0, j) == Product(top, u, n, 0, j) {
      SumExt(ProductTerms(top, u, 0, j), ProductTerms(l, u, i, j), n);
      assert At(rows, 0, j) == At(a, r, j);
    }
    ProductAssoc(top, u, x, rows, y, n, n, 0, t);
    SumExt(ProductTerms(top, y, 0, t), ProductTerms(l, y, i, t), n);
    SumExt(ProductTerms(rows, x, 0, t), ProductTerms(a, x, r, t), n);
  }

  // The two substitutions together solve the permuted system.
  lemma SubstitutionsSolve(a: Matrix, m: Matrix, piv: seq<nat>, inv: seq<nat>, singular: bool,
                           y: Matrix, x: Matrix, i: nat, t: nat)
    requires IsPlu(a, m, piv, inv, singular) && i < |piv|
    requires forall r: nat :: r < |piv| ==> At(y, r, t) == Tail(ProductTerms(m, x, r, t), r, |piv|)
    ensures At(y, i, t) + Product(m, y, i, i, t) == Product(a, x, |piv|, piv[i], t)
  {
    var n := |piv|;
    var l, u := LowerOf(m, n), UpperOf(m, n);
    LowerRow(m, n, y, i, t);
    forall k: nat | k < n ensures At(y, k, t) == Product(u, x, n, k, t) {
      UpperRow(m, n, x, k, t);
    }
    forall j: nat | j < n ensures At(a, piv[i], j) == Product(l, u, n, i, j) {
      RowsOfLU(a, m, piv, inv, singular, l, u, i, j);
    }
    RowOfSystem(a, l, u, x, y, n, i, piv[i], t);
  }

  // matd_plu_solve: A x = b, for every right-hand side, when the factorisation was not flagged.
  method Solve(ghost a: Matrix, lu: array<Row>, piv: array<nat>, ghost inv: seq<nat>, b: Matrix, cols: nat)
    returns (x: Matrix)
    requires lu.Length == piv.Length && IsPlu(a, lu[..], piv[..], inv, false) && IsMatrix(b, lu.Length, cols)
    ensures IsMatrix(x, lu.Length, cols) && IsProduct(b, a, x, lu.Length)
  {
    ghost var n, m, q := lu.Length, lu[..], piv[..];
    var X := new Row[|b|](i requires 0 <= i < |b| => b[i]);
    for i := 0 to lu.Length
      invariant lu[..] == m && piv[..] == q && X.Length == n
      invariant forall r :: 0 <= r < i ==> X[r] == b[q[r]]
    {
      X[i] := b[piv[i]];
    }
    ghost var pb := X[..];
    ForwardSubstitute(lu, X, pb, cols);
    ghost var y := X[..];
    BackSubstitute(lu, X, y, cols);
    x := X[..];
    forall r: nat, t: nat | r < |b| && t < |b[r]| ensures b[r][t] == Product(a, x, n, r, t) {
      var i := inv[r];
      assert At(pb, i, t) == At(b, q[i], t);
      SubstitutionsSolve(a, m, q, inv, false, y, x, i, t);
    }
  }

  function Identity(n: nat): (id: Matrix)
    ensures IsMatrix(id, n, n)
    ensures forall i: nat, j: nat :: i < n && j < n ==> id[i][j] == if i == j then 1.0 else 0.0
  {
    seq(n, i requires 0 <= i < n => seq(n, j requires 0 <= j < n => if i == j then 1.0 else 0.0))
  }

  // matd_inverse, the branch for matrices larger than 2x2: a right inverse, or none exactly when a pivot of the
  // factorisation is too small.
  method Inverse(x: Matrix) returns (r: Option<Matrix>, ghost lu: Matrix, ghost piv: seq<nat>, ghost inv: seq<nat>)
    requires IsMatrix(x, |x|, |x|)
    ensures |piv| == |x| && IsPlu(x, lu, piv, inv, r.None?)
    ensures r.Some? ==> IsMatrix(r.value, |x|, |x|) && IsProduct(Identity(|x|), x, r.value, |x|)
  {
    var m, p, _, singular, permuted := Factorise(x);
    lu, piv, inv := m[..], p[..], permuted;
    if singular {
      return None, lu, piv, inv;
    }
    var solution := Solve(x, m, p, permuted, Identity(|x|), |x|);
    r := Some(solution);
  }

  // ---- A matrix that was not flagged sends only zero to zero ----

  // U w, as one column.
  ghost function UpperTimes(m: Matrix, w: Matrix, n: nat): (y: Matrix)
    ensures IsMatrix(y, n, 1) && forall r: nat :: r < n ==> At(y, r, 0) == Tail(ProductTerms(m, w, r, 0), r, n)
  {
    seq(n, r requires 0 <= r < n => [Tail(ProductTerms(m, w, r, 0), r, n)])
  }

  // Going down: L y is zero, so y is.
  lemma {:induction false} ForwardZero(m: Matrix, y: Matrix, n: nat, i: nat)
    requires i <= n && forall r: nat :: r < n ==> At(y, r, 0) + Product(m, y, r, r, 0) == 0.0
    ensures forall r: nat :: r < i ==> At(y, r, 0) == 0.0
  {
    if i > 0 {
      ForwardZero(m, y, n, i - 1);
      ZeroProduct(m, y, i - 1);
    }
  }

  lemma ZeroProduct(m: Matrix, y: Matrix, i: nat)
    requires forall k: nat :: k < i ==> At(y, k, 0) == 0.0
    ensures Product(m, y, i, i, 0) == 0.0
  {
    var f := ProductTerms(m, y, i, 0);
    forall k: nat | k < i ensures f(k) == 0.0 {
      assert f(k) == At(m, i, k) * At(y, k, 0);
    }
    SumCut(f, 0, i);
  }

  // Going up: U w is zero, so w is.
  lemma {:induction false} BackwardZero(m: Matrix, w: Matrix, n: nat, k: nat)
    requires k <= n && PivotsOk(m, n, false) && forall r: nat :: r < n ==> Tail(ProductTerms(m, w, r, 0), r, n) == 0.0
    ensures forall r: nat :: k <= r < n ==> At(w, r, 0) == 0.0
    decreases n - k
  {
    if k < n {
      BackwardZero(m, w, n, k + 1);
      var f := ProductTerms(m, w, k, 0);
      TailZero(f, k + 1, n);
      assert Abs(At(m, k, k)) >= MATD_EPS;
      NoZeroDivisor(At(m, k, k), At(w, k, 0));
    }
  }

  lemma {:induction false} TailZero(f: nat -> real, lo: nat, n: nat)
    requires forall k: nat :: lo <= k < n ==> f(k) == 0.0
    ensures Tail(f, lo, n) == 0.0
    decreases n - lo
  {
    if lo < n {
      TailZero(f, lo + 1, n);
    }
  }

  lemma NoZeroDivisor(p: real, x: real)
    requires p != 0.0 && p * x == 0.0
    ensures x == 0.0
  {
  }

  lemma OnlyZeroToZero(a: Matrix, m: Matrix, piv: seq<nat>, inv: seq<nat>, w: Matrix)
    requires IsPlu(a, m, piv, inv, false)
    requires forall r: nat :: r < |piv| ==> Product(a, w, |piv|, r, 0) == 0.0
    ensures forall r: nat :: r < |piv| ==> At(w, r, 0) == 0.0
  {
    var n := |piv|;
    var y := UpperTimes(m, w, n);
    forall i: nat | i < n ensures At(y, i, 0) + Product(m, y, i, i, 0) == 0.0 {
      SubstitutionsSolve(a, m, piv, inv, false, y, w, i, 0);
    }
    ForwardZero(m, y, n, n);
    forall r: nat | r < n ensures Tail(ProductTerms(m, w, r, 0), r, n) == 0.0 {
      assert At(y, r, 0) == 0.0;
    }
    BackwardZero(m, w, n, 0);
  }
}
