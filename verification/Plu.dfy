/** matd_plu of common/matd.c in exact reals: in-place LU factorisation with row pivoting. A matrix under
  construction is an array of rows. */
module Plu {
  import opened Numbers
  import opened Permutations
  import opened Sums

  const MATD_EPS: real := 0.00000001

  type Row = seq<real>

  // How far entry (i, c) has come: untouched, reduced by the dot product, or divided by the pivot.
  datatype Stage = Raw | Reduced | Done

  // The entry of the permuted input that (i, c) stands for.
  ghost function Stands(m: Matrix, i: nat, c: nat, stage: Stage): real {
    match stage
    case Raw => At(m, i, c)
    case Reduced => Product(m, m, Min(i, c), i, c) + At(m, i, c)
    case Done => Product(m, m, Min(i, c), i, c) + (if i <= c then At(m, i, c) else At(m, i, c) * At(m, c, c))
  }

  // Column j has been reduced down to row r, and scaled below the diagonal down to row t.
  function StageOf(j: nat, r: nat, t: nat, i: nat, c: nat): Stage {
    if c < j then Done
    else if c > j || i >= r then Raw
    else if i <= j || i < t then Done else Reduced
  }

  ghost predicate CellOk(a: Matrix, m: Matrix, piv: seq<nat>, j: nat, r: nat, t: nat, i: nat, c: nat)
    requires i < |piv|
  {
    At(a, piv[i], c) == Stands(m, i, c, StageOf(j, r, t, i, c))
  }

  ghost predicate Factors(a: Matrix, m: Matrix, piv: seq<nat>, j: nat, r: nat, t: nat) {
    && IsMatrix(a, |piv|, |piv|) && IsMatrix(m, |piv|, |piv|)
    && forall i: nat, c: nat :: i < |piv| && c < |piv| ==> CellOk(a, m, piv, j, r, t, i, c)
  }

  // piv and inv are mutually inverse permutations.
  ghost predicate IsPermutation(piv: seq<nat>, inv: seq<nat>) {
    && |piv| == |inv|
    && (forall i :: 0 <= i < |piv| ==> piv[i] < |piv| && inv[piv[i]] == i)
    && (forall i :: 0 <= i < |inv| ==> inv[i] < |inv| && piv[inv[i]] == i)
  }

  // Columns before j: multipliers are at most one in size.
  ghost predicate MultipliersSmall(m: Matrix, n: nat, j: nat, t: nat) {
    forall i: nat, c: nat :: c < i < n && (c < j || (c == j && i < t)) ==> Abs(At(m, i, c)) <= 1.0
  }

  lemma StandsFrame(m: Matrix, m': Matrix, i: nat, c: nat, stage: Stage)
    requires At(m', i, c) == At(m, i, c)
    requires !stage.Raw? ==> forall k: nat :: k < Min(i, c) ==> At(m', i, k) == At(m, i, k) && At(m', k, c) == At(m, k, c)
    requires stage.Done? && i > c ==> At(m', c, c) == At(m, c, c)
    ensures Stands(m', i, c, stage) == Stands(m, i, c, stage)
  {
    if !stage.Raw? {
      SumExt(ProductTerms(m', m', i, c), ProductTerms(m, m, i, c), Min(i, c));
    }
  }

  // lu[r, j] -= the dot product
  lemma ReduceStep(a: Matrix, m: Matrix, piv: seq<nat>, j: nat, r: nat)
    requires Factors(a, m, piv, j, r, 0) && r < |piv| && j < |piv|
    ensures Factors(a, Set(m, r, j, m[r][j] - Product(m, m, Min(r, j), r, j)), piv, j, r + 1, 0)
  {
    var m' := Set(m, r, j, m[r][j] - Product(m, m, Min(r, j), r, j));
    var r' := r + 1;
    forall i: nat, c: nat | i < |piv| && c < |piv| ensures CellOk(a, m', piv, j, r', 0, i, c) {
      assert CellOk(a, m, piv, j, r, 0, i, c);
      if i == r && c == j {
        SumExt(ProductTerms(m', m', i, c), ProductTerms(m, m, i, c), Min(i, c));
      } else {
        StandsFrame(m, m', i, c, StageOf(j, r, 0, i, c));
      }
    }
  }

  // Exchanging rows j and p >= j
  lemma SwapStep(a: Matrix, m: Matrix, piv: seq<nat>, j: nat, p: nat)
    requires Factors(a, m, piv, j, |piv|, 0) && j <= p < |piv|
    ensures Factors(a, SwapRows(m, j, p), SwapRows(piv, j, p), j, |piv|, 0)
  {
    var m', piv' := SwapRows(m, j, p), SwapRows(piv, j, p);
    forall i: nat, c: nat | i < |piv'| && c < |piv'| ensures CellOk(a, m', piv', j, |piv|, 0, i, c) {
      var i' := if i == j then p else if i == p then j else i;
      assert CellOk(a, m, piv, j, |piv|, 0, i', c);
      SwapStands(m, j, p, i, i', c);
    }
  }

  // The rows above j stay where they are.
  lemma SwapProduct(m: Matrix, j: nat, p: nat, i: nat, i': nat, c: nat, n: nat)
    requires j <= p < |m| && i < |m| && i' == (if i == j then p else if i == p then j else i) && n <= j
    ensures Product(SwapRows(m, j, p), SwapRows(m, j, p), n, i, c) == Product(m, m, n, i', c)
  {
    var m' := SwapRows(m, j, p);
    var f, g := ProductTerms(m', m', i, c), ProductTerms(m, m, i', c);
    assert m'[i] == m[i'];
    forall k: nat | k < n ensures f(k) == g(k) {
      assert m'[k] == m[k];
    }
    SumExt(f, g, n);
  }

  lemma SwapStands(m: Matrix, j: nat, p: nat, i: nat, i': nat, c: nat)
    requires j <= p < |m| && i < |m| && i' == (if i == j then p else if i == p then j else i)
    ensures Stands(SwapRows(m, j, p), i, c, StageOf(j, |m|, 0, i, c)) == Stands(m, i', c, StageOf(j, |m|, 0, i', c))
  {
    if c <= j {
      assert Min(i, c) == Min(i', c) <= j;
      SwapProduct(m, j, p, i, i', c, Min(i, c));
    }
  }

  lemma PermutationSwap(piv: seq<nat>, inv: seq<nat>, p: nat, q: nat)
    requires IsPermutation(piv, inv) && p < |piv| && q < |piv|
    ensures IsPermutation(SwapRows(piv, p, q), inv[piv[p] := q][piv[q] := p])
  {
  }

  // lu[i, j] *= 1 / LUjj
  lemma ScaleStep(a: Matrix, m: Matrix, piv: seq<nat>, j: nat, t: nat, v: real, recip: real)
    requires Factors(a, m, piv, j, |piv|, t) && j < t < |piv|
    requires recip * At(m, j, j) == 1.0 && v == At(m, t, j) * recip
    ensures Factors(a, Set(m, t, j, v), piv, j, |piv|, t + 1)
  {
    var m', t' := Set(m, t, j, v), t + 1;
    DivideBack(At(m, t, j), At(m, j, j), recip);
    forall i: nat, c: nat | i < |piv| && c < |piv| ensures CellOk(a, m', piv, j, |piv|, t', i, c) {
      assert CellOk(a, m, piv, j, |piv|, t, i, c);
      if i == t && c == j {
        SumExt(ProductTerms(m', m', i, c), ProductTerms(m, m, i, c), Min(i, c));
      } else {
        StandsFrame(m, m', i, c, StageOf(j, |piv|, t, i, c));
      }
    }
  }

  lemma DivideBack(x: real, y: real, recip: real)
    requires recip * y == 1.0
    ensures x * recip * y == x
  {
  }

  // A zero pivot: nothing is left below it, so the unscaled column already stands for the product.
  lemma ZeroPivotStep(a: Matrix, m: Matrix, piv: seq<nat>, j: nat)
    requires Factors(a, m, piv, j, |piv|, 0) && j < |piv|
    requires forall i :: j <= i < |piv| ==> At(m, i, j) == 0.0
    ensures Factors(a, m, piv, j + 1, 0, 0)
  {
    var j' := j + 1;
    forall i: nat, c: nat | i < |piv| && c < |piv| ensures CellOk(a, m, piv, j', 0, 0, i, c) {
      assert CellOk(a, m, piv, j, |piv|, 0, i, c);
    }
  }

  lemma NextColumn(a: Matrix, m: Matrix, piv: seq<nat>, j: nat)
    requires Factors(a, m, piv, j, |piv|, |piv|) && j < |piv|
    ensures Factors(a, m, piv, j + 1, 0, 0)
  {
    var j' := j + 1;
    forall i: nat, c: nat | i < |piv| && c < |piv| ensures CellOk(a, m, piv, j', 0, 0, i, c) {
      assert CellOk(a, m, piv, j, |piv|, |piv|, i, c);
    }
  }

  // ---- The loops ----

  lemma AtSet(m: Matrix, i: nat, j: nat, v: real)
    requires i < |m| && j < |m[i]|
    ensures forall i': nat, j': nat :: At(Set(m, i, j, v), i', j') == if i' == i && j' == j then v else At(m, i', j')
  {
  }

  // The dot product of row i with column j.
  method Dot(lu: array<Row>, i: nat, j: nat, kmax: nat) returns (acc: real)
    requires IsMatrix(lu[..], lu.Length, lu.Length) && i < lu.Length && j < lu.Length && kmax <= Min(i, j)
    ensures acc == Product(lu[..], lu[..], kmax, i, j)
  {
    acc := 0.0;
    for k := 0 to kmax
      invariant acc == Product(lu[..], lu[..], k, i, j)
    {
      acc := acc + lu[i][k] * lu[k][j];
    }
  }

  method ReduceColumn(ghost a: Matrix, lu: array<Row>, ghost piv: seq<nat>, j: nat)
    requires j < lu.Length == |piv| && Factors(a, lu[..], piv, j, 0, 0) && MultipliersSmall(lu[..], |piv|, j, 0)
    modifies lu
    ensures Factors(a, lu[..], piv, j, |piv|, 0) && MultipliersSmall(lu[..], |piv|, j, 0)
    ensures forall c :: 0 <= c < j ==> At(lu[..], c, c) == old(At(lu[..], c, c))
  {
    for i := 0 to lu.Length
      invariant Factors(a, lu[..], piv, j, i, 0) && MultipliersSmall(lu[..], |piv|, j, 0)
      invariant forall c :: 0 <= c < j ==> At(lu[..], c, c) == old(At(lu[..], c, c))
    {
      ghost var m := lu[..];
      var kmax := if i < j then i else j;
      var acc := Dot(lu, i, j, kmax);
      ReduceStep(a, m, piv, j, i);
      lu[i] := lu[i][j := lu[i][j] - acc];
      assert lu[i] == m[i][j := m[i][j] - acc];
      assert lu[..] == Set(m, i, j, m[i][j] - acc);
      AtSet(m, i, j, m[i][j] - acc);
    }
  }

  // The row at or below j with the largest entry in column j.
  method FindPivot(lu: array<Row>, j: nat) returns (p: nat)
    requires IsMatrix(lu[..], lu.Length, lu.Length) && j < lu.Length
    ensures j <= p < lu.Length
    ensures forall i :: j <= i < lu.Length ==> Abs(lu[i][j]) <= Abs(lu[p][j])
  {
    p := j;
    for i := j + 1 to lu.Length
      invariant j <= p < lu.Length
      invariant forall i' :: j <= i' < i ==> Abs(lu[i'][j]) <= Abs(lu[p][j])
    {
      if Abs(lu[i][j]) > Abs(lu[p][j]) {
        p := i;
      }
    }
  }

  method ScaleEntry(ghost a: Matrix, lu: array<Row>, ghost piv: seq<nat>, j: nat, i: nat, recip: real)
    requires j < i < lu.Length == |piv|
    requires Factors(a, lu[..], piv, j, |piv|, i) && MultipliersSmall(lu[..], |piv|, j, i)
    requires recip * At(lu[..], j, j) == 1.0 && Abs(At(lu[..], i, j)) <= Abs(At(lu[..], j, j))
    modifies lu
    ensures Factors(a, lu[..], piv, j, |piv|, i + 1) && MultipliersSmall(lu[..], |piv|, j, i + 1)
    ensures forall i', c: nat :: 0 <= i' && (i' != i || c != j) ==> At(lu[..], i', c) == old(At(lu[..], i', c))
  {
    ghost var m := lu[..];
    var v := lu[i][j] * recip;
    QuotientSmall(At(m, i, j), At(m, j, j), recip);
    ScaleStep(a, m, piv, j, i, v, recip);
    lu[i] := lu[i][j := v];
    assert lu[..] == Set(m, i, j, v);
    AtSet(m, i, j, v);
  }

  method ScaleColumn(ghost a: Matrix, lu: array<Row>, ghost piv: seq<nat>, j: nat)
    requires j < lu.Length == |piv| && Factors(a, lu[..], piv, j, |piv|, 0) && MultipliersSmall(lu[..], |piv|, j, 0)
    requires lu[j][j] != 0.0
    requires forall i :: j <= i < lu.Length ==> Abs(At(lu[..], i, j)) <= Abs(At(lu[..], j, j))
    modifies lu
    ensures Factors(a, lu[..], piv, j + 1, 0, 0) && MultipliersSmall(lu[..], |piv|, j + 1, 0)
    ensures forall c :: 0 <= c <= j ==> At(lu[..], c, c) == old(At(lu[..], c, c))
  {
    var LUjj := lu[j][j];
    ghost var n := |piv|;
    StartScaling(a, lu[..], piv, j);
    LUjj := 1.0 / LUjj;
    for i := j + 1 to lu.Length
      invariant Factors(a, lu[..], piv, j, n, i) && MultipliersSmall(lu[..], n, j, i)
      invariant LUjj * At(lu[..], j, j) == 1.0
      invariant forall i': nat :: i <= i' < lu.Length ==> Abs(At(lu[..], i', j)) <= Abs(At(lu[..], j, j))
      invariant forall c :: 0 <= c <= j ==> At(lu[..], c, c) == old(At(lu[..], c, c))
    {
      ScaleEntry(a, lu, piv, j, i, LUjj);
    }
    NextColumn(a, lu[..], piv, j);
  }

  lemma StartScaling(a: Matrix, m: Matrix, piv: seq<nat>, j: nat)
    requires Factors(a, m, piv, j, |piv|, 0) && j < |piv|
    ensures Factors(a, m, piv, j, |piv|, j + 1)
  {
    var t := j + 1;
    forall i: nat, c: nat | i < |piv| && c < |piv| ensures CellOk(a, m, piv, j, |piv|, t, i, c) {
      assert CellOk(a, m, piv, j, |piv|, 0, i, c);
    }
  }

  lemma QuotientSmall(x: real, y: real, recip: real)
    requires recip * y == 1.0 && Abs(x) <= Abs(y)
    ensures Abs(x * recip) <= 1.0
  {
    DivideBack(x, y, recip);
    var q := x * recip;
    assert q * y == x;
    AbsMul(q, y);
    ProductBelow(Abs(q), Abs(y), Abs(x));
    CancelFactor(Abs(q), Abs(y));
  }

  lemma ProductBelow(p: real, y: real, x: real)
    requires p * y == x && x <= y
    ensures p * y <= y
  {
  }

  lemma AbsMul(x: real, y: real)
    ensures Abs(x * y) == Abs(x) * Abs(y)
  {
  }

  lemma CancelFactor(p: real, y: real)
    requires y > 0.0 && p * y <= y
    ensures p <= 1.0
  {
    assert p * y - y == (p - 1.0) * y;
  }

  // The flag is raised exactly when one of the first j pivots is too small.
  ghost predicate PivotsOk(m: Matrix, j: nat, singular: bool) {
    !singular <==> forall c: nat :: c < j ==> Abs(At(m, c, c)) >= MATD_EPS
  }

  lemma PivotsNext(m: Matrix, j: nat, singular: bool)
    requires PivotsOk(m, j, singular)
    ensures PivotsOk(m, j + 1, singular || Abs(At(m, j, j)) < MATD_EPS)
  {
  }

  // The result of matd_plu for input a: a permutation with A[piv[i], j] = sum_k L[i, k] U[k, j] packed into lu.
  ghost predicate IsPlu(a: Matrix, m: Matrix, piv: seq<nat>, inv: seq<nat>, singular: bool) {
    && IsPermutation(piv, inv) && Factors(a, m, piv, |piv|, 0, 0)
    && MultipliersSmall(m, |piv|, |piv|, 0) && PivotsOk(m, |piv|, singular)
  }

  lemma SwapKeepsEntries(m: Matrix, n: nat, j: nat, p: nat, singular: bool)
    requires IsMatrix(m, n, n) && j <= p < n && MultipliersSmall(m, n, j, 0) && PivotsOk(m, j, singular)
    ensures MultipliersSmall(SwapRows(m, j, p), n, j, 0) && PivotsOk(SwapRows(m, j, p), j, singular)
  {
    var m' := SwapRows(m, j, p);
    forall i: nat, c: nat | c < i < n && c < j ensures Abs(At(m', i, c)) <= 1.0 {
      var i' := if i == j then p else if i == p then j else i;
      assert At(m', i, c) == At(m, i', c);
    }
    forall c: nat | c < j ensures At(m', c, c) == At(m, c, c) {
    }
  }

  lemma InitialFactors(a: Matrix, piv: seq<nat>)
    requires IsMatrix(a, |piv|, |piv|) && forall i :: 0 <= i < |piv| ==> piv[i] == i
    ensures Factors(a, a, piv, 0, 0, 0)
  {
    forall i: nat, c: nat | i < |piv| && c < |piv| ensures CellOk(a, a, piv, 0, 0, 0, i, c) {
    }
  }

  lemma PivotSign(piv: seq<nat>, inv: seq<nat>, j: nat, p: nat)
    requires IsPermutation(piv, inv) && j <= p < |piv|
    ensures Sign(SwapRows(piv, j, p)) == if p != j then -Sign(piv) else Sign(piv)
  {
    if p != j {
      SwapFlips(piv, j, p);
    } else {
      assert SwapRows(piv, j, p) == piv;
    }
  }

  // Brings the largest entry of column j at or below the diagonal onto the diagonal.
  method PivotColumn(ghost a: Matrix, lu: array<Row>, piv: array<nat>, j: nat, pivsign: int, ghost inv: seq<nat>,
                     ghost singular: bool)
    returns (pivsign': int, ghost inv': seq<nat>)
    requires j < lu.Length == piv.Length && IsPermutation(piv[..], inv) && Factors(a, lu[..], piv[..], j, lu.Length, 0)
    requires MultipliersSmall(lu[..], lu.Length, j, 0) && PivotsOk(lu[..], j, singular) && pivsign == Sign(piv[..])
    modifies lu, piv
    ensures IsPermutation(piv[..], inv') && Factors(a, lu[..], piv[..], j, lu.Length, 0)
    ensures MultipliersSmall(lu[..], lu.Length, j, 0) && PivotsOk(lu[..], j, singular)
    ensures forall i :: j <= i < lu.Length ==> Abs(At(lu[..], i, j)) <= Abs(At(lu[..], j, j))
    ensures pivsign' == Sign(piv[..])
  {
    var p := FindPivot(lu, j);
    ghost var m, q := lu[..], piv[..];
    SwapStep(a, m, q, j, p);
    PermutationSwap(q, inv, j, p);
    SwapKeepsEntries(m, lu.Length, j, p, singular);
    inv' := inv[q[j] := p][q[p] := j];
    if p != j {
      lu[p], lu[j] := lu[j], lu[p];
      piv[p], piv[j] := piv[j], piv[p];
    }
    pivsign' := if p != j then -pivsign else pivsign;
    assert lu[..] == SwapRows(m, j, p) && piv[..] == SwapRows(q, j, p);
    PivotSign(q, inv, j, p);
  }

  // Divides the column below the pivot, unless the pivot is zero.
  method FinishColumn(ghost a: Matrix, lu: array<Row>, ghost piv: seq<nat>, j: nat, ghost singular: bool)
    requires j < lu.Length == |piv| && Factors(a, lu[..], piv, j, |piv|, 0) && MultipliersSmall(lu[..], |piv|, j, 0)
    requires PivotsOk(lu[..], j + 1, singular)
    requires forall i :: j <= i < lu.Length ==> Abs(At(lu[..], i, j)) <= Abs(At(lu[..], j, j))
    modifies lu
    ensures Factors(a, lu[..], piv, j + 1, 0, 0) && MultipliersSmall(lu[..], |piv|, j + 1, 0)
    ensures PivotsOk(lu[..], j + 1, singular)
  {
    if lu[j][j] != 0.0 {
      ScaleColumn(a, lu, piv, j);
    } else {
      ZeroPivotStep(a, lu[..], piv, j);
      ZeroMultipliers(lu[..], |piv|, j);
    }
  }

  // The state after the first j columns.
  ghost predicate ColumnsDone(a: Matrix, m: Matrix, piv: seq<nat>, inv: seq<nat>, pivsign: int, j: nat, singular: bool) {
    && IsPermutation(piv, inv) && Factors(a, m, piv, j, 0, 0)
    && MultipliersSmall(m, |piv|, j, 0) && PivotsOk(m, j, singular) && pivsign == Sign(piv)
  }

  // The body of the loop over the columns.
  method NextColumnDone(ghost a: Matrix, lu: array<Row>, piv: array<nat>, j: nat, pivsign: int, singular: bool, ghost inv: seq<nat>)
    returns (pivsign': int, singular': bool, ghost inv': seq<nat>)
    requires j < lu.Length == piv.Length && ColumnsDone(a, lu[..], piv[..], inv, pivsign, j, singular)
    modifies lu, piv
    ensures ColumnsDone(a, lu[..], piv[..], inv', pivsign', j + 1, singular')
  {
    ReduceColumn(a, lu, piv[..], j);
    pivsign', inv' := PivotColumn(a, lu, piv, j, pivsign, inv, singular);
    PivotsNext(lu[..], j, singular);
    singular' := singular || Abs(lu[j][j]) < MATD_EPS;
    FinishColumn(a, lu, piv[..], j, singular');
  }

  // matd_plu; also for singular matrices.
  method Factorise(a: Matrix) returns (lu: array<Row>, piv: array<nat>, pivsign: int, singular: bool, ghost inv: seq<nat>)
    requires IsMatrix(a, |a|, |a|)
    ensures fresh(lu) && fresh(piv) && lu.Length == piv.Length == |a|
    ensures IsPlu(a, lu[..], piv[..], inv, singular) && pivsign == Sign(piv[..])
  {
    piv := new nat[|a|](i => i);
    pivsign := 1;
    lu := new Row[|a|](i requires 0 <= i < |a| => a[i]);
    singular := false;
    inv := piv[..];
    assert lu[..] == a;
    InitialFactors(a, piv[..]);
    SortedHasNone(piv[..]);
    for j := 0 to |a|
      invariant lu.Length == piv.Length == |a| && fresh(lu) && fresh(piv)
      invariant ColumnsDone(a, lu[..], piv[..], inv, pivsign, j, singular)
    {
      pivsign, singular, inv := NextColumnDone(a, lu, piv, j, pivsign, singular, inv);
    }
  }

  lemma ZeroMultipliers(m: Matrix, n: nat, j: nat)
    requires MultipliersSmall(m, n, j, 0) && j < n && forall i :: j <= i < n ==> At(m, i, j) == 0.0
    ensures MultipliersSmall(m, n, j + 1, 0)
  {
  }
}
