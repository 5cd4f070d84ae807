/** The Gaussian elimination with partial pivoting of homography_compute2 in apriltag.c, in exact reals: what its result
  says about the system, and what it says when it gives up. */
module Elimination {
  import opened Permutations
  import opened Sums
  import opened Wrappers
  import opened Plu
  import opened PluSolve

  const EPSILON: real := 0.0000000001

  // ---- Linear systems: n equations, the right-hand side in column n ----

  ghost function RowTerms(m: Matrix, i: nat, x: Row): nat -> real {
    (k: nat) => At(m, i, k) * (if k < |x| then x[k] else 0.0)
  }

  ghost predicate SolvesRow(m: Matrix, n: nat, x: Row, i: nat) {
    Sum(RowTerms(m, i, x), n) == At(m, i, n)
  }

  ghost predicate Solves(m: Matrix, n: nat, x: Row) {
    |x| == n && forall i: nat :: i < n ==> SolvesRow(m, n, x, i)
  }

  ghost predicate SameSolutions(m: Matrix, m': Matrix, n: nat) {
    forall x: Row :: Solves(m, n, x) <==> Solves(m', n, x)
  }

  // Nothing below the diagonal in the first col columns.
  ghost predicate Cleared(m: Matrix, n: nat, col: nat) {
    forall i: nat, j: nat :: j < col && j < i < n ==> At(m, i, j) == 0.0
  }

  ghost predicate PivotsNonZero(m: Matrix, col: nat) {
    forall k: nat :: k < col ==> At(m, k, k) != 0.0
  }

  lemma SwapKeepsSolutions(m: Matrix, n: nat, p: nat, q: nat)
    requires IsMatrix(m, n, n + 1) && p < n && q < n
    ensures SameSolutions(m, SwapRows(m, p, q), n)
  {
    var m' := SwapRows(m, p, q);
    forall x: Row ensures Solves(m, n, x) <==> Solves(m', n, x) {
      forall i: nat | i < n
        ensures SolvesRow(m', n, x, i) == SolvesRow(m, n, x, if i == p then q else if i == q then p else i)
      {
        var i' := if i == p then q else if i == q then p else i;
        SumExt(RowTerms(m', i, x), RowTerms(m, i', x), n);
      }
      if Solves(m, n, x) {
        forall i: nat | i < n ensures SolvesRow(m', n, x, i) {
          assert SolvesRow(m, n, x, if i == p then q else if i == q then p else i);
        }
      }
      if Solves(m', n, x) {
        forall i: nat | i < n ensures SolvesRow(m, n, x, i) {
          assert SolvesRow(m', n, x, if i == p then q else if i == q then p else i);
        }
      }
    }
  }

  // Subtracting a multiple of one row from another.
  lemma SubtractKeepsSolutions(m: Matrix, n: nat, i: nat, k: nat, f: real)
    requires IsMatrix(m, n, n + 1) && i < n && k < n && i != k
    ensures SameSolutions(m, m[i := AddScaled(m[i], m[k], -f)], n)
  {
    var m' := m[i := AddScaled(m[i], m[k], -f)];
    forall x: Row ensures Solves(m, n, x) <==> Solves(m', n, x) {
      forall r: nat | r < n && r != i ensures SolvesRow(m', n, x, r) == SolvesRow(m, n, x, r) {
        SumExt(RowTerms(m', r, x), RowTerms(m, r, x), n);
      }
      SubtractRow(m, n, i, k, f, x);
      assert SolvesRow(m', n, x, k) == SolvesRow(m, n, x, k);
    }
  }

  // Where row k holds, row i holds with and without the multiple of row k.
  lemma SubtractRow(m: Matrix, n: nat, i: nat, k: nat, f: real, x: Row)
    requires IsMatrix(m, n, n + 1) && i < n && k < n && i != k
    ensures SolvesRow(m, n, x, k) ==> (SolvesRow(m[i := AddScaled(m[i], m[k], -f)], n, x, i) <==> SolvesRow(m, n, x, i))
  {
    var m' := m[i := AddScaled(m[i], m[k], -f)];
    var sum, sum', other := Sum(RowTerms(m, i, x), n), Sum(RowTerms(m', i, x), n), Sum(RowTerms(m, k, x), n);
    SubtractSum(m, n, i, k, f, x);
    assert At(m', i, n) == At(m, i, n) + -f * At(m, k, n);
    SameMultiple(sum, sum', other, At(m, i, n), At(m', i, n), At(m, k, n), -f);
  }

  lemma SubtractSum(m: Matrix, n: nat, i: nat, k: nat, f: real, x: Row)
    requires IsMatrix(m, n, n + 1) && i < n && k < n && i != k
    ensures Sum(RowTerms(m[i := AddScaled(m[i], m[k], -f)], i, x), n)
         == Sum(RowTerms(m, i, x), n) + -f * Sum(RowTerms(m, k, x), n)
  {
    var m' := m[i := AddScaled(m[i], m[k], -f)];
    var mine, mine', theirs := RowTerms(m, i, x), RowTerms(m', i, x), RowTerms(m, k, x);
    SumScale(theirs, -f, n);
    SumAdd(mine, Scaled(theirs, -f), n);
    forall j: nat | j < n ensures mine'(j) == Added(mine, Scaled(theirs, -f))(j) {
      SubtractTerm(m, n, i, k, f, x, j);
    }
    SumExt(mine', Added(mine, Scaled(theirs, -f)), n);
  }

  lemma SubtractTerm(m: Matrix, n: nat, i: nat, k: nat, f: real, x: Row, j: nat)
    requires IsMatrix(m, n, n + 1) && i < n && k < n && j < n
    ensures RowTerms(m[i := AddScaled(m[i], m[k], -f)], i, x)(j) == RowTerms(m, i, x)(j) + -f * RowTerms(m, k, x)(j)
  {
    ScaledTerm(At(m, i, j), At(m, k, j), -f, if j < |x| then x[j] else 0.0);
  }

  lemma ScaledTerm(a: real, b: real, f: real, x: real)
    ensures (a + f * b) * x == a * x + f * (b * x)
  {
  }

  lemma SameMultiple(sum: real, sum': real, other: real, a: real, a': real, b: real, f: real)
    requires sum' == sum + f * other && a' == a + f * b
    ensures other == b ==> (sum' == a' <==> sum == a)
  {
  }

  lemma SameSolutionsTrans(a: Matrix, b: Matrix, c: Matrix, n: nat)
    requires SameSolutions(a, b, n) && SameSolutions(b, c, n)
    ensures SameSolutions(a, c, n)
  {
  }

  // In a triangular system only the terms from the diagonal on are left.
  lemma TriangularRow(m: Matrix, n: nat, x: Row, k: nat)
    requires Cleared(m, n, n) && k < n && |x| == n
    ensures SolvesRow(m, n, x, k) <==> At(m, k, n) == Tail(RowTerms(m, k, x), k, n)
  {
    var f := RowTerms(m, k, x);
    TermsBeforeVanish(m, n, x, k);
    SumSplit(f, k, n);
    SumCut(f, 0, k);
  }

  lemma TermsBeforeVanish(m: Matrix, n: nat, x: Row, k: nat)
    requires Cleared(m, n, n) && k < n
    ensures forall j: nat :: j < k ==> RowTerms(m, k, x)(j) == 0.0
  {
    forall j: nat | j < k ensures RowTerms(m, k, x)(j) == 0.0 {
      assert At(m, k, j) == 0.0;
    }
  }

  // A triangular system with non-zero pivots has at most one solution.
  lemma {:induction false} TriangularUnique(m: Matrix, n: nat, x: Row, z: Row, k: nat)
    requires Cleared(m, n, n) && PivotsNonZero(m, n) && Solves(m, n, x) && Solves(m, n, z) && k <= n
    ensures forall i :: k <= i < n ==> x[i] == z[i]
    decreases n - k
  {
    if k < n {
      TriangularUnique(m, n, x, z, k + 1);
      assert SolvesRow(m, n, x, k) && SolvesRow(m, n, z, k);
      TriangularRow(m, n, x, k);
      TriangularRow(m, n, z, k);
      TailExt(RowTerms(m, k, x), RowTerms(m, k, z), k + 1, n);
      SameHead(RowTerms(m, k, x), RowTerms(m, k, z), k, n);
      var u := RowTerms(m, k, x)(k);
      assert u == At(m, k, k) * x[k];
      assert u == At(m, k, k) * z[k];
      CancelPivot(At(m, k, k), x[k], z[k], u);
    }
  }

  lemma SameHead(f: nat -> real, g: nat -> real, k: nat, n: nat)
    requires k < n && Tail(f, k, n) == Tail(g, k, n) && Tail(f, k + 1, n) == Tail(g, k + 1, n)
    ensures f(k) == g(k)
  {
  }

  lemma CancelPivot(p: real, x: real, z: real, u: real)
    requires p != 0.0 && p * x == u && p * z == u
    ensures x == z
  {
    assert p * (x - z) == 0.0;
  }

  // ---- The elimination ----

  // abort: the assertion on the pivot index fails; NULL: the pivot is too small.
  datatype Outcome<+T> = Aborted | Singular | Ok(value: T)

  predicate SameKind<S, T>(a: Outcome<S>, b: Outcome<T>) {
    (a.Aborted? <==> b.Aborted?) && (a.Singular? <==> b.Singular?)
  }

  ghost predicate ZeroColumn(m: Matrix, n: nat, col: nat) {
    forall row: nat :: col <= row < n ==> At(m, row, col) == 0.0
  }

  // The first of the rows col .. row with the largest entry in column col.
  ghost function Best(m: Matrix, col: nat, row: nat): (b: nat)
    requires col <= row
    ensures col <= b <= row
    decreases row
  {
    if row == col then col
    else
      var b := Best(m, col, row - 1);
      if Abs(At(m, row, col)) > Abs(At(m, b, col)) then row else b
  }

  // Row u without the multiple of row v that clears its entry in column col.
  ghost function Minus(u: Row, v: Row, col: nat): Row
    requires |u| == |v| && col < |v| && v[col] != 0.0
  {
    AddScaled(u, v, -(u[col] / v[col]))
  }

  // The entry that column col offers for a pivot.
  ghost function Pivot(m: Matrix, n: nat, col: nat): real
    requires col < n
  {
    At(m, Best(m, col, n - 1), col)
  }

  // One round on the values: the best row is exchanged with row col and taken from the later ones.
  ghost function Round(m: Matrix, n: nat, col: nat): (r: Matrix)
    requires IsMatrix(m, n, n + 1) && col < n && Pivot(m, n, col) != 0.0
    ensures IsMatrix(r, n, n + 1)
  {
    Below(SwapRows(m, col, Best(m, col, n - 1)), n, col)
  }

  ghost function Below(s: Matrix, n: nat, col: nat): (r: Matrix)
    requires IsMatrix(s, n, n + 1) && col < n && At(s, col, col) != 0.0
    ensures IsMatrix(r, n, n + 1)
    ensures forall i :: 0 <= i < n ==> r[i] == if i <= col then s[i] else Minus(s[i], s[col], col)
  {
    seq(n, i requires 0 <= i < n => if i <= col then s[i] else Minus(s[i], s[col], col))
  }

  // Where the rounds from column col on stop: behind the last column, or at one whose best pivot is too small.
  ghost function Stop(m: Matrix, n: nat, col: nat): (at: (nat, Matrix))
    requires IsMatrix(m, n, n + 1) && col <= n
    ensures col <= at.0 <= n && IsMatrix(at.1, n, n + 1) && (at.0 < n ==> Abs(Pivot(at.1, n, at.0)) < EPSILON)
    decreases n - col
  {
    if col == n || Abs(Pivot(m, n, col)) < EPSILON then (col, m) else Stop(Round(m, n, col), n, col + 1)
  }

  // What they come to: a triangular matrix, a column with no pivot at all, or one with a pivot that is too small.
  ghost function Fate(m: Matrix, n: nat): Outcome<Matrix>
    requires IsMatrix(m, n, n + 1)
  {
    var (col, m') := Stop(m, n, 0);
    if col == n then Ok(m') else if ZeroColumn(m', n, col) then Aborted else Singular
  }

  lemma {:induction false} BestIsLargest(m: Matrix, col: nat, row: nat)
    requires col <= row
    ensures forall r: nat :: col <= r <= row ==> Abs(At(m, r, col)) <= Abs(At(m, Best(m, col, row), col))
    decreases row
  {
    if col < row {
      BestIsLargest(m, col, row - 1);
    }
  }

  // In the column where they stop too early every entry is too small.
  lemma StopsAtSmallColumn(m: Matrix, n: nat)
    requires IsMatrix(m, n, n + 1)
    ensures var (col, m') := Stop(m, n, 0); col < n ==> SmallColumn(m', n, col)
  {
    var (col, m') := Stop(m, n, 0);
    if col < n {
      BestIsLargest(m', col, n - 1);
    }
  }

  ghost predicate SmallColumn(m: Matrix, n: nat, col: nat) {
    forall row: nat :: col <= row < n ==> Abs(At(m, row, col)) < EPSILON
  }

  method BestRow(A: array<Row>, n: nat, col: nat) returns (max_val: real, max_val_idx: int)
    requires A.Length == n && IsMatrix(A[..], n, n + 1) && col < n
    ensures max_val_idx == -1 || max_val_idx == Best(A[..], col, n - 1)
    ensures max_val == Abs(Pivot(A[..], n, col)) && (max_val_idx == -1 <==> max_val == 0.0)
    ensures forall row :: col <= row < n ==> Abs(A[row][col]) <= max_val
  {
    max_val, max_val_idx := 0.0, -1;
    ghost var m, best := A[..], col;
    for row := col to n
      invariant row > col ==> best == Best(m, col, row - 1)
      invariant row == col ==> max_val == 0.0
      invariant row > col ==> max_val == Abs(At(m, best, col))
      invariant max_val_idx == -1 <==> max_val == 0.0
      invariant max_val_idx == -1 || max_val_idx == best
      invariant forall r :: col <= r < row ==> Abs(A[r][col]) <= max_val
    {
      var val := Abs(A[row][col]);
      assert val == Abs(At(m, row, col));
      best := Best(m, col, row);
      if val > max_val {
        max_val := val;
        max_val_idx := row;
      }
    }
  }

  // Exchanges the entries from column col on; the earlier ones are zero in both rows.
  method SwapFrom(A: array<Row>, n: nat, col: nat, p: nat)
    requires A.Length == n && IsMatrix(A[..], n, n + 1) && col < p < n && Cleared(A[..], n, col)
    modifies A
    ensures A[..] == SwapRows(old(A[..]), col, p)
  {
    ghost var u, v := A[col], A[p];
    forall j: nat | j < col ensures u[j] == v[j] {
      assert At(A[..], col, j) == 0.0 && At(A[..], p, j) == 0.0;
    }
    for i := col to n + 1
      invariant |A[col]| == |A[p]| == n + 1
      invariant forall r :: 0 <= r < n && r != col && r != p ==> A[r] == old(A[r])
      invariant forall j :: 0 <= j < n + 1 ==> A[col][j] == (if j < i then v[j] else u[j])
      invariant forall j :: 0 <= j < n + 1 ==> A[p][j] == (if j < i then u[j] else v[j])
    {
      var tmp := A[col][i];
      A[col] := A[col][i := A[p][i]];
      A[p] := A[p][i := tmp];
    }
    assert A[col] == v && A[p] == u;
  }

  // Subtracting entry by entry from column col on subtracts the whole row, which is zero before.
  lemma RowCleared(r: Row, u: Row, v: Row, col: nat, f: real)
    requires |r| == |u| == |v| && col < |u| && f * v[col] == u[col] && forall k: nat :: k < col ==> v[k] == 0.0
    requires forall k: nat :: k < |u| ==> r[k] == if k == col then 0.0 else if col < k then u[k] - f * v[k] else u[k]
    ensures r == AddScaled(u, v, -f)
  {
    forall k: nat | k < |u| ensures r[k] == AddScaled(u, v, -f)[k] {
      EntryCleared(u[k], v[k], f);
    }
  }

  lemma EntryCleared(u: real, v: real, f: real)
    ensures u + v * -f == u - f * v
  {
  }

  // Clears the entry of row i in column col.
  method EliminateRow(A: array<Row>, n: nat, col: nat, i: nat)
    requires A.Length == n && IsMatrix(A[..], n, n + 1) && col < i < n && Cleared(A[..], n, col)
    requires At(A[..], col, col) != 0.0
    modifies A
    ensures IsMatrix(A[..], n, n + 1) && SameSolutions(old(A[..]), A[..], n) && Cleared(A[..], n, col)
    ensures At(A[..], i, col) == 0.0 && A[i] == Minus(old(A[i]), old(A[col]), col)
    ensures forall r: nat :: r < n && r != i ==> A[r] == old(A[r])
  {
    ghost var m, u := A[..], A[i];
    var f := A[i][col] / A[col][col];
    assert f * A[col][col] == A[i][col];
    A[i] := A[i][col := 0.0];
    for j := col + 1 to n + 1
      invariant |A[i]| == n + 1
      invariant forall r :: 0 <= r < n && r != i ==> A[r] == m[r]
      invariant forall k: nat :: k < n + 1 ==>
        A[i][k] == if k == col then 0.0 else if col < k < j then u[k] - f * m[col][k] else u[k]
    {
      A[i] := A[i][j := A[i][j] - f * A[col][j]];
    }
    forall k: nat | k < col ensures m[col][k] == 0.0 {
      assert At(m, col, k) == 0.0;
    }
    RowCleared(A[i], u, m[col], col, f);
    assert A[..] == m[i := AddScaled(u, m[col], -f)];
    SubtractKeepsSolutions(m, n, i, col, f);
    forall r: nat, j: nat | j < col && j < r < n ensures At(A[..], r, j) == 0.0 {
      assert At(m, r, j) == 0.0 && At(m, col, j) == 0.0;
    }
  }

  // Clears column col below the diagonal.
  method EliminateColumn(A: array<Row>, n: nat, col: nat)
    requires A.Length == n && IsMatrix(A[..], n, n + 1) && col < n && Cleared(A[..], n, col)
    requires PivotsNonZero(A[..], col + 1)
    modifies A
    ensures IsMatrix(A[..], n, n + 1) && SameSolutions(old(A[..]), A[..], n)
    ensures Cleared(A[..], n, col + 1) && PivotsNonZero(A[..], col + 1)
    ensures old(At(A[..], col, col)) != 0.0 && A[..] == Below(old(A[..]), n, col)
  {
    ghost var m := A[..];
    assert At(m, col, col) != 0.0;
    for i := col + 1 to n
      invariant IsMatrix(A[..], n, n + 1) && SameSolutions(m, A[..], n) && Cleared(A[..], n, col)
      invariant forall r :: 0 <= r <= col || i <= r < n ==> A[r] == m[r]
      invariant forall r :: col < r < i ==> A[r] == Minus(m[r], m[col], col)
      invariant forall r: nat :: col < r < i ==> At(A[..], r, col) == 0.0
    {
      ghost var before := A[..];
      assert At(before, col, col) == At(m, col, col) != 0.0;
      EliminateRow(A, n, col, i);
      SameSolutionsTrans(m, before, A[..], n);
      forall r: nat | col < r < i ensures At(A[..], r, col) == 0.0 {
        assert At(before, r, col) == 0.0 && A[r] == before[r];
      }
    }
    forall k: nat | k < col + 1 ensures At(A[..], k, k) != 0.0 {
      assert At(m, k, k) != 0.0;
    }
  }

  lemma SwapKeepsCleared(m: Matrix, n: nat, col: nat, p: nat)
    requires IsMatrix(m, n, n + 1) && Cleared(m, n, col) && PivotsNonZero(m, col) && col <= p < n
    requires At(m, p, col) != 0.0
    ensures Cleared(SwapRows(m, col, p), n, col) && PivotsNonZero(SwapRows(m, col, p), col + 1)
  {
    var m' := SwapRows(m, col, p);
    forall i: nat, j: nat | j < col && j < i < n ensures At(m', i, j) == 0.0 {
      assert At(m, if i == col then p else if i == p then col else i, j) == 0.0;
    }
    forall k: nat | k < col + 1 ensures At(m', k, k) != 0.0 {
      if k < col {
        assert At(m, k, k) != 0.0;
      }
    }
  }

  // One round of the elimination loop, or the way it stops.
  method EliminationRound(A: array<Row>, n: nat, col: nat) returns (outcome: Outcome<()>)
    requires A.Length == n && IsMatrix(A[..], n, n + 1) && col < n
    requires Cleared(A[..], n, col) && PivotsNonZero(A[..], col)
    modifies A
    ensures IsMatrix(A[..], n, n + 1)
    ensures Stop(old(A[..]), n, col) == if outcome.Ok? then Stop(A[..], n, col + 1) else (col, old(A[..]))
    ensures !outcome.Ok? ==> (outcome.Aborted? <==> ZeroColumn(old(A[..]), n, col))
    ensures outcome.Ok? ==> SameSolutions(old(A[..]), A[..], n) && Cleared(A[..], n, col + 1) && PivotsNonZero(A[..], col + 1)
  {
    ghost var m := A[..];
    var max_val, max_val_idx := BestRow(A, n, col);
    if max_val_idx < 0 {
      assert ZeroColumn(m, n, col);
      return Aborted;
    }
    if max_val < EPSILON {
      assert At(m, Best(m, col, n - 1), col) != 0.0;
      return Singular;
    }
    SwapKeepsSolutions(m, n, col, max_val_idx);
    SwapKeepsCleared(m, n, col, max_val_idx);
    if max_val_idx != col {
      SwapFrom(A, n, col, max_val_idx);
    }
    assert A[..] == SwapRows(m, col, max_val_idx);
    ghost var swapped := A[..];
    EliminateColumn(A, n, col);
    SameSolutionsTrans(m, swapped, A[..], n);
    return Ok(());
  }

  // The first loop: an upper triangular system with the same solutions, or a reason why there is none.
  method Eliminate(A: array<Row>, n: nat) returns (outcome: Outcome<()>)
    requires A.Length == n && IsMatrix(A[..], n, n + 1)
    modifies A
    ensures IsMatrix(A[..], n, n + 1)
    ensures SameKind(outcome, Fate(old(A[..]), n)) && (outcome.Ok? ==> Fate(old(A[..]), n) == Ok(A[..]))
    ensures outcome.Aborted? ==> NeverUnique(old(A[..]), n)
    ensures outcome.Ok? ==> SameSolutions(old(A[..]), A[..], n) && Cleared(A[..], n, n) && PivotsNonZero(A[..], n)
  {
    ghost var m := A[..];
    for col := 0 to n
      invariant IsMatrix(A[..], n, n + 1) && SameSolutions(m, A[..], n) && Stop(m, n, 0) == Stop(A[..], n, col)
      invariant Cleared(A[..], n, col) && PivotsNonZero(A[..], col)
    {
      ghost var before := A[..];
      outcome := EliminationRound(A, n, col);
      if outcome.Aborted? {
        NoPivot(m, before, n, col);
      }
      if !outcome.Ok? {
        return;
      }
      SameSolutionsTrans(m, before, A[..], n);
    }
    return Ok(());
  }

  // ---- Without a pivot ----

  // No solution, or more than one.
  ghost predicate NeverUnique(m: Matrix, n: nat) {
    forall x: Row :: Solves(m, n, x) ==> Another(m, n, x)
  }

  ghost predicate Another(m: Matrix, n: nat, x: Row) {
    exists z: Row :: z != x && Solves(m, n, z)
  }

  // v leaves row i at zero.
  ghost predicate Vanishes(m: Matrix, n: nat, v: Row, i: nat) {
    Sum(RowTerms(m, i, v), n) == 0.0
  }

  // A vector with a one in row col that vanishes in the rows k .. col - 1, by back substitution.
  lemma {:induction false} KernelAbove(m: Matrix, n: nat, col: nat, k: nat) returns (v: Row)
    requires Cleared(m, n, col) && PivotsNonZero(m, col) && k <= col < n
    ensures |v| == n && v[col] == 1.0 && (forall j :: col < j < n || 0 <= j < k ==> v[j] == 0.0)
    ensures forall i: nat :: k <= i < col ==> Vanishes(m, n, v, i)
    decreases col - k
  {
    if k == col {
      v := Repeated(0.0, n)[col := 1.0];
    } else {
      var later := KernelAbove(m, n, col, k + 1);
      assert At(m, k, k) != 0.0;
      var q := -Tail(RowTerms(m, k, later), k + 1, n) / At(m, k, k);
      v := later[k := q];
      Divided(-Tail(RowTerms(m, k, later), k + 1, n), At(m, k, k), q);
      KernelRow(m, n, k, later, q);
      forall i: nat | k < i < col ensures Vanishes(m, n, v, i) {
        assert Vanishes(m, n, later, i) && At(m, i, k) == 0.0;
        SumExt(RowTerms(m, i, v), RowTerms(m, i, later), n);
      }
    }
  }

  lemma KernelRow(m: Matrix, n: nat, k: nat, later: Row, q: real)
    requires |later| == n && k < n && (forall j :: 0 <= j < k ==> later[j] == 0.0)
    requires At(m, k, k) * q == -Tail(RowTerms(m, k, later), k + 1, n)
    ensures Vanishes(m, n, later[k := q], k)
  {
    var v := later[k := q];
    ZeroTerms(m, v, k, k);
    SumFrom(RowTerms(m, k, v), k, n);
    assert RowTerms(m, k, v)(k) == At(m, k, k) * q;
    TailExt(RowTerms(m, k, v), RowTerms(m, k, later), k + 1, n);
  }

  lemma ZeroTerms(m: Matrix, v: Row, i: nat, k: nat)
    requires k <= |v| && forall j :: 0 <= j < k ==> v[j] == 0.0
    ensures forall j: nat :: j < k ==> RowTerms(m, i, v)(j) == 0.0
  {
    forall j: nat | j < k ensures RowTerms(m, i, v)(j) == 0.0 {
      assert RowTerms(m, i, v)(j) == At(m, i, j) * v[j];
    }
  }

  lemma Divided(a: real, p: real, q: real)
    requires p != 0.0 && q == a / p
    ensures p * q == a
  {
  }

  lemma Kernel(m: Matrix, n: nat, col: nat) returns (v: Row)
    requires Cleared(m, n, col) && PivotsNonZero(m, col) && ZeroColumn(m, n, col) && col < n
    ensures |v| == n && v[col] == 1.0 && forall i: nat :: i < n ==> Vanishes(m, n, v, i)
  {
    v := KernelAbove(m, n, col, 0);
    forall i: nat | i < n ensures Vanishes(m, n, v, i) {
      if i >= col {
        SumCut(RowTerms(m, i, v), 0, n);
      }
    }
  }

  function Plus(x: Row, v: Row): (z: Row)
    requires |x| == |v|
    ensures |z| == |x| && forall k :: 0 <= k < |x| ==> z[k] == x[k] + v[k]
  {
    seq(|x|, k requires 0 <= k < |x| => x[k] + v[k])
  }

  lemma PlusKernel(m: Matrix, n: nat, x: Row, v: Row, i: nat)
    requires |x| == |v| == n && SolvesRow(m, n, x, i) && Vanishes(m, n, v, i)
    ensures SolvesRow(m, n, Plus(x, v), i)
  {
    var f, g, h := RowTerms(m, i, x), RowTerms(m, i, v), RowTerms(m, i, Plus(x, v));
    SumAdd(f, g, n);
    SumExt(h, Added(f, g), n);
  }

  // A column that is zero from the diagonal down leaves no solution or many.
  lemma NoPivot(a: Matrix, m: Matrix, n: nat, col: nat)
    requires SameSolutions(a, m, n) && Cleared(m, n, col) && PivotsNonZero(m, col) && ZeroColumn(m, n, col) && col < n
    ensures NeverUnique(a, n)
  {
    var v := Kernel(m, n, col);
    forall x: Row | Solves(a, n, x) ensures Another(a, n, x) {
      assert Solves(m, n, x);
      var z := Plus(x, v);
      forall i: nat | i < n ensures SolvesRow(m, n, z, i) {
        PlusKernel(m, n, x, v, i);
      }
      assert z[col] != x[col];
      assert Solves(m, n, z) && Solves(a, n, z);
    }
  }

  // ---- Back substitution in the last column ----

  // Row i of the triangular system m holds for the unknowns in the last column of A.
  ghost predicate RowSolved(m: Matrix, A: Matrix, n: nat, i: nat) {
    At(m, i, n) == Tail(BackTerms(m, A, n, i), i, n)
  }

  ghost function BackTerms(m: Matrix, A: Matrix, n: nat, row: nat): nat -> real {
    (i: nat) => At(m, row, i) * At(A, i, n)
  }

  // A differs from m in the last column of rows col.. only.
  ghost predicate OnlyLastColumn(m: Matrix, A: Matrix, n: nat, col: nat) {
    IsMatrix(A, n, n + 1) && forall i: nat, j: nat :: i < n && j <= n && (j < n || i < col) ==> At(A, i, j) == At(m, i, j)
  }

  method BackRound(A: array<Row>, ghost m: Matrix, n: nat, col: nat)
    requires A.Length == n && IsMatrix(m, n, n + 1) && PivotsNonZero(m, n) && col < n
    requires OnlyLastColumn(m, A[..], n, col + 1)
    requires forall i: nat :: col < i < n ==> RowSolved(m, A[..], n, i)
    modifies A
    ensures OnlyLastColumn(m, A[..], n, col)
    ensures forall i: nat :: col <= i < n ==> RowSolved(m, A[..], n, i)
  {
    ghost var b := A[..];
    var sum := BackSum(A, n, col);
    TailExt(BackTerms(b, b, n, col), BackTerms(m, b, n, col), col + 1, n);
    assert A[col][col] == At(b, col, col) == At(m, col, col) != 0.0;
    assert A[col][n] == At(b, col, n) == At(m, col, n);
    var q := (A[col][n] - sum) / A[col][col];
    assert q * A[col][col] == A[col][n] - sum;
    A[col] := A[col][n := q];
    assert A[..] == Set(b, col, n, q);
    BackRoundKeeps(m, b, n, col, q);
  }

  lemma BackRoundKeeps(m: Matrix, b: Matrix, n: nat, col: nat, q: real)
    requires col < n && OnlyLastColumn(m, b, n, col + 1)
    requires forall i: nat :: col < i < n ==> RowSolved(m, b, n, i)
    requires At(m, col, n) == At(m, col, col) * q + Tail(BackTerms(m, b, n, col), col + 1, n)
    ensures OnlyLastColumn(m, Set(b, col, n, q), n, col)
    ensures forall i: nat :: col <= i < n ==> RowSolved(m, Set(b, col, n, q), n, i)
  {
    AtSet(b, col, n, q);
    NewRowSolved(m, b, n, col, q);
    forall i: nat | col < i < n ensures RowSolved(m, Set(b, col, n, q), n, i) {
      assert RowSolved(m, b, n, i);
      BackTailKept(m, b, n, col, q, i, i);
    }
  }

  lemma NewRowSolved(m: Matrix, b: Matrix, n: nat, col: nat, q: real)
    requires col < n && IsMatrix(b, n, n + 1)
    requires At(m, col, n) == At(m, col, col) * q + Tail(BackTerms(m, b, n, col), col + 1, n)
    ensures RowSolved(m, Set(b, col, n, q), n, col)
  {
    var b' := Set(b, col, n, q);
    BackTailKept(m, b, n, col, q, col, col + 1);
    assert BackTerms(m, b', n, col)(col) == At(m, col, col) * q;
  }

  // Terms that come from rows after col do not use column n of row col.
  lemma BackTailKept(m: Matrix, b: Matrix, n: nat, col: nat, q: real, i: nat, from: nat)
    requires col < from && col < n && IsMatrix(b, n, n + 1)
    ensures Tail(BackTerms(m, Set(b, col, n, q), n, i), from, n) == Tail(BackTerms(m, b, n, i), from, n)
  {
    var b' := Set(b, col, n, q);
    forall k: nat | from <= k < n ensures BackTerms(m, b', n, i)(k) == BackTerms(m, b, n, i)(k) {
      assert At(b', k, n) == At(b, k, n);
    }
    TailExt(BackTerms(m, b', n, i), BackTerms(m, b, n, i), from, n);
  }

  method BackSum(A: array<Row>, n: nat, col: nat) returns (sum: real)
    requires A.Length == n && IsMatrix(A[..], n, n + 1) && col < n
    ensures sum == Tail(BackTerms(A[..], A[..], n, col), col + 1, n)
  {
    sum := 0.0;
    ghost var f := BackTerms(A[..], A[..], n, col);
    for i := col + 1 to n
      invariant sum + Tail(f, i, n) == Tail(f, col + 1, n)
    {
      sum := sum + A[col][i] * A[i][n];
    }
  }

  function LastColumn(m: Matrix, n: nat): (x: Row)
    ensures |x| == n && forall i: nat :: i < n ==> x[i] == At(m, i, n)
  {
    seq(n, i requires 0 <= i < n => At(m, i, n))
  }

  lemma BackSolved(m: Matrix, b: Matrix, n: nat)
    requires Cleared(m, n, n) && forall i: nat :: i < n ==> RowSolved(m, b, n, i)
    ensures Solves(m, n, LastColumn(b, n))
  {
    var x := LastColumn(b, n);
    forall i: nat | i < n ensures SolvesRow(m, n, x, i) {
      assert RowSolved(m, b, n, i);
      TailExt(RowTerms(m, i, x), BackTerms(m, b, n, i), i, n);
      TriangularRow(m, n, x, i);
    }
  }

  // Both loops: when neither the assertion nor the singularity test stops it, the result is the one and only
  // solution of the system; where the assertion stops it there is no such solution.
  method SolveSystem(A: array<Row>, n: nat) returns (outcome: Outcome<Row>)
    requires A.Length == n && IsMatrix(A[..], n, n + 1)
    modifies A
    ensures SameKind(outcome, Fate(old(A[..]), n))
    ensures outcome.Ok? ==> forall z: Row :: Solves(old(A[..]), n, z) <==> z == outcome.value
    ensures outcome.Aborted? ==> NeverUnique(old(A[..]), n)
  {
    ghost var a := A[..];
    var eliminated := Eliminate(A, n);
    match eliminated
    case Aborted => return Aborted;
    case Singular => return Singular;
    case Ok(_) =>
    ghost var m := A[..];
    for col := n downto 0
      invariant OnlyLastColumn(m, A[..], n, col)
      invariant forall i: nat :: col <= i < n ==> RowSolved(m, A[..], n, i)
    {
      BackRound(A, m, n, col);
    }
    BackSolved(m, A[..], n);
    var x := LastColumn(A[..], n);
    forall z: Row ensures Solves(a, n, z) <==> z == x {
      if Solves(m, n, z) {
        TriangularUnique(m, n, z, x, 0);
        assert z == x;
      }
    }
    return Ok(x);
  }
}
