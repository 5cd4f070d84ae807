/** homography_compute2 and quad_update_homographies of apriltag.c in exact reals: the 8x9 system of four point
  correspondences. */
module Homography {
  import opened Sums
  import opened Wrappers
  import opened Plu
  import opened PluSolve
  import opened Elimination

  // A correspondence: (x, y) on the tag and (u, v) in the image.
  datatype Correspondence = Correspondence(x: real, y: real, u: real, v: real)

  function CorrespondenceRows(c: Correspondence): seq<Row> {
    [[c.x, c.y, 1.0, 0.0, 0.0, 0.0, -c.x * c.u, -c.y * c.u, c.u],
     [0.0, 0.0, 0.0, c.x, c.y, 1.0, -c.x * c.v, -c.y * c.v, c.v]]
  }

  function SystemOf(c: seq<Correspondence>): (m: Matrix)
    requires |c| == 4
    ensures IsMatrix(m, 8, 9)
  {
    CorrespondenceRows(c[0]) + CorrespondenceRows(c[1]) + CorrespondenceRows(c[2]) + CorrespondenceRows(c[3])
  }

  // The homogeneous image of (x, y) under the 3x3 matrix with entries h[0..8] and 1.
  function ImageX(h: Row, x: real, y: real): real
    requires |h| == 8
  {
    h[0] * x + h[1] * y + h[2]
  }

  function ImageY(h: Row, x: real, y: real): real
    requires |h| == 8
  {
    h[3] * x + h[4] * y + h[5]
  }

  function ImageW(h: Row, x: real, y: real): real
    requires |h| == 8
  {
    h[6] * x + h[7] * y + 1.0
  }

  // h sends the correspondence to a multiple of (u, v, 1).
  ghost predicate Maps(h: Row, c: Correspondence)
    requires |h| == 8
  {
    ImageX(h, c.x, c.y) == c.u * ImageW(h, c.x, c.y) && ImageY(h, c.x, c.y) == c.v * ImageW(h, c.x, c.y)
  }

  lemma SumOfEight(f: nat -> real)
    ensures Sum(f, 8) == f(0) + f(1) + f(2) + f(3) + f(4) + f(5) + f(6) + f(7)
  {
    assert Sum(f, 4) == f(0) + f(1) + f(2) + f(3);
    assert Sum(f, 7) == Sum(f, 4) + f(4) + f(5) + f(6);
  }

  lemma Distribute(u: real, x: real, y: real, a: real, b: real)
    ensures u * (a * x + b * y + 1.0) == u - ((-x * u) * a + (-y * u) * b)
  {
    assert u * (a * x) == x * u * a;
    assert u * (b * y) == y * u * b;
  }

  // One equation: the sum is u exactly when the image is u times the denominator.
  lemma EquationSays(sum: real, image: real, u: real, x: real, y: real, a: real, b: real)
    requires sum == image + (-x * u) * a + (-y * u) * b
    ensures sum == u <==> image == u * (a * x + b * y + 1.0)
  {
    Distribute(u, x, y, a, b);
  }

  lemma FirstEquation(m: Matrix, h: Row, c: Correspondence, r: nat)
    requires |h| == 8 && r < |m| && m[r] == CorrespondenceRows(c)[0]
    ensures SolvesRow(m, 8, h, r) <==> ImageX(h, c.x, c.y) == c.u * ImageW(h, c.x, c.y)
  {
    var f := RowTerms(m, r, h);
    SumOfEight(f);
    assert f(0) == h[0] * c.x && f(1) == h[1] * c.y && f(2) == h[2] && f(3) == 0.0 && f(4) == 0.0 && f(5) == 0.0;
    assert f(6) == (-c.x * c.u) * h[6] && f(7) == (-c.y * c.u) * h[7] && At(m, r, 8) == c.u;
    EquationSays(Sum(f, 8), ImageX(h, c.x, c.y), c.u, c.x, c.y, h[6], h[7]);
  }

  lemma SecondEquation(m: Matrix, h: Row, c: Correspondence, r: nat)
    requires |h| == 8 && r < |m| && m[r] == CorrespondenceRows(c)[1]
    ensures SolvesRow(m, 8, h, r) <==> ImageY(h, c.x, c.y) == c.v * ImageW(h, c.x, c.y)
  {
    var f := RowTerms(m, r, h);
    SumOfEight(f);
    assert f(3) == h[3] * c.x && f(4) == h[4] * c.y && f(5) == h[5] && f(0) == 0.0 && f(1) == 0.0 && f(2) == 0.0;
    assert f(6) == (-c.x * c.v) * h[6] && f(7) == (-c.y * c.v) * h[7] && At(m, r, 8) == c.v;
    EquationSays(Sum(f, 8), ImageY(h, c.x, c.y), c.v, c.x, c.y, h[6], h[7]);
  }

  // The two equations of a correspondence say that h maps it.
  lemma RowsSayMaps(m: Matrix, h: Row, c: Correspondence, r: nat)
    requires |h| == 8 && r + 1 < |m| && m[r] == CorrespondenceRows(c)[0] && m[r + 1] == CorrespondenceRows(c)[1]
    ensures SolvesRow(m, 8, h, r) && SolvesRow(m, 8, h, r + 1) <==> Maps(h, c)
  {
    FirstEquation(m, h, c, r);
    SecondEquation(m, h, c, r + 1);
  }

  ghost predicate SolvesPair(m: Matrix, h: Row, r: nat) {
    SolvesRow(m, 8, h, r) && SolvesRow(m, 8, h, r + 1)
  }

  lemma AllEight(ok: nat -> bool)
    ensures (forall i: nat :: i < 8 ==> ok(i)) <==> ok(0) && ok(1) && ok(2) && ok(3) && ok(4) && ok(5) && ok(6) && ok(7)
  {
  }

  lemma EightRows(m: Matrix, h: Row)
    requires |h| == 8
    ensures Solves(m, 8, h) <==> SolvesPair(m, h, 0) && SolvesPair(m, h, 2) && SolvesPair(m, h, 4) && SolvesPair(m, h, 6)
  {
    var ok := (i: nat) => SolvesRow(m, 8, h, i);
    AllEight(ok);
    assert Solves(m, 8, h) <==> forall i: nat :: i < 8 ==> ok(i);
  }

  lemma SystemRows(c: seq<Correspondence>, k: nat)
    requires |c| == 4 && k < 4
    ensures SystemOf(c)[2 * k] == CorrespondenceRows(c[k])[0] && SystemOf(c)[2 * k + 1] == CorrespondenceRows(c[k])[1]
  {
  }

  lemma PairSaysMaps(c: seq<Correspondence>, h: Row, k: nat)
    requires |c| == 4 && |h| == 8 && k < 4
    ensures SolvesPair(SystemOf(c), h, 2 * k) <==> Maps(h, c[k])
  {
    SystemRows(c, k);
    RowsSayMaps(SystemOf(c), h, c[k], 2 * k);
  }

  lemma SystemSaysMaps(c: seq<Correspondence>, h: Row)
    requires |c| == 4 && |h| == 8
    ensures Solves(SystemOf(c), 8, h) <==> forall i :: 0 <= i < 4 ==> Maps(h, c[i])
  {
    PairSaysMaps(c, h, 0);
    PairSaysMaps(c, h, 1);
    PairSaysMaps(c, h, 2);
    PairSaysMaps(c, h, 3);
    EightRows(SystemOf(c), h);
  }

  function MatrixOf(h: Row): (m: Matrix)
    requires |h| == 8
    ensures IsMatrix(m, 3, 3)
  {
    [[h[0], h[1], h[2]], [h[3], h[4], h[5]], [h[6], h[7], 1.0]]
  }

  // Row r of a homography applied to (x, y, 1).
  function Apply(m: Matrix, r: nat, x: real, y: real): real
    requires IsMatrix(m, 3, 3) && r < 3
  {
    m[r][0] * x + m[r][1] * y + m[r][2]
  }

  // homography_project
  function Project(m: Matrix, x: real, y: real): (real, real)
    requires IsMatrix(m, 3, 3) && Apply(m, 2, x, y) != 0.0
  {
    (Apply(m, 0, x, y) / Apply(m, 2, x, y), Apply(m, 1, x, y) / Apply(m, 2, x, y))
  }

  lemma MapsProjects(h: Row, c: Correspondence)
    requires |h| == 8 && Maps(h, c) && ImageW(h, c.x, c.y) != 0.0
    ensures Apply(MatrixOf(h), 2, c.x, c.y) != 0.0 && Project(MatrixOf(h), c.x, c.y) == (c.u, c.v)
  {
    var w, m := ImageW(h, c.x, c.y), MatrixOf(h);
    assert Apply(m, 2, c.x, c.y) == w;
    assert Apply(m, 0, c.x, c.y) == c.u * w;
    assert Apply(m, 1, c.x, c.y) == c.v * w;
    QuotientExact(Apply(m, 0, c.x, c.y), c.u, w);
    QuotientExact(Apply(m, 1, c.x, c.y), c.v, w);
  }

  lemma QuotientExact(a: real, u: real, w: real)
    requires w != 0.0 && a == u * w
    ensures a / w == u
  {
  }

  // Every homography with lower right entry 1 that maps all four correspondences.
  ghost predicate MapsAll(h: Row, c: seq<Correspondence>)
    requires |c| == 4
  {
    |h| == 8 && forall i :: 0 <= i < 4 ==> Maps(h, c[i])
  }

  lemma SystemSaysMapsAll(c: seq<Correspondence>, h: Row)
    requires |c| == 4
    ensures Solves(SystemOf(c), 8, h) <==> MapsAll(h, c)
  {
    if |h| == 8 {
      SystemSaysMaps(c, h);
    }
  }

  ghost predicate AnotherMapsAll(h: Row, c: seq<Correspondence>)
    requires |c| == 4
  {
    exists h': Row :: h' != h && MapsAll(h', c)
  }

  // homography_compute2: the only homography with lower right entry 1 that maps all four correspondences. The assertion
  // on the pivot fails only where no such homography is the only one.
  method Compute(c: seq<Correspondence>) returns (outcome: Outcome<Row>)
    requires |c| == 4
    ensures SameKind(outcome, Fate(SystemOf(c), 8))
    ensures outcome.Ok? ==> forall h: Row :: MapsAll(h, c) <==> h == outcome.value
    ensures outcome.Aborted? ==> forall h: Row :: MapsAll(h, c) ==> AnotherMapsAll(h, c)
  {
    ghost var m := SystemOf(c);
    var A := new Row[8](i requires 0 <= i < 8 => SystemOf(c)[i]);
    assert A[..] == m;
    outcome := SolveSystem(A, 8);
    if outcome.Ok? {
      forall h: Row ensures MapsAll(h, c) <==> h == outcome.value {
        SystemSaysMapsAll(c, h);
      }
    }
    if outcome.Aborted? {
      NoneIsUnique(c);
    }
  }

  lemma NoneIsUnique(c: seq<Correspondence>)
    requires |c| == 4 && NeverUnique(SystemOf(c), 8)
    ensures forall h: Row :: MapsAll(h, c) ==> AnotherMapsAll(h, c)
  {
    forall h: Row | MapsAll(h, c) ensures AnotherMapsAll(h, c) {
      SystemSaysMapsAll(c, h);
      assert Another(SystemOf(c), 8, h);
      var z: Row :| z != h && Solves(SystemOf(c), 8, z);
      SystemSaysMapsAll(c, z);
    }
  }

  // The corners of the tag and of a quad, in the order of quad_update_homographies.
  function Corners(p: seq<(real, real)>): (c: seq<Correspondence>)
    requires |p| == 4
    ensures |c| == 4 && forall i :: 0 <= i < 4 ==> (c[i].u, c[i].v) == p[i]
  {
    [Correspondence(-1.0, -1.0, p[0].0, p[0].1), Correspondence(1.0, -1.0, p[1].0, p[1].1),
     Correspondence(1.0, 1.0, p[2].0, p[2].1), Correspondence(-1.0, 1.0, p[3].0, p[3].1)]
  }

  // No point of the plane has the image (0, 0, 0) under a homography that was not flagged.
  lemma NotAllZero(m: Matrix, lu: Matrix, piv: seq<nat>, inv: seq<nat>, x: real, y: real)
    requires IsMatrix(m, 3, 3) && |piv| == 3 && IsPlu(m, lu, piv, inv, false)
    ensures Apply(m, 0, x, y) != 0.0 || Apply(m, 1, x, y) != 0.0 || Apply(m, 2, x, y) != 0.0
  {
    var w := [[x], [y], [1.0]];
    forall r: nat | r < 3 ensures Product(m, w, 3, r, 0) == Apply(m, r, x, y) {
      SumOfThree(ProductTerms(m, w, r, 0));
    }
    if Apply(m, 0, x, y) == 0.0 && Apply(m, 1, x, y) == 0.0 && Apply(m, 2, x, y) == 0.0 {
      assert At(w, 2, 0) == 1.0;
      OnlyZeroToZero(m, lu, piv, inv, w);
    }
  }

  lemma SumOfThree(f: nat -> real)
    ensures Sum(f, 3) == f(0) + f(1) + f(2)
  {
  }

  // So a homography that maps a correspondence and was not flagged projects it exactly.
  lemma FlaggedOrProjects(h: Row, c: Correspondence, lu: Matrix, piv: seq<nat>, inv: seq<nat>)
    requires |h| == 8 && Maps(h, c) && |piv| == 3 && IsPlu(MatrixOf(h), lu, piv, inv, false)
    ensures Apply(MatrixOf(h), 2, c.x, c.y) != 0.0 && Project(MatrixOf(h), c.x, c.y) == (c.u, c.v)
  {
    var m := MatrixOf(h);
    assert Apply(m, 0, c.x, c.y) == c.u * Apply(m, 2, c.x, c.y);
    assert Apply(m, 1, c.x, c.y) == c.v * Apply(m, 2, c.x, c.y);
    NotAllZero(m, lu, piv, inv, c.x, c.y);
    MapsProjects(h, c);
  }

  ghost predicate ProjectsAll(m: Matrix, c: seq<Correspondence>) {
    IsMatrix(m, 3, 3) && forall i :: 0 <= i < |c| ==>
      Apply(m, 2, c[i].x, c[i].y) != 0.0 && Project(m, c[i].x, c[i].y) == (c[i].u, c[i].v)
  }

  // The corners of the tag, in this order, go to the corners of the quad.
  ghost predicate ProjectsTag(H: Matrix, p: seq<(real, real)>)
    requires |p| == 4
  {
    && IsMatrix(H, 3, 3) && Apply(H, 2, -1.0, -1.0) != 0.0 && Apply(H, 2, 1.0, -1.0) != 0.0
    && Apply(H, 2, 1.0, 1.0) != 0.0 && Apply(H, 2, -1.0, 1.0) != 0.0
    && Project(H, -1.0, -1.0) == p[0] && Project(H, 1.0, -1.0) == p[1]
    && Project(H, 1.0, 1.0) == p[2] && Project(H, -1.0, 1.0) == p[3]
  }

  lemma AllProjectTag(H: Matrix, p: seq<(real, real)>)
    requires |p| == 4 && ProjectsAll(H, Corners(p))
    ensures ProjectsTag(H, p)
  {
    var c := Corners(p);
    assert Project(H, c[0].x, c[0].y) == p[0] && Project(H, c[1].x, c[1].y) == p[1];
    assert Project(H, c[2].x, c[2].y) == p[2] && Project(H, c[3].x, c[3].y) == p[3];
  }

  // quad_update_homographies: H projects every tag corner onto the quad's corner, and Hinv is a right inverse of H. It
  // fails only where the elimination fails or H, the one homography that maps the corners, has too small a pivot.
  method UpdateHomographies(p: seq<(real, real)>)
    returns (outcome: Outcome<(Matrix, Matrix)>, ghost h: Row, ghost lu: Matrix, ghost piv: seq<nat>, ghost inv: seq<nat>)
    requires |p| == 4
    ensures !Fate(SystemOf(Corners(p)), 8).Ok? ==> SameKind(outcome, Fate(SystemOf(Corners(p)), 8))
    ensures Fate(SystemOf(Corners(p)), 8).Ok? ==>
      MapsAll(h, Corners(p)) && |piv| == 3 && IsPlu(MatrixOf(h), lu, piv, inv, outcome.Singular?) && !outcome.Aborted?
    ensures outcome.Ok? ==> var (H, Hinv) := outcome.value;
      H == MatrixOf(h) && ProjectsAll(H, Corners(p)) && IsMatrix(Hinv, 3, 3) && IsProduct(Identity(3), H, Hinv, 3)
    ensures outcome.Ok? ==> ProjectsTag(outcome.value.0, p)
  {
    var c := Corners(p);
    h, lu, piv, inv := Repeated(0.0, 8), [], [], [];
    var result := Compute(c);
    match result
    case Aborted => outcome := Aborted;
    case Singular => outcome := Singular;
    case Ok(value) =>
      h := value;
      assert MapsAll(h, c);
      var H := MatrixOf(value);
      var inverse;
      inverse, lu, piv, inv := Inverse(H);
      if inverse.None? {
        outcome := Singular;
      } else {
        forall i | 0 <= i < 4
          ensures Apply(H, 2, c[i].x, c[i].y) != 0.0 && Project(H, c[i].x, c[i].y) == (c[i].u, c[i].v)
        {
          FlaggedOrProjects(h, c[i], lu, piv, inv);
        }
        AllProjectTag(H, p);
        outcome := Ok((H, inverse.value));
      }
  }
}
