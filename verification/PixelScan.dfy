/** Component labelling of the ternary image (apriltag_quad_thresh.c): the scan that skips unions it
  considers redundant, and what it computes. */
module PixelScan {
  import opened Equivalence
  import opened FiniteSets
  import opened Numbers
  import opened Accesses
  import opened UnionFinding

  // A byte image in row-major order with stride s.
  datatype Image = Image(w: nat, h: nat, s: nat, buf: seq<nat>) {
    ghost predicate Valid() {
      1 <= w <= s && 1 <= h && |buf| == Multiple(s, h) && Pixels() < UNINIT
    }

    function Pixels(): nat {
      Multiple(w, h)
    }

    function At(x: nat, y: nat): nat
      requires Valid() && x < s && y < h
    {
      InBuffer(this, x, y);
      buf[Id(s, x, y)]
    }
  }

  function Id(w: nat, x: nat, y: nat): nat {
    Multiple(w, y) + x
  }

  // In the source this is y * w + x.
  lemma IdIsProduct(w: nat, x: nat, y: nat)
    ensures Id(w, x, y) == y * w + x
  {
    MultipleIsProduct(w, y);
  }

  lemma InBuffer(im: Image, x: nat, y: nat)
    requires im.Valid() && x < im.s && y < im.h
    ensures Id(im.s, x, y) == y * im.s + x < |im.buf|
  {
    IdBound(im.s, im.h, x, y);
    IdIsProduct(im.s, x, y);
  }

  lemma IdCoordinates(w: nat, x: nat, y: nat)
    requires x < w
    ensures Id(w, x, y) % w == x && Id(w, x, y) / w == y
  {
    Between(w, y, Id(w, x, y));
  }

  lemma IdBound(w: nat, h: nat, x: nat, y: nat)
    requires x < w && y < h
    ensures Id(w, x, y) < Multiple(w, h)
  {
    MultipleMono(w, y + 1, h);
  }

  // ---- The edges a scan of one pixel adds ----

  // The union of (x, y) with (x', y'), made when the two pixels are equal.
  function Match(im: Image, x: nat, y: nat, x': nat, y': nat): set<Edge>
    requires im.Valid() && x < im.w && y < im.h && x' < im.w && y' < im.h
  {
    if im.At(x', y') == im.At(x, y) then {(Id(im.w, x, y), Id(im.w, x', y'))} else {}
  }

  // The unions made at (x, y). With `full` no union is considered redundant.
  function PixelEdges(im: Image, x: nat, y: nat, full: bool): set<Edge>
    requires im.Valid() && 1 <= x < im.w - 1 && 1 <= y < im.h
  {
    var v, left, up := im.At(x, y), im.At(x - 1, y), im.At(x, y - 1);
    var upLeft, upRight := im.At(x - 1, y - 1), im.At(x + 1, y - 1);
    if v == 127 then {} else
      Match(im, x, y, x - 1, y)
      + (if full || x == 1 || !(left == upLeft && upLeft == up) then Match(im, x, y, x, y - 1) else {})
      + (if v == 255 && (full || x == 1 || !(left == upLeft || up == upLeft))
         then Match(im, x, y, x - 1, y - 1) else {})
      + (if v == 255 && (full || up != upRight) then Match(im, x, y, x + 1, y - 1) else {})
  }

  function StraightEdges(im: Image, x: nat, y: nat): set<Edge>
    requires im.Valid() && 1 <= x < im.w - 1 && 1 <= y < im.h
  {
    var left, up, upLeft := im.At(x - 1, y), im.At(x, y - 1), im.At(x - 1, y - 1);
    Match(im, x, y, x - 1, y) + (if x == 1 || !(left == upLeft && upLeft == up) then Match(im, x, y, x, y - 1) else {})
  }

  function DiagonalEdges(im: Image, x: nat, y: nat): set<Edge>
    requires im.Valid() && 1 <= x < im.w - 1 && 1 <= y < im.h
  {
    var left, up, upLeft, upRight := im.At(x - 1, y), im.At(x, y - 1), im.At(x - 1, y - 1), im.At(x + 1, y - 1);
    (if x == 1 || !(left == upLeft || up == upLeft) then Match(im, x, y, x - 1, y - 1) else {})
    + (if up != upRight then Match(im, x, y, x + 1, y - 1) else {})
  }

  lemma StraightAndDiagonal(im: Image, x: nat, y: nat)
    requires im.Valid() && 1 <= x < im.w - 1 && 1 <= y < im.h && im.At(x, y) != 127
    ensures PixelEdges(im, x, y, false) == StraightEdges(im, x, y) + (if im.At(x, y) == 255 then DiagonalEdges(im, x, y) else {})
  {
  }

  // Row 0 is only compared with its left neighbours.
  function EdgesAt(im: Image, x: nat, y: nat, full: bool): set<Edge>
    requires im.Valid() && 1 <= x < im.w - 1 && y < im.h
  {
    if y > 0 then PixelEdges(im, x, y, full)
    else if im.At(x, 0) == 127 then {} else Match(im, x, 0, x - 1, 0)
  }

  // The unions of row y at columns 1..n-1.
  function RowEdges(im: Image, y: nat, n: nat, full: bool): set<Edge>
    requires im.Valid() && n < im.w && y < im.h
  {
    if n <= 1 then {} else RowEdges(im, y, n - 1, full) + EdgesAt(im, n - 1, y, full)
  }

  function WholeRow(im: Image, y: nat, full: bool): set<Edge>
    requires im.Valid() && y < im.h
  {
    RowEdges(im, y, im.w - 1, full)
  }

  // The unions of row 0 and of every row in `rows`.
  function ScanEdges(im: Image, rows: set<nat>, full: bool): set<Edge>
    requires im.Valid()
  {
    WholeRow(im, 0, full) + RowsBefore(im, rows, im.h, full)
  }

  function RowsBefore(im: Image, rows: set<nat>, n: nat, full: bool): set<Edge>
    requires im.Valid() && n <= im.h
  {
    if n == 0 then {}
    else RowsBefore(im, rows, n - 1, full) + (if n - 1 in rows then WholeRow(im, n - 1, full) else {})
  }

  lemma {:induction false} InScan(im: Image, rows: set<nat>, n: nat, full: bool, y: nat)
    requires im.Valid() && y < n <= im.h && y in rows
    ensures WholeRow(im, y, full) <= RowsBefore(im, rows, n, full)
  {
    if y < n - 1 {
      InScan(im, rows, n - 1, full, y);
    }
  }

  lemma {:induction false} RowOfScan(im: Image, rows: set<nat>, n: nat, full: bool, e: Edge) returns (y: nat)
    requires im.Valid() && n <= im.h && e in RowsBefore(im, rows, n, full)
    ensures y < n && y in rows && e in WholeRow(im, y, full)
  {
    if n - 1 in rows && e in WholeRow(im, n - 1, full) {
      y := n - 1;
    } else {
      y := RowOfScan(im, rows, n - 1, full, e);
    }
  }

  lemma {:induction false} AddRowBefore(im: Image, rows: set<nat>, y: nat, n: nat, full: bool)
    requires im.Valid() && y < im.h && n <= im.h
    ensures RowsBefore(im, rows + {y}, n, full) == RowsBefore(im, rows, n, full) + (if y < n then WholeRow(im, y, full) else {})
  {
    if n > 0 {
      AddRowBefore(im, rows, y, n - 1, full);
    }
  }

  lemma AddRow(im: Image, rows: set<nat>, y: nat, full: bool)
    requires im.Valid() && y < im.h
    ensures ScanEdges(im, rows + {y}, full) == ScanEdges(im, rows, full) + WholeRow(im, y, full)
  {
    AddRowBefore(im, rows, y, im.h, full);
    var first, before, row := WholeRow(im, 0, full), RowsBefore(im, rows, im.h, full), WholeRow(im, y, full);
    assert first + (before + row) == (first + before) + row;
  }

  // ---- The same unions in the order in which they are made ----

  function MatchOps(im: Image, x: nat, y: nat, x': nat, y': nat): Script
    requires im.Valid() && x < im.w && y < im.h && x' < im.w && y' < im.h
  {
    if im.At(x', y') == im.At(x, y) then Union((Id(im.w, x, y), Id(im.w, x', y'))) else Nothing
  }

  function DiagonalOps(im: Image, x: nat, y: nat): Script
    requires im.Valid() && 1 <= x < im.w - 1 && 1 <= y < im.h
  {
    var left, upLeft, up, upRight := im.At(x - 1, y), im.At(x - 1, y - 1), im.At(x, y - 1), im.At(x + 1, y - 1);
    Then(if x == 1 || !(left == upLeft || up == upLeft) then MatchOps(im, x, y, x - 1, y - 1) else Nothing,
         if up != upRight then MatchOps(im, x, y, x + 1, y - 1) else Nothing)
  }

  function StraightOps(im: Image, x: nat, y: nat): Script
    requires im.Valid() && 1 <= x < im.w - 1 && 1 <= y < im.h
  {
    var left, upLeft, up := im.At(x - 1, y), im.At(x - 1, y - 1), im.At(x, y - 1);
    Then(MatchOps(im, x, y, x - 1, y),
         if x == 1 || !(left == upLeft && upLeft == up) then MatchOps(im, x, y, x, y - 1) else Nothing)
  }

  function PixelOps(im: Image, x: nat, y: nat): Script
    requires im.Valid() && 1 <= x < im.w - 1 && 1 <= y < im.h
  {
    Then(StraightOps(im, x, y), if im.At(x, y) == 255 then DiagonalOps(im, x, y) else Nothing)
  }

  function OpsAt(im: Image, x: nat, y: nat): Script
    requires im.Valid() && 1 <= x < im.w - 1 && y < im.h
  {
    if im.At(x, y) == 127 then Nothing else if y > 0 then PixelOps(im, x, y) else MatchOps(im, x, 0, x - 1, 0)
  }

  // Row y at columns 1..n-1.
  function RowOps(im: Image, y: nat, n: nat): Script
    requires im.Valid() && n < im.w && y < im.h
  {
    if n <= 1 then Nothing else Then(RowOps(im, y, n - 1), OpsAt(im, n - 1, y))
  }

  // Rows y0..y1-1.
  function BandOps(im: Image, y0: nat, y1: nat): Script
    requires im.Valid() && y1 <= im.h
  {
    if y1 <= y0 then Nothing else Then(BandOps(im, y0, y1 - 1), RowOps(im, y1 - 1, im.w - 1))
  }

  // Connects of ids in [lo, hi).
  ghost predicate Within(s: Script, lo: nat, hi: nat) {
    match s
    case Nothing => true
    case Union(e) => lo <= e.0 < hi && lo <= e.1 < hi
    case Then(a, b) => Within(a, lo, hi) && Within(b, lo, hi)
  }

  lemma {:induction false} Wider(s: Script, lo: nat, hi: nat, lo': nat, hi': nat)
    requires Within(s, lo, hi) && lo' <= lo && hi <= hi'
    ensures Within(s, lo', hi')
  {
    match s
    case Nothing =>
    case Union(e) =>
    case Then(a, b) =>
      Wider(a, lo, hi, lo', hi');
      Wider(b, lo, hi, lo', hi');
  }

  lemma {:induction false} InIdRange(s: Script, lo: nat, hi: nat)
    requires Within(s, lo, hi)
    ensures OpsIn(Flat(s), Range(lo, hi))
  {
    match s
    case Nothing =>
    case Union(e) =>
    case Then(a, b) =>
      InIdRange(a, lo, hi);
      InIdRange(b, lo, hi);
  }

  // The first id of the row above, if there is one.
  function RowAbove(w: nat, y: nat): nat {
    Multiple(w, if y == 0 then 0 else y - 1)
  }

  // The unions at a pixel name pixels of its row and the row above.
  lemma OpsAtWithin(im: Image, x: nat, y: nat)
    requires im.Valid() && 1 <= x < im.w - 1 && y < im.h
    ensures Within(OpsAt(im, x, y), RowAbove(im.w, y), Multiple(im.w, y + 1))
  {
    if im.At(x, y) != 127 && y > 0 {
      PixelWithin(im, x, y, RowAbove(im.w, y), Multiple(im.w, y + 1));
    }
  }

  lemma PixelWithin(im: Image, x: nat, y: nat, lo: nat, hi: nat)
    requires im.Valid() && 1 <= x < im.w - 1 && 1 <= y < im.h && lo == Multiple(im.w, y - 1) && hi == Multiple(im.w, y + 1)
    ensures Within(PixelOps(im, x, y), lo, hi)
  {
    assert Within(MatchOps(im, x, y, x - 1, y), lo, hi) && Within(MatchOps(im, x, y, x, y - 1), lo, hi);
    assert Within(MatchOps(im, x, y, x - 1, y - 1), lo, hi) && Within(MatchOps(im, x, y, x + 1, y - 1), lo, hi);
    assert Within(Nothing, lo, hi);
    assert Within(StraightOps(im, x, y), lo, hi);
    assert Within(DiagonalOps(im, x, y), lo, hi);
  }

  lemma {:induction false} RowOpsWithin(im: Image, y: nat, n: nat)
    requires im.Valid() && n < im.w && y < im.h
    ensures Within(RowOps(im, y, n), RowAbove(im.w, y), Multiple(im.w, y + 1))
  {
    if n > 1 {
      RowOpsWithin(im, y, n - 1);
      OpsAtWithin(im, n - 1, y);
    }
  }

  lemma {:induction false} BandOpsWithin(im: Image, y0: nat, y1: nat)
    requires im.Valid() && 1 <= y0 <= y1 <= im.h
    ensures Within(BandOps(im, y0, y1), RowAbove(im.w, y0), Multiple(im.w, y1))
  {
    if y0 < y1 {
      var y := y1 - 1;
      var lo, hi := RowAbove(im.w, y0), Multiple(im.w, y1);
      BandOpsWithin(im, y0, y);
      Wider(BandOps(im, y0, y), lo, Multiple(im.w, y), lo, hi);
      MultipleMono(im.w, y0 - 1, y - 1);
      RowOpsWithin(im, y, im.w - 1);
      Wider(RowOps(im, y, im.w - 1), RowAbove(im.w, y), hi, lo, hi);
    }
  }

  // ---- The imperative scan ----

  // DO_UNIONFIND2
  method MaybeConnect(uf: UnionFind, im: Image, x: nat, y: nat, x': nat, y': nat, v: nat)
    requires im.Valid() && x < im.w && y < im.h && x' < im.w && y' < im.h && v == im.At(x, y)
    requires uf.Valid() && uf.maxid == im.Pixels()
    modifies uf, uf.parent, uf.size
    ensures uf.Valid() && uf.pairs == old(uf.pairs) + Match(im, x, y, x', y')
    ensures Performs(old(uf.Memory()), MatchOps(im, x, y, x', y'), uf.Memory())
  {
    InBuffer(im, x', y');
    if im.buf[y' * im.s + x'] == v {
      IdBound(im.w, im.h, x, y);
      IdBound(im.w, im.h, x', y');
      IdIsProduct(im.w, x, y);
      IdIsProduct(im.w, x', y');
      var _ := uf.Connect(y * im.w + x, y' * im.w + x');
    }
  }

  method FirstLine(uf: UnionFind, im: Image)
    requires im.Valid() && uf.Valid() && uf.maxid == im.Pixels()
    modifies uf, uf.parent, uf.size
    ensures uf.Valid() && uf.pairs == old(uf.pairs) + WholeRow(im, 0, false)
    ensures Performs(old(uf.Memory()), RowOps(im, 0, im.w - 1), uf.Memory())
  {
    ghost var pairs0, m0 := uf.pairs, uf.Memory();
    var x: nat := 1;
    ghost var n := if im.w == 1 then 0 else 1;
    while x < im.w - 1
      invariant if im.w == 1 then n == 0 else n == x <= im.w - 1
      invariant uf.Valid() && uf.pairs == pairs0 + RowEdges(im, 0, n, false)
      invariant Performs(m0, RowOps(im, 0, n), uf.Memory())
    {
      FirstLinePixel(uf, im, x, pairs0, m0);
      x := x + 1;
      n := n + 1;
    }
  }

  // The body of the loop over row 0.
  method FirstLinePixel(uf: UnionFind, im: Image, x: nat, ghost pairs0: set<Edge>, ghost m0: Mem)
    requires im.Valid() && uf.Valid() && uf.maxid == im.Pixels() && 1 <= x < im.w - 1
    requires uf.pairs == pairs0 + RowEdges(im, 0, x, false) && Performs(m0, RowOps(im, 0, x), uf.Memory())
    modifies uf, uf.parent, uf.size
    ensures uf.Valid() && uf.pairs == pairs0 + RowEdges(im, 0, x + 1, false)
    ensures Performs(m0, RowOps(im, 0, x + 1), uf.Memory())
  {
    InBuffer(im, x, 0);
    var v := im.buf[0 * im.s + x];
    ghost var m := uf.Memory();
    if v != 127 {
      MaybeConnect(uf, im, x, 0, x - 1, 0, v);
    }
    PerformsThen(m0, RowOps(im, 0, x), m, OpsAt(im, x, 0), uf.Memory());
  }

  // The read ahead at column 1, which in an image of one column is the start of the next row.
  method SecondPixel(im: Image, y: nat) returns (v: nat)
    requires im.Valid() && y + 1 < im.h
    ensures im.s > 1 ==> v == im.At(1, y)
  {
    MultipleMono(im.s, y + 2, im.h);
    MultipleIsProduct(im.s, y);
    v := im.buf[y * im.s + 1];
  }

  method ScanLine(uf: UnionFind, im: Image, y: nat)
    requires im.Valid() && uf.Valid() && uf.maxid == im.Pixels() && 0 < y < im.h
    modifies uf, uf.parent, uf.size
    ensures uf.Valid() && uf.pairs == old(uf.pairs) + WholeRow(im, y, false)
    ensures Performs(old(uf.Memory()), RowOps(im, y, im.w - 1), uf.Memory())
  {
    ghost var pairs0, m0 := uf.pairs, uf.Memory();
    var upLeft: nat;
    var up := im.At(0, y - 1);
    var upRight := SecondPixel(im, y - 1);
    var left: nat;
    var v := im.At(0, y);

    var x: nat := 1;
    ghost var n := if im.w == 1 then 0 else 1;
    while x < im.w - 1
      invariant if im.w == 1 then n == 0 else n == x <= im.w - 1
      invariant x < im.w ==> up == im.At(x - 1, y - 1) && upRight == im.At(x, y - 1) && v == im.At(x - 1, y)
      invariant uf.Valid() && uf.pairs == pairs0 + RowEdges(im, y, n, false)
      invariant Performs(m0, RowOps(im, y, n), uf.Memory())
    {
      upLeft := up;
      up := upRight;
      upRight := im.At(x + 1, y - 1);
      left := v;
      v := im.At(x, y);
      ScanIfColoured(uf, im, x, y, v, left, upLeft, up, upRight, pairs0, m0);
      x := x + 1;
      n := n + 1;
    }
  }

  // Pixels of 127 are skipped.
  method ScanIfColoured(uf: UnionFind, im: Image, x: nat, y: nat, v: nat, left: nat, upLeft: nat, up: nat, upRight: nat,
                        ghost pairs0: set<Edge>, ghost m0: Mem)
    requires im.Valid() && uf.Valid() && uf.maxid == im.Pixels() && 1 <= x < im.w - 1 && 1 <= y < im.h
    requires v == im.At(x, y) && left == im.At(x - 1, y)
    requires upLeft == im.At(x - 1, y - 1) && up == im.At(x, y - 1) && upRight == im.At(x + 1, y - 1)
    requires uf.pairs == pairs0 + RowEdges(im, y, x, false) && Performs(m0, RowOps(im, y, x), uf.Memory())
    modifies uf, uf.parent, uf.size
    ensures uf.Valid() && uf.pairs == pairs0 + RowEdges(im, y, x + 1, false)
    ensures Performs(m0, RowOps(im, y, x + 1), uf.Memory())
  {
    ghost var m := uf.Memory();
    if v != 127 {
      ScanPixel(uf, im, x, y, v, left, upLeft, up, upRight);
    }
    PerformsThen(m0, RowOps(im, y, x), m, OpsAt(im, x, y), uf.Memory());
  }

  // The body of the scan at a pixel that is not 127, given the values around it.
  method ScanPixel(uf: UnionFind, im: Image, x: nat, y: nat, v: nat, left: nat, upLeft: nat, up: nat, upRight: nat)
    requires im.Valid() && uf.Valid() && uf.maxid == im.Pixels() && 1 <= x < im.w - 1 && 1 <= y < im.h
    requires v == im.At(x, y) != 127 && left == im.At(x - 1, y)
    requires upLeft == im.At(x - 1, y - 1) && up == im.At(x, y - 1) && upRight == im.At(x + 1, y - 1)
    modifies uf, uf.parent, uf.size
    ensures uf.Valid() && uf.pairs == old(uf.pairs) + PixelEdges(im, x, y, false)
    ensures Performs(old(uf.Memory()), PixelOps(im, x, y), uf.Memory())
  {
    ghost var m0 := uf.Memory();
    ScanStraight(uf, im, x, y, v, left, upLeft, up);
    ghost var m1 := uf.Memory();
    ghost var diagonal := Nothing;
    if v == 255 {
      ScanDiagonals(uf, im, x, y, left, upLeft, up, upRight);
      diagonal := DiagonalOps(im, x, y);
    }
    StraightAndDiagonal(im, x, y);
    PerformsThen(m0, StraightOps(im, x, y), m1, diagonal, uf.Memory());
  }

  method ScanStraight(uf: UnionFind, im: Image, x: nat, y: nat, v: nat, left: nat, upLeft: nat, up: nat)
    requires im.Valid() && uf.Valid() && uf.maxid == im.Pixels() && 1 <= x < im.w - 1 && 1 <= y < im.h
    requires v == im.At(x, y) && left == im.At(x - 1, y) && upLeft == im.At(x - 1, y - 1) && up == im.At(x, y - 1)
    modifies uf, uf.parent, uf.size
    ensures uf.Valid()
    ensures uf.pairs == old(uf.pairs) + StraightEdges(im, x, y)
    ensures Performs(old(uf.Memory()), StraightOps(im, x, y), uf.Memory())
  {
    ghost var m0 := uf.Memory();
    MaybeConnect(uf, im, x, y, x - 1, y, v);
    ghost var m1 := uf.Memory();
    ghost var above := Nothing;
    if x == 1 || !(left == upLeft && upLeft == up) {
      MaybeConnect(uf, im, x, y, x, y - 1, v);
      above := MatchOps(im, x, y, x, y - 1);
    }
    PerformsThen(m0, MatchOps(im, x, y, x - 1, y), m1, above, uf.Memory());
  }

  method ScanDiagonals(uf: UnionFind, im: Image, x: nat, y: nat, left: nat, upLeft: nat, up: nat, upRight: nat)
    requires im.Valid() && uf.Valid() && uf.maxid == im.Pixels() && 1 <= x < im.w - 1 && 1 <= y < im.h
    requires im.At(x, y) == 255 && left == im.At(x - 1, y)
    requires upLeft == im.At(x - 1, y - 1) && up == im.At(x, y - 1) && upRight == im.At(x + 1, y - 1)
    modifies uf, uf.parent, uf.size
    ensures uf.Valid()
    ensures uf.pairs == old(uf.pairs) + DiagonalEdges(im, x, y)
    ensures Performs(old(uf.Memory()), DiagonalOps(im, x, y), uf.Memory())
  {
    ghost var m0 := uf.Memory();
    ghost var first, second := Nothing, Nothing;
    if x == 1 || !(left == upLeft || up == upLeft) {
      MaybeConnect(uf, im, x, y, x - 1, y - 1, 255);
      first := MatchOps(im, x, y, x - 1, y - 1);
    }
    ghost var m1 := uf.Memory();
    if !(up == upRight) {
      MaybeConnect(uf, im, x, y, x + 1, y - 1, 255);
      second := MatchOps(im, x, y, x + 1, y - 1);
    }
    PerformsThen(m0, first, m1, second, uf.Memory());
  }
}
