/** Boundary clustering (apriltag_quad_thresh.c): what a scan of the image emits, and what grouping it means. */
module Clusters {
  import opened UnionFinding
  import opened PixelScan

  // A boundary point: doubled coordinates and gradient direction.
  datatype Pt = Pt(x: int, y: int, gx: int, gy: int)

  datatype Emit = Emit(id: nat, p: Pt)

  const MIN_COMPONENT: nat := 25

  // The id of the cluster between two components, larger representative first.
  function ClusterId(rep0: nat, rep1: nat): nat {
    if rep0 < rep1 then rep1 * 0x1_0000_0000 + rep0 else rep0 * 0x1_0000_0000 + rep1
  }

  // Cluster ids name unordered pairs of components.
  lemma ClusterIdInjective(a: nat, b: nat, c: nat, d: nat)
    requires a < 0x1_0000_0000 && b < 0x1_0000_0000 && c < 0x1_0000_0000 && d < 0x1_0000_0000
    ensures ClusterId(a, b) == ClusterId(c, d) <==> (a == c && b == d) || (a == d && b == c)
  {
  }

  // The larger representative is the high half of the id.
  lemma ClusterIdHalves(a: nat, b: nat)
    requires a <= b < 0x1_0000_0000
    ensures ClusterId(a, b) == ClusterId(b, a)
    ensures ClusterId(a, b) / 0x1_0000_0000 == b && ClusterId(a, b) % 0x1_0000_0000 == a
  {
  }

  // ---- What the pixel loops emit ----

  ghost predicate CanEmit(im: Image, rep: seq<nat>) {
    im.Valid() && |rep| == im.Pixels() + 1
  }

  ghost function RepOf(im: Image, rep: seq<nat>, x: nat, y: nat): nat
    requires CanEmit(im, rep) && x < im.w && y < im.h
  {
    IdBound(im.w, im.h, x, y);
    rep[Id(im.w, x, y)]
  }

  ghost function SizeOf(im: Image, rep: seq<nat>, x: nat, y: nat): nat
    requires CanEmit(im, rep) && x < im.w && y < im.h
  {
    |Class(rep, RepOf(im, rep, x, y))|
  }

  // DO_CONN: the point half-way to the neighbour (x + dx, y + dy), if that is the opposite colour.
  ghost function Conn(im: Image, rep: seq<nat>, x: nat, y: nat, dx: int, dy: int): seq<Emit>
    requires CanEmit(im, rep) && 1 <= x < im.w - 1 && y + 1 < im.h && -1 <= dx <= 1 && 0 <= dy <= 1
  {
    var v0: int, v1: int := im.At(x, y), im.At(x + dx, y + dy);
    if v0 + v1 == 255 && SizeOf(im, rep, x + dx, y + dy) >= MIN_COMPONENT then
      [Emit(ClusterId(RepOf(im, rep, x, y), RepOf(im, rep, x + dx, y + dy)),
            Pt(2 * x + dx, 2 * y + dy, dx * (v1 - v0), dy * (v1 - v0)))]
    else []
  }

  // Whether the pixel is looked at at all.
  ghost predicate Active(im: Image, rep: seq<nat>, x: nat, y: nat)
    requires CanEmit(im, rep) && x < im.w && y < im.h
  {
    im.At(x, y) != 127 && SizeOf(im, rep, x, y) >= MIN_COMPONENT
  }

  // To the right and below, then diagonally below.
  ghost function StraightEmits(im: Image, rep: seq<nat>, x: nat, y: nat): seq<Emit>
    requires CanEmit(im, rep) && 1 <= x < im.w - 1 && y + 1 < im.h
  {
    Conn(im, rep, x, y, 1, 0) + Conn(im, rep, x, y, 0, 1)
  }

  ghost function DiagonalEmits(im: Image, rep: seq<nat>, x: nat, y: nat, last: bool): seq<Emit>
    requires CanEmit(im, rep) && 1 <= x < im.w - 1 && y + 1 < im.h
  {
    (if last then [] else Conn(im, rep, x, y, -1, 1)) + Conn(im, rep, x, y, 1, 1)
  }

  ghost function PixelEmits(im: Image, rep: seq<nat>, x: nat, y: nat, last: bool): seq<Emit>
    requires CanEmit(im, rep) && 1 <= x < im.w - 1 && y + 1 < im.h
  {
    if !Active(im, rep, x, y) then [] else StraightEmits(im, rep, x, y) + DiagonalEmits(im, rep, x, y, last)
  }

  // connected_last after pixel x of row y.
  ghost predicate ConnectedLast(im: Image, rep: seq<nat>, x: nat, y: nat)
    requires CanEmit(im, rep) && x < im.w - 1 && y + 1 < im.h
  {
    x >= 1 && Active(im, rep, x, y) && Conn(im, rep, x, y, 1, 1) != []
  }

  // The emissions of columns 1..n-1 of row y.
  ghost function RowEmits(im: Image, rep: seq<nat>, y: nat, n: nat): seq<Emit>
    requires CanEmit(im, rep) && n < im.w && y + 1 < im.h
  {
    if n <= 1 then [] else RowEmits(im, rep, y, n - 1) + PixelEmits(im, rep, n - 1, y, ConnectedLast(im, rep, n - 2, y))
  }

  // The emissions of rows y0..y1-1.
  ghost function BandEmits(im: Image, rep: seq<nat>, y0: nat, y1: nat): seq<Emit>
    requires CanEmit(im, rep) && y0 <= y1 < im.h
    decreases y1 - y0
  {
    if y0 == y1 then [] else BandEmits(im, rep, y0, y1 - 1) + RowEmits(im, rep, y1 - 1, im.w - 1)
  }

  // One row more, with the lists named so that the proofs need not look into them.
  lemma NextBand(im: Image, rep: seq<nat>, y0: nat, y: nat, out: seq<Emit>, band: seq<Emit>, row: seq<Emit>)
    requires CanEmit(im, rep) && y0 <= y && y + 1 < im.h && out == band + row
    requires band == BandEmits(im, rep, y0, y) && row == RowEmits(im, rep, y, im.w - 1)
    ensures out == BandEmits(im, rep, y0, y + 1)
  {
  }

  lemma SameBand(im: Image, rep: seq<nat>, y0: nat, y: nat, y1: nat, band: seq<Emit>)
    requires CanEmit(im, rep) && y0 <= y == y1 < im.h && band == BandEmits(im, rep, y0, y)
    ensures band == BandEmits(im, rep, y0, y1)
  {
  }

  lemma BandFold(im: Image, rep: seq<nat>, y0: nat, y: nat, y1: nat, out: seq<Emit>, band: seq<Emit>, row: seq<Emit>)
    requires CanEmit(im, rep) && y0 <= y && y1 == y + 1 < im.h && out == band + row
    requires band == BandEmits(im, rep, y0, y) && row == RowEmits(im, rep, y, im.w - 1)
    ensures out == BandEmits(im, rep, y0, y1)
  {
    NextBand(im, rep, y0, y, out, band, row);
    SameBand(im, rep, y0, y + 1, y1, out);
  }

  lemma {:induction false} BandsJoin(im: Image, rep: seq<nat>, y0: nat, y1: nat, y2: nat)
    requires CanEmit(im, rep) && y0 <= y1 <= y2 < im.h
    ensures BandEmits(im, rep, y0, y2) == BandEmits(im, rep, y0, y1) + BandEmits(im, rep, y1, y2)
    decreases y2 - y1
  {
    if y1 < y2 {
      BandsJoin(im, rep, y0, y1, y2 - 1);
      Regroup(BandEmits(im, rep, y0, y1), BandEmits(im, rep, y1, y2 - 1), RowEmits(im, rep, y2 - 1, im.w - 1));
    } else {
      assert BandEmits(im, rep, y1, y2) == [];
    }
  }

  lemma Regroup<T>(a: seq<T>, b: seq<T>, c: seq<T>)
    ensures (a + b) + c == a + (b + c)
  {
  }

  // ---- No point is emitted twice ----

  ghost predicate SamePoint(a: Emit, b: Emit) {
    a.p.x == b.p.x && a.p.y == b.p.y
  }

  ghost predicate AllDistinct(es: seq<Emit>) {
    forall i, j :: 0 <= i < j < |es| ==> !SamePoint(es[i], es[j])
  }

  // Columns before n of row y emit points left of 2n, and at the shared corner only through connected_last.
  ghost predicate RowShape(es: seq<Emit>, n: nat, y: nat, last: bool) {
    forall i :: 0 <= i < |es| ==>
      2 * y <= es[i].p.y <= 2 * y + 1 && es[i].p.x <= 2 * n - 1
      && (es[i].p.x == 2 * n - 1 && es[i].p.y == 2 * y + 1 ==> last)
  }

  // Pixel n of row y emits points right of the row so far, or the shared corner if nobody has emitted it.
  ghost predicate PixelShape(es: seq<Emit>, n: nat, y: nat, last: bool) {
    forall i :: 0 <= i < |es| ==>
      es[i].p.x >= 2 * n - 1 && (es[i].p.x == 2 * n - 1 ==> es[i].p.y == 2 * y + 1 && !last)
  }

  // At most one emission, at this point.
  ghost predicate OnlyAt(es: seq<Emit>, x: int, y: int) {
    |es| <= 1 && forall i :: 0 <= i < |es| ==> es[i].p.x == x && es[i].p.y == y
  }

  lemma ConnAt(im: Image, rep: seq<nat>, x: nat, y: nat, dx: int, dy: int)
    requires CanEmit(im, rep) && 1 <= x < im.w - 1 && y + 1 < im.h && -1 <= dx <= 1 && 0 <= dy <= 1
    ensures OnlyAt(Conn(im, rep, x, y, dx, dy), 2 * x + dx, 2 * y + dy)
  {
  }

  // The four lists of a pixel, whatever they hold.
  lemma FourPoints(right: seq<Emit>, below: seq<Emit>, belowLeft: seq<Emit>, belowRight: seq<Emit>, x: nat, y: nat, last: bool)
    requires OnlyAt(right, 2 * x + 1, 2 * y) && OnlyAt(below, 2 * x, 2 * y + 1)
    requires OnlyAt(belowLeft, 2 * x - 1, 2 * y + 1) && OnlyAt(belowRight, 2 * x + 1, 2 * y + 1)
    requires last ==> belowLeft == []
    ensures var es := (right + below) + (belowLeft + belowRight);
      AllDistinct(es) && PixelShape(es, x, y, last) && RowShape(es, x + 1, y, belowRight != [])
  {
    ConcatDistinct(right, below);
    ConcatDistinct(belowLeft, belowRight);
    ConcatDistinct(right + below, belowLeft + belowRight);
  }

  lemma PixelDistinct(im: Image, rep: seq<nat>, x: nat, y: nat, last: bool)
    requires CanEmit(im, rep) && 1 <= x < im.w - 1 && y + 1 < im.h
    ensures AllDistinct(PixelEmits(im, rep, x, y, last)) && PixelShape(PixelEmits(im, rep, x, y, last), x, y, last)
    ensures RowShape(PixelEmits(im, rep, x, y, last), x + 1, y, ConnectedLast(im, rep, x, y))
  {
    if Active(im, rep, x, y) {
      var belowLeft := if last then [] else Conn(im, rep, x, y, -1, 1);
      ConnAt(im, rep, x, y, 1, 0);
      ConnAt(im, rep, x, y, 0, 1);
      ConnAt(im, rep, x, y, -1, 1);
      ConnAt(im, rep, x, y, 1, 1);
      FourPoints(Conn(im, rep, x, y, 1, 0), Conn(im, rep, x, y, 0, 1), belowLeft, Conn(im, rep, x, y, 1, 1), x, y, last);
    }
  }

  lemma ConcatDistinct(a: seq<Emit>, b: seq<Emit>)
    requires AllDistinct(a) && AllDistinct(b)
    requires forall i, j :: 0 <= i < |a| && 0 <= j < |b| ==> !SamePoint(a[i], b[j])
    ensures AllDistinct(a + b)
  {
  }

  lemma ExtendRow(a: seq<Emit>, b: seq<Emit>, n: nat, y: nat, last: bool, last': bool)
    requires AllDistinct(a) && RowShape(a, n, y, last)
    requires AllDistinct(b) && PixelShape(b, n, y, last) && RowShape(b, n + 1, y, last')
    ensures AllDistinct(a + b) && RowShape(a + b, n + 1, y, last')
  {
    ConcatDistinct(a, b);
  }

  lemma {:induction false} RowDistinct(im: Image, rep: seq<nat>, y: nat, n: nat)
    requires CanEmit(im, rep) && 1 <= n < im.w && y + 1 < im.h
    ensures AllDistinct(RowEmits(im, rep, y, n))
    ensures RowShape(RowEmits(im, rep, y, n), n, y, ConnectedLast(im, rep, n - 1, y))
  {
    if n > 1 {
      var x, last, last' := n - 1, ConnectedLast(im, rep, n - 2, y), ConnectedLast(im, rep, n - 1, y);
      RowDistinct(im, rep, y, x);
      PixelDistinct(im, rep, x, y, last);
      ExtendRow(RowEmits(im, rep, y, x), PixelEmits(im, rep, x, y, last), x, y, last, last');
    }
  }

  ghost predicate BandShape(es: seq<Emit>, y1: nat) {
    forall i :: 0 <= i < |es| ==> es[i].p.y < 2 * y1
  }

  ghost predicate InRow(es: seq<Emit>, y: nat) {
    forall i :: 0 <= i < |es| ==> 2 * y <= es[i].p.y <= 2 * y + 1
  }

  lemma WholeRowDistinct(im: Image, rep: seq<nat>, y: nat)
    requires CanEmit(im, rep) && y + 1 < im.h
    ensures AllDistinct(RowEmits(im, rep, y, im.w - 1)) && InRow(RowEmits(im, rep, y, im.w - 1), y)
  {
    if im.w >= 2 {
      RowDistinct(im, rep, y, im.w - 1);
    }
  }

  lemma ExtendBand(a: seq<Emit>, b: seq<Emit>, y: nat)
    requires AllDistinct(a) && BandShape(a, y) && AllDistinct(b) && InRow(b, y)
    ensures AllDistinct(a + b) && BandShape(a + b, y + 1)
  {
    ConcatDistinct(a, b);
  }

  // Over any range of rows, hence over the whole image and across bands, no two emitted points coincide.
  lemma {:induction false} EmissionsDistinct(im: Image, rep: seq<nat>, y0: nat, y1: nat)
    requires CanEmit(im, rep) && y0 <= y1 < im.h
    ensures AllDistinct(BandEmits(im, rep, y0, y1)) && BandShape(BandEmits(im, rep, y0, y1), y1)
    decreases y1 - y0
  {
    if y0 < y1 {
      var y := y1 - 1;
      var a, b := BandEmits(im, rep, y0, y), RowEmits(im, rep, y, im.w - 1);
      EmissionsDistinct(im, rep, y0, y);
      WholeRowDistinct(im, rep, y);
      ExtendBand(a, b, y);
      assert BandEmits(im, rep, y0, y1) == a + b;
    } else {
      assert BandEmits(im, rep, y0, y1) == [];
    }
  }
}
