/** What gradient_clusters has to find in an image, without reference to how its loops go: a point half-way between each
  two neighbouring pixels of opposite colour and large components, and at most one at each corner. */
module BoundaryPoints {
  import opened UnionFinding
  import opened PixelScan
  import opened Clusters
  import opened GroupBy

  // A pixel in columns 1..w-2 and its neighbour at (dx, dy) are opposite, and both components have 25 pixels or more.
  ghost predicate Borders(im: Image, rep: seq<nat>, x: int, y: int, dx: int, dy: int)
    requires CanEmit(im, rep)
  {
    && 1 <= x < im.w - 1 && 0 <= y && y + 1 < im.h && -1 <= dx <= 1 && 0 <= dy <= 1
    && im.At(x, y) != 127 && im.At(x, y) + im.At(x + dx, y + dy) == 255
    && LargeAt(im, rep, x, y) && LargeAt(im, rep, x + dx, y + dy)
  }

  ghost predicate LargeAt(im: Image, rep: seq<nat>, x: nat, y: nat)
    requires CanEmit(im, rep) && x < im.w && y < im.h
  {
    IdBound(im.w, im.h, x, y);
    |Class(rep, rep[Id(im.w, x, y)])| >= 25
  }

  // e is the point between the two: half-way, under the id of the two components, and with a gradient that points from
  // the darker pixel to the brighter one.
  ghost predicate Between(im: Image, rep: seq<nat>, e: Emit, x: int, y: int, dx: int, dy: int)
    requires CanEmit(im, rep) && Borders(im, rep, x, y, dx, dy)
  {
    IdBound(im.w, im.h, x, y);
    IdBound(im.w, im.h, x + dx, y + dy);
    && e.id == ClusterId(rep[Id(im.w, x, y)], rep[Id(im.w, x + dx, y + dy)])
    && e.p.x == 2 * x + dx && e.p.y == 2 * y + dy
    && var rise: int := im.At(x + dx, y + dy) - im.At(x, y);
      e.p.gx == dx * rise && e.p.gy == dy * rise
  }

  ghost predicate Adds(im: Image, rep: seq<nat>, e: Emit, x: int, y: int, dx: int, dy: int)
    requires CanEmit(im, rep)
  {
    Borders(im, rep, x, y, dx, dy) && Between(im, rep, e, x, y, dx, dy)
  }

  // The points of one pixel: to the right, below and on both diagonals below, where the left one gives way to the diagonal
  // that crosses it.
  ghost predicate AddsPoint(im: Image, rep: seq<nat>, e: Emit, x: int, y: int)
    requires CanEmit(im, rep)
  {
    || Adds(im, rep, e, x, y, 1, 0) || Adds(im, rep, e, x, y, 0, 1) || Adds(im, rep, e, x, y, 1, 1)
    || (Adds(im, rep, e, x, y, -1, 1) && !Borders(im, rep, x - 1, y, 1, 1))
  }

  // ---- The loops emit exactly these points ----

  lemma ConnMember(im: Image, rep: seq<nat>, e: Emit, x: nat, y: nat, dx: int, dy: int)
    requires CanEmit(im, rep) && 1 <= x < im.w - 1 && y + 1 < im.h && -1 <= dx <= 1 && 0 <= dy <= 1 && Active(im, rep, x, y)
    ensures e in Conn(im, rep, x, y, dx, dy) <==> Adds(im, rep, e, x, y, dx, dy)
    ensures Conn(im, rep, x, y, dx, dy) != [] <==> Borders(im, rep, x, y, dx, dy)
  {
    IdBound(im.w, im.h, x, y);
    IdBound(im.w, im.h, x + dx, y + dy);
  }

  lemma ActiveBorders(im: Image, rep: seq<nat>, x: nat, y: nat, dx: int, dy: int)
    requires CanEmit(im, rep) && 1 <= x < im.w - 1 && y + 1 < im.h && Borders(im, rep, x, y, dx, dy)
    ensures Active(im, rep, x, y)
  {
  }

  lemma LastBorders(im: Image, rep: seq<nat>, x: nat, y: nat)
    requires CanEmit(im, rep) && x < im.w - 1 && y + 1 < im.h
    ensures ConnectedLast(im, rep, x, y) <==> Borders(im, rep, x, y, 1, 1)
  {
    if x >= 1 {
      if Active(im, rep, x, y) {
        ConnMember(im, rep, Emit(0, Pt(0, 0, 0, 0)), x, y, 1, 1);
      } else if Borders(im, rep, x, y, 1, 1) {
        ActiveBorders(im, rep, x, y, 1, 1);
      }
    }
  }

  lemma InFour(e: Emit, a: seq<Emit>, b: seq<Emit>, c: seq<Emit>, d: seq<Emit>)
    ensures e in (a + b) + (c + d) <==> e in a || e in b || e in c || e in d
  {
  }

  lemma PixelMember(im: Image, rep: seq<nat>, e: Emit, x: nat, y: nat)
    requires CanEmit(im, rep) && 1 <= x < im.w - 1 && y + 1 < im.h
    ensures e in PixelEmits(im, rep, x, y, ConnectedLast(im, rep, x - 1, y)) <==> AddsPoint(im, rep, e, x, y)
  {
    var last := ConnectedLast(im, rep, x - 1, y);
    LastBorders(im, rep, x - 1, y);
    if Active(im, rep, x, y) {
      ConnMember(im, rep, e, x, y, 1, 0);
      ConnMember(im, rep, e, x, y, 0, 1);
      ConnMember(im, rep, e, x, y, -1, 1);
      ConnMember(im, rep, e, x, y, 1, 1);
      InFour(e, Conn(im, rep, x, y, 1, 0), Conn(im, rep, x, y, 0, 1),
             if last then [] else Conn(im, rep, x, y, -1, 1), Conn(im, rep, x, y, 1, 1));
    } else {
      NotActive(im, rep, e, x, y);
    }
  }

  lemma NotActive(im: Image, rep: seq<nat>, e: Emit, x: nat, y: nat)
    requires CanEmit(im, rep) && 1 <= x < im.w - 1 && y + 1 < im.h && !Active(im, rep, x, y)
    ensures !AddsPoint(im, rep, e, x, y)
  {
    forall dx, dy | Borders(im, rep, x, y, dx, dy) ensures false {
      ActiveBorders(im, rep, x, y, dx, dy);
    }
  }

  // Some pixel of columns 1 .. n-1 of row y adds e.
  ghost predicate RowAdds(im: Image, rep: seq<nat>, e: Emit, y: nat, n: nat)
    requires CanEmit(im, rep)
  {
    exists x: nat :: x < n && AddsPoint(im, rep, e, x, y)
  }

  lemma {:induction false} RowEmitted(im: Image, rep: seq<nat>, e: Emit, y: nat, n: nat)
    requires CanEmit(im, rep) && n < im.w && y + 1 < im.h
    ensures e in RowEmits(im, rep, y, n) <==> RowAdds(im, rep, e, y, n)
  {
    if n > 1 {
      RowEmitted(im, rep, e, y, n - 1);
      PixelMember(im, rep, e, n - 1, y);
    }
  }

  // Some pixel of rows y0 .. y1-1 adds e.
  ghost predicate BandAdds(im: Image, rep: seq<nat>, e: Emit, y0: nat, y1: nat)
    requires CanEmit(im, rep)
  {
    exists x: nat, y: nat :: y0 <= y < y1 && AddsPoint(im, rep, e, x, y)
  }

  // Some pixel of row y adds e.
  ghost predicate WholeRowAdds(im: Image, rep: seq<nat>, e: Emit, y: nat)
    requires CanEmit(im, rep)
  {
    exists x: nat :: AddsPoint(im, rep, e, x, y)
  }

  lemma WholeRow(im: Image, rep: seq<nat>, e: Emit, y: nat, row: seq<Emit>)
    requires CanEmit(im, rep) && y + 1 < im.h && row == RowEmits(im, rep, y, im.w - 1)
    ensures e in row <==> WholeRowAdds(im, rep, e, y)
  {
    RowEmitted(im, rep, e, y, im.w - 1);
    forall x: nat | AddsPoint(im, rep, e, x, y) ensures x < im.w - 1 {
    }
  }

  lemma SplitBand(im: Image, rep: seq<nat>, y0: nat, y1: nat, es: seq<Emit>) returns (y: nat, band: seq<Emit>, row: seq<Emit>)
    requires CanEmit(im, rep) && y0 < y1 < im.h && es == BandEmits(im, rep, y0, y1)
    ensures y0 <= y && y1 == y + 1 && es == band + row
    ensures band == BandEmits(im, rep, y0, y) && row == RowEmits(im, rep, y, im.w - 1)
  {
    y := y1 - 1;
    band, row := BandEmits(im, rep, y0, y), RowEmits(im, rep, y, im.w - 1);
    BandFold(im, rep, y0, y, y1, band + row, band, row);
  }

  lemma JoinMembers(im: Image, rep: seq<nat>, e: Emit, y0: nat, y: nat, y1: nat, es: seq<Emit>, band: seq<Emit>, row: seq<Emit>)
    requires CanEmit(im, rep) && y0 <= y && y1 == y + 1 && es == band + row
    requires e in band <==> BandAdds(im, rep, e, y0, y)
    requires e in row <==> WholeRowAdds(im, rep, e, y)
    ensures e in es <==> BandAdds(im, rep, e, y0, y1)
  {
    if BandAdds(im, rep, e, y0, y1) {
      var x: nat, y': nat :| y0 <= y' < y1 && AddsPoint(im, rep, e, x, y');
      assert y' < y ==> BandAdds(im, rep, e, y0, y);
    }
  }

  lemma NoRows(im: Image, rep: seq<nat>, e: Emit, y0: nat, es: seq<Emit>)
    requires CanEmit(im, rep) && y0 < im.h && es == BandEmits(im, rep, y0, y0)
    ensures e !in es && !BandAdds(im, rep, e, y0, y0)
  {
  }

  /** A band emits e if and only if some pixel of its rows adds e: no point is missing and none is made up. */
  lemma {:induction false} EmittedIff(im: Image, rep: seq<nat>, e: Emit, y0: nat, y1: nat, es: seq<Emit>)
    requires CanEmit(im, rep) && y0 <= y1 < im.h && es == BandEmits(im, rep, y0, y1)
    ensures e in es <==> BandAdds(im, rep, e, y0, y1)
    decreases y1
  {
    if y0 == y1 {
      NoRows(im, rep, e, y0, es);
    } else {
      var y, band, row := SplitBand(im, rep, y0, y1, es);
      EmittedIff(im, rep, e, y0, y, band);
      WholeRow(im, rep, e, y, row);
      JoinMembers(im, rep, e, y0, y, y1, es, band, row);
    }
  }

  // ---- What stands at a place ----

  ghost predicate At(e: Emit, x: int, y: int) {
    e.p.x == x && e.p.y == y
  }

  // Emission number i is the only one at its place.
  ghost predicate OnlyOne(es: seq<Emit>, i: nat) {
    i < |es| && forall j :: 0 <= j < |es| && At(es[j], es[i].p.x, es[i].p.y) ==> j == i
  }

  // Exactly one emission stands at (x, y), and it is `e`.
  ghost predicate StandsAt(es: seq<Emit>, x: int, y: int, e: Emit) {
    At(e, x, y) && exists i: nat :: OnlyOne(es, i) && es[i] == e
  }

  ghost predicate NothingAt(es: seq<Emit>, x: int, y: int) {
    forall i :: 0 <= i < |es| ==> !At(es[i], x, y)
  }

  // The point between two bordering pixels, with the gradient of a ternary image spelled out.
  ghost predicate Marks(im: Image, rep: seq<nat>, e: Emit, x: int, y: int, dx: int, dy: int)
    requires CanEmit(im, rep) && Borders(im, rep, x, y, dx, dy)
  {
    && Between(im, rep, e, x, y, dx, dy)
    && (im.At(x + dx, y + dy) == 255 ==> e.p.gx == 255 * dx && e.p.gy == 255 * dy)
    && (im.At(x + dx, y + dy) == 0 ==> e.p.gx == -255 * dx && e.p.gy == -255 * dy)
  }

  // Adds is a function of the place.
  ghost function PointOf(im: Image, rep: seq<nat>, x: int, y: int, dx: int, dy: int): (e: Emit)
    requires CanEmit(im, rep) && Borders(im, rep, x, y, dx, dy)
    ensures Marks(im, rep, e, x, y, dx, dy)
  {
    IdBound(im.w, im.h, x, y);
    IdBound(im.w, im.h, x + dx, y + dy);
    var rise: int := im.At(x + dx, y + dy) - im.At(x, y);
    Emit(ClusterId(rep[Id(im.w, x, y)], rep[Id(im.w, x + dx, y + dy)]), Pt(2 * x + dx, 2 * y + dy, dx * rise, dy * rise))
  }

  lemma EmittedStands(im: Image, rep: seq<nat>, y0: nat, y1: nat, e: Emit)
    requires CanEmit(im, rep) && y0 <= y1 < im.h && BandAdds(im, rep, e, y0, y1)
    ensures StandsAt(BandEmits(im, rep, y0, y1), e.p.x, e.p.y, e)
  {
    var es := BandEmits(im, rep, y0, y1);
    EmittedIff(im, rep, e, y0, y1, es);
    EmissionsDistinct(im, rep, y0, y1);
    IsThere(es, e);
  }

  lemma IsThere(es: seq<Emit>, e: Emit)
    requires e in es && AllDistinct(es)
    ensures StandsAt(es, e.p.x, e.p.y, e)
  {
    var i: nat :| i < |es| && es[i] == e;
    forall j | 0 <= j < |es| && j != i ensures !At(es[j], es[i].p.x, es[i].p.y) {
      var a, b := if j < i then j else i, if j < i then i else j;
      assert !SamePoint(es[a], es[b]);
    }
    assert OnlyOne(es, i);
  }

  lemma NoneAt(im: Image, rep: seq<nat>, y0: nat, y1: nat, x: int, y: int)
    requires CanEmit(im, rep) && y0 <= y1 < im.h
    requires forall e :: BandAdds(im, rep, e, y0, y1) ==> !At(e, x, y)
    ensures NothingAt(BandEmits(im, rep, y0, y1), x, y)
  {
    var es := BandEmits(im, rep, y0, y1);
    forall i | 0 <= i < |es| ensures !At(es[i], x, y) {
      EmittedIff(im, rep, es[i], y0, y1, es);
    }
  }

  // Exactly one point stands between the two, and it is the right one.
  ghost predicate Marked(im: Image, rep: seq<nat>, es: seq<Emit>, x: int, y: int, dx: int, dy: int)
    requires CanEmit(im, rep) && Borders(im, rep, x, y, dx, dy)
  {
    exists e :: Marks(im, rep, e, x, y, dx, dy) && StandsAt(es, 2 * x + dx, 2 * y + dy, e)
  }

  lemma AddedIsMarked(im: Image, rep: seq<nat>, y0: nat, y1: nat, x: nat, y: nat, dx: int, dy: int)
    requires CanEmit(im, rep) && y0 <= y < y1 < im.h && Borders(im, rep, x, y, dx, dy)
    requires dx == -1 ==> dy == 1 && !Borders(im, rep, x - 1, y, 1, 1)
    requires dx == 0 ==> dy == 1
    ensures Marked(im, rep, BandEmits(im, rep, y0, y1), x, y, dx, dy)
  {
    var e := PointOf(im, rep, x, y, dx, dy);
    assert AddsPoint(im, rep, e, x, y);
    EmittedStands(im, rep, y0, y1, e);
  }

  // A point with these coordinates could only have been added for one of these pairs.
  lemma AddedWhere(im: Image, rep: seq<nat>, e: Emit, y0: nat, y1: nat)
    requires CanEmit(im, rep) && BandAdds(im, rep, e, y0, y1)
    ensures e.p.x % 2 == 1 && e.p.y % 2 == 0 ==> Borders(im, rep, e.p.x / 2, e.p.y / 2, 1, 0)
    ensures e.p.x % 2 == 0 ==> e.p.y % 2 == 1 && Borders(im, rep, e.p.x / 2, e.p.y / 2, 0, 1)
    ensures e.p.x % 2 == 1 && e.p.y % 2 == 1 ==>
      Borders(im, rep, e.p.x / 2, e.p.y / 2, 1, 1) || Borders(im, rep, e.p.x / 2 + 1, e.p.y / 2, -1, 1)
  {
    var x: nat, y: nat :| y0 <= y < y1 && AddsPoint(im, rep, e, x, y);
    Halves(e.p.x, e.p.y, x, y);
  }

  lemma Halves(px: int, py: int, x: nat, y: nat)
    ensures px == 2 * x + 1 ==> px / 2 == x && px % 2 == 1
    ensures px == 2 * x - 1 ==> px / 2 == x - 1 && px % 2 == 1
    ensures px == 2 * x ==> px / 2 == x && px % 2 == 0
    ensures py == 2 * y + 1 ==> py / 2 == y && py % 2 == 1
    ensures py == 2 * y ==> py / 2 == y && py % 2 == 0
  {
  }

  /** Half-way to the right neighbour and to the one below there is exactly one point if the two pixels are opposite and
    both components are large, with their id and gradient, and none otherwise. */
  lemma StraightPoint(im: Image, rep: seq<nat>, y0: nat, y1: nat, x: nat, y: nat, dx: int, dy: int)
    requires CanEmit(im, rep) && y0 <= y < y1 < im.h && 1 <= x < im.w - 1
    requires (dx == 1 && dy == 0) || (dx == 0 && dy == 1)
    ensures var es := BandEmits(im, rep, y0, y1);
      if Borders(im, rep, x, y, dx, dy) then Marked(im, rep, es, x, y, dx, dy) else NothingAt(es, 2 * x + dx, 2 * y + dy)
  {
    if Borders(im, rep, x, y, dx, dy) {
      AddedIsMarked(im, rep, y0, y1, x, y, dx, dy);
    } else {
      Halves(2 * x + dx, 2 * y + dy, x, y);
      forall e | BandAdds(im, rep, e, y0, y1) ensures !At(e, 2 * x + dx, 2 * y + dy) {
        AddedWhere(im, rep, e, y0, y1);
      }
      NoneAt(im, rep, y0, y1, 2 * x + dx, 2 * y + dy);
    }
  }

  /** At the corner between (c, y) and (c + 1, y + 1) there is exactly one point if one of the two pairs that cross there
    borders, from the falling diagonal if that one does, and none otherwise. */
  lemma CornerPoint(im: Image, rep: seq<nat>, y0: nat, y1: nat, c: nat, y: nat)
    requires CanEmit(im, rep) && y0 <= y < y1 < im.h
    ensures var es := BandEmits(im, rep, y0, y1);
      if Borders(im, rep, c, y, 1, 1) then Marked(im, rep, es, c, y, 1, 1)
      else if Borders(im, rep, c + 1, y, -1, 1) then Marked(im, rep, es, c + 1, y, -1, 1)
      else NothingAt(es, 2 * c + 1, 2 * y + 1)
  {
    if Borders(im, rep, c, y, 1, 1) {
      AddedIsMarked(im, rep, y0, y1, c, y, 1, 1);
    } else if Borders(im, rep, c + 1, y, -1, 1) {
      AddedIsMarked(im, rep, y0, y1, c + 1, y, -1, 1);
    } else {
      Halves(2 * c + 1, 2 * y + 1, c, y);
      forall e | BandAdds(im, rep, e, y0, y1) ensures !At(e, 2 * c + 1, 2 * y + 1) {
        AddedWhere(im, rep, e, y0, y1);
      }
      NoneAt(im, rep, y0, y1, 2 * c + 1, 2 * y + 1);
    }
  }

  // ---- The same in a list of clusters ----

  // The point is in the cluster with this id.
  ghost predicate InClusters(list: seq<Cluster>, e: Emit) {
    exists i :: 0 <= i < |list| && list[i].id == e.id && e.p in list[i].data
  }

  // The clusters hold exactly the points that the pixels of rows 1 .. h-2 add.
  ghost predicate HoldsBoundary(im: Image, rep: seq<nat>, list: seq<Cluster>)
    requires CanEmit(im, rep)
  {
    forall e :: InClusters(list, e) <==> BandAdds(im, rep, e, 1, im.h - 1)
  }

  lemma {:induction false} SelectMember(es: seq<Emit>, id: nat, p: Pt)
    ensures p in Select(es, id) <==> Emit(id, p) in es
  {
    if es != [] {
      var last := |es| - 1;
      SelectMember(es[..last], id, p);
      assert es == es[..last] + [es[last]];
      assert es[last] == Emit(es[last].id, es[last].p);
    }
  }

  lemma ClustersHold(list: seq<Cluster>, es: seq<Emit>, n: nat, e: Emit)
    requires Groups(list, es, n)
    ensures InClusters(list, e) <==> e in es
  {
    SelectMember(es, e.id, e.p);
    assert e == Emit(e.id, e.p);
    if e in es {
      var k :| 0 <= k < |es| && es[k] == e;
      assert HasCluster(list, es[k].id);
      var i :| 0 <= i < |list| && list[i].id == es[k].id;
      assert ClusterOk(list[i], es, n);
    }
    if InClusters(list, e) {
      var i :| 0 <= i < |list| && list[i].id == e.id && e.p in list[i].data;
      assert ClusterOk(list[i], es, n);
    }
  }

  lemma GroupsHold(im: Image, rep: seq<nat>, list: seq<Cluster>, n: nat)
    requires CanEmit(im, rep) && 3 <= im.h && Groups(list, BandEmits(im, rep, 1, im.h - 1), n)
    ensures HoldsBoundary(im, rep, list)
  {
    var es := BandEmits(im, rep, 1, im.h - 1);
    forall e ensures InClusters(list, e) <==> BandAdds(im, rep, e, 1, im.h - 1) {
      ClustersHold(list, es, n, e);
      EmittedIff(im, rep, e, 1, im.h - 1, es);
    }
  }
}
