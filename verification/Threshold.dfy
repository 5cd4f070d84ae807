/** threshold in apriltag_quad_thresh.c: tile extremes, a 3x3 blur of them, and a threshold per tile, against the
  definition pixel by pixel. */
module Thresholding {
  import opened Numbers
  import opened PixelScan

  const TILE: nat := 4

  // ---- Grids in flat buffers ----

  ghost predicate IsGrid(s: seq<nat>, w: nat, h: nat) {
    |s| == Multiple(w, h)
  }

  lemma InGrid(s: seq<nat>, w: nat, h: nat, x: nat, y: nat)
    requires IsGrid(s, w, h) && x < w && y < h
    ensures Id(w, x, y) == y * w + x < |s|
  {
    IdBound(w, h, x, y);
    IdIsProduct(w, x, y);
  }

  function Cell(s: seq<nat>, w: nat, h: nat, x: nat, y: nat): nat
    requires IsGrid(s, w, h) && x < w && y < h
  {
    InGrid(s, w, h, x, y);
    s[Id(w, x, y)]
  }

  // One cell gets a value and no other one changes.
  ghost predicate CellSet(before: seq<nat>, after: seq<nat>, w: nat, h: nat, x: nat, y: nat, v: nat)
    requires IsGrid(before, w, h)
  {
    && IsGrid(after, w, h)
    && forall x', y' :: 0 <= x' < w && 0 <= y' < h ==>
      Cell(after, w, h, x', y') == if x' == x && y' == y then v else Cell(before, w, h, x', y')
  }

  method SetCell(a: array<nat>, w: nat, h: nat, x: nat, y: nat, v: nat)
    requires IsGrid(a[..], w, h) && x < w && y < h
    modifies a
    ensures CellSet(old(a[..]), a[..], w, h, x, y, v)
  {
    InGrid(a[..], w, h, x, y);
    a[y * w + x] := v;
    forall x', y' | 0 <= x' < w && 0 <= y' < h
      ensures Cell(a[..], w, h, x', y') == if x' == x && y' == y then v else old(Cell(a[..], w, h, x', y'))
    {
      IdBound(w, h, x', y');
      IdCoordinates(w, x, y);
      IdCoordinates(w, x', y');
    }
  }

  // ---- Areas ----

  // A pixel by its column and row.
  type Pixel = (nat, nat)

  // An area and n pixels of row y from column x0 on.
  ghost function Row(area: set<Pixel>, x0: nat, y: nat, n: nat): set<Pixel> {
    if n == 0 then area else Row(area, x0, y, n - 1) + {(x0 + n - 1, y)}
  }

  // An area and n rows of w pixels.
  ghost function Rows(area: set<Pixel>, x0: nat, w: nat, y0: nat, n: nat): set<Pixel> {
    if n == 0 then area else Row(Rows(area, x0, w, y0, n - 1), x0, y0 + n - 1, w)
  }

  ghost function Tile(tx: nat, ty: nat): set<Pixel> {
    Rows({}, TILE * tx, TILE, TILE * ty, TILE)
  }

  // An area and n tiles of row ty of tiles from tile tx0 on.
  ghost function TileRow(area: set<Pixel>, tx0: nat, ty: nat, n: nat): set<Pixel> {
    if n == 0 then area else TileRow(area, tx0, ty, n - 1) + Tile(tx0 + n - 1, ty)
  }

  ghost function TileRows(tx0: nat, w: nat, ty0: nat, n: nat): set<Pixel> {
    if n == 0 then {} else TileRow(TileRows(tx0, w, ty0, n - 1), tx0, ty0 + n - 1, w)
  }

  function From(t: nat): nat {
    if t == 0 then 0 else t - 1
  }

  function UpTo(t: nat, n: nat): nat {
    if t + 2 <= n then t + 2 else n
  }

  // The 3x3 tiles around a tile, as far as they exist.
  ghost function Block(tx: nat, ty: nat, tw: nat, th: nat): set<Pixel>
    requires tx < tw && ty < th
  {
    TileRows(From(tx), UpTo(tx, tw) - From(tx), From(ty), UpTo(ty, th) - From(ty))
  }

  lemma {:induction false} RowMember(area: set<Pixel>, x0: nat, y: nat, n: nat, p: Pixel)
    ensures p in Row(area, x0, y, n) <==> p in area || (p.1 == y && x0 <= p.0 < x0 + n)
  {
    if n > 0 {
      RowMember(area, x0, y, n - 1, p);
    }
  }

  lemma {:induction false} RowsMember(area: set<Pixel>, x0: nat, w: nat, y0: nat, n: nat, p: Pixel)
    ensures p in Rows(area, x0, w, y0, n) <==> p in area || (x0 <= p.0 < x0 + w && y0 <= p.1 < y0 + n)
  {
    if n > 0 {
      RowsMember(area, x0, w, y0, n - 1, p);
      RowMember(Rows(area, x0, w, y0, n - 1), x0, y0 + n - 1, w, p);
    }
  }

  lemma {:induction false} TileRowMember(area: set<Pixel>, tx0: nat, ty: nat, n: nat, p: Pixel)
    ensures p in TileRow(area, tx0, ty, n) <==>
      p in area || (TILE * tx0 <= p.0 < TILE * (tx0 + n) && TILE * ty <= p.1 < TILE * (ty + 1))
  {
    if n > 0 {
      TileRowMember(area, tx0, ty, n - 1, p);
      RowsMember({}, TILE * (tx0 + n - 1), TILE, TILE * ty, TILE, p);
    }
  }

  lemma {:induction false} TileRowsMember(tx0: nat, w: nat, ty0: nat, n: nat, p: Pixel)
    ensures p in TileRows(tx0, w, ty0, n) <==>
      TILE * tx0 <= p.0 < TILE * (tx0 + w) && TILE * ty0 <= p.1 < TILE * (ty0 + n)
  {
    if n > 0 {
      TileRowsMember(tx0, w, ty0, n - 1, p);
      TileRowMember(TileRows(tx0, w, ty0, n - 1), tx0, ty0 + n - 1, w, p);
    }
  }

  // The block holds the pixels whose tile is at most one away and is a full tile of the image.
  lemma BlockMember(tx: nat, ty: nat, tw: nat, th: nat, p: Pixel)
    requires tx < tw && ty < th
    ensures p in Block(tx, ty, tw, th) <==>
      tx - 1 <= p.0 / TILE <= tx + 1 && ty - 1 <= p.1 / TILE <= ty + 1 && p.0 / TILE < tw && p.1 / TILE < th
  {
    TileRowsMember(From(tx), UpTo(tx, tw) - From(tx), From(ty), UpTo(ty, th) - From(ty), p);
  }

  // ---- Extremes ----

  ghost predicate ByteImage(im: Image) {
    im.Valid() && forall x, y :: 0 <= x < im.w && 0 <= y < im.h ==> im.At(x, y) <= 255
  }

  ghost predicate PixelWithin(im: Image, p: Pixel, min: nat, max: nat)
    requires im.Valid()
  {
    p.0 < im.w && p.1 < im.h && min <= im.At(p.0, p.1) <= max
  }

  ghost predicate PixelIs(im: Image, p: Pixel, v: nat)
    requires im.Valid()
  {
    p.0 < im.w && p.1 < im.h && im.At(p.0, p.1) == v
  }

  // min and max are the least and the greatest pixel of the area; without pixels they are 255 and 0.
  ghost predicate Extremes(im: Image, area: set<Pixel>, min: nat, max: nat)
    requires im.Valid()
  {
    && min <= 255 && max <= 255
    && (forall p :: p in area ==> PixelWithin(im, p, min, max))
    && (min == 255 || exists p :: p in area && PixelIs(im, p, min))
    && (max == 0 || exists p :: p in area && PixelIs(im, p, max))
  }

  function Max(a: nat, b: nat): nat {
    if a > b then a else b
  }

  lemma ExtremesOfUnion(im: Image, a: set<Pixel>, b: set<Pixel>, mina: nat, maxa: nat, minb: nat, maxb: nat)
    requires im.Valid() && Extremes(im, a, mina, maxa) && Extremes(im, b, minb, maxb)
    ensures Extremes(im, a + b, Min(mina, minb), Max(maxa, maxb))
  {
    var area, min, max := a + b, Min(mina, minb), Max(maxa, maxb);
    forall p | p in area
      ensures PixelWithin(im, p, min, max)
    {
      assert p in a ==> PixelWithin(im, p, mina, maxa);
      assert p in b ==> PixelWithin(im, p, minb, maxb);
    }
  }

  // There is one pair of extremes.
  lemma ExtremesUnique(im: Image, area: set<Pixel>, min: nat, max: nat, min': nat, max': nat)
    requires im.Valid() && Extremes(im, area, min, max) && Extremes(im, area, min', max')
    ensures min == min' && max == max'
  {
  }

  // In an area with pixels both extremes are pixels of it.
  lemma ExtremesAttained(im: Image, area: set<Pixel>, min: nat, max: nat) returns (least: Pixel, greatest: Pixel)
    requires ByteImage(im) && Extremes(im, area, min, max) && area != {}
    ensures min <= max && least in area && PixelIs(im, least, min) && greatest in area && PixelIs(im, greatest, max)
  {
    var p :| p in area;
    assert PixelWithin(im, p, min, max) && im.At(p.0, p.1) <= 255;
    if min == 255 {
      least := p;
    } else {
      least :| least in area && PixelIs(im, least, min);
    }
    if max == 0 {
      greatest := p;
    } else {
      greatest :| greatest in area && PixelIs(im, greatest, max);
    }
  }

  // ---- First pass: the extremes of each tile ----

  // The two comparisons with one pixel.
  method Include(im: Image, x: nat, y: nat, min0: nat, max0: nat, ghost area: set<Pixel>) returns (min: nat, max: nat)
    requires ByteImage(im) && x < im.w && y < im.h && Extremes(im, area, min0, max0)
    ensures Extremes(im, area + {(x, y)}, min, max)
  {
    min, max := min0, max0;
    var v := im.At(x, y);
    if v < min {
      min := v;
    }
    if v > max {
      max := v;
    }
    ghost var p := (x, y);
    assert p in {p} && PixelIs(im, p, v);
    ExtremesOfUnion(im, area, {p}, min0, max0, v, v);
  }

  method IncludeRow(im: Image, x0: nat, y: nat, min0: nat, max0: nat, ghost area: set<Pixel>) returns (min: nat, max: nat)
    requires ByteImage(im) && x0 + TILE <= im.w && y < im.h && Extremes(im, area, min0, max0)
    ensures Extremes(im, Row(area, x0, y, TILE), min, max)
  {
    min, max := min0, max0;
    for dx := 0 to TILE
      invariant Extremes(im, Row(area, x0, y, dx), min, max)
    {
      min, max := Include(im, x0 + dx, y, min, max, Row(area, x0, y, dx));
    }
  }

  method TileMinMax(im: Image, tx: nat, ty: nat) returns (min: nat, max: nat)
    requires ByteImage(im) && TILE * (tx + 1) <= im.w && TILE * (ty + 1) <= im.h
    ensures Extremes(im, Tile(tx, ty), min, max)
  {
    max, min := 0, 255;
    var x0, y0 := TILE * tx, TILE * ty;
    for dy := 0 to TILE
      invariant Extremes(im, Rows({}, x0, TILE, y0, dy), min, max)
    {
      min, max := IncludeRow(im, x0, y0 + dy, min, max, Rows({}, x0, TILE, y0, dy));
    }
  }

  // The area a cell of the tile grids stands for: the tile, or after the blur its block.
  ghost function Area(tx: nat, ty: nat, tw: nat, th: nat, blurred: bool): set<Pixel>
    requires tx < tw && ty < th
  {
    if blurred then Block(tx, ty, tw, th) else Tile(tx, ty)
  }

  // The cell of tile (tx, ty) holds the extremes of its area.
  ghost predicate Done(im: Image, tw: nat, th: nat, mins: seq<nat>, maxs: seq<nat>, tx: nat, ty: nat, blurred: bool)
    requires im.Valid() && IsGrid(mins, tw, th) && IsGrid(maxs, tw, th) && tx < tw && ty < th
  {
    Extremes(im, Area(tx, ty, tw, th, blurred), Cell(mins, tw, th, tx, ty), Cell(maxs, tw, th, tx, ty))
  }

  // The first n cells of row ty are done.
  ghost predicate RowDone(im: Image, tw: nat, th: nat, mins: seq<nat>, maxs: seq<nat>, ty: nat, n: nat, blurred: bool)
    requires im.Valid() && IsGrid(mins, tw, th) && IsGrid(maxs, tw, th) && ty < th && n <= tw
  {
    forall tx :: 0 <= tx < n ==> Done(im, tw, th, mins, maxs, tx, ty, blurred)
  }

  // The first n rows of cells are done.
  ghost predicate RowsDone(im: Image, tw: nat, th: nat, mins: seq<nat>, maxs: seq<nat>, n: nat, blurred: bool)
    requires im.Valid() && IsGrid(mins, tw, th) && IsGrid(maxs, tw, th) && n <= th
  {
    forall ty :: 0 <= ty < n ==> RowDone(im, tw, th, mins, maxs, ty, tw, blurred)
  }

  // Two states of a grid agree outside row ty.
  ghost predicate OtherRowsKept(before: seq<nat>, after: seq<nat>, w: nat, h: nat, ty: nat)
    requires IsGrid(before, w, h)
  {
    && IsGrid(after, w, h)
    && forall x, y :: 0 <= x < w && 0 <= y < h && y != ty ==> Cell(after, w, h, x, y) == Cell(before, w, h, x, y)
  }

  lemma OneMoreCell(im: Image, tw: nat, th: nat, mins: seq<nat>, maxs: seq<nat>, mins': seq<nat>, maxs': seq<nat>,
                    tx: nat, ty: nat, min: nat, max: nat, blurred: bool)
    requires im.Valid() && IsGrid(mins, tw, th) && IsGrid(maxs, tw, th) && tx < tw && ty < th
    requires RowDone(im, tw, th, mins, maxs, ty, tx, blurred) && Extremes(im, Area(tx, ty, tw, th, blurred), min, max)
    requires CellSet(mins, mins', tw, th, tx, ty, min) && CellSet(maxs, maxs', tw, th, tx, ty, max)
    ensures RowDone(im, tw, th, mins', maxs', ty, tx + 1, blurred)
  {
    forall x | 0 <= x < tx + 1
      ensures Done(im, tw, th, mins', maxs', x, ty, blurred)
    {
      assert x < tx ==> Done(im, tw, th, mins, maxs, x, ty, blurred);
    }
  }

  lemma OneMoreRow(im: Image, tw: nat, th: nat, mins: seq<nat>, maxs: seq<nat>, mins': seq<nat>, maxs': seq<nat>,
                   ty: nat, blurred: bool)
    requires im.Valid() && IsGrid(mins, tw, th) && IsGrid(maxs, tw, th) && ty < th
    requires RowsDone(im, tw, th, mins, maxs, ty, blurred)
    requires OtherRowsKept(mins, mins', tw, th, ty) && OtherRowsKept(maxs, maxs', tw, th, ty)
    requires RowDone(im, tw, th, mins', maxs', ty, tw, blurred)
    ensures RowsDone(im, tw, th, mins', maxs', ty + 1, blurred)
  {
    forall y | 0 <= y < ty
      ensures RowDone(im, tw, th, mins', maxs', y, tw, blurred)
    {
      assert RowDone(im, tw, th, mins, maxs, y, tw, blurred);
      forall x | 0 <= x < tw
        ensures Done(im, tw, th, mins', maxs', x, y, blurred)
      {
        assert Done(im, tw, th, mins, maxs, x, y, blurred);
      }
    }
  }

  lemma KeepsOtherRows(s: seq<nat>, before: seq<nat>, after: seq<nat>, w: nat, h: nat, x: nat, y: nat, v: nat)
    requires IsGrid(s, w, h) && OtherRowsKept(s, before, w, h, y) && CellSet(before, after, w, h, x, y, v)
    ensures OtherRowsKept(s, after, w, h, y)
  {
  }

  // Stores the extremes of one tile.
  method Store(im: Image, tw: nat, th: nat, tx: nat, ty: nat, im_max: array<nat>, im_min: array<nat>, max: nat, min: nat,
               ghost maxs: seq<nat>, ghost mins: seq<nat>, ghost blurred: bool)
    requires im.Valid() && tx < tw && ty < th && im_max != im_min && IsGrid(maxs, tw, th) && IsGrid(mins, tw, th)
    requires OtherRowsKept(maxs, im_max[..], tw, th, ty) && OtherRowsKept(mins, im_min[..], tw, th, ty)
    requires RowDone(im, tw, th, im_min[..], im_max[..], ty, tx, blurred)
    requires Extremes(im, Area(tx, ty, tw, th, blurred), min, max)
    modifies im_max, im_min
    ensures OtherRowsKept(maxs, im_max[..], tw, th, ty) && OtherRowsKept(mins, im_min[..], tw, th, ty)
    ensures RowDone(im, tw, th, im_min[..], im_max[..], ty, tx + 1, blurred)
  {
    ghost var maxs0, mins0 := im_max[..], im_min[..];
    SetCell(im_max, tw, th, tx, ty, max);
    KeepsOtherRows(maxs, maxs0, im_max[..], tw, th, tx, ty, max);
    SetCell(im_min, tw, th, tx, ty, min);
    KeepsOtherRows(mins, mins0, im_min[..], tw, th, tx, ty, min);
    OneMoreCell(im, tw, th, mins0, maxs0, im_min[..], im_max[..], tx, ty, min, max, blurred);
  }

  // do_minmax_task: one row of tiles, and no other.
  method MinMaxTask(im: Image, ty: nat, tw: nat, th: nat, im_max: array<nat>, im_min: array<nat>)
    requires ByteImage(im) && tw == im.w / TILE && th == im.h / TILE && ty < th
    requires im_max != im_min && IsGrid(im_max[..], tw, th) && IsGrid(im_min[..], tw, th)
    modifies im_max, im_min
    ensures OtherRowsKept(old(im_max[..]), im_max[..], tw, th, ty) && OtherRowsKept(old(im_min[..]), im_min[..], tw, th, ty)
    ensures RowDone(im, tw, th, im_min[..], im_max[..], ty, tw, false)
  {
    ghost var maxs, mins := im_max[..], im_min[..];
    for tx := 0 to tw
      invariant OtherRowsKept(maxs, im_max[..], tw, th, ty) && OtherRowsKept(mins, im_min[..], tw, th, ty)
      invariant RowDone(im, tw, th, im_min[..], im_max[..], ty, tx, false)
    {
      var min, max := TileMinMax(im, tx, ty);
      Store(im, tw, th, tx, ty, im_max, im_min, max, min, maxs, mins, false);
    }
  }

  // The tasks of the first pass, one per row of tiles.
  method MinMaxPass(im: Image, tw: nat, th: nat, im_max: array<nat>, im_min: array<nat>)
    requires ByteImage(im) && tw == im.w / TILE && th == im.h / TILE
    requires im_max != im_min && IsGrid(im_max[..], tw, th) && IsGrid(im_min[..], tw, th)
    modifies im_max, im_min
    ensures IsGrid(im_max[..], tw, th) && IsGrid(im_min[..], tw, th)
    ensures RowsDone(im, tw, th, im_min[..], im_max[..], th, false)
  {
    for ty := 0 to th
      invariant IsGrid(im_max[..], tw, th) && IsGrid(im_min[..], tw, th)
      invariant RowsDone(im, tw, th, im_min[..], im_max[..], ty, false)
    {
      ghost var maxs, mins := im_max[..], im_min[..];
      MinMaxTask(im, ty, tw, th, im_max, im_min);
      OneMoreRow(im, tw, th, mins, maxs, im_min[..], im_max[..], ty, false);
    }
  }

  // ---- Second pass: the extremes of the block around each tile ----

  method IncludeTile(im: Image, tw: nat, th: nat, im_max: array<nat>, im_min: array<nat>, tx: nat, ty: nat,
                     min0: nat, max0: nat, ghost area: set<Pixel>) returns (min: nat, max: nat)
    requires im.Valid() && IsGrid(im_min[..], tw, th) && IsGrid(im_max[..], tw, th) && tx < tw && ty < th
    requires RowsDone(im, tw, th, im_min[..], im_max[..], th, false) && Extremes(im, area, min0, max0)
    ensures Extremes(im, area + Tile(tx, ty), min, max)
  {
    assert RowDone(im, tw, th, im_min[..], im_max[..], ty, tw, false);
    assert Done(im, tw, th, im_min[..], im_max[..], tx, ty, false);
    max, min := max0, min0;
    InGrid(im_max[..], tw, th, tx, ty);
    InGrid(im_min[..], tw, th, tx, ty);
    var m := im_max[ty * tw + tx];
    ghost var hi := m;
    if m > max {
      max := m;
    }
    m := im_min[ty * tw + tx];
    if m < min {
      min := m;
    }
    ExtremesOfUnion(im, area, Tile(tx, ty), min0, max0, m, hi);
  }

  // How many of the cells from lo to hi come before t.
  function Passed(t: int, lo: nat, hi: nat): nat
    requires lo <= hi
  {
    if t < lo then 0 else if t > hi then hi - lo else t - lo
  }

  lemma NextTile(area: set<Pixel>, tx0: nat, ty: nat, n: nat, tx: nat)
    requires tx == tx0 + n
    ensures TileRow(area, tx0, ty, n + 1) == TileRow(area, tx0, ty, n) + Tile(tx, ty)
  {
  }

  // One of the three tiles beside each other, if it exists.
  method IncludeTileAt(im: Image, tw: nat, th: nat, im_max: array<nat>, im_min: array<nat>, c: int, ty: nat,
                       min0: nat, max0: nat, ghost area: set<Pixel>, ghost lo: nat, ghost hi: nat) returns (min: nat, max: nat)
    requires im.Valid() && IsGrid(im_min[..], tw, th) && IsGrid(im_max[..], tw, th) && lo <= hi <= tw && ty < th
    requires 0 <= c < tw <==> lo <= c < hi
    requires RowsDone(im, tw, th, im_min[..], im_max[..], th, false)
    requires Extremes(im, TileRow(area, lo, ty, Passed(c, lo, hi)), min0, max0)
    ensures Extremes(im, TileRow(area, lo, ty, Passed(c + 1, lo, hi)), min, max)
  {
    min, max := min0, max0;
    if !(c < 0 || c >= tw) {
      min, max := IncludeTile(im, tw, th, im_max, im_min, c, ty, min, max, TileRow(area, lo, ty, c - lo));
      NextTile(area, lo, ty, c - lo, c);
    }
  }

  method IncludeTileRow(im: Image, tw: nat, th: nat, im_max: array<nat>, im_min: array<nat>, tx: nat, ty: nat,
                        min0: nat, max0: nat, ghost area: set<Pixel>) returns (min: nat, max: nat)
    requires im.Valid() && IsGrid(im_min[..], tw, th) && IsGrid(im_max[..], tw, th) && tx < tw && ty < th
    requires RowsDone(im, tw, th, im_min[..], im_max[..], th, false) && Extremes(im, area, min0, max0)
    ensures Extremes(im, TileRow(area, From(tx), ty, UpTo(tx, tw) - From(tx)), min, max)
  {
    min, max := min0, max0;
    ghost var lo, hi := From(tx), UpTo(tx, tw);
    for dx := -1 to 2
      invariant Extremes(im, TileRow(area, lo, ty, Passed(tx + dx, lo, hi)), min, max)
    {
      min, max := IncludeTileAt(im, tw, th, im_max, im_min, tx + dx, ty, min, max, area, lo, hi);
    }
  }

  method BlurTile(im: Image, tw: nat, th: nat, im_max: array<nat>, im_min: array<nat>, tx: nat, ty: nat)
    returns (min: nat, max: nat)
    requires im.Valid() && IsGrid(im_min[..], tw, th) && IsGrid(im_max[..], tw, th) && tx < tw && ty < th
    requires RowsDone(im, tw, th, im_min[..], im_max[..], th, false)
    ensures Extremes(im, Block(tx, ty, tw, th), min, max)
  {
    max, min := 0, 255;
    ghost var n := 0;
    for dy := -1 to 2
      invariant n == Passed(ty + dy, From(ty), UpTo(ty, th)) && Extremes(im, BlockRows(tx, ty, tw, n), min, max)
    {
      if !(ty + dy < 0 || ty + dy >= th) {
        min, max := IncludeTileRow(im, tw, th, im_max, im_min, tx, ty + dy, min, max, BlockRows(tx, ty, tw, n));
        NextBlockRow(tx, ty, tw, n);
        n := n + 1;
      }
    }
  }

  // The first n rows of tiles of a block.
  ghost function BlockRows(tx: nat, ty: nat, tw: nat, n: nat): set<Pixel>
    requires tx < tw
  {
    TileRows(From(tx), UpTo(tx, tw) - From(tx), From(ty), n)
  }

  lemma NextBlockRow(tx: nat, ty: nat, tw: nat, n: nat)
    requires tx < tw
    ensures BlockRows(tx, ty, tw, n + 1) == TileRow(BlockRows(tx, ty, tw, n), From(tx), From(ty) + n, UpTo(tx, tw) - From(tx))
  {
    assert From(ty) + (n + 1) - 1 == From(ty) + n;
  }

  // do_blur_task: one row of tiles, and no other.
  method BlurTask(im: Image, ty: nat, tw: nat, th: nat, im_max: array<nat>, im_min: array<nat>,
                  im_max_tmp: array<nat>, im_min_tmp: array<nat>)
    requires im.Valid() && ty < th && IsGrid(im_max[..], tw, th) && IsGrid(im_min[..], tw, th)
    requires RowsDone(im, tw, th, im_min[..], im_max[..], th, false)
    requires im_max_tmp != im_min_tmp && IsGrid(im_max_tmp[..], tw, th) && IsGrid(im_min_tmp[..], tw, th)
    requires im_max_tmp != im_max && im_max_tmp != im_min && im_min_tmp != im_max && im_min_tmp != im_min
    modifies im_max_tmp, im_min_tmp
    ensures OtherRowsKept(old(im_max_tmp[..]), im_max_tmp[..], tw, th, ty)
    ensures OtherRowsKept(old(im_min_tmp[..]), im_min_tmp[..], tw, th, ty)
    ensures RowDone(im, tw, th, im_min_tmp[..], im_max_tmp[..], ty, tw, true)
  {
    ghost var maxs, mins := im_max_tmp[..], im_min_tmp[..];
    for tx := 0 to tw
      invariant OtherRowsKept(maxs, im_max_tmp[..], tw, th, ty) && OtherRowsKept(mins, im_min_tmp[..], tw, th, ty)
      invariant RowDone(im, tw, th, im_min_tmp[..], im_max_tmp[..], ty, tx, true)
    {
      var min, max := BlurTile(im, tw, th, im_max, im_min, tx, ty);
      Store(im, tw, th, tx, ty, im_max_tmp, im_min_tmp, max, min, maxs, mins, true);
    }
  }

  // The tasks of the second pass.
  method BlurPass(im: Image, tw: nat, th: nat, im_max: array<nat>, im_min: array<nat>, im_max_tmp: array<nat>, im_min_tmp: array<nat>)
    requires im.Valid() && IsGrid(im_max[..], tw, th) && IsGrid(im_min[..], tw, th)
    requires RowsDone(im, tw, th, im_min[..], im_max[..], th, false)
    requires im_max_tmp != im_min_tmp && IsGrid(im_max_tmp[..], tw, th) && IsGrid(im_min_tmp[..], tw, th)
    requires im_max_tmp != im_max && im_max_tmp != im_min && im_min_tmp != im_max && im_min_tmp != im_min
    modifies im_max_tmp, im_min_tmp
    ensures IsGrid(im_max_tmp[..], tw, th) && IsGrid(im_min_tmp[..], tw, th)
    ensures RowsDone(im, tw, th, im_min_tmp[..], im_max_tmp[..], th, true)
  {
    for ty := 0 to th
      invariant IsGrid(im_max_tmp[..], tw, th) && IsGrid(im_min_tmp[..], tw, th)
      invariant RowsDone(im, tw, th, im_min_tmp[..], im_max_tmp[..], ty, true)
    {
      ghost var maxs, mins := im_max_tmp[..], im_min_tmp[..];
      BlurTask(im, ty, tw, th, im_max, im_min, im_max_tmp, im_min_tmp);
      OneMoreRow(im, tw, th, mins, maxs, im_min_tmp[..], im_max_tmp[..], ty, true);
    }
  }

  // ---- Third pass: the ternary image ----

  // The output for a pixel v in an area with these extremes; only full tiles can have too little contrast.
  function Level(full: bool, min: nat, max: nat, minWhiteBlackDiff: int, v: nat): nat {
    if full && max - min < minWhiteBlackDiff then 127
    else if v > min + (max - min) / 2 then 255
    else 0
  }

  // The tile of a coordinate, clamped to the last full one.
  function TileOf(c: nat, n: nat): nat
    requires n > 0
  {
    if c / TILE >= n then n - 1 else c / TILE
  }

  predicate InFullTile(im: Image, x: nat, y: nat) {
    x < im.w / TILE * TILE && y < im.h / TILE * TILE
  }

  // The definition of the output at a pixel: by the extremes over all pixels of the 3x3 tiles around it.
  ghost predicate PixelOk(im: Image, diff: int, x: nat, y: nat, v: nat)
    requires im.Valid() && x < im.w && y < im.h && TILE <= im.w && TILE <= im.h
  {
    var tw, th := im.w / TILE, im.h / TILE;
    exists min, max :: Extremes(im, Block(TileOf(x, tw), TileOf(y, th), tw, th), min, max)
      && v == Level(InFullTile(im, x, y), min, max, diff, im.At(x, y))
  }

  // The definition leaves one value, one of three.
  lemma PixelOkUnique(im: Image, diff: int, x: nat, y: nat, v: nat, v': nat)
    requires im.Valid() && x < im.w && y < im.h && TILE <= im.w && TILE <= im.h
    requires PixelOk(im, diff, x, y, v) && PixelOk(im, diff, x, y, v')
    ensures v == v' && (v == 0 || v == 127 || v == 255)
  {
    var tw, th := im.w / TILE, im.h / TILE;
    var area := Block(TileOf(x, tw), TileOf(y, th), tw, th);
    var min, max :| Extremes(im, area, min, max) && v == Level(InFullTile(im, x, y), min, max, diff, im.At(x, y));
    var min', max' :| Extremes(im, area, min', max') && v' == Level(InFullTile(im, x, y), min', max', diff, im.At(x, y));
    ExtremesUnique(im, area, min, max, min', max');
  }

  // ---- The output in the image's own terms ----

  // (px, py) lies in a full tile at most one tile away from that of (x, y), which is the last one for a pixel beyond it.
  ghost predicate Around(im: Image, x: nat, y: nat, px: nat, py: nat)
    requires 4 <= im.w && 4 <= im.h
  {
    var tw, th := im.w / 4, im.h / 4;
    var tx, ty := if x / 4 < tw then x / 4 else tw - 1, if y / 4 < th then y / 4 else th - 1;
    px / 4 < tw && py / 4 < th && tx - 1 <= px / 4 <= tx + 1 && ty - 1 <= py / 4 <= ty + 1
  }

  ghost predicate AtLeast(im: Image, px: nat, py: nat, v: nat)
    requires im.Valid()
  {
    px < im.w && py < im.h && im.At(px, py) >= v
  }

  ghost predicate AtMost(im: Image, px: nat, py: nat, v: nat)
    requires im.Valid()
  {
    px < im.w && py < im.h && im.At(px, py) <= v
  }

  ghost predicate LeastAround(im: Image, x: nat, y: nat, min: nat)
    requires im.Valid() && 4 <= im.w && 4 <= im.h
  {
    && (forall px: nat, py: nat :: Around(im, x, y, px, py) ==> AtLeast(im, px, py, min))
    && exists px: nat, py: nat :: Around(im, x, y, px, py) && AtMost(im, px, py, min)
  }

  ghost predicate GreatestAround(im: Image, x: nat, y: nat, max: nat)
    requires im.Valid() && 4 <= im.w && 4 <= im.h
  {
    && (forall px: nat, py: nat :: Around(im, x, y, px, py) ==> AtMost(im, px, py, max))
    && exists px: nat, py: nat :: Around(im, x, y, px, py) && AtLeast(im, px, py, max)
  }

  // 127 in a full tile with too little contrast, otherwise white above the middle of the extremes and black up to it.
  ghost predicate Shade(im: Image, diff: int, x: nat, y: nat, min: nat, max: nat, v: nat)
    requires im.Valid() && x < im.w && y < im.h
  {
    var flat := x < 4 * (im.w / 4) && y < 4 * (im.h / 4) && max - min < diff;
    && (v == 127 <==> flat)
    && (v == 255 <==> !flat && 2 * im.At(x, y) > min + max)
    && (v == 0 <==> !flat && 2 * im.At(x, y) <= min + max)
  }

  ghost predicate Shaded(im: Image, diff: int, x: nat, y: nat, v: nat)
    requires im.Valid() && x < im.w && y < im.h && 4 <= im.w && 4 <= im.h
  {
    exists min, max :: LeastAround(im, x, y, min) && GreatestAround(im, x, y, max) && Shade(im, diff, x, y, min, max, v)
  }

  lemma AroundIsBlock(im: Image, x: nat, y: nat, px: nat, py: nat)
    requires im.Valid() && 4 <= im.w && 4 <= im.h
    ensures Around(im, x, y, px, py) <==>
      (px, py) in Block(TileOf(x, im.w / TILE), TileOf(y, im.h / TILE), im.w / TILE, im.h / TILE)
  {
    BlockMember(TileOf(x, im.w / TILE), TileOf(y, im.h / TILE), im.w / TILE, im.h / TILE, (px, py));
  }

  lemma ExtremesAround(im: Image, x: nat, y: nat, min: nat, max: nat)
    requires ByteImage(im) && 4 <= im.w && 4 <= im.h && x < im.w && y < im.h
    requires Extremes(im, Block(TileOf(x, im.w / TILE), TileOf(y, im.h / TILE), im.w / TILE, im.h / TILE), min, max)
    ensures LeastAround(im, x, y, min) && GreatestAround(im, x, y, max)
  {
    var tx, ty := TileOf(x, im.w / TILE), TileOf(y, im.h / TILE);
    var area := Block(tx, ty, im.w / TILE, im.h / TILE);
    forall px: nat, py: nat | Around(im, x, y, px, py) ensures AtLeast(im, px, py, min) && AtMost(im, px, py, max) {
      AroundIsBlock(im, x, y, px, py);
      assert PixelWithin(im, (px, py), min, max);
    }
    assert Around(im, x, y, TILE * tx, TILE * ty);
    AroundIsBlock(im, x, y, TILE * tx, TILE * ty);
    var least, greatest := ExtremesAttained(im, area, min, max);
    AroundIsBlock(im, x, y, least.0, least.1);
    AroundIsBlock(im, x, y, greatest.0, greatest.1);
    assert AtMost(im, least.0, least.1, min) && AtLeast(im, greatest.0, greatest.1, max);
  }

  // v > min + (max - min) / 2 says that v is above the middle.
  lemma AboveMiddle(min: nat, max: nat, v: nat)
    requires min <= max
    ensures v > min + (max - min) / 2 <==> 2 * v > min + max
  {
  }

  lemma ExtremesInOrder(im: Image, x: nat, y: nat, min: nat, max: nat)
    requires im.Valid() && 4 <= im.w && 4 <= im.h && LeastAround(im, x, y, min) && GreatestAround(im, x, y, max)
    ensures min <= max
  {
    var px: nat, py: nat :| Around(im, x, y, px, py) && AtMost(im, px, py, min);
    assert AtLeast(im, px, py, min) && AtMost(im, px, py, max);
  }

  /** The level of a pixel is the shade its surroundings ask for. */
  lemma LevelIsShade(im: Image, diff: int, x: nat, y: nat, v: nat)
    requires ByteImage(im) && 4 <= im.w && 4 <= im.h && x < im.w && y < im.h && PixelOk(im, diff, x, y, v)
    ensures Shaded(im, diff, x, y, v)
  {
    var tw, th := im.w / TILE, im.h / TILE;
    var min, max :| Extremes(im, Block(TileOf(x, tw), TileOf(y, th), tw, th), min, max)
      && v == Level(InFullTile(im, x, y), min, max, diff, im.At(x, y));
    ExtremesAround(im, x, y, min, max);
    ExtremesInOrder(im, x, y, min, max);
    AboveMiddle(min, max, im.At(x, y));
    assert Shade(im, diff, x, y, min, max, v);
  }

  /** Where the contrast suffices the brightest pixels of the surroundings of a tile come out white and the darkest black. */
  lemma ExtremesSeparate(im: Image, diff: int, x: nat, y: nat, min: nat, max: nat, v: nat)
    requires im.Valid() && x < 4 * (im.w / 4) && y < 4 * (im.h / 4) && Shaded(im, diff, x, y, v)
    requires LeastAround(im, x, y, min) && GreatestAround(im, x, y, max) && max - min >= diff && min < max
    ensures im.At(x, y) == max ==> v == 255
    ensures im.At(x, y) == min ==> v == 0
  {
    var min', max' :| LeastAround(im, x, y, min') && GreatestAround(im, x, y, max') && Shade(im, diff, x, y, min', max', v);
    AroundUnique(im, x, y, min, max, min', max');
  }

  lemma AroundUnique(im: Image, x: nat, y: nat, min: nat, max: nat, min': nat, max': nat)
    requires im.Valid() && 4 <= im.w && 4 <= im.h
    requires LeastAround(im, x, y, min) && GreatestAround(im, x, y, max)
    requires LeastAround(im, x, y, min') && GreatestAround(im, x, y, max')
    ensures min == min' && max == max'
  {
    var x1: nat, y1: nat :| Around(im, x, y, x1, y1) && AtMost(im, x1, y1, min);
    var x2: nat, y2: nat :| Around(im, x, y, x2, y2) && AtMost(im, x2, y2, min');
    var x3: nat, y3: nat :| Around(im, x, y, x3, y3) && AtLeast(im, x3, y3, max);
    var x4: nat, y4: nat :| Around(im, x, y, x4, y4) && AtLeast(im, x4, y4, max');
    assert AtLeast(im, x1, y1, min') && AtLeast(im, x2, y2, min) && AtMost(im, x3, y3, max') && AtMost(im, x4, y4, max);
  }

  // The output has its level at (x, y).
  ghost predicate OkAt(im: Image, diff: int, out: seq<nat>, x: nat, y: nat)
    requires im.Valid() && TILE <= im.w && TILE <= im.h && IsGrid(out, im.s, im.h) && x < im.w && y < im.h
  {
    PixelOk(im, diff, x, y, Cell(out, im.s, im.h, x, y))
  }

  ghost predicate RectOk(im: Image, diff: int, out: seq<nat>, x0: nat, x1: nat, y0: nat, y1: nat)
    requires im.Valid() && TILE <= im.w && TILE <= im.h && IsGrid(out, im.s, im.h) && x1 <= im.w && y1 <= im.h
  {
    forall x, y :: x0 <= x < x1 && y0 <= y < y1 ==> OkAt(im, diff, out, x, y)
  }

  // A step of the third pass inside rows y0 .. y1 - 1: other rows keep their values and no pixel loses its level.
  ghost predicate Progress(im: Image, diff: int, before: seq<nat>, after: seq<nat>, y0: nat, y1: nat)
    requires im.Valid() && TILE <= im.w && TILE <= im.h && IsGrid(before, im.s, im.h)
  {
    && IsGrid(after, im.s, im.h)
    && (forall x, y :: 0 <= x < im.s && 0 <= y < im.h && !(y0 <= y < y1) ==>
      Cell(after, im.s, im.h, x, y) == Cell(before, im.s, im.h, x, y))
    && forall x, y :: 0 <= x < im.w && 0 <= y < im.h && OkAt(im, diff, before, x, y) ==> OkAt(im, diff, after, x, y)
  }

  lemma ProgressTransitive(im: Image, diff: int, a: seq<nat>, b: seq<nat>, c: seq<nat>, y0: nat, y1: nat)
    requires im.Valid() && TILE <= im.w && TILE <= im.h && IsGrid(a, im.s, im.h)
    requires Progress(im, diff, a, b, y0, y1) && Progress(im, diff, b, c, y0, y1)
    ensures Progress(im, diff, a, c, y0, y1)
  {
  }

  // What was right stays right, and rectangles side by side join.
  lemma JoinColumns(im: Image, diff: int, a: seq<nat>, b: seq<nat>, x0: nat, x1: nat, x2: nat, y0: nat, y1: nat, ya: nat, yb: nat)
    requires im.Valid() && TILE <= im.w && TILE <= im.h && IsGrid(a, im.s, im.h) && Progress(im, diff, a, b, ya, yb)
    requires x0 <= x1 <= x2 <= im.w && y1 <= im.h && RectOk(im, diff, a, x0, x1, y0, y1) && RectOk(im, diff, b, x1, x2, y0, y1)
    ensures RectOk(im, diff, b, x0, x2, y0, y1)
  {
    forall x, y | x0 <= x < x2 && y0 <= y < y1
      ensures OkAt(im, diff, b, x, y)
    {
      assert x < x1 ==> OkAt(im, diff, a, x, y);
    }
  }

  lemma JoinRows(im: Image, diff: int, a: seq<nat>, b: seq<nat>, x0: nat, x1: nat, y0: nat, y1: nat, y2: nat, ya: nat, yb: nat)
    requires im.Valid() && TILE <= im.w && TILE <= im.h && IsGrid(a, im.s, im.h) && Progress(im, diff, a, b, ya, yb)
    requires x1 <= im.w && y0 <= y1 <= y2 <= im.h && RectOk(im, diff, a, x0, x1, y0, y1) && RectOk(im, diff, b, x0, x1, y1, y2)
    ensures RectOk(im, diff, b, x0, x1, y0, y2)
  {
    forall x, y | x0 <= x < x1 && y0 <= y < y2
      ensures OkAt(im, diff, b, x, y)
    {
      assert y < y1 ==> OkAt(im, diff, a, x, y);
    }
  }

  lemma CellProgress(im: Image, diff: int, before: seq<nat>, after: seq<nat>, x: nat, y: nat, v: nat, y0: nat, y1: nat)
    requires im.Valid() && TILE <= im.w && TILE <= im.h && x < im.w && y0 <= y < y1 && y < im.h && PixelOk(im, diff, x, y, v)
    requires IsGrid(before, im.s, im.h) && CellSet(before, after, im.s, im.h, x, y, v)
    ensures Progress(im, diff, before, after, y0, y1) && OkAt(im, diff, after, x, y)
  {
  }

  // Writes one pixel.
  method SetPixel(im: Image, diff: int, threshim: array<nat>, x: nat, y: nat, v: nat, ghost y0: nat, ghost y1: nat)
    requires im.Valid() && TILE <= im.w && TILE <= im.h && IsGrid(threshim[..], im.s, im.h)
    requires x < im.w && y < im.h && y0 <= y < y1 && PixelOk(im, diff, x, y, v)
    modifies threshim
    ensures Progress(im, diff, old(threshim[..]), threshim[..], y0, y1) && OkAt(im, diff, threshim[..], x, y)
  {
    ghost var before := threshim[..];
    SetCell(threshim, im.s, im.h, x, y, v);
    CellProgress(im, diff, before, threshim[..], x, y, v, y0, y1);
  }

  // The output of one pixel whose block has these extremes.
  lemma LevelOk(im: Image, diff: int, tx: nat, ty: nat, min: nat, max: nat, x: nat, y: nat)
    requires im.Valid() && x < im.w && y < im.h && TILE <= im.w && TILE <= im.h
    requires tx == TileOf(x, im.w / TILE) && ty == TileOf(y, im.h / TILE)
    requires Extremes(im, Block(tx, ty, im.w / TILE, im.h / TILE), min, max)
    ensures PixelOk(im, diff, x, y, Level(InFullTile(im, x, y), min, max, diff, im.At(x, y)))
  {
  }

  // One pixel against the threshold between the extremes of its block.
  method Binarize(im: Image, diff: int, threshim: array<nat>, tx: nat, ty: nat, x: nat, y: nat, min: nat, max: nat,
                  ghost y0: nat, ghost y1: nat)
    requires im.Valid() && TILE <= im.w && TILE <= im.h && IsGrid(threshim[..], im.s, im.h)
    requires x < im.w && y < im.h && y0 <= y < y1 && tx == TileOf(x, im.w / TILE) && ty == TileOf(y, im.h / TILE)
    requires Extremes(im, Block(tx, ty, im.w / TILE, im.h / TILE), min, max)
    requires InFullTile(im, x, y) ==> max - min >= diff
    modifies threshim
    ensures Progress(im, diff, old(threshim[..]), threshim[..], y0, y1) && OkAt(im, diff, threshim[..], x, y)
  {
    LevelOk(im, diff, tx, ty, min, max, x, y);
    var thresh := min + (max - min) / 2;
    var v := im.At(x, y);
    if v > thresh {
      SetPixel(im, diff, threshim, x, y, 255, y0, y1);
    } else {
      SetPixel(im, diff, threshim, x, y, 0, y0, y1);
    }
  }

  // One pixel of a full tile: the constant of a tile with too little contrast, or the pixel against the threshold.
  method TilePixel(im: Image, diff: int, threshim: array<nat>, tx: nat, ty: nat, x: nat, y: nat, min: nat, max: nat)
    requires im.Valid() && tx < im.w / TILE && ty < im.h / TILE && IsGrid(threshim[..], im.s, im.h)
    requires TILE * tx <= x < TILE * (tx + 1) && TILE * ty <= y < TILE * (ty + 1)
    requires Extremes(im, Block(tx, ty, im.w / TILE, im.h / TILE), min, max)
    modifies threshim
    ensures Progress(im, diff, old(threshim[..]), threshim[..], TILE * ty, TILE * (ty + 1)) && OkAt(im, diff, threshim[..], x, y)
  {
    if max - min < diff {
      LevelOk(im, diff, tx, ty, min, max, x, y);
      SetPixel(im, diff, threshim, x, y, 127, TILE * ty, TILE * (ty + 1));
    } else {
      Binarize(im, diff, threshim, tx, ty, x, y, min, max, TILE * ty, TILE * (ty + 1));
    }
  }

  // One row of a full tile.
  method TilePixels(im: Image, diff: int, threshim: array<nat>, tx: nat, ty: nat, y: nat, min: nat, max: nat)
    requires im.Valid() && tx < im.w / TILE && ty < im.h / TILE && IsGrid(threshim[..], im.s, im.h)
    requires TILE * ty <= y < TILE * (ty + 1) && Extremes(im, Block(tx, ty, im.w / TILE, im.h / TILE), min, max)
    modifies threshim
    ensures Progress(im, diff, old(threshim[..]), threshim[..], TILE * ty, TILE * (ty + 1))
    ensures RectOk(im, diff, threshim[..], TILE * tx, TILE * (tx + 1), y, y + 1)
  {
    ghost var orig, x0, y0, y1 := threshim[..], TILE * tx, TILE * ty, TILE * (ty + 1);
    for dx := 0 to TILE
      invariant Progress(im, diff, orig, threshim[..], y0, y1) && RectOk(im, diff, threshim[..], x0, x0 + dx, y, y + 1)
    {
      ghost var before := threshim[..];
      TilePixel(im, diff, threshim, tx, ty, tx * TILE + dx, y, min, max);
      ProgressTransitive(im, diff, orig, before, threshim[..], y0, y1);
      JoinColumns(im, diff, before, threshim[..], x0, x0 + dx, x0 + dx + 1, y, y + 1, y0, y1);
    }
  }

  method ThresholdTile(im: Image, diff: int, threshim: array<nat>, tx: nat, ty: nat, min: nat, max: nat)
    requires im.Valid() && tx < im.w / TILE && ty < im.h / TILE && IsGrid(threshim[..], im.s, im.h)
    requires Extremes(im, Block(tx, ty, im.w / TILE, im.h / TILE), min, max)
    modifies threshim
    ensures Progress(im, diff, old(threshim[..]), threshim[..], TILE * ty, TILE * (ty + 1))
    ensures RectOk(im, diff, threshim[..], TILE * tx, TILE * (tx + 1), TILE * ty, TILE * (ty + 1))
  {
    ghost var orig, x0, x1, y0, y1 := threshim[..], TILE * tx, TILE * (tx + 1), TILE * ty, TILE * (ty + 1);
    for dy := 0 to TILE
      invariant Progress(im, diff, orig, threshim[..], y0, y1) && RectOk(im, diff, threshim[..], x0, x1, y0, y0 + dy)
    {
      ghost var before := threshim[..];
      TilePixels(im, diff, threshim, tx, ty, ty * TILE + dy, min, max);
      ProgressTransitive(im, diff, orig, before, threshim[..], y0, y1);
      JoinRows(im, diff, before, threshim[..], x0, x1, y0, y0 + dy, y0 + dy + 1, y0, y1);
    }
  }

  // The grids of tiles after the blur.
  ghost predicate Blurred(im: Image, mins: seq<nat>, maxs: seq<nat>)
    requires im.Valid()
  {
    && IsGrid(mins, im.w / TILE, im.h / TILE) && IsGrid(maxs, im.w / TILE, im.h / TILE)
    && RowsDone(im, im.w / TILE, im.h / TILE, mins, maxs, im.h / TILE, true)
  }

  // The extremes stored for a tile.
  method Lookup(im: Image, im_max: array<nat>, im_min: array<nat>, tx: nat, ty: nat) returns (min: nat, max: nat)
    requires im.Valid() && Blurred(im, im_min[..], im_max[..]) && tx < im.w / TILE && ty < im.h / TILE
    ensures Extremes(im, Block(tx, ty, im.w / TILE, im.h / TILE), min, max)
  {
    var tw := im.w / TILE;
    ghost var th := im.h / TILE;
    assert RowDone(im, tw, th, im_min[..], im_max[..], ty, tw, true);
    assert Done(im, tw, th, im_min[..], im_max[..], tx, ty, true);
    InGrid(im_max[..], tw, th, tx, ty);
    InGrid(im_min[..], tw, th, tx, ty);
    min, max := im_min[ty * tw + tx], im_max[ty * tw + tx];
  }

  // do_threshold_task: the pixels of one row of tiles, and no others.
  method ThresholdTask(im: Image, diff: int, threshim: array<nat>, ty: nat, im_max: array<nat>, im_min: array<nat>)
    requires im.Valid() && TILE <= im.w && ty < im.h / TILE && threshim != im_max && threshim != im_min
    requires Blurred(im, im_min[..], im_max[..]) && IsGrid(threshim[..], im.s, im.h)
    modifies threshim
    ensures Progress(im, diff, old(threshim[..]), threshim[..], TILE * ty, TILE * (ty + 1))
    ensures RectOk(im, diff, threshim[..], 0, im.w / TILE * TILE, TILE * ty, TILE * (ty + 1))
  {
    ghost var orig, y0, y1 := threshim[..], TILE * ty, TILE * (ty + 1);
    for tx := 0 to im.w / TILE
      invariant Progress(im, diff, orig, threshim[..], y0, y1) && RectOk(im, diff, threshim[..], 0, TILE * tx, y0, y1)
    {
      ghost var before := threshim[..];
      var min, max := Lookup(im, im_max, im_min, tx, ty);
      ThresholdTile(im, diff, threshim, tx, ty, min, max);
      ProgressTransitive(im, diff, orig, before, threshim[..], y0, y1);
      JoinColumns(im, diff, before, threshim[..], 0, TILE * tx, TILE * (tx + 1), y0, y1, y0, y1);
    }
  }

  method ThresholdPass(im: Image, diff: int, threshim: array<nat>, im_max: array<nat>, im_min: array<nat>)
    requires im.Valid() && TILE <= im.w && TILE <= im.h && threshim != im_max && threshim != im_min
    requires Blurred(im, im_min[..], im_max[..]) && IsGrid(threshim[..], im.s, im.h)
    modifies threshim
    ensures IsGrid(threshim[..], im.s, im.h)
    ensures RectOk(im, diff, threshim[..], 0, im.w / TILE * TILE, 0, im.h / TILE * TILE)
  {
    for ty := 0 to im.h / TILE
      invariant IsGrid(threshim[..], im.s, im.h) && RectOk(im, diff, threshim[..], 0, im.w / TILE * TILE, 0, TILE * ty)
    {
      ghost var before, y0, y1 := threshim[..], TILE * ty, TILE * (ty + 1);
      ThresholdTask(im, diff, threshim, ty, im_max, im_min);
      JoinRows(im, diff, before, threshim[..], 0, im.w / TILE * TILE, 0, y0, y1, y0, y1);
    }
  }

  // ---- The strips to the right of and below the full tiles ----

  // First column of row y outside the full tiles.
  function StripStart(im: Image, y: nat): (x0: nat)
    ensures x0 <= im.w
  {
    if y >= im.h / TILE * TILE then 0 else im.w / TILE * TILE
  }

  // A pixel outside the full tiles uses the clamped tile, whatever its contrast.
  method StripPixel(im: Image, diff: int, threshim: array<nat>, x: nat, y: nat, im_max: array<nat>, im_min: array<nat>)
    requires im.Valid() && TILE <= im.w && TILE <= im.h && x < im.w && y < im.h && threshim != im_max && threshim != im_min
    requires Blurred(im, im_min[..], im_max[..]) && IsGrid(threshim[..], im.s, im.h) && x >= StripStart(im, y)
    modifies threshim
    ensures Progress(im, diff, old(threshim[..]), threshim[..], y, y + 1) && OkAt(im, diff, threshim[..], x, y)
  {
    var tx, ty := TileOf(x, im.w / TILE), TileOf(y, im.h / TILE);
    var min, max := Lookup(im, im_max, im_min, tx, ty);
    Binarize(im, diff, threshim, tx, ty, x, y, min, max, y, y + 1);
  }

  // The pixels of row y outside the full tiles.
  method Strip(im: Image, diff: int, threshim: array<nat>, y: nat, im_max: array<nat>, im_min: array<nat>)
    requires im.Valid() && TILE <= im.w && TILE <= im.h && y < im.h && threshim != im_max && threshim != im_min
    requires Blurred(im, im_min[..], im_max[..]) && IsGrid(threshim[..], im.s, im.h)
    modifies threshim
    ensures Progress(im, diff, old(threshim[..]), threshim[..], y, y + 1)
    ensures RectOk(im, diff, threshim[..], StripStart(im, y), im.w, y, y + 1)
  {
    ghost var orig := threshim[..];
    var x0 := StripStart(im, y);
    for x := x0 to im.w
      invariant Progress(im, diff, orig, threshim[..], y, y + 1) && RectOk(im, diff, threshim[..], x0, x, y, y + 1)
    {
      ghost var before := threshim[..];
      StripPixel(im, diff, threshim, x, y, im_max, im_min);
      ProgressTransitive(im, diff, orig, before, threshim[..], y, y + 1);
      JoinColumns(im, diff, before, threshim[..], x0, x, x + 1, y, y + 1, y, y + 1);
    }
  }

  // All columns are right in the first n rows.
  ghost predicate RowsOk(im: Image, diff: int, out: seq<nat>, n: nat)
    requires im.Valid() && TILE <= im.w && TILE <= im.h && IsGrid(out, im.s, im.h) && n <= im.h
  {
    RectOk(im, diff, out, 0, im.w, 0, n)
  }

  lemma OneMoreStrip(im: Image, diff: int, a: seq<nat>, b: seq<nat>, y: nat)
    requires im.Valid() && TILE <= im.w && TILE <= im.h && IsGrid(a, im.s, im.h) && y < im.h && Progress(im, diff, a, b, y, y + 1)
    requires RowsOk(im, diff, a, y) && RectOk(im, diff, a, 0, im.w / TILE * TILE, 0, im.h / TILE * TILE)
    requires RectOk(im, diff, b, StripStart(im, y), im.w, y, y + 1)
    ensures RowsOk(im, diff, b, y + 1) && RectOk(im, diff, b, 0, im.w / TILE * TILE, 0, im.h / TILE * TILE)
  {
    forall x | 0 <= x < im.w
      ensures OkAt(im, diff, b, x, y)
    {
      assert x < StripStart(im, y) ==> OkAt(im, diff, a, x, y);
    }
    assert RectOk(im, diff, b, 0, im.w, y, y + 1);
    JoinRows(im, diff, a, b, 0, im.w, 0, y, y + 1, y, y + 1);
  }

  method Strips(im: Image, diff: int, threshim: array<nat>, im_max: array<nat>, im_min: array<nat>)
    requires im.Valid() && TILE <= im.w && TILE <= im.h && threshim != im_max && threshim != im_min
    requires Blurred(im, im_min[..], im_max[..]) && IsGrid(threshim[..], im.s, im.h)
    requires RectOk(im, diff, threshim[..], 0, im.w / TILE * TILE, 0, im.h / TILE * TILE)
    modifies threshim
    ensures IsGrid(threshim[..], im.s, im.h) && RowsOk(im, diff, threshim[..], im.h)
  {
    for y := 0 to im.h
      invariant IsGrid(threshim[..], im.s, im.h) && RowsOk(im, diff, threshim[..], y)
      invariant RectOk(im, diff, threshim[..], 0, im.w / TILE * TILE, 0, im.h / TILE * TILE)
    {
      ghost var before := threshim[..];
      Strip(im, diff, threshim, y, im_max, im_min);
      OneMoreStrip(im, diff, before, threshim[..], y);
    }
  }

  // threshold: every pixel gets its level.
  method Threshold(im: Image, minWhiteBlackDiff: int) returns (threshim: array<nat>)
    requires ByteImage(im) && TILE <= im.w && TILE <= im.h
    ensures IsGrid(threshim[..], im.s, im.h)
    ensures forall x, y :: 0 <= x < im.w && 0 <= y < im.h ==> OkAt(im, minWhiteBlackDiff, threshim[..], x, y)
    ensures forall x, y :: 0 <= x < im.w && 0 <= y < im.h ==>
      Shaded(im, minWhiteBlackDiff, x, y, Cell(threshim[..], im.s, im.h, x, y))
  {
    MultipleIsProduct(im.s, im.h);
    threshim := new nat[im.h * im.s];
    var im_max, im_min := Extents(im);
    ThresholdPass(im, minWhiteBlackDiff, threshim, im_max, im_min);
    Strips(im, minWhiteBlackDiff, threshim, im_max, im_min);
    AllShaded(im, minWhiteBlackDiff, threshim[..]);
  }

  lemma AllShaded(im: Image, diff: int, out: seq<nat>)
    requires ByteImage(im) && TILE <= im.w && TILE <= im.h && IsGrid(out, im.s, im.h)
    requires forall x, y :: 0 <= x < im.w && 0 <= y < im.h ==> OkAt(im, diff, out, x, y)
    ensures forall x, y :: 0 <= x < im.w && 0 <= y < im.h ==> Shaded(im, diff, x, y, Cell(out, im.s, im.h, x, y))
  {
    forall x, y | 0 <= x < im.w && 0 <= y < im.h ensures Shaded(im, diff, x, y, Cell(out, im.s, im.h, x, y)) {
      assert OkAt(im, diff, out, x, y);
      LevelIsShade(im, diff, x, y, Cell(out, im.s, im.h, x, y));
    }
  }

  // The first two passes, each into grids of its own.
  method Extents(im: Image) returns (im_max_tmp: array<nat>, im_min_tmp: array<nat>)
    requires ByteImage(im)
    ensures fresh(im_max_tmp) && fresh(im_min_tmp) && Blurred(im, im_min_tmp[..], im_max_tmp[..])
  {
    var tw, th := im.w / TILE, im.h / TILE;
    MultipleIsProduct(tw, th);
    var im_max, im_min := new nat[th * tw], new nat[th * tw];
    MinMaxPass(im, tw, th, im_max, im_min);
    im_max_tmp, im_min_tmp := new nat[th * tw], new nat[th * tw];
    BlurPass(im, tw, th, im_max, im_min, im_max_tmp, im_min_tmp);
  }
}
