/** What the component scan computes: the redundant-union shortcuts lose nothing except at the right
  border, where the exact condition is given. */
module Components {
  import opened Equivalence
  import opened FiniteSets
  import opened PixelScan

  // f is constant along every union of rows 0..rows-1.
  ghost predicate RespectsScan(f: nat -> int, im: Image, rows: nat, full: bool)
    requires im.Valid() && rows <= im.h
  {
    forall x, y :: 1 <= x < im.w - 1 && 0 <= y < rows ==> Respects(f, EdgesAt(im, x, y, full))
  }

  ghost function Label(f: nat -> int, im: Image, x: nat, y: nat): int {
    f(Id(im.w, x, y))
  }

  // The unions of a scan of rows 0..rows-1, with or without the shortcuts.
  function Scan(im: Image, rows: nat, full: bool): set<Edge>
    requires im.Valid() && 1 <= rows <= im.h
  {
    ScanEdges(im, Range(1, rows), full)
  }

  lemma {:induction false} RespectsRow(f: nat -> int, im: Image, y: nat, n: nat, full: bool)
    requires im.Valid() && n < im.w && y < im.h
    ensures Respects(f, RowEdges(im, y, n, full))
      <==> forall x :: 1 <= x < n ==> Respects(f, EdgesAt(im, x, y, full))
  {
    if n > 1 {
      RespectsRow(f, im, y, n - 1, full);
    }
  }

  lemma RespectsRows(f: nat -> int, im: Image, rows: nat, full: bool)
    requires im.Valid() && 1 <= rows <= im.h
    ensures Respects(f, Scan(im, rows, full)) <==> forall y: nat :: y < rows ==> Respects(f, WholeRow(im, y, full))
  {
    var E := Scan(im, rows, full);
    if forall y: nat :: y < rows ==> Respects(f, WholeRow(im, y, full)) {
      forall e | e in E ensures f(e.0) == f(e.1) {
        if e !in WholeRow(im, 0, full) {
          var y := RowOfScan(im, Range(1, rows), im.h, full, e);
          assert Respects(f, WholeRow(im, y, full));
        }
      }
    }
    if Respects(f, E) {
      forall y: nat | y < rows ensures Respects(f, WholeRow(im, y, full)) {
        forall e | e in WholeRow(im, y, full) ensures e in E {
          if y > 0 {
            InScan(im, Range(1, rows), im.h, full, y);
          }
        }
      }
    }
  }

  lemma RespectsScanEdges(f: nat -> int, im: Image, rows: nat, full: bool)
    requires im.Valid() && 1 <= rows <= im.h
    ensures Respects(f, Scan(im, rows, full)) <==> RespectsScan(f, im, rows, full)
  {
    RespectsRows(f, im, rows, full);
    if Respects(f, Scan(im, rows, full)) {
      EachPixelRespected(f, im, rows, full);
    }
    if RespectsScan(f, im, rows, full) {
      EachRowRespected(f, im, rows, full);
    }
  }

  lemma {:induction false} PixelOfRow(f: nat -> int, im: Image, y: nat, n: nat, full: bool, x: nat)
    requires im.Valid() && n < im.w && y < im.h && Respects(f, RowEdges(im, y, n, full)) && 1 <= x < n
    ensures Respects(f, EdgesAt(im, x, y, full))
  {
    if x < n - 1 {
      PixelOfRow(f, im, y, n - 1, full, x);
    }
  }

  lemma EachPixelRespected(f: nat -> int, im: Image, rows: nat, full: bool)
    requires im.Valid() && 1 <= rows <= im.h && forall y: nat :: y < rows ==> Respects(f, WholeRow(im, y, full))
    ensures RespectsScan(f, im, rows, full)
  {
    forall x, y | 1 <= x < im.w - 1 && 0 <= y < rows ensures Respects(f, EdgesAt(im, x, y, full)) {
      assert Respects(f, WholeRow(im, y, full));
      PixelOfRow(f, im, y, im.w - 1, full, x);
    }
  }

  lemma EachRowRespected(f: nat -> int, im: Image, rows: nat, full: bool)
    requires im.Valid() && 1 <= rows <= im.h && RespectsScan(f, im, rows, full)
    ensures forall y: nat :: y < rows ==> Respects(f, WholeRow(im, y, full))
  {
    forall y: nat | y < rows ensures Respects(f, WholeRow(im, y, full)) {
      RespectsRow(f, im, y, im.w - 1, full);
    }
  }

  lemma LeftHolds(f: nat -> int, im: Image, rows: nat, x: nat, y: nat)
    requires im.Valid() && rows <= im.h && RespectsScan(f, im, rows, false)
    requires 1 <= x < im.w - 1 && y < rows && im.At(x, y) == im.At(x - 1, y) != 127
    ensures Label(f, im, x, y) == Label(f, im, x - 1, y)
  {
    var e := (Id(im.w, x, y), Id(im.w, x - 1, y));
    assert Respects(f, EdgesAt(im, x, y, false));
    assert e in EdgesAt(im, x, y, false);
    assert f(e.0) == f(e.1);
  }

  // A skipped union with the pixel above is implied by the unions to the left of it.
  lemma {:induction false} UpHolds(f: nat -> int, im: Image, rows: nat, x: nat, y: nat)
    requires im.Valid() && rows <= im.h && RespectsScan(f, im, rows, false)
    requires 1 <= x < im.w - 1 && 1 <= y < rows && im.At(x, y) == im.At(x, y - 1) != 127
    ensures Label(f, im, x, y) == Label(f, im, x, y - 1)
  {
    var left, up, upLeft := im.At(x - 1, y), im.At(x, y - 1), im.At(x - 1, y - 1);
    if x == 1 || !(left == upLeft && upLeft == up) {
      var e := (Id(im.w, x, y), Id(im.w, x, y - 1));
      assert Respects(f, EdgesAt(im, x, y, false));
      assert e in EdgesAt(im, x, y, false);
      assert f(e.0) == f(e.1);
    } else {
      LeftHolds(f, im, rows, x, y);
      UpHolds(f, im, rows, x - 1, y);
      LeftHolds(f, im, rows, x, y - 1);
    }
  }

  // The same for the pixel above and to the left of a white pixel.
  lemma UpLeftHolds(f: nat -> int, im: Image, rows: nat, x: nat, y: nat)
    requires im.Valid() && rows <= im.h && RespectsScan(f, im, rows, false)
    requires 1 <= x < im.w - 1 && 1 <= y < rows && im.At(x, y) == im.At(x - 1, y - 1) == 255
    ensures Label(f, im, x, y) == Label(f, im, x - 1, y - 1)
  {
    var left, up, upLeft := im.At(x - 1, y), im.At(x, y - 1), im.At(x - 1, y - 1);
    if x == 1 || !(left == upLeft || up == upLeft) {
      var e := (Id(im.w, x, y), Id(im.w, x - 1, y - 1));
      assert Respects(f, EdgesAt(im, x, y, false));
      assert e in EdgesAt(im, x, y, false);
      assert f(e.0) == f(e.1);
    } else if left == upLeft {
      LeftHolds(f, im, rows, x, y);
      UpHolds(f, im, rows, x - 1, y);
    } else {
      UpHolds(f, im, rows, x, y);
      LeftHolds(f, im, rows, x, y - 1);
    }
  }

  // The same for the pixel above and to the right, unless that pixel lies in the last column.
  lemma UpRightHolds(f: nat -> int, im: Image, rows: nat, x: nat, y: nat)
    requires im.Valid() && rows <= im.h && RespectsScan(f, im, rows, false)
    requires 1 <= x < im.w - 1 && 1 <= y < rows && im.At(x, y) == im.At(x + 1, y - 1) == 255
    requires x < im.w - 2 || im.At(x, y - 1) != 255
    ensures Label(f, im, x, y) == Label(f, im, x + 1, y - 1)
  {
    if im.At(x, y - 1) != 255 {
      var e := (Id(im.w, x, y), Id(im.w, x + 1, y - 1));
      assert Respects(f, EdgesAt(im, x, y, false));
      assert e in EdgesAt(im, x, y, false);
      assert f(e.0) == f(e.1);
    } else {
      UpHolds(f, im, rows, x, y);
      LeftHolds(f, im, rows, x + 1, y - 1);
    }
  }

  // ---- The main results ----

  // Where the up-right shortcut loses a pixel of the last column: two white pixels one above the other
  // in column w-2 with a white pixel to the right of the upper one.
  ghost predicate LosesLeaf(im: Image, y: nat)
    requires im.Valid()
  {
    im.w >= 3 && 1 <= y < im.h
    && im.At(im.w - 2, y) == 255 && im.At(im.w - 2, y - 1) == 255 && im.At(im.w - 1, y - 1) == 255
  }

  // A labelling kept by the scan with shortcuts is kept by every union that a scan without shortcuts
  // makes, except an up-right union into a lost leaf.
  lemma ShortcutsImplied(f: nat -> int, im: Image, rows: nat, x: nat, y: nat, e: Edge)
    requires im.Valid() && rows <= im.h && RespectsScan(f, im, rows, false)
    requires 1 <= x < im.w - 1 && y < rows && e in EdgesAt(im, x, y, true)
    requires !(x == im.w - 2 && LosesLeaf(im, y) && e == (Id(im.w, x, y), Id(im.w, x + 1, y - 1)))
    ensures f(e.0) == f(e.1)
  {
    if e == (Id(im.w, x, y), Id(im.w, x - 1, y)) && im.At(x, y) == im.At(x - 1, y) {
      LeftHolds(f, im, rows, x, y);
    } else if e == (Id(im.w, x, y), Id(im.w, x, y - 1)) && im.At(x, y) == im.At(x, y - 1) {
      UpHolds(f, im, rows, x, y);
    } else if e == (Id(im.w, x, y), Id(im.w, x - 1, y - 1)) && im.At(x, y) == im.At(x - 1, y - 1) {
      UpLeftHolds(f, im, rows, x, y);
    } else {
      UpRightHolds(f, im, rows, x, y);
    }
  }

  lemma FullImpliesShort(f: nat -> int, im: Image, rows: nat)
    requires im.Valid() && rows <= im.h && RespectsScan(f, im, rows, true)
    ensures RespectsScan(f, im, rows, false)
  {
    forall x, y | 1 <= x < im.w - 1 && 0 <= y < rows ensures Respects(f, EdgesAt(im, x, y, false)) {
      assert Respects(f, EdgesAt(im, x, y, true));
      assert EdgesAt(im, x, y, false) <= EdgesAt(im, x, y, true);
    }
  }

  // Moves the pixels of the last column to the label of the pixel below and to the left.
  ghost function MoveLeaves(f: nat -> int, im: Image): nat -> int
    requires im.Valid()
  {
    (id: nat) => if id % im.w == im.w - 1 && id / im.w + 1 < im.h && LosesLeaf(im, id / im.w + 1)
          then f(Id(im.w, im.w - 2, id / im.w + 1)) else f(id)
  }

  lemma MoveLeavesAt(f: nat -> int, im: Image, x: nat, y: nat)
    requires im.Valid() && x < im.w && y < im.h
    ensures Label(MoveLeaves(f, im), im, x, y)
      == if x == im.w - 1 && LosesLeaf(im, y + 1) then Label(f, im, im.w - 2, y + 1) else Label(f, im, x, y)
  {
    IdCoordinates(im.w, x, y);
  }

  lemma MovedRespectsFull(f: nat -> int, im: Image, rows: nat)
    requires im.Valid() && rows <= im.h && RespectsScan(f, im, rows, false)
    ensures RespectsScan(MoveLeaves(f, im), im, rows, true)
  {
    var g := MoveLeaves(f, im);
    forall x, y | 1 <= x < im.w - 1 && 0 <= y < rows ensures Respects(g, EdgesAt(im, x, y, true)) {
      forall e | e in EdgesAt(im, x, y, true) ensures g(e.0) == g(e.1) {
        MovedRespectsEdge(f, im, rows, x, y, e);
      }
    }
  }

  lemma MovedRespectsEdge(f: nat -> int, im: Image, rows: nat, x: nat, y: nat, e: Edge)
    requires im.Valid() && rows <= im.h && RespectsScan(f, im, rows, false)
    requires 1 <= x < im.w - 1 && y < rows && e in EdgesAt(im, x, y, true)
    ensures MoveLeaves(f, im)(e.0) == MoveLeaves(f, im)(e.1)
  {
    MoveLeavesAt(f, im, x, y);
    MoveLeavesAt(f, im, x - 1, y);
    if y > 0 {
      MoveLeavesAt(f, im, x, y - 1);
      MoveLeavesAt(f, im, x - 1, y - 1);
      MoveLeavesAt(f, im, x + 1, y - 1);
    }
    if y == 0 || !(x == im.w - 2 && LosesLeaf(im, y) && e == (Id(im.w, x, y), Id(im.w, x + 1, y - 1))) {
      ShortcutsImplied(f, im, rows, x, y, e);
    }
  }

  // Left of the last column the shortcuts change no component.
  lemma ShortcutsPreserveComponents(im: Image, rows: nat, x: nat, y: nat, x': nat, y': nat)
    requires im.Valid() && 1 <= rows <= im.h
    requires x < im.w - 1 && x' < im.w - 1 && y < im.h && y' < im.h
    ensures var a, b := Id(im.w, x, y), Id(im.w, x', y');
            Linked(Scan(im, rows, false), a, b) <==> Linked(Scan(im, rows, true), a, b)
  {
    var a, b := Id(im.w, x, y), Id(im.w, x', y');
    var short, full := Scan(im, rows, false), Scan(im, rows, true);
    LinkedIffLabelled(short, a, b);
    LinkedIffLabelled(full, a, b);
    if Linked(short, a, b) {
      forall f: nat -> int | Respects(f, full) ensures f(a) == f(b) {
        RespectsScanEdges(f, im, rows, true);
        FullImpliesShort(f, im, rows);
        RespectsScanEdges(f, im, rows, false);
      }
    }
    if Linked(full, a, b) {
      forall f: nat -> int | Respects(f, short) ensures f(a) == f(b) {
        RespectsScanEdges(f, im, rows, false);
        MovedRespectsFull(f, im, rows);
        RespectsScanEdges(MoveLeaves(f, im), im, rows, true);
        MoveLeavesAt(f, im, x, y);
        MoveLeavesAt(f, im, x', y');
      }
    }
  }

  // Over the whole image, last column included, the shortcuts are harmless exactly when no leaf is lost.
  lemma ShortcutsExactIff(im: Image, rows: nat)
    requires im.Valid() && 1 <= rows <= im.h
    ensures (forall a: nat, b: nat :: Linked(Scan(im, rows, false), a, b) <==> Linked(Scan(im, rows, true), a, b))
      <==> forall y: nat :: y < rows ==> !LosesLeaf(im, y)
  {
    var short, full := Scan(im, rows, false), Scan(im, rows, true);
    if y: nat :| y < rows && LosesLeaf(im, y) {
      LostLeafSeparates(im, rows, y);
    } else {
      forall f: nat -> int ensures Respects(f, short) <==> Respects(f, full) {
        RespectsScanEdges(f, im, rows, false);
        RespectsScanEdges(f, im, rows, true);
        if Respects(f, short) {
          forall x, y | 1 <= x < im.w - 1 && 0 <= y < rows ensures Respects(f, EdgesAt(im, x, y, true)) {
            forall e | e in EdgesAt(im, x, y, true) ensures f(e.0) == f(e.1) {
              ShortcutsImplied(f, im, rows, x, y, e);
            }
          }
        }
        if Respects(f, full) {
          FullImpliesShort(f, im, rows);
        }
      }
      SameLabellingsSameClosure(short, full);
    }
  }

  lemma IdInjective(w: nat, x: nat, y: nat, x': nat, y': nat)
    requires x < w && x' < w && Id(w, x, y) == Id(w, x', y')
    ensures x == x' && y == y'
  {
    IdCoordinates(w, x, y);
    IdCoordinates(w, x', y');
  }

  // The unions at a pixel end at its left neighbour or in the row above.
  lemma EdgeEnds(im: Image, x: nat, y: nat, e: Edge)
    requires im.Valid() && 1 <= x < im.w - 1 && y < im.h && e in EdgesAt(im, x, y, false)
    ensures e.0 == Id(im.w, x, y)
    ensures e.1 == Id(im.w, x - 1, y)
         || (y > 0 && (e.1 == Id(im.w, x - 1, y - 1) || e.1 == Id(im.w, x, y - 1)
                       || (e.1 == Id(im.w, x + 1, y - 1) && im.At(x, y - 1) != im.At(x + 1, y - 1))))
  {
  }

  // The scan with shortcuts makes no union with a lost leaf.
  lemma LostLeafUntouched(im: Image, y: nat, x': nat, y': nat, e: Edge)
    requires im.Valid() && LosesLeaf(im, y) && 1 <= x' < im.w - 1 && y' < im.h && e in EdgesAt(im, x', y', false)
    ensures e.0 != Id(im.w, im.w - 1, y - 1) && e.1 != Id(im.w, im.w - 1, y - 1)
  {
    var x, up := im.w - 1, y - 1;
    EdgeEnds(im, x', y', e);
    if e.0 == Id(im.w, x, up) {
      IdInjective(im.w, x', y', x, up);
    }
    if e.1 == Id(im.w, x, up) {
      LeafIsUpRight(im, x', y', e, up);
    }
  }

  // A union with a pixel of the last column is made from below left of it.
  lemma LeafIsUpRight(im: Image, x: nat, y: nat, e: Edge, up: nat)
    requires im.Valid() && 1 <= x < im.w - 1 && y < im.h && e in EdgesAt(im, x, y, false) && e.1 == Id(im.w, im.w - 1, up)
    ensures x == im.w - 2 && y == up + 1 && im.At(x, up) != im.At(x + 1, up)
  {
    EdgeEnds(im, x, y, e);
    if e.1 == Id(im.w, x - 1, y) {
      IdInjective(im.w, x - 1, y, im.w - 1, up);
    } else if e.1 == Id(im.w, x - 1, y - 1) {
      IdInjective(im.w, x - 1, y - 1, im.w - 1, up);
    } else if e.1 == Id(im.w, x, y - 1) {
      IdInjective(im.w, x, y - 1, im.w - 1, up);
    } else {
      IdInjective(im.w, x + 1, y - 1, im.w - 1, up);
    }
  }

  lemma LostLeafLinked(im: Image, rows: nat, y: nat)
    requires im.Valid() && 1 <= rows <= im.h && y < rows && LosesLeaf(im, y)
    ensures Linked(Scan(im, rows, true), Id(im.w, im.w - 2, y), Id(im.w, im.w - 1, y - 1))
  {
    var x := im.w - 2;
    var a, b := Id(im.w, x, y), Id(im.w, x + 1, y - 1);
    var full := Scan(im, rows, true);
    LinkedIffLabelled(full, a, b);
    forall f: nat -> int | Respects(f, full) ensures f(a) == f(b) {
      RespectsScanEdges(f, im, rows, true);
      assert Respects(f, EdgesAt(im, x, y, true));
      assert (a, b) in EdgesAt(im, x, y, true);
      assert f((a, b).0) == f((a, b).1);
    }
  }

  lemma LostLeafSeparates(im: Image, rows: nat, y: nat)
    requires im.Valid() && 1 <= rows <= im.h && y < rows && LosesLeaf(im, y)
    ensures var a, b := Id(im.w, im.w - 2, y), Id(im.w, im.w - 1, y - 1);
            Linked(Scan(im, rows, true), a, b) && !Linked(Scan(im, rows, false), a, b)
  {
    LostLeafLinked(im, rows, y);
    var a, b := Id(im.w, im.w - 2, y), Id(im.w, im.w - 1, y - 1);
    var short := Scan(im, rows, false);
    LinkedIffLabelled(short, a, b);
    var g := (id: nat) => if id == b then 1 else 0;
    forall x', y' | 1 <= x' < im.w - 1 && 0 <= y' < rows ensures Respects(g, EdgesAt(im, x', y', false)) {
      forall e | e in EdgesAt(im, x', y', false) ensures g(e.0) == g(e.1) {
        LostLeafUntouched(im, y, x', y', e);
      }
    }
    RespectsScanEdges(g, im, rows, false);
    IdCoordinates(im.w, im.w - 2, y);
    IdCoordinates(im.w, im.w - 1, y - 1);
    assert Respects(g, short) && g(a) != g(b);
  }

  // ---- The textbook meaning ----

  // 8-neighbours of equal colour if white, 4-neighbours of equal colour otherwise; 127 has no neighbours.
  ghost predicate Neighbours(im: Image, x: nat, y: nat, x': nat, y': nat)
    requires im.Valid() && x < im.w && x' < im.w && y < im.h && y' < im.h
  {
    && -1 <= x - x' <= 1 && -1 <= y - y' <= 1
    && im.At(x, y) == im.At(x', y') != 127
    && (im.At(x, y) == 255 || x == x' || y == y')
  }

  // Columns 1..w-2 of the first `rows` rows.
  ghost predicate Inside(im: Image, rows: nat, x: nat, y: nat) {
    1 <= x && x + 1 < im.w && y < rows
  }

  ghost predicate TextbookPair(im: Image, rows: nat, a: nat, b: nat)
    requires im.Valid() && rows <= im.h
  {
    exists x, y, x', y' :: Inside(im, rows, x, y) && Inside(im, rows, x', y') && Neighbours(im, x, y, x', y')
                           && a == Id(im.w, x, y) && b == Id(im.w, x', y')
  }

  // The adjacency graph of the interior columns.
  ghost function Textbook(im: Image, rows: nat): (E: set<Edge>)
    requires im.Valid() && rows <= im.h
  {
    var ids := Range(0, im.Pixels());
    set a, b | a in ids && b in ids && TextbookPair(im, rows, a, b) :: (a, b)
  }

  // f is constant along every edge of the textbook graph.
  ghost predicate RespectsTextbook(f: nat -> int, im: Image, rows: nat)
    requires im.Valid() && rows <= im.h
  {
    forall x, y, x', y' :: Inside(im, rows, x, y) && Inside(im, rows, x', y') && Neighbours(im, x, y, x', y')
      ==> Label(f, im, x, y) == Label(f, im, x', y')
  }

  lemma RespectsTextbookEdges(f: nat -> int, im: Image, rows: nat)
    requires im.Valid() && rows <= im.h
    ensures Respects(f, Textbook(im, rows)) <==> RespectsTextbook(f, im, rows)
  {
    if Respects(f, Textbook(im, rows)) {
      forall x: nat, y: nat, x': nat, y': nat
        | Inside(im, rows, x, y) && Inside(im, rows, x', y') && Neighbours(im, x, y, x', y')
        ensures Label(f, im, x, y) == Label(f, im, x', y')
      {
        TextbookEdge(im, rows, x, y, x', y');
        var e := (Id(im.w, x, y), Id(im.w, x', y'));
        assert f(e.0) == f(e.1);
      }
    }
    if RespectsTextbook(f, im, rows) {
      forall e | e in Textbook(im, rows) ensures f(e.0) == f(e.1) {
        var x, y, x', y' :| Inside(im, rows, x, y) && Inside(im, rows, x', y') && Neighbours(im, x, y, x', y')
                            && e.0 == Id(im.w, x, y) && e.1 == Id(im.w, x', y');
        assert Label(f, im, x, y) == Label(f, im, x', y');
      }
    }
  }

  lemma TextbookEdge(im: Image, rows: nat, x: nat, y: nat, x': nat, y': nat)
    requires im.Valid() && rows <= im.h
    requires Inside(im, rows, x, y) && Inside(im, rows, x', y') && Neighbours(im, x, y, x', y')
    ensures (Id(im.w, x, y), Id(im.w, x', y')) in Textbook(im, rows)
  {
    IdBound(im.w, im.h, x, y);
    IdBound(im.w, im.h, x', y');
  }

  // The four earlier neighbours are exactly the textbook edges seen from their later end.
  lemma FullImpliesTextbook(f: nat -> int, im: Image, rows: nat)
    requires im.Valid() && rows <= im.h && RespectsScan(f, im, rows, true)
    ensures RespectsTextbook(f, im, rows)
  {
    forall x: nat, y: nat, x': nat, y': nat
      | Inside(im, rows, x, y) && Inside(im, rows, x', y') && Neighbours(im, x, y, x', y')
      ensures Label(f, im, x, y) == Label(f, im, x', y')
    {
      if y' < y || (y' == y && x' < x) {
        EarlierNeighbour(f, im, rows, x, y, x', y');
      } else if y < y' || x < x' {
        EarlierNeighbour(f, im, rows, x', y', x, y);
      }
    }
  }

  lemma EarlierNeighbour(f: nat -> int, im: Image, rows: nat, x: nat, y: nat, x': nat, y': nat)
    requires im.Valid() && rows <= im.h && RespectsScan(f, im, rows, true)
    requires Inside(im, rows, x, y) && Inside(im, rows, x', y') && Neighbours(im, x, y, x', y')
    requires y' < y || (y' == y && x' < x)
    ensures Label(f, im, x, y) == Label(f, im, x', y')
  {
    var e := (Id(im.w, x, y), Id(im.w, x', y'));
    assert Respects(f, EdgesAt(im, x, y, true));
    assert e in EdgesAt(im, x, y, true) by {
      assert e in Match(im, x, y, x', y');
    }
    assert f(e.0) == f(e.1);
  }

  // Extends a labelling of the interior to the two border columns.
  ghost function Extend(f: nat -> int, im: Image, rows: nat): nat -> int
    requires im.Valid() && rows <= im.h
  {
    (id: nat) => ExtendAt(f, im, rows, Column(im.w, id), Line(im.w, id), id)
  }

  function Column(w: nat, id: nat): (x: nat)
    requires w > 0
    ensures x < w
  {
    id % w
  }

  function Line(w: nat, id: nat): nat
    requires w > 0
  {
    id / w
  }

  ghost function ExtendAt(f: nat -> int, im: Image, rows: nat, x: nat, y: nat, id: nat): int
    requires im.Valid() && rows <= im.h && x < im.w
  {
    if y >= rows || im.w < 3 then f(id)
    else if x == 0 && im.At(0, y) == im.At(1, y) then Label(f, im, 1, y)
    else if x == 0 && y + 1 < rows then Label(f, im, 1, y + 1)
    else if x == im.w - 1 && y + 1 < rows then Label(f, im, im.w - 2, y + 1)
    else f(id)
  }

  lemma ExtendLabel(f: nat -> int, im: Image, rows: nat, x: nat, y: nat)
    requires im.Valid() && rows <= im.h && x < im.w
    ensures Label(Extend(f, im, rows), im, x, y) == ExtendAt(f, im, rows, x, y, Id(im.w, x, y))
  {
    IdCoordinates(im.w, x, y);
  }

  lemma ExtensionRespectsFull(f: nat -> int, im: Image, rows: nat)
    requires im.Valid() && rows <= im.h && RespectsTextbook(f, im, rows)
    ensures RespectsScan(Extend(f, im, rows), im, rows, true)
  {
    forall x, y | 1 <= x < im.w - 1 && 0 <= y < rows
      ensures Respects(Extend(f, im, rows), EdgesAt(im, x, y, true))
    {
      ExtensionRespectsPixel(f, im, rows, x, y);
    }
  }

  lemma ExtensionRespectsPixel(f: nat -> int, im: Image, rows: nat, x: nat, y: nat)
    requires im.Valid() && rows <= im.h && RespectsTextbook(f, im, rows) && 1 <= x < im.w - 1 && y < rows
    ensures Respects(Extend(f, im, rows), EdgesAt(im, x, y, true))
  {
    var g := Extend(f, im, rows);
    forall e | e in EdgesAt(im, x, y, true) ensures g(e.0) == g(e.1) {
      if e in Match(im, x, y, x - 1, y) {
        ExtensionRespects(f, im, rows, x, y, x - 1, y);
      } else if y > 0 && e in Match(im, x, y, x, y - 1) {
        ExtensionRespects(f, im, rows, x, y, x, y - 1);
      } else if y > 0 && e in Match(im, x, y, x - 1, y - 1) {
        ExtensionRespects(f, im, rows, x, y, x - 1, y - 1);
      } else if y > 0 && e in Match(im, x, y, x + 1, y - 1) {
        ExtensionRespects(f, im, rows, x, y, x + 1, y - 1);
      }
    }
  }

  // One union of the scan without shortcuts, from the pixel (x, y) inside the image.
  lemma ExtensionRespects(f: nat -> int, im: Image, rows: nat, x: nat, y: nat, x': nat, y': nat)
    requires im.Valid() && rows <= im.h && RespectsTextbook(f, im, rows) && Inside(im, rows, x, y) && x' < im.w
    requires (y' == y && x' + 1 == x) || (y' + 1 == y && x - 1 <= x' <= x + 1)
    requires Neighbours(im, x, y, x', y')
    ensures Label(Extend(f, im, rows), im, x, y) == Label(Extend(f, im, rows), im, x', y')
  {
    ExtendLabel(f, im, rows, x, y);
    ExtendLabel(f, im, rows, x', y');
    if 1 <= x' && x' + 1 < im.w {
      assert Inside(im, rows, x', y');
    } else if x' == 0 && y' < y && im.At(0, y') == im.At(1, y') {
      assert Inside(im, rows, 1, y') && Neighbours(im, 1, y, 1, y');
      assert Label(f, im, 1, y) == Label(f, im, 1, y');
    }
  }

  // Two interior pixels are joined by the scan exactly when a walk through neighbours of their own colour,
  // 8-connected for white and 4-connected for black, leads from one to the other inside columns 1..w-2.
  lemma ScanIsConnectivity(im: Image, rows: nat, x: nat, y: nat, x': nat, y': nat)
    requires im.Valid() && 1 <= rows <= im.h && Inside(im, rows, x, y) && Inside(im, rows, x', y')
    ensures var a, b := Id(im.w, x, y), Id(im.w, x', y');
            Linked(Scan(im, rows, false), a, b) <==> Linked(Textbook(im, rows), a, b)
  {
    var a, b := Id(im.w, x, y), Id(im.w, x', y');
    var full, book := Scan(im, rows, true), Textbook(im, rows);
    ShortcutsPreserveComponents(im, rows, x, y, x', y');
    LinkedIffLabelled(full, a, b);
    LinkedIffLabelled(book, a, b);
    if Linked(book, a, b) {
      forall f: nat -> int | Respects(f, full) ensures f(a) == f(b) {
        RespectsScanEdges(f, im, rows, true);
        FullImpliesTextbook(f, im, rows);
        RespectsTextbookEdges(f, im, rows);
      }
    }
    if Linked(full, a, b) {
      forall f: nat -> int | Respects(f, book) ensures f(a) == f(b) {
        RespectsTextbookEdges(f, im, rows);
        ExtensionRespectsFull(f, im, rows);
        RespectsScanEdges(Extend(f, im, rows), im, rows, true);
        ExtendLabel(f, im, rows, x, y);
        ExtendLabel(f, im, rows, x', y');
      }
    }
  }
}
