/** Step 3 of apriltag_detector_detect in apriltag.c: of two overlapping detections of one tag only the preferred one is
  kept. The overlap test on the corner polygons is any predicate. */
module Reconciliation {

  datatype Point = Point(x: real, y: real)

  // The four corners.
  datatype Quad = Quad(p0: Point, p1: Point, p2: Point, p3: Point) {
    function Corner(i: nat): Point
      requires i < 4
    {
      if i == 0 then p0 else if i == 1 then p1 else if i == 2 then p2 else p3
    }
  }

  // The family is known by a number that stands for its address.
  datatype Detection = Detection(family: int, id: int, hamming: int, decisionMargin: real, p: Quad)

  // ---- Preference ----

  // What detections are compared by, in order: few corrected bits, a large margin, then the corners.
  function Key(d: Detection): (key: seq<real>)
    ensures |key| == 10
  {
    [d.hamming as real, -d.decisionMargin] + Corners(d.p, 4)
  }

  function Corners(p: Quad, n: nat): (s: seq<real>)
    requires n <= 4
    ensures |s| == 2 * n
  {
    if n == 0 then [] else Corners(p, n - 1) + [p.Corner(n - 1).x, p.Corner(n - 1).y]
  }

  // Lexicographic order: negative, zero or positive.
  function Compare(a: seq<real>, b: seq<real>): int
    requires |a| == |b|
  {
    if a == [] then 0
    else if a[0] < b[0] then -1
    else if b[0] < a[0] then 1
    else Compare(a[1..], b[1..])
  }

  lemma {:induction false} CompareReverse(a: seq<real>, b: seq<real>)
    requires |a| == |b|
    ensures Compare(a, b) == -Compare(b, a)
    ensures Compare(a, b) == 0 <==> a == b
  {
    if a == [] {
    } else if a[0] == b[0] {
      CompareReverse(a[1..], b[1..]);
      assert a == [a[0]] + a[1..] && b == [b[0]] + b[1..];
    }
  }

  lemma {:induction false} CompareTransitive(a: seq<real>, b: seq<real>, c: seq<real>)
    requires |a| == |b| == |c| && Compare(a, b) <= 0 && Compare(b, c) <= 0
    ensures Compare(a, c) <= 0
  {
    if a != [] && a[0] == b[0] == c[0] {
      CompareTransitive(a[1..], b[1..], c[1..]);
    }
  }

  lemma {:induction false} CompareOneMore(a: seq<real>, b: seq<real>, x: real, y: real)
    requires |a| == |b|
    ensures Compare(a + [x], b + [y]) ==
      if Compare(a, b) != 0 then Compare(a, b) else if x < y then -1 else if y < x then 1 else 0
  {
    if a == [] {
      assert a + [x] == [x] && b + [y] == [y];
    } else {
      CompareOneMore(a[1..], b[1..], x, y);
      assert (a + [x])[1..] == a[1..] + [x] && (b + [y])[1..] == b[1..] + [y];
    }
  }

  // Fewer corrected bits come first, then a larger margin, whatever the corners are.
  lemma KeyOrder(d: Detection, e: Detection)
    ensures d.hamming < e.hamming ==> Compare(Key(d), Key(e)) < 0
    ensures d.hamming == e.hamming && d.decisionMargin > e.decisionMargin ==> Compare(Key(d), Key(e)) < 0
    ensures Compare(Key(d), Key(e)) <= 0
        ==> d.hamming < e.hamming || (d.hamming == e.hamming && d.decisionMargin >= e.decisionMargin)
  {
    CompareReverse(Key(d), Key(e));
    if d.hamming != e.hamming {
      if d.hamming < e.hamming {
        FirstDifference(Key(d), Key(e), 0);
      } else {
        FirstDifference(Key(e), Key(d), 0);
      }
    } else if d.decisionMargin > e.decisionMargin {
      FirstDifference(Key(d), Key(e), 1);
    } else if d.decisionMargin < e.decisionMargin {
      FirstDifference(Key(e), Key(d), 1);
    }
  }

  // With both equal the first corner coordinate that differs decides, x before y.
  lemma {:induction false} CornerOrder(d: Detection, e: Detection, i: nat)
    requires i < 4 && d.hamming == e.hamming && d.decisionMargin == e.decisionMargin
    requires forall j: nat :: j < i ==> d.p.Corner(j) == e.p.Corner(j)
    requires var c, c' := d.p.Corner(i), e.p.Corner(i); c.x < c'.x || (c.x == c'.x && c.y < c'.y)
    ensures Compare(Key(d), Key(e)) < 0
  {
    var k := if d.p.Corner(i).x < e.p.Corner(i).x then 2 + 2 * i else 3 + 2 * i;
    forall j | 0 <= j <= k
      ensures j < k ==> Key(d)[j] == Key(e)[j]
      ensures j == k ==> Key(d)[j] < Key(e)[j]
    {
      if j >= 2 {
        CornersAt(d.p, 4, (j - 2) / 2);
        CornersAt(e.p, 4, (j - 2) / 2);
      }
    }
    FirstDifference(Key(d), Key(e), k);
  }

  lemma {:induction false} CornersAt(p: Quad, n: nat, i: nat)
    requires i < n <= 4
    ensures Corners(p, n)[2 * i] == p.Corner(i).x && Corners(p, n)[2 * i + 1] == p.Corner(i).y
  {
    if i < n - 1 {
      CornersAt(p, n - 1, i);
    }
  }

  lemma {:induction false} FirstDifference(a: seq<real>, b: seq<real>, k: nat)
    requires k < |a| == |b| && a[..k] == b[..k] && a[k] < b[k]
    ensures Compare(a, b) < 0
  {
    if k > 0 {
      assert a[0] == a[..k][0] == b[..k][0] == b[0];
      assert a[1..][..k - 1] == a[..k][1..] && b[1..][..k - 1] == b[..k][1..];
      FirstDifference(a[1..], b[1..], k - 1);
    }
  }

  // prefer_smaller: a preference, once there, stays.
  function PreferSmaller(pref: int, q0: real, q1: real): int {
    if pref != 0 then pref
    else if q0 < q1 then -1
    else if q1 < q0 then 1
    else 0
  }

  // The ten calls of prefer_smaller compare the keys lexicographically.
  method Prefer(det0: Detection, det1: Detection) returns (pref: int)
    ensures pref == Compare(Key(det0), Key(det1))
    ensures det0.hamming < det1.hamming ==> pref < 0
    ensures det1.hamming < det0.hamming ==> pref > 0
    ensures det0.hamming == det1.hamming && det0.decisionMargin > det1.decisionMargin ==> pref < 0
    ensures det0.hamming == det1.hamming && det1.decisionMargin > det0.decisionMargin ==> pref > 0
  {
    KeyOrder(det0, det1);
    KeyOrder(det1, det0);
    CompareReverse(Key(det0), Key(det1));
    pref := 0;
    pref := PreferSmaller(pref, det0.hamming as real, det1.hamming as real);
    pref := PreferSmaller(pref, -det0.decisionMargin, -det1.decisionMargin);
    ghost var a, b := [det0.hamming as real, -det0.decisionMargin], [det1.hamming as real, -det1.decisionMargin];
    CompareOneMore([], [], a[0], b[0]);
    CompareOneMore([a[0]], [b[0]], a[1], b[1]);
    assert [] + [a[0]] == [a[0]] && [] + [b[0]] == [b[0]] && [a[0]] + [a[1]] == a && [b[0]] + [b[1]] == b;
    for i := 0 to 4
      invariant pref == Compare(a + Corners(det0.p, i), b + Corners(det1.p, i))
    {
      ghost var a', b' := a + Corners(det0.p, i), b + Corners(det1.p, i);
      var c0, c1 := det0.p.Corner(i), det1.p.Corner(i);
      pref := PreferSmaller(pref, c0.x, c1.x);
      CompareOneMore(a', b', c0.x, c1.x);
      pref := PreferSmaller(pref, c0.y, c1.y);
      CompareOneMore(a' + [c0.x], b' + [c1.x], c0.y, c1.y);
      assert a + Corners(det0.p, i + 1) == a' + [c0.x] + [c0.y];
      assert b + Corners(det1.p, i + 1) == b' + [c1.x] + [c1.y];
    }
  }

  // ---- Reconciliation ----

  predicate SameTag(d: Detection, e: Detection) {
    d.id == e.id && d.family == e.family
  }

  // An earlier and a later detection that may not both be reported.
  predicate Conflict(overlaps: (Quad, Quad) -> bool, d: Detection, e: Detection) {
    SameTag(d, e) && overlaps(d.p, e.p)
  }

  ghost predicate AtLeastAsGood(d: Detection, e: Detection) {
    SameTag(d, e) && Compare(Key(d), Key(e)) <= 0
  }

  // Detection i conflicts with no later one before the end.
  ghost predicate ClearUpTo(overlaps: (Quad, Quad) -> bool, s: seq<Detection>, i: nat, end: nat)
    requires i < |s| && end <= |s|
  {
    forall j :: i < j < end ==> !Conflict(overlaps, s[i], s[j])
  }

  ghost predicate Survives(d: Detection, s: seq<Detection>) {
    exists e :: e in s && AtLeastAsGood(e, d)
  }

  // A detection that overlaps another one of its tag that is at least as good.
  ghost predicate Beaten(overlaps: (Quad, Quad) -> bool, input: seq<Detection>, d: Detection) {
    exists e :: e in input && (Conflict(overlaps, d, e) || Conflict(overlaps, e, d)) && AtLeastAsGood(e, d)
  }

  // What every removal keeps: nothing is made up, every detection is still represented by one of its tag that is at
  // least as good, and whatever is gone was beaten.
  ghost predicate Represents(overlaps: (Quad, Quad) -> bool, input: seq<Detection>, s: seq<Detection>) {
    && multiset(s) <= multiset(input)
    && (forall d :: d in input ==> Survives(d, s))
    && forall d :: d in input && multiset(s)[d] < multiset(input)[d] ==> Beaten(overlaps, input, d)
  }

  // zarray_remove_index: with shuffling the last element takes the place of the removed one, without it the later ones
  // move down.
  function RemoveIndex(s: seq<Detection>, i: nat, shuffle: bool): (r: seq<Detection>)
    requires i < |s|
    ensures |r| == |s| - 1
    ensures forall k :: 0 <= k < |r| ==> r[k] == s[if k < i then k else if !shuffle then k + 1 else if k == i then |s| - 1 else k]
  {
    if !shuffle then s[..i] + s[i + 1..]
    else if i < |s| - 1 then s[i := s[|s| - 1]][..|s| - 1]
    else s[..|s| - 1]
  }

  lemma RemoveIndexOnce(s: seq<Detection>, i: nat, shuffle: bool)
    requires i < |s|
    ensures multiset(RemoveIndex(s, i, shuffle)) == multiset(s) - multiset{s[i]}
  {
    if shuffle {
      MoveLast(s, i);
    } else {
      assert s == s[..i] + [s[i]] + s[i + 1..];
    }
  }

  lemma MoveLast(s: seq<Detection>, i: nat)
    requires i < |s|
    ensures multiset(RemoveIndex(s, i, true)) == multiset(s) - multiset{s[i]}
  {
    var last := s[|s| - 1];
    var t := s[i := last];
    assert s == s[..|s| - 1] + [last];
    assert t == t[..|s| - 1] + [last];
    assert multiset(t) == multiset(s) - multiset{s[i]} + multiset{last};
  }

  // The other elements stay.
  lemma OthersStay(s: seq<Detection>, i: nat, shuffle: bool, k: nat)
    requires i < |s| && k < |s| && k != i
    ensures s[k] in RemoveIndex(s, i, shuffle)
  {
    var at := if k < i then k else if !shuffle then k - 1 else if k == |s| - 1 then i else k;
    assert RemoveIndex(s, i, shuffle)[at] == s[k];
  }

  // Removing the loser of a conflict keeps every detection represented.
  lemma RemoveLoser(overlaps: (Quad, Quad) -> bool, input: seq<Detection>, s: seq<Detection>, loser: nat, winner: nat, shuffle: bool)
    requires Represents(overlaps, input, s) && loser < |s| && winner < |s| && loser != winner
    requires Conflict(overlaps, s[loser], s[winner]) || Conflict(overlaps, s[winner], s[loser])
    requires AtLeastAsGood(s[winner], s[loser])
    ensures Represents(overlaps, input, RemoveIndex(s, loser, shuffle))
  {
    var r := RemoveIndex(s, loser, shuffle);
    RemoveIndexOnce(s, loser, shuffle);
    OthersStay(s, loser, shuffle, winner);
    LoserBeaten(overlaps, input, s, loser, winner);
    forall d | d in input
      ensures Survives(d, r)
    {
      StillRepresented(s, loser, shuffle, s[winner], d);
    }
  }

  lemma LoserBeaten(overlaps: (Quad, Quad) -> bool, input: seq<Detection>, s: seq<Detection>, loser: nat, winner: nat)
    requires multiset(s) <= multiset(input) && loser < |s| && winner < |s|
    requires Conflict(overlaps, s[loser], s[winner]) || Conflict(overlaps, s[winner], s[loser])
    requires AtLeastAsGood(s[winner], s[loser])
    ensures Beaten(overlaps, input, s[loser])
  {
    var e := s[winner];
    assert multiset(s)[e] > 0;
    assert e in input;
  }

  lemma StillRepresented(s: seq<Detection>, loser: nat, shuffle: bool, winner: Detection, d: Detection)
    requires loser < |s| && winner in RemoveIndex(s, loser, shuffle) && AtLeastAsGood(winner, s[loser]) && Survives(d, s)
    ensures Survives(d, RemoveIndex(s, loser, shuffle))
  {
    var k :| 0 <= k < |s| && AtLeastAsGood(s[k], d);
    if k == loser {
      CompareTransitive(Key(winner), Key(s[loser]), Key(d));
    } else {
      OthersStay(s, loser, shuffle, k);
    }
  }

  // Compares detection i0 with all later ones; gone tells that it was itself removed.
  method ReconcileOne(overlaps: (Quad, Quad) -> bool, ghost input: seq<Detection>, detections0: seq<Detection>, i0: nat, shuffle: bool)
    returns (detections: seq<Detection>, gone: bool)
    requires i0 < |detections0| && Represents(overlaps, input, detections0)
    requires forall i :: 0 <= i < i0 ==> ClearUpTo(overlaps, detections0, i, |detections0|)
    ensures Represents(overlaps, input, detections) && |detections| <= |detections0|
    ensures i0 <= |detections| && (gone ==> |detections| < |detections0|) && (!gone ==> i0 < |detections|)
    ensures forall i :: 0 <= i < (if gone then i0 else i0 + 1) ==> ClearUpTo(overlaps, detections, i, |detections|)
  {
    detections := detections0;
    var det0 := detections[i0];
    var i1 := i0 + 1;
    while i1 < |detections|
      invariant i0 < i1 <= |detections| <= |detections0| && detections[i0] == det0
      invariant Represents(overlaps, input, detections)
      invariant forall i :: 0 <= i < i0 ==> ClearUpTo(overlaps, detections, i, |detections|)
      invariant ClearUpTo(overlaps, detections, i0, i1)
      decreases |detections| - i1
    {
      var det1 := detections[i1];
      if SameTag(det0, det1) && overlaps(det0.p, det1.p) {
        var pref := Prefer(det0, det1);
        CompareReverse(Key(det0), Key(det1));
        if pref < 0 {
          RemoveLoser(overlaps, input, detections, i1, i0, shuffle);
          RemoveKeepsClear(overlaps, detections, i1, i0, shuffle, RemoveIndex(detections, i1, shuffle));
          detections := RemoveIndex(detections, i1, shuffle);
        } else {
          RemoveLoser(overlaps, input, detections, i0, i1, shuffle);
          RemoveKeepsClear(overlaps, detections, i0, i0, shuffle, RemoveIndex(detections, i0, shuffle));
          return RemoveIndex(detections, i0, shuffle), true;
        }
      } else {
        i1 := i1 + 1;
      }
    }
    return detections, false;
  }

  // A removal at or after i0 leaves the detections before i0 without conflicts.
  lemma RemoveKeepsClear(overlaps: (Quad, Quad) -> bool, s: seq<Detection>, at: nat, i0: nat, shuffle: bool, r: seq<Detection>)
    requires i0 <= at < |s| && r == RemoveIndex(s, at, shuffle) && forall i :: 0 <= i < i0 ==> ClearUpTo(overlaps, s, i, |s|)
    ensures forall i :: 0 <= i < i0 ==> ClearUpTo(overlaps, r, i, |r|)
  {
    forall i | 0 <= i < i0
      ensures ClearUpTo(overlaps, r, i, |r|)
    {
      assert ClearUpTo(overlaps, s, i, |s|);
    }
  }

  // Both ways of removing give the same guarantees; the program shuffles.
  method Reconcile(overlaps: (Quad, Quad) -> bool, input: seq<Detection>, shuffle: bool) returns (detections: seq<Detection>)
    ensures forall i :: 0 <= i < |detections| ==> ClearUpTo(overlaps, detections, i, |detections|)
    ensures Represents(overlaps, input, detections)
  {
    detections := input;
    SelfRepresented(overlaps, input);
    var i0 := 0;
    while i0 < |detections|
      invariant 0 <= i0 <= |detections|
      invariant Represents(overlaps, input, detections)
      invariant forall i :: 0 <= i < i0 ==> ClearUpTo(overlaps, detections, i, |detections|)
      decreases |detections| - i0
    {
      var gone;
      detections, gone := ReconcileOne(overlaps, input, detections, i0, shuffle);
      if !gone {
        i0 := i0 + 1;
      }
    }
  }

  lemma SelfRepresented(overlaps: (Quad, Quad) -> bool, input: seq<Detection>)
    ensures Represents(overlaps, input, input)
  {
    forall d | d in input
      ensures Survives(d, input)
    {
      CompareReverse(Key(d), Key(d));
      assert AtLeastAsGood(d, d);
    }
  }

  // ---- What a caller may rely on ----

  // A detection strictly preferred to all others of its tag is never deleted.
  lemma BestSurvives(overlaps: (Quad, Quad) -> bool, input: seq<Detection>, detections: seq<Detection>, d: Detection)
    requires Represents(overlaps, input, detections) && d in input
    requires forall e :: e in input && e != d && SameTag(e, d) ==> Compare(Key(d), Key(e)) < 0
    ensures d in detections
  {
    assert Survives(d, detections);
    var e :| e in detections && AtLeastAsGood(e, d);
    assert multiset(detections)[e] > 0;
    assert e in input;
    CompareReverse(Key(d), Key(e));
  }

  // In terms of corrected bits and margins: the best of a tag stays, ...
  lemma FewestBitsSurvive(overlaps: (Quad, Quad) -> bool, input: seq<Detection>, detections: seq<Detection>, d: Detection)
    requires Represents(overlaps, input, detections) && d in input
    requires forall e :: e in input && e != d && e.id == d.id && e.family == d.family ==>
      d.hamming < e.hamming || (d.hamming == e.hamming && d.decisionMargin > e.decisionMargin)
    ensures d in detections
  {
    forall e | e in input && e != d && SameTag(e, d)
      ensures Compare(Key(d), Key(e)) < 0
    {
      KeyOrder(d, e);
    }
    BestSurvives(overlaps, input, detections, d);
  }

  // ... of two that overlap only that one, ...
  lemma BetterOfTwo(overlaps: (Quad, Quad) -> bool, input: seq<Detection>, detections: seq<Detection>, d: Detection, e: Detection)
    requires Represents(overlaps, input, detections)
    requires forall i :: 0 <= i < |detections| ==> ClearUpTo(overlaps, detections, i, |detections|)
    requires input == [d, e] || input == [e, d]
    requires d.id == e.id && d.family == e.family && overlaps(d.p, e.p) && overlaps(e.p, d.p)
    requires d.hamming < e.hamming || (d.hamming == e.hamming && d.decisionMargin > e.decisionMargin)
    ensures detections == [d]
  {
    FewestBitsSurvive(overlaps, input, detections, d);
    assert multiset(input) == multiset{d, e};
    NotBoth(overlaps, detections, d, e);
    OnlyOne(detections, d, e);
  }

  lemma NotBoth(overlaps: (Quad, Quad) -> bool, s: seq<Detection>, d: Detection, e: Detection)
    requires forall i :: 0 <= i < |s| ==> ClearUpTo(overlaps, s, i, |s|)
    requires Conflict(overlaps, d, e) && Conflict(overlaps, e, d) && d != e && d in s
    ensures e !in s
  {
    var i :| 0 <= i < |s| && s[i] == d;
    assert ClearUpTo(overlaps, s, i, |s|);
    forall j | 0 <= j < |s|
      ensures s[j] != e
    {
      assert ClearUpTo(overlaps, s, j, |s|);
    }
  }

  lemma OnlyOne(s: seq<Detection>, d: Detection, e: Detection)
    requires multiset(s) <= multiset{d, e} && d != e && d in s && e !in s
    ensures s == [d]
  {
    assert multiset(s)[d] > 0 && multiset(s)[e] == 0;
    assert multiset(s) == multiset{d};
    assert |multiset(s)| == |s|;
  }

  // ... and a detection that is gone overlapped one with no more corrected bits and, at equal bits, no smaller margin.
  lemma GoneForBetter(overlaps: (Quad, Quad) -> bool, input: seq<Detection>, detections: seq<Detection>, d: Detection)
    returns (e: Detection)
    requires Represents(overlaps, input, detections) && d in input && d !in detections
    ensures e in input && e.id == d.id && e.family == d.family && (overlaps(d.p, e.p) || overlaps(e.p, d.p))
    ensures e.hamming < d.hamming || (e.hamming == d.hamming && e.decisionMargin >= d.decisionMargin)
  {
    assert multiset(detections)[d] == 0 < multiset(input)[d];
    assert Beaten(overlaps, input, d);
    e :| e in input && (Conflict(overlaps, d, e) || Conflict(overlaps, e, d)) && AtLeastAsGood(e, d);
    KeyOrder(e, d);
  }

  // A detection that overlaps no other of its tag is reported as often as it was found.
  lemma UnopposedSurvives(overlaps: (Quad, Quad) -> bool, input: seq<Detection>, detections: seq<Detection>, d: Detection)
    requires Represents(overlaps, input, detections) && d in input
    requires forall e :: e in input ==> !Conflict(overlaps, d, e) && !Conflict(overlaps, e, d)
    ensures multiset(detections)[d] == multiset(input)[d]
  {
    assert !Beaten(overlaps, input, d);
    assert multiset(detections)[d] <= multiset(input)[d];
  }

  // No tag disappears.
  lemma TagsKept(overlaps: (Quad, Quad) -> bool, input: seq<Detection>, detections: seq<Detection>, family: int, id: int)
    requires Represents(overlaps, input, detections)
    ensures (exists d :: d in input && d.id == id && d.family == family)
       <==> (exists e :: e in detections && e.id == id && e.family == family)
  {
    if d :| d in input && d.id == id && d.family == family {
      assert Survives(d, detections);
    }
    if e :| e in detections && e.id == id && e.family == family {
      assert multiset(detections)[e] > 0;
      assert e in input;
    }
  }
}
