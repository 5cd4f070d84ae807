/** ptsort in apriltag_quad_thresh.c: exchange networks up to five points, above that a merge sort through a temporary
  copy, whose merge loop is unrolled eight times. */
module PtSort {

  // A boundary point; only its slope, an exact real here, is compared.
  datatype Pt = Pt(x: int, y: int, gx: int, gy: int, slope: real)

  function CompareAngle(a: Pt, b: Pt): real {
    a.slope - b.slope
  }

  ghost predicate Sorted(s: seq<Pt>) {
    forall i, j :: 0 <= i <= j < |s| ==> s[i].slope <= s[j].slope
  }

  // Sorting: the same points, by slope.
  ghost predicate SortedFrom(s: seq<Pt>, t: seq<Pt>) {
    Sorted(s) && |s| == |t| && multiset(s) == multiset(t)
  }

  // The slice of an array a method works on changes from before to after; the rest stays.
  ghost predicate OnlySlice(before: seq<Pt>, after: seq<Pt>, lo: nat, sz: nat) {
    && |before| == |after| && lo + sz <= |before|
    && after[..lo] == before[..lo] && after[lo + sz..] == before[lo + sz..]
  }

  // ---- Exchanges ----

  function Exchanged(s: seq<Pt>, i: nat, j: nat): (t: seq<Pt>)
    requires i < j < |s|
    ensures |t| == |s| && multiset(t) == multiset(s)
  {
    if CompareAngle(s[i], s[j]) > 0.0 then s[i := s[j]][j := s[i]] else s
  }

  // The slope at each place.
  function Slopes(s: seq<Pt>): (r: seq<real>)
    ensures |r| == |s| && forall k :: 0 <= k < |s| ==> r[k] == s[k].slope
  {
    seq(|s|, k requires 0 <= k < |s| => s[k].slope)
  }

  // The slopes after an exchange: the smaller one first.
  ghost predicate Ordered(r: seq<real>, i: nat, j: nat, r': seq<real>)
    requires i < j < |r|
  {
    && |r'| == |r|
    && (if r[i] > r[j] then r'[i] == r[j] && r'[j] == r[i] else r'[i] == r[i] && r'[j] == r[j])
    && forall k :: 0 <= k < |r| && k != i && k != j ==> r'[k] == r[k]
  }

  lemma ExchangeOrders(s: seq<Pt>, i: nat, j: nat)
    requires i < j < |s|
    ensures Ordered(Slopes(s), i, j, Slopes(Exchanged(s, i, j)))
  {
  }

  lemma FourNetwork(r: seq<real>, r1: seq<real>, r2: seq<real>, r3: seq<real>, r4: seq<real>, r5: seq<real>)
    requires |r| == |r1| == |r2| == |r3| == |r4| == 4
    requires Ordered(r, 0, 1, r1) && Ordered(r1, 2, 3, r2) && Ordered(r2, 0, 2, r3) && Ordered(r3, 1, 3, r4) && Ordered(r4, 1, 2, r5)
    ensures r5[0] <= r5[1] <= r5[2] <= r5[3]
  {
  }

  // The first three of five, and the last two.
  lemma FiveNetworkHalves(r: seq<real>, r1: seq<real>, r2: seq<real>, r3: seq<real>, r4: seq<real>)
    requires |r| == |r1| == |r2| == |r3| == 5
    requires Ordered(r, 0, 1, r1) && Ordered(r1, 3, 4, r2) && Ordered(r2, 1, 2, r3) && Ordered(r3, 0, 1, r4)
    ensures r4[0] <= r4[1] <= r4[2] && r4[3] <= r4[4]
  {
  }

  // The least in front and the greatest at the end.
  lemma FiveNetworkEnds(r4: seq<real>, r5: seq<real>, r6: seq<real>)
    requires |r4| == |r5| == 5 && r4[0] <= r4[1] <= r4[2] && r4[3] <= r4[4]
    requires Ordered(r4, 0, 3, r5) && Ordered(r5, 2, 4, r6)
    ensures forall k :: 1 <= k <= 3 ==> r6[0] <= r6[k] <= r6[4]
  {
  }

  lemma FiveNetworkMiddle(r6: seq<real>, r7: seq<real>, r8: seq<real>, r9: seq<real>)
    requires |r6| == |r7| == |r8| == 5 && forall k :: 1 <= k <= 3 ==> r6[0] <= r6[k] <= r6[4]
    requires Ordered(r6, 1, 2, r7) && Ordered(r7, 2, 3, r8) && Ordered(r8, 1, 2, r9)
    ensures r9[0] <= r9[1] <= r9[2] <= r9[3] <= r9[4]
  {
  }

  lemma OrderedSorts(s: seq<Pt>, t: seq<Pt>)
    requires |s| == |t| && multiset(s) == multiset(t) && forall k :: 0 < k < |t| ==> Slopes(t)[k - 1] <= Slopes(t)[k]
    ensures SortedFrom(t, s)
  {
    forall i, j | 0 <= i <= j < |t|
      ensures t[i].slope <= t[j].slope
    {
      Chain(t, i, j);
    }
  }

  lemma {:induction false} Chain(t: seq<Pt>, i: nat, j: nat)
    requires i <= j < |t| && forall k :: 0 < k < |t| ==> Slopes(t)[k - 1] <= Slopes(t)[k]
    ensures t[i].slope <= t[j].slope
  {
    if i < j {
      Chain(t, i, j - 1);
      assert Slopes(t)[j - 1] <= Slopes(t)[j];
    }
  }

  // MAYBE_SWAP on the slice of sz points from lo; orig is the array before the network.
  method MaybeSwap(pts: array<Pt>, lo: nat, sz: nat, apos: nat, bpos: nat, ghost orig: seq<Pt>)
    requires apos < bpos < sz && OnlySlice(orig, pts[..], lo, sz)
    modifies pts
    ensures OnlySlice(orig, pts[..], lo, sz)
    ensures pts[lo..lo + sz] == Exchanged(old(pts[lo..lo + sz]), apos, bpos)
    ensures Ordered(Slopes(old(pts[lo..lo + sz])), apos, bpos, Slopes(pts[lo..lo + sz]))
  {
    ghost var s := pts[lo..lo + sz];
    if CompareAngle(pts[lo + apos], pts[lo + bpos]) > 0.0 {
      var tmp := pts[lo + apos];
      pts[lo + apos] := pts[lo + bpos];
      pts[lo + bpos] := tmp;
    }
    assert pts[lo..lo + sz] == Exchanged(s, apos, bpos);
    ExchangeOrders(s, apos, bpos);
  }

  method SortThree(pts: array<Pt>, lo: nat)
    requires lo + 3 <= pts.Length
    modifies pts
    ensures SortedFrom(pts[lo..lo + 3], old(pts[lo..lo + 3])) && OnlySlice(old(pts[..]), pts[..], lo, 3)
  {
    ghost var orig, s := pts[..], pts[lo..lo + 3];
    MaybeSwap(pts, lo, 3, 0, 1, orig);
    MaybeSwap(pts, lo, 3, 1, 2, orig);
    MaybeSwap(pts, lo, 3, 0, 1, orig);
    OrderedSorts(s, pts[lo..lo + 3]);
  }

  method SortFour(pts: array<Pt>, lo: nat)
    requires lo + 4 <= pts.Length
    modifies pts
    ensures SortedFrom(pts[lo..lo + 4], old(pts[lo..lo + 4])) && OnlySlice(old(pts[..]), pts[..], lo, 4)
  {
    ghost var orig, s := pts[..], pts[lo..lo + 4];
    MaybeSwap(pts, lo, 4, 0, 1, orig);
    ghost var s1 := pts[lo..lo + 4];
    MaybeSwap(pts, lo, 4, 2, 3, orig);
    ghost var s2 := pts[lo..lo + 4];
    MaybeSwap(pts, lo, 4, 0, 2, orig);
    ghost var s3 := pts[lo..lo + 4];
    MaybeSwap(pts, lo, 4, 1, 3, orig);
    ghost var s4 := pts[lo..lo + 4];
    MaybeSwap(pts, lo, 4, 1, 2, orig);
    FourNetwork(Slopes(s), Slopes(s1), Slopes(s2), Slopes(s3), Slopes(s4), Slopes(pts[lo..lo + 4]));
    OrderedSorts(s, pts[lo..lo + 4]);
  }

  // The network for five: each half, ...
  method SortHalves(pts: array<Pt>, lo: nat, ghost orig: seq<Pt>)
    requires OnlySlice(orig, pts[..], lo, 5)
    modifies pts
    ensures OnlySlice(orig, pts[..], lo, 5) && multiset(pts[lo..lo + 5]) == multiset(old(pts[lo..lo + 5]))
    ensures var r := Slopes(pts[lo..lo + 5]); r[0] <= r[1] <= r[2] && r[3] <= r[4]
  {
    ghost var s := pts[lo..lo + 5];
    MaybeSwap(pts, lo, 5, 0, 1, orig);
    ghost var s1 := pts[lo..lo + 5];
    MaybeSwap(pts, lo, 5, 3, 4, orig);
    ghost var s2 := pts[lo..lo + 5];
    MaybeSwap(pts, lo, 5, 1, 2, orig);
    ghost var s3 := pts[lo..lo + 5];
    MaybeSwap(pts, lo, 5, 0, 1, orig);
    FiveNetworkHalves(Slopes(s), Slopes(s1), Slopes(s2), Slopes(s3), Slopes(pts[lo..lo + 5]));
  }

  // ... the ends, ...
  method PlaceEnds(pts: array<Pt>, lo: nat, ghost orig: seq<Pt>)
    requires OnlySlice(orig, pts[..], lo, 5)
    requires var r := Slopes(pts[lo..lo + 5]); r[0] <= r[1] <= r[2] && r[3] <= r[4]
    modifies pts
    ensures OnlySlice(orig, pts[..], lo, 5) && multiset(pts[lo..lo + 5]) == multiset(old(pts[lo..lo + 5]))
    ensures var r := Slopes(pts[lo..lo + 5]); forall k :: 1 <= k <= 3 ==> r[0] <= r[k] <= r[4]
  {
    ghost var s := pts[lo..lo + 5];
    MaybeSwap(pts, lo, 5, 0, 3, orig);
    ghost var s1 := pts[lo..lo + 5];
    MaybeSwap(pts, lo, 5, 2, 4, orig);
    FiveNetworkEnds(Slopes(s), Slopes(s1), Slopes(pts[lo..lo + 5]));
  }

  // ... then the three in the middle.
  method SortFive(pts: array<Pt>, lo: nat)
    requires lo + 5 <= pts.Length
    modifies pts
    ensures SortedFrom(pts[lo..lo + 5], old(pts[lo..lo + 5])) && OnlySlice(old(pts[..]), pts[..], lo, 5)
  {
    ghost var orig, start := pts[..], pts[lo..lo + 5];
    SortHalves(pts, lo, orig);
    PlaceEnds(pts, lo, orig);
    ghost var s := pts[lo..lo + 5];
    MaybeSwap(pts, lo, 5, 1, 2, orig);
    ghost var s1 := pts[lo..lo + 5];
    MaybeSwap(pts, lo, 5, 2, 3, orig);
    ghost var s2 := pts[lo..lo + 5];
    MaybeSwap(pts, lo, 5, 1, 2, orig);
    FiveNetworkMiddle(Slopes(s), Slopes(s1), Slopes(s2), Slopes(pts[lo..lo + 5]));
    OrderedSorts(start, pts[lo..lo + 5]);
  }

  // ---- Merging ----

  // The point with the smaller slope first, from b on a tie.
  function Merged(a: seq<Pt>, b: seq<Pt>): seq<Pt> {
    if a == [] then b
    else if b == [] then a
    else if CompareAngle(a[0], b[0]) < 0.0 then [a[0]] + Merged(a[1..], b)
    else [b[0]] + Merged(a, b[1..])
  }

  ghost predicate AllFrom(s: seq<Pt>, slope: real) {
    forall k :: 0 <= k < |s| ==> slope <= s[k].slope
  }

  lemma {:induction false} MergedFrom(a: seq<Pt>, b: seq<Pt>, slope: real)
    requires AllFrom(a, slope) && AllFrom(b, slope)
    ensures AllFrom(Merged(a, b), slope)
  {
    if a != [] && b != [] {
      if CompareAngle(a[0], b[0]) < 0.0 {
        MergedFrom(a[1..], b, slope);
      } else {
        MergedFrom(a, b[1..], slope);
      }
    }
  }

  lemma {:induction false} MergedKeeps(a: seq<Pt>, b: seq<Pt>)
    ensures multiset(Merged(a, b)) == multiset(a) + multiset(b) && |Merged(a, b)| == |a| + |b|
  {
    if a != [] && b != [] {
      if CompareAngle(a[0], b[0]) < 0.0 {
        MergedKeeps(a[1..], b);
        assert a == [a[0]] + a[1..];
      } else {
        MergedKeeps(a, b[1..]);
        assert b == [b[0]] + b[1..];
      }
    }
  }

  lemma {:induction false} MergedSorted(a: seq<Pt>, b: seq<Pt>)
    requires Sorted(a) && Sorted(b)
    ensures Sorted(Merged(a, b))
  {
    if a != [] && b != [] {
      if CompareAngle(a[0], b[0]) < 0.0 {
        MergedSorted(a[1..], b);
        MergedFrom(a[1..], b, a[0].slope);
      } else {
        MergedSorted(a, b[1..]);
        MergedFrom(a, b[1..], b[0].slope);
      }
    }
  }

  lemma MergedSorts(a: seq<Pt>, b: seq<Pt>)
    requires Sorted(a) && Sorted(b)
    ensures SortedFrom(Merged(a, b), a + b)
  {
    MergedKeeps(a, b);
    MergedSorted(a, b);
  }

  // The state of a merge of tmp's two halves into the slice of pts from lo.
  ghost predicate Merging(pts: seq<Pt>, lo: nat, tmp: seq<Pt>, asz: nat, apos: nat, bpos: nat) {
    && lo + |tmp| <= |pts| && apos <= asz && asz + bpos <= |tmp|
    && pts[lo..lo + apos + bpos] + Merged(tmp[apos..asz], tmp[asz + bpos..]) == Merged(tmp[..asz], tmp[asz..])
  }

  // MERGE: one point moves from the front of a half to the output.
  method Merge(pts: array<Pt>, lo: nat, tmp: array<Pt>, asz: nat, apos: nat, bpos: nat, ghost orig: seq<Pt>)
    returns (apos': nat, bpos': nat)
    requires pts != tmp && OnlySlice(orig, pts[..], lo, tmp.Length) && Merging(pts[..], lo, tmp[..], asz, apos, bpos)
    requires apos < asz && asz + bpos < tmp.Length
    modifies pts
    ensures OnlySlice(orig, pts[..], lo, tmp.Length) && Merging(pts[..], lo, tmp[..], asz, apos', bpos')
    ensures apos <= apos' && bpos <= bpos' && apos' + bpos' == apos + bpos + 1
  {
    ghost var before := pts[..];
    var outpos := lo + apos + bpos;
    if CompareAngle(tmp[apos], tmp[asz + bpos]) < 0.0 {
      pts[outpos] := tmp[apos];
      apos', bpos' := apos + 1, bpos;
    } else {
      pts[outpos] := tmp[asz + bpos];
      apos', bpos' := apos, bpos + 1;
    }
    MergeStep(before, lo, tmp[..], asz, apos, bpos, pts[..], apos', bpos');
  }

  lemma MergeStep(before: seq<Pt>, lo: nat, tmp: seq<Pt>, asz: nat, apos: nat, bpos: nat, after: seq<Pt>, apos': nat, bpos': nat)
    requires Merging(before, lo, tmp, asz, apos, bpos) && apos < asz && asz + bpos < |tmp|
    requires var fromA := CompareAngle(tmp[apos], tmp[asz + bpos]) < 0.0;
      && apos' == (if fromA then apos + 1 else apos) && bpos' == (if fromA then bpos else bpos + 1)
      && after == before[lo + apos + bpos := if fromA then tmp[apos] else tmp[asz + bpos]]
    ensures Merging(after, lo, tmp, asz, apos', bpos')
  {
    var done, a, b := before[lo..lo + apos + bpos], tmp[apos..asz], tmp[asz + bpos..];
    var p := after[lo + apos + bpos];
    if CompareAngle(a[0], b[0]) < 0.0 {
      assert a[1..] == tmp[apos'..asz];
    } else {
      assert b[1..] == tmp[asz + bpos'..];
    }
    assert after[lo..lo + apos' + bpos'] == done + [p];
    Regroup(done, p, Merged(tmp[apos'..asz], tmp[asz + bpos'..]));
  }

  lemma Regroup(a: seq<Pt>, p: Pt, b: seq<Pt>)
    ensures (a + [p]) + b == a + ([p] + b)
  {
  }

  // Eight steps without a test in between: no half can run out before the last of them.
  method MergeEight(pts: array<Pt>, lo: nat, tmp: array<Pt>, asz: nat, apos0: nat, bpos0: nat, ghost orig: seq<Pt>)
    returns (apos: nat, bpos: nat)
    requires pts != tmp && OnlySlice(orig, pts[..], lo, tmp.Length) && Merging(pts[..], lo, tmp[..], asz, apos0, bpos0)
    requires apos0 + 8 < asz && asz + bpos0 + 8 < tmp.Length
    modifies pts
    ensures OnlySlice(orig, pts[..], lo, tmp.Length) && Merging(pts[..], lo, tmp[..], asz, apos, bpos)
    ensures apos + bpos == apos0 + bpos0 + 8
  {
    apos, bpos := Merge(pts, lo, tmp, asz, apos0, bpos0, orig);
    apos, bpos := Merge(pts, lo, tmp, asz, apos, bpos, orig);
    apos, bpos := Merge(pts, lo, tmp, asz, apos, bpos, orig);
    apos, bpos := Merge(pts, lo, tmp, asz, apos, bpos, orig);
    apos, bpos := Merge(pts, lo, tmp, asz, apos, bpos, orig);
    apos, bpos := Merge(pts, lo, tmp, asz, apos, bpos, orig);
    apos, bpos := Merge(pts, lo, tmp, asz, apos, bpos, orig);
    apos, bpos := Merge(pts, lo, tmp, asz, apos, bpos, orig);
  }

  // memcpy
  method Copy(dst: array<Pt>, d: nat, src: array<Pt>, s: nat, n: nat)
    requires dst != src && d + n <= dst.Length && s + n <= src.Length
    modifies dst
    ensures dst[d..d + n] == src[s..s + n]
    ensures dst[..d] == old(dst[..d]) && dst[d + n..] == old(dst[d + n..])
  {
    forall k | 0 <= k < n {
      dst[d + k] := src[s + k];
    }
  }

  // The two merge loops and what is left of either half.
  method MergeHalves(pts: array<Pt>, lo: nat, tmp: array<Pt>, asz: nat)
    requires pts != tmp && lo + tmp.Length <= pts.Length && asz <= tmp.Length
    modifies pts
    ensures OnlySlice(old(pts[..]), pts[..], lo, tmp.Length)
    ensures pts[lo..lo + tmp.Length] == Merged(tmp[..asz], tmp[asz..])
  {
    ghost var orig := pts[..];
    var apos: nat, bpos: nat := 0, 0;
    assert tmp[..][0..asz] == tmp[..asz] && tmp[..][asz + 0..] == tmp[asz..];
    while apos + 8 < asz && asz + bpos + 8 < tmp.Length
      invariant OnlySlice(orig, pts[..], lo, tmp.Length) && Merging(pts[..], lo, tmp[..], asz, apos, bpos)
      decreases asz + tmp.Length - apos - bpos
    {
      apos, bpos := MergeEight(pts, lo, tmp, asz, apos, bpos, orig);
    }
    while apos < asz && asz + bpos < tmp.Length
      invariant OnlySlice(orig, pts[..], lo, tmp.Length) && Merging(pts[..], lo, tmp[..], asz, apos, bpos)
      decreases asz + tmp.Length - apos - bpos
    {
      apos, bpos := Merge(pts, lo, tmp, asz, apos, bpos, orig);
    }
    CopyRest(pts, lo, tmp, asz, apos, bpos, orig);
  }

  method CopyRest(pts: array<Pt>, lo: nat, tmp: array<Pt>, asz: nat, apos: nat, bpos: nat, ghost orig: seq<Pt>)
    requires pts != tmp && OnlySlice(orig, pts[..], lo, tmp.Length) && Merging(pts[..], lo, tmp[..], asz, apos, bpos)
    requires apos == asz || asz + bpos == tmp.Length
    modifies pts
    ensures OnlySlice(orig, pts[..], lo, tmp.Length)
    ensures pts[lo..lo + tmp.Length] == Merged(tmp[..asz], tmp[asz..])
  {
    var outpos := lo + apos + bpos;
    ghost var done, rest := pts[lo..outpos], Merged(tmp[apos..asz], tmp[asz + bpos..]);
    OneHalfLeft(tmp[apos..asz], tmp[asz + bpos..]);
    if apos < asz {
      CopyTail(pts, lo, tmp.Length, outpos, tmp, apos, orig, rest);
    }
    if asz + bpos < tmp.Length {
      CopyTail(pts, lo, tmp.Length, outpos, tmp, asz + bpos, orig, rest);
    }
    assert pts[lo..lo + tmp.Length] == done + rest;
  }

  lemma OneHalfLeft(a: seq<Pt>, b: seq<Pt>)
    ensures a == [] ==> Merged(a, b) == b
    ensures b == [] ==> Merged(a, b) == a
  {
  }

  // The last n points of the slice come from src.
  method CopyTail(pts: array<Pt>, lo: nat, sz: nat, outpos: nat, src: array<Pt>, s: nat, ghost orig: seq<Pt>, ghost rest: seq<Pt>)
    requires pts != src && lo <= outpos <= lo + sz && s + (lo + sz - outpos) <= src.Length
    requires OnlySlice(orig, pts[..], lo, sz) && rest == src[s..s + (lo + sz - outpos)]
    modifies pts
    ensures OnlySlice(orig, pts[..], lo, sz) && pts[lo..lo + sz] == old(pts[lo..outpos]) + rest
  {
    Copy(pts, outpos, src, s, lo + sz - outpos);
    assert pts[lo..outpos] == pts[..outpos][lo..];
    assert pts[..lo] == pts[..outpos][..lo];
    SliceSplit(pts[..], lo, outpos, lo + sz);
  }

  lemma SliceSplit(s: seq<Pt>, lo: nat, mid: nat, hi: nat)
    requires lo <= mid <= hi <= |s|
    ensures s[lo..hi] == s[lo..mid] + s[mid..hi]
  {
  }

  // ---- ptsort ----

  method PtSort(pts: array<Pt>, lo: nat, sz: nat)
    requires lo + sz <= pts.Length
    modifies pts
    ensures SortedFrom(pts[lo..lo + sz], old(pts[lo..lo + sz])) && OnlySlice(old(pts[..]), pts[..], lo, sz)
    decreases sz
  {
    if sz <= 1 {
      return;
    }
    if sz == 2 {
      SortTwo(pts, lo);
    } else if sz == 3 {
      SortThree(pts, lo);
    } else if sz == 4 {
      SortFour(pts, lo);
    } else if sz == 5 {
      SortFive(pts, lo);
    } else {
      SortLong(pts, lo, sz);
    }
  }

  method SortTwo(pts: array<Pt>, lo: nat)
    requires lo + 2 <= pts.Length
    modifies pts
    ensures SortedFrom(pts[lo..lo + 2], old(pts[lo..lo + 2])) && OnlySlice(old(pts[..]), pts[..], lo, 2)
  {
    ghost var s := pts[lo..lo + 2];
    MaybeSwap(pts, lo, 2, 0, 1, pts[..]);
    OrderedSorts(s, pts[lo..lo + 2]);
  }

  // Sorts both halves of a temporary copy and merges them back.
  method SortLong(pts: array<Pt>, lo: nat, sz: nat)
    requires lo + sz <= pts.Length && sz > 5
    modifies pts
    ensures SortedFrom(pts[lo..lo + sz], old(pts[lo..lo + sz])) && OnlySlice(old(pts[..]), pts[..], lo, sz)
    decreases sz, 1
  {
    ghost var s := pts[lo..lo + sz];
    var tmp := new Pt[sz](k requires 0 <= k < sz reads pts => pts[lo + k]);
    assert tmp[..] == s;
    var asz := sz / 2;
    SortHalvesOf(tmp, asz);
    MergeHalves(pts, lo, tmp, asz);
  }

  method SortHalvesOf(tmp: array<Pt>, asz: nat)
    requires 0 < asz < tmp.Length
    modifies tmp
    ensures SortedFrom(Merged(tmp[..asz], tmp[asz..]), old(tmp[..]))
    decreases tmp.Length, 0
  {
    ghost var s := tmp[..];
    var bsz := tmp.Length - asz;
    PtSort(tmp, 0, asz);
    ghost var t := tmp[..];
    assert t[0..0 + asz] == tmp[0..0 + asz] && s[0..0 + asz] == old(tmp[0..0 + asz]);
    PtSort(tmp, asz, bsz);
    assert tmp[..][asz..asz + bsz] == tmp[asz..asz + bsz];
    HalvesSorted(s, t, tmp[..], asz);
    assert tmp[..][..asz] == tmp[..asz] && tmp[..][asz..] == tmp[asz..];
  }

  // Both halves sorted one after the other, and merged: the whole is sorted.
  lemma HalvesSorted(s: seq<Pt>, t: seq<Pt>, u: seq<Pt>, asz: nat)
    requires asz <= |s| && OnlySlice(s, t, 0, asz) && SortedFrom(t[0..0 + asz], s[0..0 + asz])
    requires OnlySlice(t, u, asz, |s| - asz) && SortedFrom(u[asz..asz + (|s| - asz)], t[asz..asz + (|s| - asz)])
    ensures SortedFrom(Merged(u[..asz], u[asz..]), s)
  {
    assert u[..asz] == t[0..0 + asz] && u[asz..] == u[asz..asz + (|s| - asz)];
    assert t[asz..asz + (|s| - asz)] == t[0 + asz..] == s[0 + asz..];
    MergedSorts(u[..asz], u[asz..]);
    assert s == s[0..0 + asz] + s[0 + asz..];
  }
}
