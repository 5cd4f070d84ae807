/** do_gradient_clusters and gradient_clusters of apriltag_quad_thresh.c: the pixel loops, the hash chains they
  fill, and the whole clustering. */
module GradientClusters {
  import Accesses
  import opened Tasks
  import opened UnionFinding
  import opened PixelScan
  import opened Clusters
  import opened BoundaryPoints
  import opened GroupBy

  // An element of a hash chain.
  datatype Entry = Entry(id: nat, cluster: seq<Pt>)

  ghost predicate InChain(chain: seq<Entry>, id: nat) {
    exists i :: 0 <= i < |chain| && chain[i].id == id
  }

  // The chain groups the points whose id falls into bucket b.
  ghost predicate ChainGroups(chain: seq<Entry>, es: seq<Emit>, b: nat, n: nat) {
    && n > 0
    && (forall i :: 0 <= i < |chain| ==> Bucket(chain[i].id, n) == b)
    && (forall i :: 0 <= i < |chain| ==> chain[i].cluster == Select(es, chain[i].id) != [])
    && (forall i, j :: 0 <= i < j < |chain| ==> chain[i].id != chain[j].id)
    && forall k :: 0 <= k < |es| && Bucket(es[k].id, n) == b ==> InChain(chain, es[k].id)
  }

  ghost predicate BucketGroups(table: seq<seq<Entry>>, es: seq<Emit>, b: nat)
    requires b < |table|
  {
    ChainGroups(table[b], es, b, |table|)
  }

  ghost predicate TableGroups(table: seq<seq<Entry>>, es: seq<Emit>) {
    |table| > 0 && forall b: nat :: b < |table| ==> BucketGroups(table, es, b)
  }

  // Extending the entry of the point's id.
  lemma ExtendEntry(chain: seq<Entry>, es: seq<Emit>, b: nat, n: nat, e: Emit, i: nat)
    requires ChainGroups(chain, es, b, n) && i < |chain| && chain[i].id == e.id
    ensures ChainGroups(chain[i := Entry(e.id, chain[i].cluster + [e.p])], es + [e], b, n)
  {
    var chain', es' := chain[i := Entry(e.id, chain[i].cluster + [e.p])], es + [e];
    forall j | 0 <= j < |chain'| ensures chain'[j].cluster == Select(es', chain'[j].id) {
      SelectAppend(es, e, chain'[j].id);
    }
    forall k | 0 <= k < |es'| && Bucket(es'[k].id, n) == b ensures InChain(chain', es'[k].id) {
      if k < |es| {
        assert InChain(chain, es[k].id);
        var j :| 0 <= j < |chain| && chain[j].id == es[k].id;
        assert chain'[j].id == es'[k].id;
      } else {
        assert chain'[i].id == e.id;
      }
    }
  }

  // A new entry goes to the front of the chain.
  lemma NewEntry(chain: seq<Entry>, es: seq<Emit>, b: nat, n: nat, e: Emit)
    requires ChainGroups(chain, es, b, n) && !InChain(chain, e.id) && Bucket(e.id, n) == b
    ensures ChainGroups([Entry(e.id, [e.p])] + chain, es + [e], b, n)
  {
    var chain', es' := [Entry(e.id, [e.p])] + chain, es + [e];
    forall k | 0 <= k < |es| ensures es[k].id != e.id {
      assert Bucket(es[k].id, n) == b ==> InChain(chain, es[k].id);
    }
    SelectEmptyIff(es, e.id);
    forall j | 0 <= j < |chain'| ensures chain'[j].cluster == Select(es', chain'[j].id) {
      SelectAppend(es, e, chain'[j].id);
    }
    forall k | 0 <= k < |es'| && Bucket(es'[k].id, n) == b ensures InChain(chain', es'[k].id) {
      if k < |es| {
        assert InChain(chain, es[k].id);
        var j :| 0 <= j < |chain| && chain[j].id == es[k].id;
        assert chain'[j + 1].id == es'[k].id;
      } else {
        assert chain'[0].id == e.id;
      }
    }
  }

  lemma OtherChain(chain: seq<Entry>, es: seq<Emit>, b: nat, n: nat, e: Emit)
    requires ChainGroups(chain, es, b, n) && Bucket(e.id, n) != b
    ensures ChainGroups(chain, es + [e], b, n)
  {
    forall j | 0 <= j < |chain| ensures chain[j].cluster == Select(es + [e], chain[j].id) {
      SelectAppend(es, e, chain[j].id);
    }
  }

  lemma TableStep(table: seq<seq<Entry>>, es: seq<Emit>, e: Emit, chain: seq<Entry>)
    requires TableGroups(table, es) && ChainGroups(chain, es + [e], Bucket(e.id, |table|), |table|)
    ensures TableGroups(table[Bucket(e.id, |table|) := chain], es + [e])
  {
    var home := Bucket(e.id, |table|);
    var table', es' := table[home := chain], es + [e];
    forall b: nat | b < |table| ensures BucketGroups(table', es', b) {
      if b != home {
        assert BucketGroups(table, es, b);
        OtherChain(table[b], es, b, |table|, e);
      }
    }
  }

  // Looks the id up in its chain and adds the point to its cluster.
  method AddPoint(clustermap: array<seq<Entry>>, clusterid: nat, p: Pt, ghost es: seq<Emit>)
    requires TableGroups(clustermap[..], es)
    modifies clustermap
    ensures TableGroups(clustermap[..], es + [Emit(clusterid, p)])
  {
    var bucket := Hash(clusterid) % clustermap.Length;
    var chain := clustermap[bucket];
    ghost var table, e := clustermap[..], Emit(clusterid, p);
    assert BucketGroups(table, es, bucket);
    var entry := 0;
    while entry < |chain| && chain[entry].id != clusterid
      invariant entry <= |chain| && forall i :: 0 <= i < entry ==> chain[i].id != clusterid
    {
      entry := entry + 1;
    }
    if entry < |chain| {
      ExtendEntry(chain, es, bucket, |table|, e, entry);
      chain := chain[entry := Entry(clusterid, chain[entry].cluster + [p])];
    } else {
      NewEntry(chain, es, bucket, |table|, e);
      chain := [Entry(clusterid, [p])] + chain;
    }
    TableStep(table, es, e, chain);
    clustermap[bucket] := chain;
    assert clustermap[..] == table[bucket := chain];
  }

  // ---- The pixel loops ----

  // The union-find of this image.
  ghost predicate Fits(uf: UnionFind, im: Image)
    reads uf, uf.parent, uf.size
  {
    im.Valid() && uf.Valid() && uf.maxid == im.Pixels()
  }

  // The component of a pixel: representative and size.
  method Component(uf: UnionFind, im: Image, x: nat, y: nat) returns (rep: nat, size: nat)
    requires Fits(uf, im) && x < im.w && y < im.h
    modifies uf.parent
    ensures Fits(uf, im)
    ensures rep == RepOf(im, uf.rep, x, y) && size == SizeOf(im, uf.rep, x, y)
  {
    IdBound(im.w, im.h, x, y);
    IdIsProduct(im.w, x, y);
    var r, _ := uf.Representative(y * im.w + x, Accesses.Alone, []);
    rep := r;
    size := uf.SetSize(rep);
  }

  // DO_CONN
  method Connect(uf: UnionFind, im: Image, clustermap: array<seq<Entry>>, x: nat, y: nat, dx: int, dy: int, rep0: nat,
                 ghost es: seq<Emit>)
    returns (connected: bool, ghost conn: seq<Emit>)
    requires Fits(uf, im) && TableGroups(clustermap[..], es)
    requires 1 <= x < im.w - 1 && y + 1 < im.h && -1 <= dx <= 1 && 0 <= dy <= 1 && rep0 == RepOf(im, uf.rep, x, y)
    modifies uf.parent, clustermap
    ensures Fits(uf, im) && TableGroups(clustermap[..], es + conn)
    ensures conn == Conn(im, uf.rep, x, y, dx, dy) && (connected <==> conn != [])
  {
    var v0: int, v1: int := im.At(x, y), im.At(x + dx, y + dy);
    connected := false;
    conn := [];
    assert es + [] == es;
    if v0 + v1 == 255 {
      var rep1, size := Component(uf, im, x + dx, y + dy);
      if size > 24 {
        var clusterid := if rep0 < rep1 then rep1 * 0x1_0000_0000 + rep0 else rep0 * 0x1_0000_0000 + rep1;
        var p := Pt(2 * x + dx, 2 * y + dy, dx * (v1 - v0), dy * (v1 - v0));
        AddPoint(clustermap, clusterid, p, es);
        connected := true;
        conn := [Emit(clusterid, p)];
      }
    }
  }

  method ConnectStraight(uf: UnionFind, im: Image, clustermap: array<seq<Entry>>, x: nat, y: nat, rep0: nat,
                         ghost es: seq<Emit>)
    returns (ghost out: seq<Emit>)
    requires Fits(uf, im) && TableGroups(clustermap[..], es)
    requires 1 <= x < im.w - 1 && y + 1 < im.h && rep0 == RepOf(im, uf.rep, x, y)
    modifies uf.parent, clustermap
    ensures Fits(uf, im) && TableGroups(clustermap[..], es + out) && out == StraightEmits(im, uf.rep, x, y)
  {
    var _, e1 := Connect(uf, im, clustermap, x, y, 1, 0, rep0, es);
    var _, e2 := Connect(uf, im, clustermap, x, y, 0, 1, rep0, es + e1);
    out := e1 + e2;
    assert es + e1 + e2 == es + out;
  }

  method ConnectDiagonal(uf: UnionFind, im: Image, clustermap: array<seq<Entry>>, x: nat, y: nat, rep0: nat,
                         connected_last: bool, ghost es: seq<Emit>)
    returns (connected: bool, ghost out: seq<Emit>)
    requires Fits(uf, im) && TableGroups(clustermap[..], es)
    requires 1 <= x < im.w - 1 && y + 1 < im.h && rep0 == RepOf(im, uf.rep, x, y)
    modifies uf.parent, clustermap
    ensures Fits(uf, im) && TableGroups(clustermap[..], es + out)
    ensures out == DiagonalEmits(im, uf.rep, x, y, connected_last)
    ensures connected <==> Conn(im, uf.rep, x, y, 1, 1) != []
  {
    ghost var e1 := [];
    assert es + e1 == es;
    if !connected_last {
      var _, e := Connect(uf, im, clustermap, x, y, -1, 1, rep0, es);
      e1 := e;
    }
    var c, e2 := Connect(uf, im, clustermap, x, y, 1, 1, rep0, es + e1);
    connected := c;
    out := e1 + e2;
    assert es + e1 + e2 == es + out;
  }

  // The body of the pixel loop.
  method ClusterPixel(uf: UnionFind, im: Image, clustermap: array<seq<Entry>>, x: nat, y: nat, connected_last: bool,
                      ghost es: seq<Emit>, ghost rep: seq<nat>)
    returns (connected: bool, ghost out: seq<Emit>)
    requires Fits(uf, im) && TableGroups(clustermap[..], es) && 1 <= x < im.w - 1 && y + 1 < im.h && rep == uf.rep
    modifies uf.parent, clustermap
    ensures Fits(uf, im) && TableGroups(clustermap[..], es + out)
    ensures out == PixelEmits(im, rep, x, y, connected_last) && connected == ConnectedLast(im, rep, x, y)
  {
    out := [];
    assert es + out == es;
    if im.At(x, y) == 127 {
      return false, out;
    }
    var rep0, size := Component(uf, im, x, y);
    if size < 25 {
      return false, out;
    }
    var e1 := ConnectStraight(uf, im, clustermap, x, y, rep0, es);
    var c, e2 := ConnectDiagonal(uf, im, clustermap, x, y, rep0, connected_last, es + e1);
    connected := c;
    out := e1 + e2;
    assert es + e1 + e2 == es + out;
  }

  // One turn of the loop over the columns.
  method NextPixel(uf: UnionFind, im: Image, clustermap: array<seq<Entry>>, x: nat, y: nat, connected_last: bool,
                   ghost es: seq<Emit>, ghost rep: seq<nat>)
    returns (connected: bool)
    requires Fits(uf, im) && 1 <= x < im.w - 1 && y + 1 < im.h && rep == uf.rep
    requires TableGroups(clustermap[..], es + RowEmits(im, rep, y, x))
    requires connected_last == ConnectedLast(im, rep, x - 1, y)
    modifies uf.parent, clustermap
    ensures Fits(uf, im) && TableGroups(clustermap[..], es + RowEmits(im, rep, y, x + 1))
    ensures connected == ConnectedLast(im, rep, x, y)
  {
    ghost var out;
    connected, out := ClusterPixel(uf, im, clustermap, x, y, connected_last, es + RowEmits(im, rep, y, x), rep);
    RowUnfold(im, rep, y, x, es, out);
  }

  method ClusterRow(uf: UnionFind, im: Image, clustermap: array<seq<Entry>>, y: nat, ghost es: seq<Emit>, ghost rep: seq<nat>)
    requires Fits(uf, im) && TableGroups(clustermap[..], es) && y + 1 < im.h && rep == uf.rep
    modifies uf.parent, clustermap
    ensures Fits(uf, im) && TableGroups(clustermap[..], es + RowEmits(im, rep, y, im.w - 1))
  {
    var connected_last := false;
    var x: nat := 1;
    ghost var n := if im.w == 1 then 0 else 1;
    assert es + [] == es;
    RowStart(im, rep, y);
    while x < im.w - 1
      invariant if im.w == 1 then n == 0 else n == x <= im.w - 1
      invariant Fits(uf, im) && uf.rep == rep
      invariant TableGroups(clustermap[..], es + RowEmits(im, rep, y, n))
      invariant x < im.w - 1 ==> connected_last == ConnectedLast(im, rep, x - 1, y)
    {
      connected_last := NextPixel(uf, im, clustermap, x, y, connected_last, es, rep);
      x := x + 1;
      n := n + 1;
    }
  }

  lemma RowStart(im: Image, rep: seq<nat>, y: nat)
    requires CanEmit(im, rep) && y + 1 < im.h
    ensures RowEmits(im, rep, y, 0) == [] && (im.w > 1 ==> RowEmits(im, rep, y, 1) == [])
    ensures im.w > 1 ==> !ConnectedLast(im, rep, 0, y)
  {
  }

  lemma RowUnfold(im: Image, rep: seq<nat>, y: nat, x: nat, es: seq<Emit>, out: seq<Emit>)
    requires CanEmit(im, rep) && 1 <= x < im.w - 1 && y + 1 < im.h
    requires out == PixelEmits(im, rep, x, y, ConnectedLast(im, rep, x - 1, y))
    ensures es + RowEmits(im, rep, y, x) + out == es + RowEmits(im, rep, y, x + 1)
  {
  }

  // ---- From the chains to a sorted list ----

  // Members of a bucket's segment: same elements as before, ids still distinct.
  ghost predicate SameElements(r: seq<Cluster>, s: seq<Cluster>) {
    |r| == |s| && (forall c :: c in r <==> c in s) && forall i, j :: 0 <= i < j < |r| ==> r[i].id != r[j].id
  }

  lemma SwapKeepsElements(r: seq<Cluster>, s: seq<Cluster>, k: nat)
    requires SameElements(r, s) && k + 1 < |r|
    ensures SameElements(r[k := r[k + 1]][k + 1 := r[k]], s)
  {
    var r' := r[k := r[k + 1]][k + 1 := r[k]];
    forall c | c in r ensures c in r' {
      var i :| 0 <= i < |r| && r[i] == c;
      assert r'[if i == k then k + 1 else if i == k + 1 then k else i] == c;
    }
  }

  // The bubble sort on the secondary key.
  method BubbleSort(segment: seq<Cluster>) returns (r: seq<Cluster>)
    requires forall i, j :: 0 <= i < j < |segment| ==> segment[i].id != segment[j].id
    ensures SameElements(r, segment)
    ensures forall i, j :: 0 <= i < j < |r| ==> r[i].id < r[j].id
  {
    r := segment;
    var n := |segment|;
    var j := 0;
    while j < n - 1
      invariant j == 0 || j <= n - 1
      invariant SameElements(r, segment)
      invariant forall a, b :: 0 <= a < b < n && b >= n - j ==> r[a].id < r[b].id
    {
      var k := 0;
      while k < n - j - 1
        invariant 0 <= k <= n - j - 1 && SameElements(r, segment)
        invariant forall a, b :: 0 <= a < b < n && b >= n - j ==> r[a].id < r[b].id
        invariant forall a :: 0 <= a < k ==> r[a].id < r[k].id
      {
        if r[k].id > r[k + 1].id {
          SwapKeepsElements(r, segment, k);
          r := r[k := r[k + 1]][k + 1 := r[k]];
        }
        k := k + 1;
      }
      j := j + 1;
    }
  }

  // The buckets before b, in order, as one list.
  ghost predicate Collected(list: seq<Cluster>, table: seq<seq<Entry>>, es: seq<Emit>, b: nat)
    requires b <= |table|
  {
    && |table| > 0 && Sorted(list)
    && (forall i :: 0 <= i < |list| ==> ClusterOk(list[i], es, |table|) && list[i].hash < b)
    && forall k :: 0 <= k < |es| && Bucket(es[k].id, |table|) < b ==> HasCluster(list, es[k].id)
  }

  lemma CollectBucket(list: seq<Cluster>, table: seq<seq<Entry>>, es: seq<Emit>, b: nat, segment: seq<Cluster>)
    requires b < |table| && Collected(list, table, es, b)
    requires forall i :: 0 <= i < |segment| ==> ClusterOk(segment[i], es, |table|) && segment[i].hash == b
    requires forall i, j :: 0 <= i < j < |segment| ==> segment[i].id < segment[j].id
    requires forall k :: 0 <= k < |es| && Bucket(es[k].id, |table|) == b ==> HasCluster(segment, es[k].id)
    ensures Collected(list + segment, table, es, b + 1)
  {
    forall k | 0 <= k < |es| && Bucket(es[k].id, |table|) < b + 1 ensures HasCluster(list + segment, es[k].id) {
      if Bucket(es[k].id, |table|) < b {
        assert HasCluster(list, es[k].id);
        var i :| 0 <= i < |list| && list[i].id == es[k].id;
        assert (list + segment)[i].id == es[k].id;
      } else {
        assert HasCluster(segment, es[k].id);
        var i :| 0 <= i < |segment| && segment[i].id == es[k].id;
        assert (list + segment)[|list| + i].id == es[k].id;
      }
    }
  }

  // The sorted segment of one bucket.
  method Segment(chain: seq<Entry>, b: nat, n: nat, ghost es: seq<Emit>) returns (segment: seq<Cluster>)
    requires ChainGroups(chain, es, b, n)
    ensures forall i :: 0 <= i < |segment| ==> ClusterOk(segment[i], es, n) && segment[i].hash == b
    ensures forall i, j :: 0 <= i < j < |segment| ==> segment[i].id < segment[j].id
    ensures forall k :: 0 <= k < |es| && Bucket(es[k].id, n) == b ==> HasCluster(segment, es[k].id)
  {
    var unsorted := [];
    for i := 0 to |chain|
      invariant |unsorted| == i
      invariant forall j :: 0 <= j < i ==> unsorted[j] == Cluster(b, chain[j].id, chain[j].cluster)
    {
      unsorted := unsorted + [Cluster(Hash(chain[i].id) % n, chain[i].id, chain[i].cluster)];
    }
    segment := BubbleSort(unsorted);
    forall i | 0 <= i < |segment| ensures ClusterOk(segment[i], es, n) && segment[i].hash == b {
      assert segment[i] in unsorted;
    }
    forall k | 0 <= k < |es| && Bucket(es[k].id, n) == b ensures HasCluster(segment, es[k].id) {
      assert InChain(chain, es[k].id);
      var j :| 0 <= j < |chain| && chain[j].id == es[k].id;
      assert unsorted[j] in segment;
    }
  }

  method Collect(clustermap: array<seq<Entry>>, ghost es: seq<Emit>) returns (clusters: seq<Cluster>)
    requires TableGroups(clustermap[..], es)
    ensures Groups(clusters, es, clustermap.Length)
  {
    clusters := [];
    for i := 0 to clustermap.Length
      invariant Collected(clusters, clustermap[..], es, i)
    {
      assert BucketGroups(clustermap[..], es, i);
      var segment := Segment(clustermap[i], i, clustermap.Length, es);
      CollectBucket(clusters, clustermap[..], es, i, segment);
      clusters := clusters + segment;
    }
  }

  // calloc: all chains are empty.
  method NewTable(n: nat) returns (clustermap: array<seq<Entry>>)
    requires n > 0
    ensures fresh(clustermap) && clustermap.Length == n && TableGroups(clustermap[..], [])
  {
    clustermap := new seq<Entry>[n](_ => []);
    assert forall b: nat :: b < n ==> BucketGroups(clustermap[..], [], b);
  }

  // do_gradient_clusters: the group-by of everything the band emits.
  method BandClusters(uf: UnionFind, im: Image, y0: nat, y1: nat, nclustermap: nat) returns (clusters: seq<Cluster>)
    requires Fits(uf, im) && y0 <= y1 < im.h && nclustermap > 0
    modifies uf.parent
    ensures Fits(uf, im) && Groups(clusters, BandEmits(im, uf.rep, y0, y1), nclustermap)
  {
    var clustermap := NewTable(nclustermap);
    FillBand(uf, im, clustermap, y0, y1);
    clusters := Collect(clustermap, BandEmits(im, uf.rep, y0, y1));
  }

  // All rows of a band.
  method FillBand(uf: UnionFind, im: Image, clustermap: array<seq<Entry>>, y0: nat, y1: nat)
    requires Fits(uf, im) && y0 <= y1 < im.h && TableGroups(clustermap[..], [])
    modifies uf.parent, clustermap
    ensures Fits(uf, im) && uf.rep == old(uf.rep) && TableGroups(clustermap[..], BandEmits(im, uf.rep, y0, y1))
  {
    ghost var rep := uf.rep;
    for y := y0 to y1
      invariant Fits(uf, im) && uf.rep == rep && TableGroups(clustermap[..], BandEmits(im, rep, y0, y))
    {
      NextRow(uf, im, clustermap, y0, y, rep);
    }
  }

  method NextRow(uf: UnionFind, im: Image, clustermap: array<seq<Entry>>, ghost y0: nat, y: nat, ghost rep: seq<nat>)
    requires Fits(uf, im) && uf.rep == rep && y0 <= y && y + 1 < im.h && TableGroups(clustermap[..], BandEmits(im, rep, y0, y))
    modifies uf.parent, clustermap
    ensures Fits(uf, im) && TableGroups(clustermap[..], BandEmits(im, rep, y0, y + 1))
  {
    ClusterRow(uf, im, clustermap, y, BandEmits(im, rep, y0, y), rep);
  }

  // ---- gradient_clusters ----

  // The rows of each task, as the emissions they lead to.
  ghost function Parts(im: Image, rep: seq<nat>, bounds: seq<(nat, nat)>): (parts: seq<seq<Emit>>)
    requires CanEmit(im, rep) && forall t :: 0 <= t < |bounds| ==> bounds[t].0 <= bounds[t].1 < im.h
    ensures |parts| == |bounds|
    ensures forall t :: 0 <= t < |bounds| ==> parts[t] == BandEmits(im, rep, bounds[t].0, bounds[t].1)
  {
    seq(|bounds|, t requires 0 <= t < |bounds| => BandEmits(im, rep, bounds[t].0, bounds[t].1))
  }

  // Consecutive bands from row 1 up to row `to`.
  ghost predicate Consecutive(bounds: seq<(nat, nat)>, to: nat) {
    && (forall t :: 0 <= t < |bounds| ==> bounds[t].0 < bounds[t].1 <= to)
    && (forall t :: 0 <= t < |bounds| - 1 ==> bounds[t].1 == bounds[t + 1].0)
    && (if |bounds| == 0 then to == 1 else bounds[0].0 == 1 && bounds[|bounds| - 1].1 == to)
  }

  // Consecutive bands together emit what one pass over all their rows emits.
  lemma {:induction false} PartsJoin(im: Image, rep: seq<nat>, bounds: seq<(nat, nat)>, to: nat)
    requires CanEmit(im, rep) && Consecutive(bounds, to) && 1 <= to < im.h
    ensures Flatten(Parts(im, rep, bounds)) == BandEmits(im, rep, 1, to)
  {
    if bounds != [] {
      var last := |bounds| - 1;
      var mid := bounds[last].0;
      assert last > 0 ==> bounds[last - 1].1 == bounds[last - 1 + 1].0;
      BandsOrdered(bounds, to, last);
      PartsJoin(im, rep, bounds[..last], mid);
      BandsJoin(im, rep, 1, mid, to);
      PartsPrefix(im, rep, bounds, last);
    }
  }

  lemma PartsPrefix(im: Image, rep: seq<nat>, bounds: seq<(nat, nat)>, last: nat)
    requires CanEmit(im, rep) && last <= |bounds| && forall t :: 0 <= t < |bounds| ==> bounds[t].0 <= bounds[t].1 < im.h
    ensures Parts(im, rep, bounds)[..last] == Parts(im, rep, bounds[..last])
  {
  }

  lemma {:induction false} BandsOrdered(bounds: seq<(nat, nat)>, to: nat, last: nat)
    requires Consecutive(bounds, to) && last < |bounds|
    ensures 1 <= bounds[last].0 && forall t :: 0 <= t < last ==> bounds[t].1 <= bounds[last].0
  {
    if last > 0 {
      BandsOrdered(bounds, to, last - 1);
      assert bounds[last - 1].1 == bounds[last - 1 + 1].0;
    }
  }

  // The hash buckets each band gets.
  function BucketsPerTask(w: nat, h: nat, nthreads: nat): nat
    requires h > 0 && nthreads > 0
  {
    w * h / 5 / ((h - 1) / ChunkSize(h - 1, nthreads) + 1)
  }

  method PlanTasks(sz: nat, chunksize: nat) returns (bounds: seq<(nat, nat)>)
    requires sz >= 2 && chunksize > 0
    ensures |bounds| > 0 && Consecutive(bounds, sz)
  {
    bounds := [];
    var i := 1;
    while i < sz
      invariant i >= 1 && (i < sz ==> Consecutive(bounds, i)) && (i >= sz ==> Consecutive(bounds, sz) && |bounds| > 0)
      decreases sz - i
    {
      var y1 := if sz < i + chunksize then sz else i + chunksize;
      NextBounds(bounds, i, y1);
      bounds := bounds + [(i, y1)];
      i := i + chunksize;
    }
  }

  lemma NextBounds(bounds: seq<(nat, nat)>, i: nat, y1: nat)
    requires Consecutive(bounds, i) && i < y1
    ensures Consecutive(bounds + [(i, y1)], y1)
  {
  }

  method RunTasks(uf: UnionFind, im: Image, bounds: seq<(nat, nat)>, n: nat)
    returns (lists: array<seq<Cluster>>)
    requires Fits(uf, im) && n > 0 && Consecutive(bounds, im.h - 1)
    modifies uf.parent
    ensures fresh(lists) && lists.Length == |bounds| && Fits(uf, im)
    ensures AllGroup(lists[..], Parts(im, uf.rep, bounds), n)
  {
    lists := new seq<Cluster>[|bounds|](_ => []);
    ghost var rep := uf.rep;
    ghost var parts := Parts(im, rep, bounds);
    for t := 0 to |bounds|
      invariant fresh(lists) && lists.Length == |bounds| && Fits(uf, im) && uf.rep == rep
      invariant forall k: nat :: k < t ==> GroupsAt(lists[..], parts, n, k)
    {
      var clusters := BandClusters(uf, im, bounds[t].0, bounds[t].1, n);
      ghost var before := lists[..];
      lists[t] := clusters;
      forall k: nat | k < t + 1 ensures GroupsAt(lists[..], parts, n, k) {
        assert k < t ==> GroupsAt(before, parts, n, k);
      }
    }
  }

  /** gradient_clusters: whatever the number of bands, the result is the group-by of all boundary points of
    rows 1..h-2, sorted by hash and id, and a point is in a cluster exactly if two bordering pixels ask for it. There has to be such a row, and a bucket for every band. */
  method ClusterImage(uf: UnionFind, im: Image, nthreads: nat)
    returns (clusters: seq<seq<Pt>>, list: seq<Cluster>)
    requires Fits(uf, im) && im.h >= 3 && nthreads > 0 && BucketsPerTask(im.w, im.h, nthreads) > 0
    modifies uf.parent
    ensures Fits(uf, im)
    ensures Groups(list, BandEmits(im, uf.rep, 1, im.h - 1), BucketsPerTask(im.w, im.h, nthreads))
    ensures HoldsBoundary(im, uf.rep, list)
    ensures |clusters| == |list| && forall i :: 0 <= i < |list| ==> clusters[i] == list[i].data
  {
    var n := BucketsPerTask(im.w, im.h, nthreads);
    list := ClusterBands(uf, im, ChunkSize(im.h - 1, nthreads), n);
    GroupsHold(im, uf.rep, list, n);
    clusters := TakeData(list);
  }

  // The tasks and the tournament, for any number of buckets.
  method ClusterBands(uf: UnionFind, im: Image, chunksize: nat, n: nat) returns (list: seq<Cluster>)
    requires Fits(uf, im) && im.h >= 3 && chunksize > 0 && n > 0
    modifies uf.parent
    ensures Fits(uf, im) && Groups(list, BandEmits(im, uf.rep, 1, im.h - 1), n)
  {
    var bounds := PlanTasks(im.h - 1, chunksize);
    var lists := RunTasks(uf, im, bounds, n);
    Tournament(lists, Parts(im, uf.rep, bounds), n);
    PartsJoin(im, uf.rep, bounds, im.h - 1);
    list := lists[0];
  }

  method TakeData(list: seq<Cluster>) returns (clusters: seq<seq<Pt>>)
    ensures |clusters| == |list| && forall i :: 0 <= i < |list| ==> clusters[i] == list[i].data
  {
    clusters := [];
    for i := 0 to |list|
      invariant |clusters| == i && forall j :: 0 <= j < i ==> clusters[j] == list[j].data
    {
      clusters := clusters + [list[i].data];
    }
  }
}
