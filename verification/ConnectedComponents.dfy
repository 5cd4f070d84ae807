/** connected_components of apriltag_quad_thresh.c: the sequential scan and the scan in row bands whose
  seams are stitched afterwards. */
module ConnectedComponents {
  import opened Equivalence
  import opened FiniteSets
  import opened Numbers
  import opened Tasks
  import opened Accesses
  import opened UnionFinding
  import opened PixelScan
  import opened Components

  // How many rows end up scanned: the last one is missed when the chunk size divides its number.
  function ScannedRows(h: nat, nthreads: int): nat {
    if nthreads > 1 && h >= 2 && (h - 1) % ChunkSize(h, nthreads) == 0 then h - 1 else h
  }

  // The ids of rows lo..hi-1.
  function Band(w: nat, lo: nat, hi: nat): set<nat> {
    Range(Multiple(w, lo), Multiple(w, hi))
  }

  // The ids the k-th task may touch: the row above its first one down to its last one.
  function TaskBand(w: nat, h: nat, c: nat, k: nat): set<nat> {
    Band(w, Min(h, Multiple(c, k)), Min(h, Multiple(c, k) + c))
  }

  // The ids of the bands are entries of the arrays.
  lemma BandInIdRange(w: nat, h: nat, lo: nat, hi: nat)
    requires hi <= h
    ensures forall id :: id in Band(w, lo, hi) ==> id < Multiple(w, h)
  {
    MultipleMono(w, hi, h);
  }

  lemma TaskBandsDisjoint(w: nat, h: nat, c: nat, j: nat, k: nat)
    requires j < k
    ensures TaskBand(w, h, c, j) !! TaskBand(w, h, c, k)
  {
    MultipleMono(c, j + 1, k);
    MultipleMono(w, Min(h, Multiple(c, j) + c), Min(h, Multiple(c, k)));
  }

  // Scans a row that has not been scanned before: `rows` are the rows done so far.
  method ScanOnce(uf: UnionFind, im: Image, y: nat, ghost rows: set<nat>)
    requires im.Valid() && uf.Valid() && uf.maxid == im.Pixels() && 1 <= y < im.h && y !in rows
    requires uf.pairs == ScanEdges(im, rows, false)
    modifies uf, uf.parent, uf.size
    ensures uf.Valid() && uf.pairs == ScanEdges(im, rows + {y}, false)
    ensures Performs(old(uf.Memory()), RowOps(im, y, im.w - 1), uf.Memory())
  {
    ScanLine(uf, im, y);
    AddRow(im, rows, y, false);
  }

  // do_unionfind_task2
  method RunBand(uf: UnionFind, im: Image, y0: nat, y1: nat, ghost rows: set<nat>)
    requires im.Valid() && uf.Valid() && uf.maxid == im.Pixels() && 1 <= y0 <= y1 <= im.h && rows !! Range(y0, y1)
    requires uf.pairs == ScanEdges(im, rows, false)
    modifies uf, uf.parent, uf.size
    ensures uf.Valid() && uf.pairs == ScanEdges(im, rows + Range(y0, y1), false)
    ensures Performs(old(uf.Memory()), BandOps(im, y0, y1), uf.Memory())
  {
    ghost var m0 := uf.Memory();
    NothingYet(rows, y0);
    for y := y0 to y1
      invariant uf.Valid() && uf.pairs == ScanEdges(im, rows + Range(y0, y), false)
      invariant Performs(m0, BandOps(im, y0, y), uf.Memory())
    {
      BandRow(uf, im, y0, y, rows, m0);
    }
  }

  lemma NothingYet(rows: set<nat>, y0: nat)
    ensures rows + Range(y0, y0) == rows
  {
  }

  lemma OneMore(rows: set<nat>, y0: nat, y: nat)
    requires y0 <= y
    ensures rows + Range(y0, y) + {y} == rows + Range(y0, y + 1)
    ensures y !in rows ==> y !in rows + Range(y0, y)
  {
  }

  // The body of the loop over the rows of a band.
  method BandRow(uf: UnionFind, im: Image, ghost y0: nat, y: nat, ghost rows: set<nat>, ghost m0: Mem)
    requires im.Valid() && uf.Valid() && uf.maxid == im.Pixels() && 1 <= y0 <= y < im.h && y !in rows
    requires uf.pairs == ScanEdges(im, rows + Range(y0, y), false)
    requires Performs(m0, BandOps(im, y0, y), uf.Memory())
    modifies uf, uf.parent, uf.size
    ensures uf.Valid() && uf.pairs == ScanEdges(im, rows + Range(y0, y + 1), false)
    ensures Performs(m0, BandOps(im, y0, y + 1), uf.Memory())
  {
    ghost var m := uf.Memory();
    OneMore(rows, y0, y);
    ScanOnce(uf, im, y, rows + Range(y0, y));
    PerformsThen(m0, BandOps(im, y0, y), m, RowOps(im, y, im.w - 1), uf.Memory());
  }

  // ---- The banded scan ----

  // Row y is a multiple of the chunk size c.
  predicate OnSeam(c: nat, y: nat)
    requires c > 0
  {
    if y < c then y == 0 else OnSeam(c, y - c)
  }

  lemma {:induction false} OnSeamIff(c: nat, k: nat, y: nat)
    requires c > 0 && Multiple(c, k) <= y < Multiple(c, k) + c
    ensures OnSeam(c, y) <==> y == Multiple(c, k)
    ensures OnSeam(c, y) <==> y % c == 0
  {
    Between(c, k, y);
    if k > 0 {
      OnSeamIff(c, k - 1, y - c);
    }
  }

  // Each row lies in one chunk.
  lemma ChunkOf(c: nat, y: nat) returns (k: nat)
    requires c > 0
    ensures Multiple(c, k) <= y < Multiple(c, k) + c
  {
    k := y / c;
    MultipleIsProduct(c, k);
  }

  // Rows 1..n-1 that no seam passes through.
  function BandRows(c: nat, n: nat): (rows: set<nat>)
    requires c > 0
  {
    set y | y in Range(1, n) && !OnSeam(c, y)
  }

  // The k-th band extends the rows done so far up to the next seam.
  lemma NextBand(h: nat, c: nat, k: nat, b: nat)
    requires c > 0 && 1 + b < h && b == Multiple(c, k)
    ensures BandRows(c, Min(h, 1 + b)) + Range(1 + b, Min(h, b + c)) == BandRows(c, Min(h, 1 + b + c))
    ensures BandRows(c, Min(h, 1 + b)) !! Range(1 + b, Min(h, b + c))
  {
    forall y: nat | b < y < b + c ensures !OnSeam(c, y) {
      OnSeamIff(c, k, y);
    }
    OnSeamIff(c, k + 1, b + c);
    NextBandFrom(h, c, b);
  }

  lemma NextBandFrom(h: nat, c: nat, b: nat)
    requires c > 0 && 1 + b < h && OnSeam(c, b + c) && forall y: nat :: b < y < b + c ==> !OnSeam(c, y)
    ensures BandRows(c, Min(h, 1 + b)) + Range(1 + b, Min(h, b + c)) == BandRows(c, Min(h, 1 + b + c))
    ensures BandRows(c, Min(h, 1 + b)) !! Range(1 + b, Min(h, b + c))
  {
  }

  // The k-th task scans rows 1 + kc up to the next seam.
  ghost predicate TaskAt(h: nat, c: nat, tasks: seq<(nat, nat)>, k: nat)
    requires k < |tasks|
  {
    1 + Multiple(c, k) < h && tasks[k].0 == 1 + Multiple(c, k) && tasks[k].1 == Min(h, Multiple(c, k) + c)
  }

  ghost predicate Planned(h: nat, c: nat, tasks: seq<(nat, nat)>) {
    c > 0 && h <= 1 + Multiple(c, |tasks|) && forall k :: 0 <= k < |tasks| ==> TaskAt(h, c, tasks, k)
  }

  // The tasks: rows [y0, y1) each, y0 = 1, 1 + c, ...
  method PlanBands(h: nat, c: nat) returns (tasks: seq<(nat, nat)>)
    requires c > 0 && h >= 1
    ensures Planned(h, c, tasks)
  {
    tasks := [];
    var i := 1;
    while i < h
      invariant i == 1 + Multiple(c, |tasks|)
      invariant forall k :: 0 <= k < |tasks| ==> TaskAt(h, c, tasks, k)
    {
      ghost var before := tasks;
      tasks := tasks + [(i, Min(h, i + c - 1))];
      forall k | 0 <= k < |tasks| ensures TaskAt(h, c, tasks, k) {
        assert k < |before| ==> TaskAt(h, c, before, k);
      }
      i := i + c;
    }
  }

  method OneBand(uf: UnionFind, im: Image, c: nat, ghost k: nat, ghost b: nat, y0: nat, y1: nat)
    requires im.Valid() && uf.Valid() && uf.maxid == im.Pixels() && c > 0 && b == Multiple(c, k)
    requires 1 + b < im.h && y0 == 1 + b && y1 == Min(im.h, b + c)
    requires uf.pairs == ScanEdges(im, BandRows(c, Min(im.h, 1 + b)), false)
    modifies uf, uf.parent, uf.size
    ensures uf.Valid()
    ensures uf.pairs == ScanEdges(im, BandRows(c, Min(im.h, 1 + b + c)), false)
    ensures Performs(old(uf.Memory()), BandOps(im, y0, y1), uf.Memory())
  {
    NextBand(im.h, c, k, b);
    RunBand(uf, im, y0, y1, BandRows(c, Min(im.h, 1 + b)));
  }

  // The unions of each task, in its order.
  ghost function TaskOps(im: Image, c: nat, tasks: seq<(nat, nat)>): (ops: seq<seq<Edge>>)
    requires im.Valid() && Planned(im.h, c, tasks)
    ensures |ops| == |tasks|
    ensures forall k :: 0 <= k < |tasks| ==> ops[k] == OpsOf(im, c, tasks, k)
  {
    seq(|tasks|, k requires 0 <= k < |tasks| => OpsOf(im, c, tasks, k))
  }

  ghost function OpsOf(im: Image, c: nat, tasks: seq<(nat, nat)>, k: nat): (ops: seq<Edge>)
    requires im.Valid() && Planned(im.h, c, tasks) && k < |tasks|
    ensures TaskAt(im.h, c, tasks, k) && ops == Flat(BandOps(im, tasks[k].0, tasks[k].1))
  {
    assert TaskAt(im.h, c, tasks, k);
    Flat(BandOps(im, tasks[k].0, tasks[k].1))
  }

  ghost function Bands(w: nat, h: nat, c: nat, n: nat): (bands: seq<set<nat>>)
    ensures |bands| == n && forall k :: 0 <= k < n ==> bands[k] == TaskBand(w, h, c, k)
  {
    seq(n, k requires 0 <= k < n => TaskBand(w, h, c, k))
  }

  // Each task works in a band of its own.
  lemma TasksApart(m: Mem, im: Image, c: nat, tasks: seq<(nat, nat)>)
    requires im.Valid() && Planned(im.h, c, tasks)
    requires forall k :: 0 <= k < |tasks| ==> Closed(m, TaskBand(im.w, im.h, c, k))
    ensures OpsApart(m, TaskOps(im, c, tasks), Bands(im.w, im.h, c, |tasks|))
  {
    var ops, bands := TaskOps(im, c, tasks), Bands(im.w, im.h, c, |tasks|);
    forall j, k | 0 <= j < k < |bands| ensures bands[j] !! bands[k] {
      TaskBandsDisjoint(im.w, im.h, c, j, k);
    }
    forall k | 0 <= k < |ops| ensures OpsConfined(m, ops, bands, k) {
      TaskInBand(im, c, tasks, k);
    }
  }

  lemma {:induction false} TaskInBand(im: Image, c: nat, tasks: seq<(nat, nat)>, k: nat)
    requires im.Valid() && Planned(im.h, c, tasks) && k < |tasks|
    ensures OpsIn(OpsOf(im, c, tasks, k), TaskBand(im.w, im.h, c, k))
  {
    assert TaskAt(im.h, c, tasks, k);
    RowsInBand(im, tasks[k].0, tasks[k].1);
  }

  lemma {:induction false} RowsInBand(im: Image, lo: nat, hi: nat)
    requires im.Valid() && 1 <= lo <= hi <= im.h
    ensures OpsIn(Flat(BandOps(im, lo, hi)), Band(im.w, lo - 1, hi))
  {
    BandOpsWithin(im, lo, hi);
    InIdRange(BandOps(im, lo, hi), RowAbove(im.w, lo), Multiple(im.w, hi));
  }

  /** The parallel phase. The tasks are carried out one after the other here; their single accesses may come in any
    order: every schedule that finishes them all leaves the same arrays. */
  method BandPhase(uf: UnionFind, im: Image, c: nat, tasks: seq<(nat, nat)>)
    requires im.Valid() && uf.Valid() && uf.maxid == im.Pixels() && Planned(im.h, c, tasks)
    requires uf.pairs == ScanEdges(im, {}, false)
    requires forall k :: 0 <= k < |tasks| ==> Closed(uf.Memory(), TaskBand(im.w, im.h, c, k))
    modifies uf, uf.parent, uf.size
    ensures uf.Valid() && uf.pairs == ScanEdges(im, BandRows(c, im.h), false)
    ensures forall k :: 0 <= k < |tasks| ==> Closed(uf.Memory(), TaskBand(im.w, im.h, c, k))
    ensures AlwaysEndsIn(old(uf.Memory()), TaskOps(im, c, tasks), uf.Memory())
  {
    ghost var m0 := uf.Memory();
    ghost var b, mems := 0, [m0];
    NoBandYet(c, im.h);
    for k := 0 to |tasks|
      invariant uf.Valid() && b == Multiple(c, k) && uf.pairs == ScanEdges(im, BandRows(c, Min(im.h, 1 + b)), false)
      invariant mems != [] && mems[0] == m0 && InTurnSoFar(mems, TaskOps(im, c, tasks), k, uf.Memory())
    {
      mems := BandTask(uf, im, c, tasks, k, b, mems);
      b := b + c;
    }
    TasksApart(m0, im, c, tasks);
    AnyOrder(m0, uf.Memory(), im, c, tasks, mems);
  }

  // The first k tasks, one after the other, led to the arrays m.
  ghost predicate InTurnSoFar(mems: seq<Mem>, ops: seq<seq<Edge>>, k: nat, m: Mem) {
    k <= |ops| && InTurn(mems, ops[..k]) && mems[k] == m
  }

  lemma TaskDone(mems: seq<Mem>, ops: seq<seq<Edge>>, k: nat, m: Mem, m': Mem)
    requires k < |ops| && InTurnSoFar(mems, ops, k, m) && Runs(m, ops[k], m')
    ensures InTurnSoFar(mems + [m'], ops, k + 1, m')
  {
    var mems', ops' := mems + [m'], ops[..k + 1];
    forall j | 0 <= j < k + 1 ensures RunsAt(mems', ops', j) {
      assert j < k ==> RunsAt(mems, ops[..k], j);
    }
  }

  // The body of the loop over the tasks.
  method BandTask(uf: UnionFind, im: Image, c: nat, tasks: seq<(nat, nat)>, k: nat, ghost b: nat, ghost mems: seq<Mem>)
    returns (ghost mems': seq<Mem>)
    requires im.Valid() && uf.Valid() && uf.maxid == im.Pixels() && Planned(im.h, c, tasks) && k < |tasks| && b == Multiple(c, k)
    requires uf.pairs == ScanEdges(im, BandRows(c, Min(im.h, 1 + b)), false)
    requires mems != [] && InTurnSoFar(mems, TaskOps(im, c, tasks), k, uf.Memory())
    modifies uf, uf.parent, uf.size
    ensures uf.Valid() && uf.pairs == ScanEdges(im, BandRows(c, Min(im.h, 1 + b + c)), false)
    ensures mems' != [] && mems'[0] == mems[0] && InTurnSoFar(mems', TaskOps(im, c, tasks), k + 1, uf.Memory())
  {
    ghost var m := uf.Memory();
    assert TaskAt(im.h, c, tasks, k);
    OneBand(uf, im, c, k, b, tasks[k].0, tasks[k].1);
    PerformsRuns(m, BandOps(im, tasks[k].0, tasks[k].1), uf.Memory());
    TaskDone(mems, TaskOps(im, c, tasks), k, m, uf.Memory());
    mems' := mems + [uf.Memory()];
  }

  lemma NoBandYet(c: nat, h: nat)
    requires c > 0 && h >= 1
    ensures BandRows(c, Min(h, 1 + 0)) == {}
  {
  }

  lemma AnyOrder(m0: Mem, m: Mem, im: Image, c: nat, tasks: seq<(nat, nat)>, mems: seq<Mem>)
    requires im.Valid() && Planned(im.h, c, tasks)
    requires mems != [] && mems[0] == m0 && InTurnSoFar(mems, TaskOps(im, c, tasks), |tasks|, m)
    requires OpsApart(m0, TaskOps(im, c, tasks), Bands(im.w, im.h, c, |tasks|)) && |m0.size| == |m0.parent|
    ensures AlwaysEndsIn(m0, TaskOps(im, c, tasks), m)
    ensures forall k :: 0 <= k < |tasks| ==> Closed(m, TaskBand(im.w, im.h, c, k))
  {
    var ops, bands := TaskOps(im, c, tasks), Bands(im.w, im.h, c, |tasks|);
    assert ops[..|tasks|] == ops;
    AnyScheduleEnds(mems, ops, bands);
    forall k | 0 <= k < |tasks| ensures Closed(m, TaskBand(im.w, im.h, c, k)) {
      StaysClosed(mems, ops, bands, k, |ops|);
    }
  }

  // Two tasks are never about to access the same entry.
  lemma TasksShareNothing(m: Mem, im: Image, c: nat, tasks: seq<(nat, nat)>, schedule: seq<nat>, j: nat, k: nat)
    requires im.Valid() && Planned(im.h, c, tasks) && j < k < |tasks|
    requires forall i :: 0 <= i < |tasks| ==> Closed(m, TaskBand(im.w, im.h, c, i))
    ensures var t := Interleave(Begin(m, TaskOps(im, c, tasks)), schedule);
      |t.locals| == |tasks| && (Entry(t.locals[j]) >= 0 ==> Entry(t.locals[j]) != Entry(t.locals[k]))
  {
    TasksApart(m, im, c, tasks);
    NoSharedEntry(m, TaskOps(im, c, tasks), Bands(im.w, im.h, c, |tasks|), schedule, j, k);
  }

  // Before anything is connected every band is closed, and row 0 belongs to the first one.
  lemma FreshClosed(m: Mem, w: nat, h: nat, lo: nat, hi: nat)
    requires |m.size| == |m.parent| == Multiple(w, h) + 1 <= UNINIT && hi <= h
    requires forall i :: 0 <= i < |m.parent| ==> m.parent[i] == UNINIT
    ensures Closed(m, Band(w, lo, hi))
  {
    BandInIdRange(w, h, lo, hi);
    forall i | i in Band(w, lo, hi) ensures EntryIn(m, Band(w, lo, hi), i) {
    }
  }

  lemma {:induction false} FirstLineInBand(m: Mem, m': Mem, im: Image, c: nat, k: nat)
    requires im.Valid() && c > 0 && Performs(m, RowOps(im, 0, im.w - 1), m')
    requires Closed(m, TaskBand(im.w, im.h, c, 0)) && Closed(m, TaskBand(im.w, im.h, c, k))
    ensures Closed(m', TaskBand(im.w, im.h, c, k))
  {
    var first := TaskBand(im.w, im.h, c, 0);
    var hi := Multiple(im.w, Min(im.h, c));
    RowOpsWithin(im, 0, im.w - 1);
    MultipleMono(im.w, 1, Min(im.h, c));
    Wider(RowOps(im, 0, im.w - 1), 0, Multiple(im.w, 1), 0, hi);
    InIdRange(RowOps(im, 0, im.w - 1), 0, hi);
    PerformsRuns(m, RowOps(im, 0, im.w - 1), m');
    RunsWithin(m, Flat(RowOps(im, 0, im.w - 1)), m', first);
    if k > 0 {
      TaskBandsDisjoint(im.w, im.h, c, 0, k);
      assert AgreeOn(m, m', TaskBand(im.w, im.h, c, k));
      ClosedAgrees(m, m', TaskBand(im.w, im.h, c, k));
    }
  }

  lemma AllClosed(m: Mem, m': Mem, im: Image, c: nat)
    requires im.Valid() && c > 0 && Performs(m, RowOps(im, 0, im.w - 1), m')
    requires |m.size| == |m.parent| == im.Pixels() + 1 <= UNINIT && forall i :: 0 <= i < |m.parent| ==> m.parent[i] == UNINIT
    ensures forall k: nat :: Closed(m', TaskBand(im.w, im.h, c, k))
  {
    forall k: nat ensures Closed(m', TaskBand(im.w, im.h, c, k)) {
      FreshClosed(m, im.w, im.h, Min(im.h, Multiple(c, 0)), Min(im.h, Multiple(c, 0) + c));
      FreshClosed(m, im.w, im.h, Min(im.h, Multiple(c, k)), Min(im.h, Multiple(c, k) + c));
      FirstLineInBand(m, m', im, c, k);
    }
  }

  // ---- Stitching ----

  // Bands and seams together are all rows but a last one on a seam.
  lemma SeamRows(h: nat, c: nat, n: nat)
    requires c > 0 && h >= 1 && h <= 1 + Multiple(c, n) && (n == 0 || 1 + Multiple(c, n - 1) < h)
    ensures var rows := if h >= 2 && (h - 1) % c == 0 then h - 1 else h;
            BandRows(c, h) + Seams(c, n) == Range(1, rows)
  {
    var last := ChunkOf(c, h - 1);
    OnSeamIff(c, last, h - 1);
    var rows := if h >= 2 && OnSeam(c, h - 1) then h - 1 else h;
    forall y: nat | 1 <= y < rows && OnSeam(c, y) ensures y in Seams(c, n) {
      SeamBefore(h, c, n, y);
    }
    forall y | y in Seams(c, n) ensures 1 <= y < rows {
      var k := SeamOf(c, n, y);
      MultipleMono(c, k, n - 1);
    }
  }

  lemma SeamBefore(h: nat, c: nat, n: nat, y: nat)
    requires c > 0 && OnSeam(c, y) && 1 <= y < h - 1 && h <= 1 + Multiple(c, n)
    ensures y in Seams(c, n)
  {
    var k := ChunkOf(c, y);
    OnSeamIff(c, k, y);
    if k >= n {
      MultipleMono(c, n, k);
      assert false;
    }
    SeamIn(c, n, k);
  }

  // Rows c, 2c, ..., (n-1)c: the first row of every band but the first, minus one.
  function Seams(c: nat, n: nat): set<nat> {
    if n <= 1 then {} else Seams(c, n - 1) + {Multiple(c, n - 1)}
  }

  lemma {:induction false} SeamIn(c: nat, n: nat, k: nat)
    requires 1 <= k < n
    ensures Multiple(c, k) in Seams(c, n)
  {
    if k < n - 1 {
      SeamIn(c, n - 1, k);
    }
  }

  lemma {:induction false} SeamOf(c: nat, n: nat, y: nat) returns (k: nat)
    requires y in Seams(c, n) && c > 0
    ensures 1 <= k < n && y == Multiple(c, k) && y >= 1
  {
    if y == Multiple(c, n - 1) {
      k := n - 1;
      MultipleMono(c, 1, k);
    } else {
      k := SeamOf(c, n - 1, y);
    }
  }

  lemma NewSeam(c: nat, h: nat, i: nat)
    requires c > 0 && i >= 1
    ensures Multiple(c, i) >= 1 && Multiple(c, i) !in BandRows(c, h) + Seams(c, i)
  {
    MultipleMono(c, 1, i);
    OnSeamIff(c, i, Multiple(c, i));
    assert Multiple(c, i) !in BandRows(c, h);
    NotYetSeam(c, i);
  }

  lemma {:induction false} NotYetSeam(c: nat, i: nat)
    requires c > 0 && i >= 1
    ensures Multiple(c, i) !in Seams(c, i)
  {
    if Multiple(c, i) in Seams(c, i) {
      var k := SeamOf(c, i, Multiple(c, i));
      MultipleMono(c, k + 1, i);
      assert false;
    }
  }

  // The stitching loop: the row above every band but the first is scanned afterwards.
  method Stitch(uf: UnionFind, im: Image, c: nat, tasks: seq<(nat, nat)>)
    requires im.Valid() && uf.Valid() && uf.maxid == im.Pixels() && c > 0
    requires Planned(im.h, c, tasks)
    requires uf.pairs == ScanEdges(im, BandRows(c, im.h), false)
    modifies uf, uf.parent, uf.size
    ensures uf.Valid()
    ensures uf.pairs == ScanEdges(im, BandRows(c, im.h) + Seams(c, |tasks|), false)
  {
    ghost var done := BandRows(c, im.h);
    var i := 1;
    while i < |tasks|
      invariant 1 <= i && (i <= |tasks| || i == 1)
      invariant uf.Valid() && done == BandRows(c, im.h) + Seams(c, i)
      invariant uf.pairs == ScanEdges(im, done, false)
    {
      assert TaskAt(im.h, c, tasks, i);
      var y := tasks[i].0 - 1;
      NewSeam(c, im.h, i);
      assert 1 + Multiple(c, i) < im.h && y == Multiple(c, i);
      ScanOnce(uf, im, y, done);
      done := done + {y};
      i := i + 1;
    }
    assert done == BandRows(c, im.h) + Seams(c, |tasks|);
  }

  // Unions of row y start in row y and end in row y or y-1, at another pixel.
  lemma {:induction false} RowEdgeShape(im: Image, y: nat, n: nat, e: Edge) returns (x: nat)
    requires im.Valid() && n < im.w && y < im.h && e in RowEdges(im, y, n, false)
    ensures x < im.w && e.0 == Id(im.w, x, y) && e.1 != e.0
    ensures e.0 < Multiple(im.w, y + 1) && e.1 < Multiple(im.w, y + 1)
  {
    if e in EdgesAt(im, n - 1, y, false) {
      x := n - 1;
    } else {
      x := RowEdgeShape(im, y, n - 1, e);
    }
  }

  lemma ScanEdgeRow(im: Image, rows: nat, e: Edge) returns (y: nat)
    requires im.Valid() && 1 <= rows <= im.h && e in Scan(im, rows, false)
    ensures y < rows && e in WholeRow(im, y, false)
  {
    if e in WholeRow(im, 0, false) {
      y := 0;
    } else {
      y := RowOfScan(im, Range(1, rows), im.h, false, e);
    }
  }

  lemma ScanEdgeShape(im: Image, rows: nat, e: Edge)
    requires im.Valid() && 1 <= rows <= im.h && e in Scan(im, rows, false)
    ensures e.0 < Multiple(im.w, rows) && e.1 < Multiple(im.w, rows)
  {
    var y := ScanEdgeRow(im, rows, e);
    var x := RowEdgeShape(im, y, im.w - 1, e);
    MultipleMono(im.w, y + 1, rows);
  }

  // A union of the row after the scanned ones links two pixels that the scan leaves apart.
  lemma MissedUnionSeparates(im: Image, rows: nat, e: Edge)
    requires im.Valid() && 1 <= rows < im.h && e in WholeRow(im, rows, false)
    ensures !Linked(Scan(im, rows, false), e.0, e.1)
  {
    var banded := Scan(im, rows, false);
    var x := RowEdgeShape(im, rows, im.w - 1, e);
    var g := (id: nat) => if id == e.0 then 1 else 0;
    forall e' | e' in banded ensures g(e'.0) == g(e'.1) {
      ScanEdgeShape(im, rows, e');
    }
    LinkedIffLabelled(banded, e.0, e.1);
    assert Respects(g, banded) && g(e.0) != g(e.1);
  }

  // The scan in bands gives the sequential components exactly when it reaches the last row or that row
  // has no union to make.
  lemma BandedEqualsSequentialIff(im: Image, nthreads: int)
    requires im.Valid()
    ensures 1 <= ScannedRows(im.h, nthreads) <= im.h
    ensures var banded, sequential := Scan(im, ScannedRows(im.h, nthreads), false), Scan(im, im.h, false);
            (forall a: nat, b: nat :: Linked(banded, a, b) <==> Linked(sequential, a, b))
            <==> (ScannedRows(im.h, nthreads) == im.h || WholeRow(im, im.h - 1, false) == {})
  {
    var rows := ScannedRows(im.h, nthreads);
    var banded, sequential := Scan(im, rows, false), Scan(im, im.h, false);
    if rows != im.h {
      assert Range(1, im.h) == Range(1, rows) + {rows};
      AddRow(im, Range(1, rows), rows, false);
      assert sequential == banded + WholeRow(im, rows, false);
      if WholeRow(im, rows, false) != {} {
        var e :| e in WholeRow(im, rows, false);
        MissedUnionSeparates(im, rows, e);
        LinkedRefl(sequential, e.0);
        LinkedStep(sequential, e.0, e.0, e.1);
      }
    }
  }

  // Representatives of interior pixels tell textbook components apart.
  ghost predicate LabelsComponents(uf: UnionFind, im: Image, rows: nat)
    requires im.Valid() && rows <= im.h && |uf.rep| > im.Pixels()
    reads uf
  {
    forall x, y, x', y' :: Inside(im, rows, x, y) && Inside(im, rows, x', y') ==>
      (RepAt(uf, im, x, y) == RepAt(uf, im, x', y')
       <==> Linked(Textbook(im, rows), Id(im.w, x, y), Id(im.w, x', y')))
  }

  ghost function RepAt(uf: UnionFind, im: Image, x: nat, y: nat): nat
    requires |uf.rep| > im.Pixels() && x < im.w && y < im.h
    reads uf
  {
    IdBound(im.w, im.h, x, y);
    uf.rep[Id(im.w, x, y)]
  }

  lemma LabelsComponentsHolds(uf: UnionFind, im: Image, rows: nat)
    requires im.Valid() && 1 <= rows <= im.h && uf.Valid() && uf.maxid == im.Pixels()
    requires uf.pairs == Scan(im, rows, false)
    ensures LabelsComponents(uf, im, rows)
  {
    forall x: nat, y: nat, x': nat, y': nat | Inside(im, rows, x, y) && Inside(im, rows, x', y')
      ensures RepAt(uf, im, x, y) == RepAt(uf, im, x', y')
        <==> Linked(Textbook(im, rows), Id(im.w, x, y), Id(im.w, x', y'))
    {
      IdBound(im.w, im.h, x, y);
      IdBound(im.w, im.h, x', y');
      RepIffLinked(uf.pairs, uf.rep, Id(im.w, x, y), Id(im.w, x', y'));
      ScanIsConnectivity(im, rows, x, y, x', y');
    }
  }

  lemma {:induction false} NoRows(im: Image, n: nat)
    requires im.Valid() && n <= im.h
    ensures RowsBefore(im, {}, n, false) == {}
  {
    if n > 0 {
      NoRows(im, n - 1);
    }
  }

  method ScanSequentially(uf: UnionFind, im: Image)
    requires im.Valid() && uf.Valid() && uf.maxid == im.Pixels() && uf.pairs == {}
    modifies uf, uf.parent, uf.size
    ensures uf.Valid() && uf.pairs == Scan(im, im.h, false)
  {
    FirstLine(uf, im);
    NoRows(im, im.h);
    RunBand(uf, im, 1, im.h, {});
    assert {} + Range(1, im.h) == Range(1, im.h);
  }

  method ScanInBands(uf: UnionFind, im: Image, nthreads: int)
    requires im.Valid() && uf.Valid() && uf.maxid == im.Pixels() && nthreads > 1
    requires uf.pairs == {} && forall i :: 0 <= i <= uf.maxid ==> uf.Memory().parent[i] == UNINIT
    modifies uf, uf.parent, uf.size
    ensures uf.Valid() && 1 <= ScannedRows(im.h, nthreads) <= im.h
    ensures uf.pairs == Scan(im, ScannedRows(im.h, nthreads), false)
  {
    var c := ChunkSize(im.h, nthreads);
    ghost var m := uf.Memory();
    FirstLine(uf, im);
    var tasks := PlanBands(im.h, c);
    AllClosed(m, uf.Memory(), im, c);
    NoRows(im, im.h);
    BandPhase(uf, im, c, tasks);
    Stitch(uf, im, c, tasks);
    RowsDone(im.h, c, nthreads, tasks);
  }

  // Bands and seams together are the scanned rows.
  lemma RowsDone(h: nat, c: nat, nthreads: int, tasks: seq<(nat, nat)>)
    requires h >= 1 && nthreads > 1 && c == ChunkSize(h, nthreads) && Planned(h, c, tasks)
    ensures 1 <= ScannedRows(h, nthreads) <= h
    ensures BandRows(c, h) + Seams(c, |tasks|) == Range(1, ScannedRows(h, nthreads))
  {
    assert |tasks| > 0 ==> TaskAt(h, c, tasks, |tasks| - 1);
    SeamRows(h, c, |tasks|);
  }

  /** Both forms of the scan produce the connected components of the scanned rows; `ScanOnce` scans each of
    those rows exactly once. */
  method ConnectedComponents(im: Image, nthreads: int) returns (uf: UnionFind)
    requires im.Valid()
    ensures fresh(uf) && uf.Valid() && uf.maxid == im.Pixels()
    ensures 1 <= ScannedRows(im.h, nthreads) <= im.h
    ensures uf.pairs == Scan(im, ScannedRows(im.h, nthreads), false)
    ensures LabelsComponents(uf, im, ScannedRows(im.h, nthreads))
  {
    MultipleIsProduct(im.w, im.h);
    uf := new UnionFind(im.w * im.h);
    if nthreads <= 1 {
      ScanSequentially(uf, im);
    } else {
      ScanInBands(uf, im, nthreads);
    }
    LabelsComponentsHolds(uf, im, ScannedRows(im.h, nthreads));
  }
}
