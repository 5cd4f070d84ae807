/** The tasks of gradient_clusters as threads: each runs the pixel loops of do_gradient_clusters over its band, and all
  look up representatives and sizes in one forest at the same time. A task's hash chains are its own; what it records
  here is the points it adds to them, in order. */
module ConcurrentClusters {
  import opened Wrappers
  import opened Numbers
  import opened Accesses
  import opened UnionFinding
  import ConcurrentFind
  import opened PixelScan
  import opened Clusters
  import opened GroupBy
  import opened GradientClusters

  // Where a task is within the body of the pixel loop; k numbers the four uses of DO_CONN.
  datatype Stage =
    | Look                                                     // at the pixel, rep0 to be looked up
    | OwnSize(rep0: nat)                                       // unionfind_get_set_size(uf, rep0)
    | OwnCount(rep0: nat, root: nat)                           // its read of size[root]
    | Facing(rep0: nat, k: nat)                                // at neighbour k, rep1 to be looked up
    | TheirSize(rep0: nat, k: nat, rep1: nat)                  // unionfind_get_set_size(uf, rep1)
    | TheirCount(rep0: nat, k: nat, rep1: nat, root: nat)      // its read of size[root]

  // The variables of the loops; `out` is the points added so far and `last` is connected_last.
  datatype Scan = Scan(x: nat, y: nat, last: bool, stage: Stage, out: seq<Emit>)

  // A task with the access its find is at.
  datatype Task = Task(pc: Pc, scan: Scan, y1: nat)

  datatype World = World(mem: Mem, tasks: seq<Task>)

  // What the loops see of the image: whether a pixel is not 127, whether it and its neighbour k add up to 255, the ids of
  // the two, and the point between them for given representatives.
  datatype View = View(
    w: nat, seen: (nat, nat) -> bool, faces: (nat, nat, nat) -> bool, own: (nat, nat) -> nat, theirs: (nat, nat, nat) -> nat,
    point: (nat, nat, nat, nat, nat) -> Emit)

  const CONNS: nat := 4

  // ---- One step of a task ----

  // The id the next find is for, if there is one before the next stage.
  function AskedId(v: View, s: Scan): Option<nat> {
    match s.stage
    case Look => if s.x + 1 < v.w && v.seen(s.x, s.y) then Some(v.own(s.x, s.y)) else None
    case OwnSize(rep0) => Some(rep0)
    case OwnCount(_, _) => None
    case Facing(_, k) => if !(k == 2 && s.last) && v.faces(s.x, s.y, k) then Some(v.theirs(s.x, s.y, k)) else None
    case TheirSize(_, _, rep1) => Some(rep1)
    case TheirCount(_, _, _, _) => None
  }

  function NextPixel(s: Scan, last: bool): Scan {
    s.(x := s.x + 1, last := last, stage := Look)
  }

  function NextRow(s: Scan): Scan {
    s.(x := 1, y := s.y + 1, last := false, stage := Look)
  }

  function NextConn(s: Scan, rep0: nat, k: nat, connected: bool): Scan {
    if k + 1 < CONNS then s.(stage := Facing(rep0, k + 1)) else NextPixel(s, connected)
  }

  // On from a find.
  function Told(s: Scan, root: nat): Scan {
    match s.stage
    case Look => s.(stage := OwnSize(root))
    case OwnSize(rep0) => s.(stage := OwnCount(rep0, root))
    case Facing(rep0, k) => s.(stage := TheirSize(rep0, k, root))
    case TheirSize(rep0, k, rep1) => s.(stage := TheirCount(rep0, k, rep1, root))
    case _ => s
  }

  // On from a stage without a find; a stage that reads an entry of the size array gets the size of a component.
  function Onwards(v: View, s: Scan, size: nat): Scan {
    match s.stage
    case Look => if s.x + 1 < v.w then NextPixel(s, false) else NextRow(s)
    case OwnCount(rep0, _) => if size < MIN_COMPONENT then NextPixel(s, false) else s.(stage := Facing(rep0, 0))
    case Facing(rep0, k) => NextConn(s, rep0, k, false)
    case TheirCount(rep0, k, rep1, _) =>
      if size >= MIN_COMPONENT then NextConn(s.(out := s.out + [v.point(s.x, s.y, k, rep0, rep1)]), rep0, k, true)
      else NextConn(s, rep0, k, false)
    case _ => s
  }

  // The entry of the size array the stage reads.
  function SizeEntry(s: Scan): Option<nat> {
    match s.stage
    case OwnCount(_, root) => Some(root)
    case TheirCount(_, _, _, root) => Some(root)
    case _ => None
  }

  predicate Finished(t: Task) {
    t.pc.Ready? && t.scan.y >= t.y1
  }

  function Counted(m: Mem, s: Scan): nat {
    if SizeEntry(s).Some? && SizeEntry(s).value < |m.size| then m.size[SizeEntry(s).value] + 1 else 0
  }

  function TaskStep(v: View, m: Mem, t: Task): (Mem, Task) {
    if Finished(t) then (m, t)
    else match t.pc {
      case Ready =>
        if AskedId(v, t.scan).Some? then (m, t.(pc := Enter(AskedId(v, t.scan).value, Alone)))
        else (m, t.(scan := Onwards(v, t.scan, Counted(m, t.scan))))
      case Found(root, _) => (m, t.(pc := Ready, scan := Told(t.scan, root)))
      case _ => var s := Step(State(m, Local(t.pc, []))); (s.mem, t.(pc := s.local.pc))
    }
  }

  function Turn(v: View, w: World, k: nat): World {
    if k < |w.tasks| then
      var (m, t) := TaskStep(v, w.mem, w.tasks[k]);
      World(m, w.tasks[k := t])
    else w
  }

  function Interleave(v: View, w: World, schedule: seq<nat>): World {
    if schedule == [] then w
    else Turn(v, Interleave(v, w, schedule[..|schedule| - 1]), schedule[|schedule| - 1])
  }

  // ---- What a task has done ----

  // The representative of an id and the size of the component of a representative.
  datatype Truth = Truth(rep: nat -> nat, size: nat -> nat)

  // The points of one use of DO_CONN, of the first k of them, of a pixel, of a row and of a band.
  function ConnOut(v: View, t: Truth, x: nat, y: nat, last: bool, k: nat): seq<Emit> {
    if !(k == 2 && last) && v.faces(x, y, k) && t.size(t.rep(v.theirs(x, y, k))) >= MIN_COMPONENT then
      [v.point(x, y, k, t.rep(v.own(x, y)), t.rep(v.theirs(x, y, k)))]
    else []
  }

  function ConnsOut(v: View, t: Truth, x: nat, y: nat, last: bool, k: nat): seq<Emit> {
    if k == 0 then [] else ConnsOut(v, t, x, y, last, k - 1) + ConnOut(v, t, x, y, last, k - 1)
  }

  predicate Big(v: View, t: Truth, x: nat, y: nat) {
    v.seen(x, y) && t.size(t.rep(v.own(x, y))) >= MIN_COMPONENT
  }

  function PixelOut(v: View, t: Truth, x: nat, y: nat, last: bool): seq<Emit> {
    if Big(v, t, x, y) then ConnsOut(v, t, x, y, last, CONNS) else []
  }

  // connected_last after pixel x
  predicate LastOut(v: View, t: Truth, x: nat, y: nat) {
    x >= 1 && Big(v, t, x, y) && ConnOut(v, t, x, y, false, 3) != []
  }

  function RowOut(v: View, t: Truth, y: nat, n: nat): seq<Emit> {
    if n <= 1 then [] else RowOut(v, t, y, n - 1) + PixelOut(v, t, n - 1, y, LastOut(v, t, n - 2, y))
  }

  function LastColumn(v: View): nat {
    if v.w == 0 then 0 else v.w - 1
  }

  function BandOut(v: View, t: Truth, y0: nat, y1: nat): seq<Emit> {
    if y1 <= y0 then [] else BandOut(v, t, y0, y1 - 1) + RowOut(v, t, y1 - 1, LastColumn(v))
  }

  // What has been added before the pixel.
  function Before(v: View, t: Truth, y0: nat, s: Scan): seq<Emit> {
    BandOut(v, t, y0, s.y) + RowOut(v, t, s.y, if s.x < v.w then s.x else LastColumn(v))
  }

  // The task has added the points of what is behind it, and what it knows of representatives is true.
  predicate ScanOk(v: View, t: Truth, y0: nat, y1: nat, s: Scan) {
    && y0 <= s.y <= y1
    && if s.y == y1 then s.out == BandOut(v, t, y0, y1)
       else s.x >= 1 && (s.x + 1 < v.w ==> s.last == LastOut(v, t, s.x - 1, s.y)) && StageOk(v, t, Before(v, t, y0, s), s)
  }

  predicate StageOk(v: View, t: Truth, before: seq<Emit>, s: Scan) {
    match s.stage
    case Look => s.out == before
    case OwnSize(rep0) => LookedUp(v, t, s, rep0) && s.out == before
    case OwnCount(rep0, root) => LookedUp(v, t, s, rep0) && root == t.rep(rep0) && s.out == before
    case Facing(rep0, k) => ConnsDone(v, t, before, s, rep0, k)
    case TheirSize(rep0, k, rep1) => ConnsDone(v, t, before, s, rep0, k) && Faced(v, t, s, k, rep1)
    case TheirCount(rep0, k, rep1, root) => ConnsDone(v, t, before, s, rep0, k) && Faced(v, t, s, k, rep1) && root == t.rep(rep1)
  }

  predicate LookedUp(v: View, t: Truth, s: Scan, rep0: nat) {
    s.x + 1 < v.w && v.seen(s.x, s.y) && rep0 == t.rep(v.own(s.x, s.y))
  }

  predicate ConnsDone(v: View, t: Truth, before: seq<Emit>, s: Scan, rep0: nat, k: nat) {
    && LookedUp(v, t, s, rep0) && Big(v, t, s.x, s.y) && k < CONNS
    && s.out == before + ConnsOut(v, t, s.x, s.y, s.last, k)
  }

  predicate Faced(v: View, t: Truth, s: Scan, k: nat, rep1: nat) {
    !(k == 2 && s.last) && v.faces(s.x, s.y, k) && rep1 == t.rep(v.theirs(s.x, s.y, k))
  }

  // The pixel is done.
  lemma PixelDone(v: View, t: Truth, y0: nat, y1: nat, s: Scan, last: bool)
    requires y0 <= s.y < y1 && 1 <= s.x && s.x + 1 < v.w && s.last == LastOut(v, t, s.x - 1, s.y)
    requires s.out == Before(v, t, y0, s) + PixelOut(v, t, s.x, s.y, s.last) && last == LastOut(v, t, s.x, s.y)
    ensures ScanOk(v, t, y0, y1, NextPixel(s, last))
  {
    var band, row, pixel := BandOut(v, t, y0, s.y), RowOut(v, t, s.y, s.x), PixelOut(v, t, s.x, s.y, s.last);
    assert RowOut(v, t, s.y, s.x + 1) == row + pixel;
    assert band + (row + pixel) == (band + row) + pixel;
  }

  // One use of DO_CONN is done.
  lemma ConnDone(v: View, t: Truth, y0: nat, y1: nat, s: Scan, rep0: nat, k: nat)
    requires y0 <= s.y < y1 && 1 <= s.x && s.last == LastOut(v, t, s.x - 1, s.y)
    requires ConnsDone(v, t, Before(v, t, y0, s), s, rep0, k)
    ensures var conn := ConnOut(v, t, s.x, s.y, s.last, k);
            ScanOk(v, t, y0, y1, NextConn(s.(out := s.out + conn), rep0, k, conn != []))
  {
    var before, conns, conn := Before(v, t, y0, s), ConnsOut(v, t, s.x, s.y, s.last, k), ConnOut(v, t, s.x, s.y, s.last, k);
    var s' := s.(out := s.out + conn);
    assert before + conns + conn == before + (conns + conn);
    assert ConnsOut(v, t, s.x, s.y, s.last, k + 1) == conns + conn;
    assert Before(v, t, y0, s') == before;
    if k + 1 == CONNS {
      PixelDone(v, t, y0, y1, s', conn != []);
    }
  }

  // A step from a stage without a find.
  lemma OnwardsOk(v: View, t: Truth, y0: nat, y1: nat, s: Scan, size: nat)
    requires ScanOk(v, t, y0, y1, s) && s.y < y1 && AskedId(v, s).None?
    requires s.stage.OwnCount? ==> size == t.size(s.stage.root) && s.stage.root == s.stage.rep0
    requires s.stage.TheirCount? ==> size == t.size(s.stage.root) && s.stage.root == s.stage.rep1
    ensures ScanOk(v, t, y0, y1, Onwards(v, s, size))
  {
    assert s.out + [] == s.out;
    assert s.(out := s.out) == s;
    match s.stage
    case Look =>
      if s.x + 1 < v.w {
        PixelDone(v, t, y0, y1, s, false);
      } else {
        RowDone(v, t, y0, y1, s);
      }
    case OwnCount(rep0, _) =>
      if size < MIN_COMPONENT {
        PixelDone(v, t, y0, y1, s, false);
      }
    case Facing(rep0, k) => ConnDone(v, t, y0, y1, s, rep0, k);
    case TheirCount(rep0, k, rep1, _) => ConnDone(v, t, y0, y1, s, rep0, k);
  }

  lemma RowDone(v: View, t: Truth, y0: nat, y1: nat, s: Scan)
    requires ScanOk(v, t, y0, y1, s) && s.y < y1 && s.stage.Look? && s.x + 1 >= v.w
    ensures ScanOk(v, t, y0, y1, NextRow(s))
  {
    assert RowOut(v, t, s.y, 0) == [] && RowOut(v, t, s.y, 1) == [];
    assert s.out == BandOut(v, t, y0, s.y + 1);
    assert s.out + [] == s.out;
  }

  // A find has answered with the representative.
  lemma ToldOk(v: View, t: Truth, y0: nat, y1: nat, s: Scan)
    requires ScanOk(v, t, y0, y1, s) && s.y < y1 && AskedId(v, s).Some?
    ensures ScanOk(v, t, y0, y1, Told(s, t.rep(AskedId(v, s).value)))
  {
  }

  // ---- All tasks on one forest ----

  ghost function TruthOf(rep: seq<nat>): Truth {
    Truth((i: nat) => if i < |rep| then rep[i] else 0, (r: nat) => |Class(rep, r)|)
  }

  // The ids of the pixels before row `rows` and of their neighbours are below n.
  ghost predicate ViewIn(v: View, n: nat, rows: nat) {
    && (forall x: nat, y: nat :: x + 1 < v.w && y < rows ==> v.own(x, y) < n)
    && forall x: nat, y: nat, k: nat :: 1 <= x && x + 1 < v.w && y < rows && k < CONNS ==> v.theirs(x, y, k) < n
  }

  ghost predicate TaskOk(v: View, p: seq<nat>, rep: seq<nat>, y0: nat, t: Task)
    requires |p| == |rep|
  {
    && ScanOk(v, TruthOf(rep), y0, t.y1, t.scan)
    && (t.pc.Ready? ||
          (t.scan.y < t.y1 && AskedId(v, t.scan).Some? && AskedId(v, t.scan).value < |p|
           && ConcurrentFind.PcOk(p, rep, t.pc, AskedId(v, t.scan).value)))
  }

  ghost predicate Inv(v: View, w: World, rep: seq<nat>, h: seq<nat>, starts: seq<nat>) {
    && IsForest(w.mem.parent, rep, h) && SizesMatch(w.mem.size, rep, h) && |starts| == |w.tasks|
    && forall k :: 0 <= k < |starts| ==> ViewIn(v, |rep|, w.tasks[k].y1) && TaskOk(v, w.mem.parent, rep, starts[k], w.tasks[k])
  }

  // A representative represents itself, and its size entry is the size of its component.
  lemma Represents(p: seq<nat>, size: seq<nat>, rep: seq<nat>, h: seq<nat>, i: nat)
    requires IsForest(p, rep, h) && SizesMatch(size, rep, h) && i < |p|
    ensures rep[i] < |p| && rep[rep[i]] == rep[i] && size[rep[i]] + 1 == |Class(rep, rep[i])|
  {
    assert NodeOk(p, rep, h, i);
    assert RootOk(size, rep, h, rep[i]);
  }

  // Whatever a task looks up is an id, and whatever size it reads is that of the component.
  lemma Asked(v: View, m: Mem, rep: seq<nat>, h: seq<nat>, y0: nat, y1: nat, s: Scan)
    requires IsForest(m.parent, rep, h) && SizesMatch(m.size, rep, h) && ViewIn(v, |rep|, y1)
    requires ScanOk(v, TruthOf(rep), y0, y1, s) && s.y < y1
    ensures AskedId(v, s).Some? ==> AskedId(v, s).value < |rep|
    ensures s.stage.OwnCount? ==> s.stage.root == s.stage.rep0 && Counted(m, s) == TruthOf(rep).size(s.stage.root)
    ensures s.stage.TheirCount? ==> s.stage.root == s.stage.rep1 && Counted(m, s) == TruthOf(rep).size(s.stage.root)
  {
    if s.x + 1 < v.w {
      var own := v.own(s.x, s.y);
      assert own < |rep|;
      Represents(m.parent, m.size, rep, h, own);
      if s.stage.Facing? || s.stage.TheirSize? || s.stage.TheirCount? {
        var theirs := v.theirs(s.x, s.y, s.stage.k);
        assert theirs < |rep|;
        Represents(m.parent, m.size, rep, h, theirs);
      }
    }
  }

  lemma StepKeepsTask(v: View, m: Mem, rep: seq<nat>, h: seq<nat>, y0: nat, t: Task)
    requires IsForest(m.parent, rep, h) && SizesMatch(m.size, rep, h) && ViewIn(v, |rep|, t.y1) && TaskOk(v, m.parent, rep, y0, t)
    ensures var (m', t') := TaskStep(v, m, t);
      && IsForest(m'.parent, rep, h) && m'.size == m.size && ConcurrentFind.Compressed(m.parent, m'.parent, rep)
      && TaskOk(v, m'.parent, rep, y0, t') && t'.y1 == t.y1
  {
    if !Finished(t) {
      Asked(v, m, rep, h, y0, t.y1, t.scan);
      if t.pc.Ready? {
        if AskedId(v, t.scan).None? {
          OnwardsOk(v, TruthOf(rep), y0, t.y1, t.scan, Counted(m, t.scan));
        }
      } else if t.pc.Found? {
        ToldOk(v, TruthOf(rep), y0, t.y1, t.scan);
      } else {
        var id := AskedId(v, t.scan).value;
        ConcurrentFind.AccessKeepsForest(m, rep, h, t.pc, id);
        ConcurrentFind.AccessKeepsPc(m, rep, h, t.pc, id);
      }
    }
  }

  lemma TurnKeepsInv(v: View, w: World, rep: seq<nat>, h: seq<nat>, starts: seq<nat>, k: nat)
    requires Inv(v, w, rep, h, starts)
    ensures Inv(v, Turn(v, w, k), rep, h, starts) && Turn(v, w, k).mem.size == w.mem.size
    ensures forall j :: 0 <= j < |w.tasks| ==> Turn(v, w, k).tasks[j].y1 == w.tasks[j].y1
  {
    if k < |w.tasks| {
      StepKeepsTask(v, w.mem, rep, h, starts[k], w.tasks[k]);
      var w' := Turn(v, w, k);
      forall j | 0 <= j < |starts|
        ensures TaskOk(v, w'.mem.parent, rep, starts[j], w'.tasks[j])
      {
        if j != k {
          TaskOkSurvives(v, w.mem.parent, w'.mem.parent, rep, starts[j], w.tasks[j]);
        }
      }
    }
  }

  lemma TaskOkSurvives(v: View, p: seq<nat>, p': seq<nat>, rep: seq<nat>, y0: nat, t: Task)
    requires ConcurrentFind.Compressed(p, p', rep) && TaskOk(v, p, rep, y0, t)
    ensures TaskOk(v, p', rep, y0, t)
  {
    if !t.pc.Ready? {
      ConcurrentFind.PcOkSurvives(p, p', rep, t.pc, AskedId(v, t.scan).value);
    }
  }

  // ---- Whole runs ----

  // A task for each band.
  function Begin(m: Mem, bounds: seq<(nat, nat)>): (w: World)
    ensures w.mem == m && |w.tasks| == |bounds|
    ensures forall k :: 0 <= k < |bounds| ==> w.tasks[k] == BeginTask(bounds[k])
  {
    World(m, seq(|bounds|, k requires 0 <= k < |bounds| => BeginTask(bounds[k])))
  }

  function BeginTask(bound: (nat, nat)): Task {
    Task(Ready, Scan(1, bound.0, false, Look, []), bound.1)
  }

  function Starts(bounds: seq<(nat, nat)>): (starts: seq<nat>)
    ensures |starts| == |bounds| && forall k :: 0 <= k < |bounds| ==> starts[k] == bounds[k].0
  {
    seq(|bounds|, k requires 0 <= k < |bounds| => bounds[k].0)
  }

  // A forest with its sizes, and bands whose pixels and neighbours are in it.
  ghost predicate CanBegin(v: View, m: Mem, rep: seq<nat>, h: seq<nat>, bounds: seq<(nat, nat)>) {
    && IsForest(m.parent, rep, h) && SizesMatch(m.size, rep, h)
    && forall k :: 0 <= k < |bounds| ==> bounds[k].0 <= bounds[k].1 && ViewIn(v, |rep|, bounds[k].1)
  }

  lemma {:induction false} TasksInterleave(v: View, m: Mem, rep: seq<nat>, h: seq<nat>, bounds: seq<(nat, nat)>, schedule: seq<nat>)
    requires CanBegin(v, m, rep, h, bounds)
    ensures var w := Interleave(v, Begin(m, bounds), schedule);
      && Inv(v, w, rep, h, Starts(bounds)) && w.mem.size == m.size && |w.tasks| == |bounds|
      && forall k :: 0 <= k < |bounds| ==> w.tasks[k].y1 == bounds[k].1
  {
    if schedule == [] {
      var w := Begin(m, bounds);
      forall k | 0 <= k < |bounds|
        ensures TaskOk(v, m.parent, rep, bounds[k].0, w.tasks[k])
      {
        BeginOk(v, rep, bounds[k]);
      }
    } else {
      var before, k := schedule[..|schedule| - 1], schedule[|schedule| - 1];
      TasksInterleave(v, m, rep, h, bounds, before);
      TurnKeepsInv(v, Interleave(v, Begin(m, bounds), before), rep, h, Starts(bounds), k);
    }
  }

  lemma BeginOk(v: View, rep: seq<nat>, bound: (nat, nat))
    requires bound.0 <= bound.1
    ensures ScanOk(v, TruthOf(rep), bound.0, bound.1, BeginTask(bound).scan)
  {
    var t := TruthOf(rep);
    assert BandOut(v, t, bound.0, bound.0) == [];
    assert RowOut(v, t, bound.0, 1) == [] && RowOut(v, t, bound.0, 0) == [];
  }

  // ---- Every task ends ----

  const PIXEL: nat := 15

  // The stages left at a pixel.
  function StagesLeft(s: Stage): nat {
    match s
    case Look => 15
    case OwnSize(_) => 14
    case OwnCount(_, _) => 13
    case Facing(_, k) => if k < CONNS then 12 - 3 * k else 0
    case TheirSize(_, k, _) => if k < CONNS then 11 - 3 * k else 0
    case TheirCount(_, k, _, _) => if k < CONNS then 10 - 3 * k else 0
  }

  // The stages left in a row and in a band.
  function RowLeft(w: nat, s: Scan): nat {
    1 + if s.x + 1 < w then Multiple(PIXEL, w - 2 - s.x) + StagesLeft(s.stage) else 0
  }

  function BandLeft(w: nat, s: Scan, y1: nat): nat {
    if s.y >= y1 then 0 else Multiple(1 + Multiple(PIXEL, w), y1 - s.y - 1) + RowLeft(w, s)
  }

  lemma OnwardsLeaves(v: View, t: Truth, y0: nat, y1: nat, s: Scan, size: nat)
    requires ScanOk(v, t, y0, y1, s) && s.y < y1 && AskedId(v, s).None?
    ensures BandLeft(v.w, Onwards(v, s, size), y1) < BandLeft(v.w, s, y1)
  {
    if s.x + 1 < v.w {
      PixelLeaves(v, s, size);
    } else {
      RowFits(v.w);
    }
  }

  lemma PixelLeaves(v: View, s: Scan, size: nat)
    requires s.x + 1 < v.w && AskedId(v, s).None? && StagesLeft(s.stage) > 0
    ensures Onwards(v, s, size).y == s.y && RowLeft(v.w, Onwards(v, s, size)) < RowLeft(v.w, s)
  {
    assert s.x + 2 < v.w ==> Multiple(PIXEL, v.w - 2 - s.x) == Multiple(PIXEL, v.w - 3 - s.x) + PIXEL;
  }

  lemma RowFits(w: nat)
    ensures w >= 3 ==> Multiple(PIXEL, w - 3) + PIXEL <= Multiple(PIXEL, w)
  {
    if w >= 3 {
      MultipleMono(PIXEL, w - 2, w);
    }
  }

  lemma ToldLeaves(v: View, t: Truth, y0: nat, y1: nat, s: Scan, root: nat)
    requires ScanOk(v, t, y0, y1, s) && s.y < y1 && AskedId(v, s).Some?
    ensures BandLeft(v.w, Told(s, root), y1) < BandLeft(v.w, s, y1)
  {
  }

  // No find takes more steps than this.
  ghost predicate Enough(rep: seq<nat>, h: seq<nat>, cost: nat)
    requires |rep| == |h|
  {
    forall i: nat :: i < |rep| ==> 5 * Climb(rep, h, i) + 5 <= cost
  }

  lemma {:induction false} SomeCost(rep: seq<nat>, h: seq<nat>, n: nat) returns (cost: nat)
    requires n <= |rep| == |h|
    ensures forall i: nat :: i < n ==> 5 * Climb(rep, h, i) + 5 <= cost
  {
    if n == 0 {
      cost := 0;
    } else {
      var before := SomeCost(rep, h, n - 1);
      var here := 5 * Climb(rep, h, n - 1) + 5;
      cost := if here <= before then before else here;
    }
  }

  // The steps a task has left at most.
  ghost function Left(v: View, rep: seq<nat>, h: seq<nat>, cost: nat, t: Task): int
    requires |rep| == |h|
  {
    var left := BandLeft(v.w, t.scan, t.y1);
    if t.pc.Ready? then Multiple(cost, left)
    else if left == 0 then 0
    else Multiple(cost, left - 1) + 1 + ConcurrentFind.Rank(rep, h, t.pc)
  }

  lemma StepUsesTurn(v: View, m: Mem, rep: seq<nat>, h: seq<nat>, cost: nat, y0: nat, t: Task)
    requires IsForest(m.parent, rep, h) && SizesMatch(m.size, rep, h) && ViewIn(v, |rep|, t.y1) && TaskOk(v, m.parent, rep, y0, t)
    requires Enough(rep, h, cost) && cost > 0
    ensures Finished(t) ==> TaskStep(v, m, t).1 == t
    ensures !Finished(t) ==> 0 <= Left(v, rep, h, cost, TaskStep(v, m, t).1) < Left(v, rep, h, cost, t)
  {
    if !Finished(t) {
      Asked(v, m, rep, h, y0, t.y1, t.scan);
      if t.pc.Ready? && AskedId(v, t.scan).Some? {
        FindCosts(v, m, rep, h, cost, t);
      } else if t.pc.Ready? || t.pc.Found? {
        StageLeaves(v, m, TruthOf(rep), y0, t);
        StageUsesTurn(v, rep, h, cost, t, TaskStep(v, m, t).1);
      } else {
        AccessUsesTurn(v, m, rep, h, cost, t, AskedId(v, t.scan).value);
      }
    }
  }

  // A find makes its next access.
  lemma AccessUsesTurn(v: View, m: Mem, rep: seq<nat>, h: seq<nat>, cost: nat, t: Task, id: nat)
    requires IsForest(m.parent, rep, h) && SizesMatch(m.size, rep, h) && id < |m.parent|
    requires t.scan.y < t.y1 && !t.pc.Ready? && !t.pc.Found? && ConcurrentFind.PcOk(m.parent, rep, t.pc, id)
    ensures 0 <= Left(v, rep, h, cost, TaskStep(v, m, t).1) < Left(v, rep, h, cost, t)
  {
    ConcurrentFind.AccessKeepsForest(m, rep, h, t.pc, id);
    ConcurrentFind.AccessLowersRank(m, rep, h, t.pc, id);
    ConcurrentFind.AccessKeepsPc(m, rep, h, t.pc, id);
  }

  // A find has been asked for.
  lemma FindCosts(v: View, m: Mem, rep: seq<nat>, h: seq<nat>, cost: nat, t: Task)
    requires IsForest(m.parent, rep, h) && Enough(rep, h, cost) && t.scan.y < t.y1 && t.pc.Ready?
    requires AskedId(v, t.scan).Some? && AskedId(v, t.scan).value < |rep|
    ensures 0 <= Left(v, rep, h, cost, TaskStep(v, m, t).1) < Left(v, rep, h, cost, t)
  {
    assert NodeOk(m.parent, rep, h, AskedId(v, t.scan).value);
    var left := BandLeft(v.w, t.scan, t.y1);
    assert Multiple(cost, left) == Multiple(cost, left - 1) + cost;
  }

  // The task goes on to another stage.
  lemma StageLeaves(v: View, m: Mem, truth: Truth, y0: nat, t: Task)
    requires ScanOk(v, truth, y0, t.y1, t.scan) && t.scan.y < t.y1
    requires if AskedId(v, t.scan).None? then t.pc.Ready? else t.pc.Found?
    ensures TaskStep(v, m, t).1.pc.Ready? && TaskStep(v, m, t).1.y1 == t.y1
    ensures BandLeft(v.w, TaskStep(v, m, t).1.scan, t.y1) < BandLeft(v.w, t.scan, t.y1)
  {
    if t.pc.Ready? {
      OnwardsLeaves(v, truth, y0, t.y1, t.scan, Counted(m, t.scan));
    } else {
      ToldLeaves(v, truth, y0, t.y1, t.scan, t.pc.root);
    }
  }

  lemma StageUsesTurn(v: View, rep: seq<nat>, h: seq<nat>, cost: nat, t: Task, t': Task)
    requires |rep| == |h| && cost > 0 && t'.pc.Ready? && (t.pc.Ready? || t.pc.Found?) && t'.y1 == t.y1
    requires BandLeft(v.w, t'.scan, t.y1) < BandLeft(v.w, t.scan, t.y1)
    ensures 0 <= Left(v, rep, h, cost, t') < Left(v, rep, h, cost, t)
  {
    var left := BandLeft(v.w, t.scan, t.y1);
    MultipleMono(cost, BandLeft(v.w, t'.scan, t.y1), left - 1);
    assert Multiple(cost, left) == Multiple(cost, left - 1) + cost;
  }

  lemma {:induction false} TurnsUse(v: View, m: Mem, rep: seq<nat>, h: seq<nat>, cost: nat, bounds: seq<(nat, nat)>,
                                    schedule: seq<nat>, k: nat)
    requires CanBegin(v, m, rep, h, bounds) && Enough(rep, h, cost) && cost > 0 && k < |bounds|
    ensures var w := Interleave(v, Begin(m, bounds), schedule);
      |w.tasks| == |bounds|
      && (Finished(w.tasks[k])
          || Left(v, rep, h, cost, w.tasks[k]) <= Left(v, rep, h, cost, BeginTask(bounds[k])) - Turns(schedule, k))
  {
    TasksInterleave(v, m, rep, h, bounds, schedule);
    if schedule != [] {
      var before, j := schedule[..|schedule| - 1], schedule[|schedule| - 1];
      TurnsUse(v, m, rep, h, cost, bounds, before, k);
      TasksInterleave(v, m, rep, h, bounds, before);
      var w := Interleave(v, Begin(m, bounds), before);
      if j == k {
        StepUsesTurn(v, w.mem, rep, h, cost, Starts(bounds)[k], w.tasks[k]);
      }
    }
  }

  // A task that has had so many turns has finished.
  lemma EnoughTurns(v: View, m: Mem, rep: seq<nat>, h: seq<nat>, cost: nat, bounds: seq<(nat, nat)>, schedule: seq<nat>, k: nat)
    requires CanBegin(v, m, rep, h, bounds) && Enough(rep, h, cost) && cost > 0 && k < |bounds|
    requires Turns(schedule, k) >= Left(v, rep, h, cost, BeginTask(bounds[k]))
    ensures var w := Interleave(v, Begin(m, bounds), schedule);
      && |w.tasks| == |bounds| && Finished(w.tasks[k]) && w.mem.size == m.size && IsForest(w.mem.parent, rep, h)
      && w.tasks[k].scan.out == BandOut(v, TruthOf(rep), bounds[k].0, bounds[k].1)
  {
    TasksInterleave(v, m, rep, h, bounds, schedule);
    TurnsUse(v, m, rep, h, cost, bounds, schedule, k);
    var w := Interleave(v, Begin(m, bounds), schedule);
    assert TaskOk(v, w.mem.parent, rep, Starts(bounds)[k], w.tasks[k]);
    if !Finished(w.tasks[k]) {
      StepUsesTurn(v, w.mem, rep, h, cost, Starts(bounds)[k], w.tasks[k]);
      assert false;
    }
  }

  // ---- The image ----

  function Dx(k: nat): int {
    if k == 0 || k == 3 then 1 else if k == 1 then 0 else -1
  }

  function Dy(k: nat): nat {
    if k == 0 then 0 else 1
  }

  // A pixel the loops come to.
  ghost predicate Scanned(im: Image, x: nat, y: nat) {
    im.Valid() && 1 <= x < im.w - 1 && y + 1 < im.h
  }

  ghost predicate Opposite(im: Image, x: nat, y: nat, k: nat) {
    Scanned(im, x, y) && k < CONNS && im.At(x, y) + im.At(x + Dx(k), y + Dy(k)) == 255
  }

  ghost function PointOf(im: Image, x: nat, y: nat, k: nat, rep0: nat, rep1: nat): Emit {
    if !Scanned(im, x, y) || k >= CONNS then Emit(0, Pt(0, 0, 0, 0))
    else
      var v0: int, v1: int := im.At(x, y), im.At(x + Dx(k), y + Dy(k));
      Emit(ClusterId(rep0, rep1), Pt(2 * x + Dx(k), 2 * y + Dy(k), Dx(k) * (v1 - v0), Dy(k) * (v1 - v0)))
  }

  function TheirId(im: Image, x: nat, y: nat, k: nat): nat {
    if x + Dx(k) < 0 then 0 else Id(im.w, x + Dx(k), y + Dy(k))
  }

  ghost function ViewOf(im: Image): View {
    View(im.w,
      (x: nat, y: nat) => Scanned(im, x, y) && im.At(x, y) != 127,
      (x: nat, y: nat, k: nat) => Opposite(im, x, y, k),
      (x: nat, y: nat) => Id(im.w, x, y),
      (x: nat, y: nat, k: nat) => TheirId(im, x, y, k),
      (x: nat, y: nat, k: nat, rep0: nat, rep1: nat) => PointOf(im, x, y, k, rep0, rep1))
  }

  lemma ConnIs(im: Image, rep: seq<nat>, x: nat, y: nat, last: bool, k: nat)
    requires CanEmit(im, rep) && 1 <= x < im.w - 1 && y + 1 < im.h && k < CONNS
    ensures ConnOut(ViewOf(im), TruthOf(rep), x, y, last, k)
      == if k == 2 && last then [] else Conn(im, rep, x, y, Dx(k), Dy(k))
  {
    IdBound(im.w, im.h, x, y);
    IdBound(im.w, im.h, x + Dx(k), y + Dy(k));
  }

  lemma BigIs(im: Image, rep: seq<nat>, x: nat, y: nat)
    requires CanEmit(im, rep) && 1 <= x < im.w - 1 && y + 1 < im.h
    ensures Big(ViewOf(im), TruthOf(rep), x, y) <==> Active(im, rep, x, y)
  {
    IdBound(im.w, im.h, x, y);
  }

  lemma PixelIs(im: Image, rep: seq<nat>, x: nat, y: nat, last: bool)
    requires CanEmit(im, rep) && 1 <= x < im.w - 1 && y + 1 < im.h
    ensures PixelOut(ViewOf(im), TruthOf(rep), x, y, last) == PixelEmits(im, rep, x, y, last)
  {
    var v, t := ViewOf(im), TruthOf(rep);
    BigIs(im, rep, x, y);
    FourConns(v, t, x, y, last);
    ConnIs(im, rep, x, y, last, 0);
    ConnIs(im, rep, x, y, last, 1);
    ConnIs(im, rep, x, y, last, 2);
    ConnIs(im, rep, x, y, last, 3);
  }

  lemma FourConns(v: View, t: Truth, x: nat, y: nat, last: bool)
    ensures ConnsOut(v, t, x, y, last, CONNS)
      == (ConnOut(v, t, x, y, last, 0) + ConnOut(v, t, x, y, last, 1)) + (ConnOut(v, t, x, y, last, 2) + ConnOut(v, t, x, y, last, 3))
  {
    var a, b := ConnOut(v, t, x, y, last, 0), ConnOut(v, t, x, y, last, 1);
    assert ConnsOut(v, t, x, y, last, 1) == [] + a == a;
    assert ConnsOut(v, t, x, y, last, 2) == a + b;
    assert ConnsOut(v, t, x, y, last, 3) == a + b + ConnOut(v, t, x, y, last, 2);
  }

  lemma LastIs(im: Image, rep: seq<nat>, x: nat, y: nat)
    requires CanEmit(im, rep) && x < im.w - 1 && y + 1 < im.h
    ensures LastOut(ViewOf(im), TruthOf(rep), x, y) <==> ConnectedLast(im, rep, x, y)
  {
    if x >= 1 {
      BigIs(im, rep, x, y);
      ConnIs(im, rep, x, y, false, 3);
    }
  }

  // At a pixel the view shows what the loops emit and remember there.
  ghost predicate PixelAgrees(im: Image, rep: seq<nat>, v: View, t: Truth, x: nat, y: nat)
    requires CanEmit(im, rep)
  {
    x < im.w - 1 && y + 1 < im.h ==>
      && (LastOut(v, t, x, y) <==> ConnectedLast(im, rep, x, y))
      && (x >= 1 ==> forall last :: PixelOut(v, t, x, y, last) == PixelEmits(im, rep, x, y, last))
  }

  ghost predicate Agrees(im: Image, rep: seq<nat>, v: View, t: Truth) {
    && CanEmit(im, rep) && v.w == im.w
    && forall x: nat, y: nat :: PixelAgrees(im, rep, v, t, x, y)
  }

  lemma ViewAgrees(im: Image, rep: seq<nat>)
    requires CanEmit(im, rep)
    ensures Agrees(im, rep, ViewOf(im), TruthOf(rep))
  {
    forall x: nat, y: nat
      ensures PixelAgrees(im, rep, ViewOf(im), TruthOf(rep), x, y)
    {
      if x < im.w - 1 && y + 1 < im.h {
        LastIs(im, rep, x, y);
        if x >= 1 {
          PixelIs(im, rep, x, y, false);
          PixelIs(im, rep, x, y, true);
        }
      }
    }
  }

  lemma {:induction false} RowIs(im: Image, rep: seq<nat>, v: View, t: Truth, y: nat, n: nat)
    requires Agrees(im, rep, v, t) && n < im.w && y + 1 < im.h
    ensures RowOut(v, t, y, n) == RowEmits(im, rep, y, n)
  {
    if n > 1 {
      RowIs(im, rep, v, t, y, n - 1);
      assert PixelAgrees(im, rep, v, t, n - 2, y) && PixelAgrees(im, rep, v, t, n - 1, y);
    }
  }

  lemma OutUnfold(v: View, t: Truth, y0: nat, y: nat, y1: nat)
    requires y0 <= y && y1 == y + 1
    ensures BandOut(v, t, y0, y1) == BandOut(v, t, y0, y) + RowOut(v, t, y, LastColumn(v))
  {
    assert BandOut(v, t, y0, y + 1) == BandOut(v, t, y0, y) + RowOut(v, t, y, LastColumn(v));
  }

  lemma OneMoreRow(im: Image, rep: seq<nat>, v: View, t: Truth, y0: nat, y: nat, y1: nat)
    requires Agrees(im, rep, v, t) && y0 <= y && y1 == y + 1 < im.h
    requires BandOut(v, t, y0, y) == BandEmits(im, rep, y0, y)
    ensures BandOut(v, t, y0, y1) == BandEmits(im, rep, y0, y1)
  {
    LastRowIs(im, rep, v, t, y);
    OutUnfold(v, t, y0, y, y1);
    BandFold(im, rep, y0, y, y1, BandOut(v, t, y0, y1), BandOut(v, t, y0, y), RowOut(v, t, y, LastColumn(v)));
  }

  lemma LastRowIs(im: Image, rep: seq<nat>, v: View, t: Truth, y: nat)
    requires Agrees(im, rep, v, t) && y + 1 < im.h
    ensures RowOut(v, t, y, LastColumn(v)) == RowEmits(im, rep, y, im.w - 1)
  {
    var n := im.w - 1;
    assert LastColumn(v) == n;
    RowIs(im, rep, v, t, y, n);
  }

  // On the image the tasks add what the sequential loops add.
  lemma {:induction false} BandIs(im: Image, rep: seq<nat>, v: View, t: Truth, y0: nat, y1: nat)
    requires Agrees(im, rep, v, t) && y0 <= y1 < im.h
    ensures BandOut(v, t, y0, y1) == BandEmits(im, rep, y0, y1)
    decreases y1 - y0
  {
    if y0 < y1 {
      var y := y1 - 1;
      BandIs(im, rep, v, t, y0, y);
      OneMoreRow(im, rep, v, t, y0, y, y1);
    }
  }

  lemma ViewInImage(im: Image, rep: seq<nat>, rows: nat)
    requires CanEmit(im, rep) && rows < im.h
    ensures ViewIn(ViewOf(im), |rep|, rows)
  {
    var v := ViewOf(im);
    forall x: nat, y: nat | x + 1 < v.w && y < rows
      ensures v.own(x, y) < |rep|
    {
      IdBound(im.w, im.h, x, y);
    }
    forall x: nat, y: nat, k: nat | 1 <= x && x + 1 < v.w && y < rows && k < CONNS
      ensures v.theirs(x, y, k) < |rep|
    {
      IdBound(im.w, im.h, x + Dx(k), y + Dy(k));
    }
  }

  // ---- The clustering, whatever the schedule ----

  ghost function Outs(w: World): seq<seq<Emit>> {
    seq(|w.tasks|, k requires 0 <= k < |w.tasks| => w.tasks[k].scan.out)
  }

  // The arrays and the partition of the image's forest.
  ghost predicate Shares(im: Image, m: Mem, rep: seq<nat>, h: seq<nat>) {
    CanEmit(im, rep) && IsForest(m.parent, rep, h) && SizesMatch(m.size, rep, h)
  }

  // All tasks have finished, each with the points of its band, and the forest still stands for the same partition.
  ghost predicate AllClustered(im: Image, rep: seq<nat>, h: seq<nat>, m: Mem, bounds: seq<(nat, nat)>, w: World)
    requires CanEmit(im, rep) && forall t :: 0 <= t < |bounds| ==> bounds[t].0 <= bounds[t].1 < im.h
  {
    && (forall k :: 0 <= k < |w.tasks| ==> Finished(w.tasks[k]))
    && Outs(w) == Parts(im, rep, bounds) && IsForest(w.mem.parent, rep, h) && w.mem.size == m.size
  }

  /** The tasks of gradient_clusters may make their accesses to the forest in any order: given enough turns all of them
    finish, and each has then added exactly the points of its band, in their order. */
  lemma AnyScheduleClusters(im: Image, m: Mem, rep: seq<nat>, h: seq<nat>, bounds: seq<(nat, nat)>) returns (turns: nat)
    requires Shares(im, m, rep, h) && 3 <= im.h && Consecutive(bounds, im.h - 1)
    ensures forall schedule: seq<nat> :: Fair(schedule, |bounds|, turns) ==>
      AllClustered(im, rep, h, m, bounds, Interleave(ViewOf(im), Begin(m, bounds), schedule))
  {
    var v := ViewOf(im);
    var cost := SomeCost(rep, h, |rep|);
    cost := cost + 1;
    assert Enough(rep, h, cost);
    forall k | 0 <= k < |bounds|
      ensures bounds[k].0 <= bounds[k].1 && ViewIn(v, |rep|, bounds[k].1)
    {
      ViewInImage(im, rep, bounds[k].1);
    }
    ViewAgrees(im, rep);
    turns := TurnsNeeded(v, rep, h, cost, bounds, |bounds|);
    forall schedule: seq<nat> | Fair(schedule, |bounds|, turns)
      ensures AllClustered(im, rep, h, m, bounds, Interleave(v, Begin(m, bounds), schedule))
    {
      TasksInterleave(v, m, rep, h, bounds, schedule);
      forall k: nat | k < |bounds|
        ensures var w := Interleave(v, Begin(m, bounds), schedule);
          Finished(w.tasks[k]) && w.tasks[k].scan.out == BandEmits(im, rep, bounds[k].0, bounds[k].1)
      {
        EnoughTurns(v, m, rep, h, cost, bounds, schedule, k);
        BandIs(im, rep, v, TruthOf(rep), bounds[k].0, bounds[k].1);
      }
    }
  }

  lemma {:induction false} TurnsNeeded(v: View, rep: seq<nat>, h: seq<nat>, cost: nat, bounds: seq<(nat, nat)>, n: nat)
    returns (turns: nat)
    requires |rep| == |h| && n <= |bounds|
    ensures forall k :: 0 <= k < n ==> Left(v, rep, h, cost, BeginTask(bounds[k])) <= turns
  {
    if n == 0 {
      turns := 0;
    } else {
      var before := TurnsNeeded(v, rep, h, cost, bounds, n - 1);
      var here := Left(v, rep, h, cost, BeginTask(bounds[n - 1]));
      turns := if here <= before then before else here;
    }
  }

  /** Hence the lists that the tasks' hash chains become, and the list their tournament leaves, are the same for every
    schedule: those of one pass over all rows. */
  lemma AnyScheduleGroups(im: Image, m: Mem, rep: seq<nat>, h: seq<nat>, bounds: seq<(nat, nat)>, w: World, n: nat,
                          list: seq<Cluster>, whole: seq<Cluster>)
    requires Shares(im, m, rep, h) && 3 <= im.h && Consecutive(bounds, im.h - 1) && AllClustered(im, rep, h, m, bounds, w)
    requires Groups(list, Flatten(Outs(w)), n) && Groups(whole, BandEmits(im, rep, 1, im.h - 1), n)
    ensures list == whole
  {
    PartsJoin(im, rep, bounds, im.h - 1);
    GroupsUnique(list, whole, BandEmits(im, rep, 1, im.h - 1), n);
  }
}
