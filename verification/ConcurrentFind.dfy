/** Threads that look up representatives in one forest at the same time, as the tasks of gradient_clusters do: each find
  compresses paths while the others follow them. */
module ConcurrentFind {
  import opened Accesses
  import opened UnionFinding

  // A thread with a list of ids to look up; the answers it has so far belong to the first ids.
  datatype Finder = Finder(pc: Pc, ids: seq<nat>, answers: seq<nat>)

  datatype World = World(mem: Mem, finders: seq<Finder>)

  // Between two finds the thread goes on to the next id; inside one it makes the next access.
  function FinderStep(m: Mem, f: Finder): (Mem, Finder) {
    match f.pc
    case Ready => (m, if |f.answers| < |f.ids| then f.(pc := Enter(f.ids[|f.answers|], Alone)) else f)
    case Found(root, _) => (m, f.(pc := Ready, answers := f.answers + [root]))
    case _ => var s := Step(State(m, Local(f.pc, []))); (s.mem, f.(pc := s.local.pc))
  }

  function Turn(w: World, k: nat): World {
    if k < |w.finders| then
      var (m, f) := FinderStep(w.mem, w.finders[k]);
      World(m, w.finders[k := f])
    else w
  }

  // A schedule names the thread that makes each step.
  function Interleave(w: World, schedule: seq<nat>): World {
    if schedule == [] then w
    else Turn(Interleave(w, schedule[..|schedule| - 1]), schedule[|schedule| - 1])
  }

  // ---- What holds in between ----

  // An initialised id of the class of `id`.
  ghost predicate InClass(p: seq<nat>, rep: seq<nat>, id: nat, i: nat)
    requires |p| == |rep| && id < |p|
  {
    i < |p| && p[i] != UNINIT && rep[i] == rep[id]
  }

  // The root of the class has been reached.
  ghost predicate AtRoot(p: seq<nat>, rep: seq<nat>, id: nat, root: nat)
    requires |p| == |rep| && id < |p|
  {
    InClass(p, rep, id, root) && root == rep[id] == p[root]
  }

  // What the thread that looks up id knows; the links it has read may have changed since.
  ghost predicate PcOk(p: seq<nat>, rep: seq<nat>, pc: Pc, id: nat)
    requires |p| == |rep| && id < |p|
  {
    match pc
    case Enter(i, use) => use.Alone? && i == id
    case Init(i, use) => use.Alone? && i == id && rep[id] == id
    case Test(i, root, use) => use.Alone? && i == id && InClass(p, rep, id, id) && InClass(p, rep, id, root)
    case Hop(i, root, use) => use.Alone? && i == id && InClass(p, rep, id, id) && InClass(p, rep, id, root) && root != rep[id]
    case Check(i, root, use) => use.Alone? && InClass(p, rep, id, i) && AtRoot(p, rep, id, root)
    case Save(i, root, use) => use.Alone? && InClass(p, rep, id, i) && AtRoot(p, rep, id, root) && i != root
    case Point(i, root, tmp, use) =>
      use.Alone? && InClass(p, rep, id, i) && InClass(p, rep, id, tmp) && AtRoot(p, rep, id, root) && i != root
    case Found(root, use) => use.Alone? && root == rep[id]
    case _ => false
  }

  ghost predicate FinderOk(p: seq<nat>, rep: seq<nat>, f: Finder)
    requires |p| == |rep|
  {
    && |f.answers| <= |f.ids|
    && (forall i :: 0 <= i < |f.ids| ==> f.ids[i] < |p|)
    && (forall i :: 0 <= i < |f.answers| ==> f.answers[i] == rep[f.ids[i]])
    && (f.pc.Ready? || (|f.answers| < |f.ids| && PcOk(p, rep, f.pc, f.ids[|f.answers|])))
  }

  ghost predicate Inv(w: World, rep: seq<nat>, h: seq<nat>) {
    && IsForest(w.mem.parent, rep, h) && |w.mem.size| == |w.mem.parent|
    && forall k :: 0 <= k < |w.finders| ==> FinderOk(w.mem.parent, rep, w.finders[k])
  }

  // A later state of the parent array: ids are initialised or redirected to the root of their class.
  ghost predicate Compressed(p: seq<nat>, p': seq<nat>, rep: seq<nat>) {
    |p| == |p'| == |rep| && forall i: nat :: i < |p| ==> Kept(p, p', rep, i)
  }

  ghost predicate Kept(p: seq<nat>, p': seq<nat>, rep: seq<nat>, i: nat)
    requires |p| == |p'| == |rep| && i < |p|
  {
    p'[i] == p[i] || p'[i] == rep[i] != UNINIT
  }

  // What a thread knows survives the writes of the others.
  lemma PcOkSurvives(p: seq<nat>, p': seq<nat>, rep: seq<nat>, pc: Pc, id: nat)
    requires Compressed(p, p', rep) && id < |p| && PcOk(p, rep, pc, id)
    ensures PcOk(p', rep, pc, id)
  {
    forall i: nat | InClass(p, rep, id, i)
      ensures InClass(p', rep, id, i)
    {
      assert Kept(p, p', rep, i);
    }
    if rep[id] < |p| {
      assert Kept(p, p', rep, rep[id]);
    }
  }

  lemma FinderOkSurvives(p: seq<nat>, p': seq<nat>, rep: seq<nat>, f: Finder)
    requires Compressed(p, p', rep) && FinderOk(p, rep, f)
    ensures FinderOk(p', rep, f)
  {
    if !f.pc.Ready? {
      PcOkSurvives(p, p', rep, f.pc, f.ids[|f.answers|]);
    }
  }

  // ---- One access ----

  lemma AccessKeepsForest(m: Mem, rep: seq<nat>, h: seq<nat>, pc: Pc, id: nat)
    requires IsForest(m.parent, rep, h) && |m.size| == |m.parent| && id < |m.parent| && PcOk(m.parent, rep, pc, id)
    ensures InRange(m, Local(pc, [])) && After(m, pc).size == m.size
    ensures IsForest(After(m, pc).parent, rep, h) && Compressed(m.parent, After(m, pc).parent, rep)
  {
    var p := m.parent;
    assert NodeOk(p, rep, h, id);
    match pc
    case Init(_, _) =>
      if p[id] == UNINIT {
        TouchKeepsForest(p, rep, h, id);
      } else {
        assert p[id := id] == p;
      }
    case Point(i, root, _, _) =>
      assert NodeOk(p, rep, h, i);
      CompressKeepsForest(p, rep, h, i);
    case _ =>
  }

  lemma AccessKeepsPc(m: Mem, rep: seq<nat>, h: seq<nat>, pc: Pc, id: nat)
    requires IsForest(m.parent, rep, h) && |m.size| == |m.parent| && id < |m.parent| && PcOk(m.parent, rep, pc, id)
    requires !pc.Found? && InRange(m, Local(pc, [])) && Compressed(m.parent, After(m, pc).parent, rep)
    ensures PcOk(After(m, pc).parent, rep, Next(m, Local(pc, [])), id)
  {
    var p := m.parent;
    assert NodeOk(p, rep, h, id);
    match pc
    case Enter(_, _) =>
    case Init(_, _) =>
    case Test(_, root, _) => assert NodeOk(p, rep, h, root);
    case Hop(_, root, _) => assert NodeOk(p, rep, h, root);
    case Check(i, _, _) =>
    case Save(i, _, _) => assert NodeOk(p, rep, h, i);
    case Point(i, root, tmp, use) => PcOkSurvives(p, After(m, pc).parent, rep, Check(tmp, root, use), id);
    case _ =>
  }

  lemma StepKeepsFinder(m: Mem, rep: seq<nat>, h: seq<nat>, f: Finder)
    requires IsForest(m.parent, rep, h) && |m.size| == |m.parent| && FinderOk(m.parent, rep, f)
    ensures var (m', f') := FinderStep(m, f);
      && IsForest(m'.parent, rep, h) && m'.size == m.size && Compressed(m.parent, m'.parent, rep)
      && FinderOk(m'.parent, rep, f') && f'.ids == f.ids
  {
    if !f.pc.Ready? && !f.pc.Found? {
      var id := f.ids[|f.answers|];
      AccessKeepsForest(m, rep, h, f.pc, id);
      AccessKeepsPc(m, rep, h, f.pc, id);
    }
  }

  lemma TurnKeepsInv(w: World, rep: seq<nat>, h: seq<nat>, k: nat)
    requires Inv(w, rep, h)
    ensures Inv(Turn(w, k), rep, h) && Turn(w, k).mem.size == w.mem.size
  {
    if k < |w.finders| {
      StepKeepsFinder(w.mem, rep, h, w.finders[k]);
      var w' := Turn(w, k);
      forall j | 0 <= j < |w'.finders|
        ensures FinderOk(w'.mem.parent, rep, w'.finders[j])
      {
        if j != k {
          FinderOkSurvives(w.mem.parent, w'.mem.parent, rep, w.finders[j]);
        }
      }
    }
  }

  // ---- Whole runs ----

  function Begin(m: Mem, jobs: seq<seq<nat>>): (w: World)
    ensures w.mem == m && |w.finders| == |jobs|
    ensures forall k :: 0 <= k < |jobs| ==> w.finders[k] == Finder(Ready, jobs[k], [])
  {
    World(m, seq(|jobs|, k requires 0 <= k < |jobs| => Finder(Ready, jobs[k], [])))
  }

  ghost predicate IdsInRange(jobs: seq<seq<nat>>, n: nat) {
    forall k :: 0 <= k < |jobs| ==> forall i :: 0 <= i < |jobs[k]| ==> jobs[k][i] < n
  }

  /** Whatever the number of threads, their lists of ids and the schedule: at every moment the parent array is a forest of
    the same partition, no size has changed, and every answer given so far is the representative of the id it is for. */
  lemma {:induction false} FindsInterleave(m: Mem, rep: seq<nat>, h: seq<nat>, jobs: seq<seq<nat>>, schedule: seq<nat>)
    requires IsForest(m.parent, rep, h) && |m.size| == |m.parent| && IdsInRange(jobs, |m.parent|)
    ensures var w := Interleave(Begin(m, jobs), schedule);
      && Inv(w, rep, h) && w.mem.size == m.size && |w.finders| == |jobs|
      && forall k :: 0 <= k < |jobs| ==> w.finders[k].ids == jobs[k]
  {
    if schedule != [] {
      var before, k := schedule[..|schedule| - 1], schedule[|schedule| - 1];
      FindsInterleave(m, rep, h, jobs, before);
      var w := Interleave(Begin(m, jobs), before);
      TurnKeepsInv(w, rep, h, k);
      if k < |w.finders| {
        StepKeepsFinder(w.mem, rep, h, w.finders[k]);
      }
    }
  }

  // ---- Finds end however the others move ----

  // The steps a find has left at most.
  ghost function Rank(rep: seq<nat>, h: seq<nat>, pc: Pc): int
    requires |rep| == |h|
  {
    match pc
    case Enter(id, _) => if id < |rep| then 3 + 5 * Climb(rep, h, id) else 0
    case Init(id, _) => 1
    case Test(id, root, _) => if id < |rep| && root < |rep| then 2 + 2 * Climb(rep, h, root) + 3 * Climb(rep, h, id) else 0
    case Hop(id, root, _) => if id < |rep| && root < |rep| then 1 + 2 * Climb(rep, h, root) + 3 * Climb(rep, h, id) else 0
    case Check(id, _, _) => if id < |rep| then 1 + 3 * Climb(rep, h, id) else 0
    case Save(id, _, _) => if id < |rep| then 3 * Climb(rep, h, id) else 0
    case Point(_, _, tmp, _) => if tmp < |rep| then 2 + 3 * Climb(rep, h, tmp) else 0
    case _ => 0
  }

  lemma AccessLowersRank(m: Mem, rep: seq<nat>, h: seq<nat>, pc: Pc, id: nat)
    requires IsForest(m.parent, rep, h) && |m.size| == |m.parent| && id < |m.parent| && PcOk(m.parent, rep, pc, id)
    requires !pc.Found? && InRange(m, Local(pc, []))
    ensures 0 <= Rank(rep, h, Next(m, Local(pc, []))) < Rank(rep, h, pc)
  {
    var p := m.parent;
    assert NodeOk(p, rep, h, id);
    match pc
    case Enter(_, _) => if p[id] < |p| { assert NodeOk(p, rep, h, p[id]); }
    case Init(_, _) =>
    case Test(_, root, _) => assert NodeOk(p, rep, h, root);
    case Hop(_, root, _) => assert NodeOk(p, rep, h, root) && NodeOk(p, rep, h, p[root]);
    case Check(i, _, _) => assert NodeOk(p, rep, h, i);
    case Save(i, _, _) => assert NodeOk(p, rep, h, i) && NodeOk(p, rep, h, p[i]);
    case Point(_, _, tmp, _) => assert NodeOk(p, rep, h, tmp);
    case _ =>
  }

  // Five steps for a find at its root, and five more for every level below it.
  ghost function Budget(rep: seq<nat>, h: seq<nat>, ids: seq<nat>): int
    requires |rep| == |h|
  {
    if ids == [] then 0
    else (if ids[0] < |rep| then 5 + 5 * Climb(rep, h, ids[0]) else 0) + Budget(rep, h, ids[1..])
  }

  ghost function Left(rep: seq<nat>, h: seq<nat>, f: Finder): int
    requires |rep| == |h| && |f.answers| <= |f.ids| && (f.pc.Ready? || |f.answers| < |f.ids|)
  {
    if f.pc.Ready? then Budget(rep, h, f.ids[|f.answers|..])
    else Rank(rep, h, f.pc) + 1 + Budget(rep, h, f.ids[|f.answers| + 1..])
  }

  predicate Answered(f: Finder) {
    f.pc.Ready? && |f.answers| == |f.ids|
  }

  lemma StepUsesBudget(m: Mem, rep: seq<nat>, h: seq<nat>, f: Finder)
    requires IsForest(m.parent, rep, h) && |m.size| == |m.parent| && FinderOk(m.parent, rep, f)
    requires FinderOk(FinderStep(m, f).0.parent, rep, FinderStep(m, f).1)
    ensures Answered(f) ==> FinderStep(m, f).1 == f
    ensures !Answered(f) ==> Left(rep, h, FinderStep(m, f).1) < Left(rep, h, f)
  {
    var rest := f.ids[|f.answers|..];
    if |f.answers| < |f.ids| {
      assert rest[0] == f.ids[|f.answers|] && rest[1..] == f.ids[|f.answers| + 1..];
      if !f.pc.Ready? && !f.pc.Found? {
        AccessKeepsForest(m, rep, h, f.pc, f.ids[|f.answers|]);
        AccessLowersRank(m, rep, h, f.pc, f.ids[|f.answers|]);
      }
    }
  }

  lemma {:induction false} BudgetIsNat(p: seq<nat>, rep: seq<nat>, h: seq<nat>, ids: seq<nat>)
    requires IsForest(p, rep, h) && forall i :: 0 <= i < |ids| ==> ids[i] < |p|
    ensures Budget(rep, h, ids) >= 0
    ensures ids != [] ==> Budget(rep, h, ids) > 0
  {
    if ids != [] {
      assert NodeOk(p, rep, h, ids[0]);
      BudgetIsNat(p, rep, h, ids[1..]);
    }
  }

  lemma {:induction false} TurnsUseBudget(m: Mem, rep: seq<nat>, h: seq<nat>, jobs: seq<seq<nat>>, schedule: seq<nat>, k: nat)
    requires IsForest(m.parent, rep, h) && |m.size| == |m.parent| && IdsInRange(jobs, |m.parent|) && k < |jobs|
    ensures var w := Interleave(Begin(m, jobs), schedule);
      |w.finders| == |jobs| && Inv(w, rep, h)
      && (Answered(w.finders[k]) || Left(rep, h, w.finders[k]) <= Budget(rep, h, jobs[k]) - Turns(schedule, k))
  {
    FindsInterleave(m, rep, h, jobs, schedule);
    if schedule == [] {
      assert jobs[k][0..] == jobs[k];
    } else {
      var before, j := schedule[..|schedule| - 1], schedule[|schedule| - 1];
      TurnsUseBudget(m, rep, h, jobs, before, k);
      FindsInterleave(m, rep, h, jobs, before);
      var w := Interleave(Begin(m, jobs), before);
      if j == k {
        StepKeepsFinder(w.mem, rep, h, w.finders[k]);
        StepUsesBudget(w.mem, rep, h, w.finders[k]);
      }
    }
  }

  /** A thread that gets as many steps as its ids need is done, however the others run, and its answers are the
    representatives of its ids. */
  lemma FindsEnd(m: Mem, rep: seq<nat>, h: seq<nat>, jobs: seq<seq<nat>>, schedule: seq<nat>, k: nat)
    requires IsForest(m.parent, rep, h) && |m.size| == |m.parent| && IdsInRange(jobs, |m.parent|) && k < |jobs|
    requires Turns(schedule, k) >= Budget(rep, h, jobs[k])
    ensures var w := Interleave(Begin(m, jobs), schedule);
      && |w.finders| == |jobs| && Answered(w.finders[k]) && |w.finders[k].answers| == |jobs[k]|
      && forall i :: 0 <= i < |jobs[k]| ==> jobs[k][i] < |rep| && w.finders[k].answers[i] == rep[jobs[k][i]]
  {
    FindsInterleave(m, rep, h, jobs, schedule);
    TurnsUseBudget(m, rep, h, jobs, schedule, k);
    var w := Interleave(Begin(m, jobs), schedule);
    var f := w.finders[k];
    assert FinderOk(w.mem.parent, rep, f);
    if !Answered(f) {
      LeftIsPositive(w.mem, rep, h, f);
      assert false;
    }
  }

  lemma LeftIsPositive(m: Mem, rep: seq<nat>, h: seq<nat>, f: Finder)
    requires IsForest(m.parent, rep, h) && |m.size| == |m.parent| && FinderOk(m.parent, rep, f) && !Answered(f)
    ensures Left(rep, h, f) > 0
  {
    if f.pc.Ready? {
      BudgetIsNat(m.parent, rep, h, f.ids[|f.answers|..]);
    } else {
      BudgetIsNat(m.parent, rep, h, f.ids[|f.answers| + 1..]);
      if !f.pc.Found? {
        AccessKeepsForest(m, rep, h, f.pc, f.ids[|f.answers|]);
        AccessLowersRank(m, rep, h, f.pc, f.ids[|f.answers|]);
      }
    }
  }
}
